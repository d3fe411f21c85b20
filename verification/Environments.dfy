/** The environments of a shared collection: the keyed merge of variables, and the list that
    upserts and deletes rewrite. */
module Environments {
  import opened Wrappers
  import opened Text
  import opened Sequences

  datatype Variable = Variable(key: string, value: string, enabled: bool, secret: bool)

  datatype Environment = Environment(id: string, name: string, private: bool, variables: seq<Variable>)

  /** The last position where `p` holds, or -1. */
  function LastIndex<T>(s: seq<T>, p: T -> bool): (i: int)
    ensures -1 <= i < |s|
    ensures i >= 0 ==> p(s[i])
    ensures forall j :: i < j < |s| ==> !p(s[j])
  {
    if s == [] then -1 else if p(s[|s| - 1]) then |s| - 1 else LastIndex(s[..|s| - 1], p)
  }

  lemma LastIndexIs<T>(s: seq<T>, p: T -> bool, i: int)
    requires -1 <= i < |s| && (i >= 0 ==> p(s[i])) && forall j :: i < j < |s| ==> !p(s[j])
    ensures LastIndex(s, p) == i
  {
  }

  // ----- merging variables

  function HasKey(key: string): Variable -> bool { (v: Variable) => v.key == key }

  function Put(variables: seq<Variable>, v: Variable): seq<Variable> {
    var i := LastIndex(variables, HasKey(v.key));
    if i >= 0 then variables[i := v] else variables + [v]
  }

  function Merge(current: seq<Variable>, updates: seq<Variable>): seq<Variable>
    decreases |updates|
  {
    if updates == [] then current else Merge(Put(current, updates[0]), updates[1..])
  }

  /** `indexes` remembers the last position of every key. */
  ghost predicate Indexed(indexes: map<string, nat>, merged: seq<Variable>) {
    forall key ::
      var i := LastIndex(merged, HasKey(key));
      (key in indexes <==> i >= 0) && (key in indexes ==> indexes[key] == i)
  }

  lemma IndexAppended(indexes: map<string, nat>, merged: seq<Variable>, v: Variable)
    requires Indexed(indexes, merged)
    ensures Indexed(indexes[v.key := |merged|], merged + [v])
  {
    forall key
      ensures LastIndex(merged + [v], HasKey(key)) == if key == v.key then |merged| else LastIndex(merged, HasKey(key))
    {
      assert (merged + [v])[..|merged|] == merged;
    }
  }

  lemma IndexReplaced(indexes: map<string, nat>, merged: seq<Variable>, v: Variable)
    requires Indexed(indexes, merged)
    ensures v.key in indexes <==> LastIndex(merged, HasKey(v.key)) >= 0
    ensures v.key in indexes ==>
              && indexes[v.key] < |merged| && Put(merged, v) == merged[indexes[v.key] := v]
              && Indexed(indexes, merged[indexes[v.key] := v])
  {
    var i := LastIndex(merged, HasKey(v.key));
    if i >= 0 {
      forall key
        ensures LastIndex(merged[i := v], HasKey(key)) == LastIndex(merged, HasKey(key))
      {
        LastIndexIs(merged[i := v], HasKey(key), LastIndex(merged, HasKey(key)));
      }
    }
  }

  lemma MergeStep(merged: seq<Variable>, updates: seq<Variable>, i: nat)
    requires i < |updates|
    ensures Merge(merged, updates[i..]) == Merge(Put(merged, updates[i]), updates[i + 1..])
  {
    assert updates[i..][1..] == updates[i + 1..];
  }

  method MergeVariables(current: seq<Variable>, updates: seq<Variable>) returns (merged: seq<Variable>)
    ensures merged == Merge(current, updates)
  {
    merged := current;
    var indexes: map<string, nat> := map[];
    for i := 0 to |merged|
      invariant merged == current && Indexed(indexes, merged[..i])
    {
      IndexAppended(indexes, merged[..i], merged[i]);
      assert merged[..i + 1] == merged[..i] + [merged[i]];
      indexes := indexes[merged[i].key := i];
    }
    assert merged[..|merged|] == merged;
    for i := 0 to |updates|
      invariant Indexed(indexes, merged)
      invariant Merge(merged, updates[i..]) == Merge(current, updates)
    {
      var variable := updates[i];
      MergeStep(merged, updates, i);
      IndexReplaced(indexes, merged, variable);
      if variable.key in indexes {
        merged := merged[indexes[variable.key] := variable];
        continue;
      }
      IndexAppended(indexes, merged, variable);
      indexes := indexes[variable.key := |merged|];
      merged := merged + [variable];
    }
  }

  ghost predicate UniqueKeys(s: seq<Variable>) {
    forall i, j :: 0 <= i < j < |s| ==> s[i].key != s[j].key
  }

  lemma {:induction false} MergeAppend(a: seq<Variable>, b: seq<Variable>, c: seq<Variable>)
    ensures Merge(a, b + c) == Merge(Merge(a, b), c)
    decreases |b|
  {
    if b == [] {
      assert b + c == c;
    } else {
      assert (b + c)[1..] == b[1..] + c;
      MergeAppend(Put(a, b[0]), b[1..], c);
    }
  }

  lemma PutTwice(s: seq<Variable>, v: Variable, w: Variable)
    requires v.key == w.key
    ensures Put(Put(s, w), v) == Put(s, v) && LastIndex(Put(s, w), HasKey(v.key)) >= 0
  {
    var i := LastIndex(s, HasKey(v.key));
    LastIndexIs(Put(s, w), HasKey(v.key), if i >= 0 then i else |s|);
  }

  lemma PutCommutes(s: seq<Variable>, v: Variable, w: Variable)
    requires v.key != w.key && LastIndex(s, HasKey(v.key)) >= 0
    ensures Put(Put(s, w), v) == Put(Put(s, v), w) && LastIndex(Put(s, w), HasKey(v.key)) >= 0
  {
    var i := LastIndex(s, HasKey(v.key));
    LastIndexIs(Put(s, w), HasKey(v.key), i);
    LastIndexIs(Put(s, v), HasKey(w.key), LastIndex(s, HasKey(w.key)));
  }

  /** Writing a variable that is there may wait until after a merge that does not touch it. */
  lemma {:induction false} PutAfterMerge(s: seq<Variable>, updates: seq<Variable>, v: Variable)
    requires LastIndex(s, HasKey(v.key)) >= 0 && LastIndex(updates, HasKey(v.key)) < 0
    ensures Put(Merge(s, updates), v) == Merge(Put(s, v), updates)
    decreases |updates|
  {
    if updates != [] {
      assert updates[0].key != v.key;
      LastIndexIs(updates[1..], HasKey(v.key), -1);
      PutCommutes(s, v, updates[0]);
      PutAfterMerge(Put(s, updates[0]), updates[1..], v);
    }
  }

  lemma MergeAround(a: seq<Variable>, before: seq<Variable>, w: Variable, after: seq<Variable>)
    ensures Merge(a, before + [w] + after) == Merge(Put(Merge(a, before), w), after)
  {
    assert before + [w] + after == before + ([w] + after);
    MergeAppend(a, before, [w] + after);
    assert ([w] + after)[1..] == after;
  }

  /** Writing a variable into the updates is writing it into the merged list. */
  lemma MergePut(a: seq<Variable>, b: seq<Variable>, v: Variable)
    ensures Merge(a, Put(b, v)) == Put(Merge(a, b), v)
  {
    var i := LastIndex(b, HasKey(v.key));
    if i < 0 {
      MergeAppend(a, b, [v]);
      MergeOne(Merge(a, b), v);
    } else {
      var before, w, after := b[..i], b[i], b[i + 1..];
      assert b == before + [w] + after && b[i := v] == before + [v] + after;
      MergeAround(a, before, w, after);
      MergeAround(a, before, v, after);
      LastIndexIs(after, HasKey(v.key), -1);
      PutTwice(Merge(a, before), v, w);
      PutAfterMerge(Put(Merge(a, before), w), after, v);
    }
  }

  lemma MergeOne(a: seq<Variable>, v: Variable)
    ensures Merge(a, [v]) == Put(a, v)
  {
    assert Merge(Put(a, v), [v][1..]) == Put(a, v);
  }

  /** Merging is associative, on lists with repeated keys too. */
  lemma {:induction false} MergeIsAssociative(a: seq<Variable>, b: seq<Variable>, c: seq<Variable>)
    ensures Merge(Merge(a, b), c) == Merge(a, Merge(b, c))
    decreases |c|
  {
    if c != [] {
      var init, v := c[..|c| - 1], c[|c| - 1];
      assert c == init + [v];
      MergeIsAssociative(a, b, init);
      MergeAppend(Merge(a, b), init, [v]);
      MergeAppend(b, init, [v]);
      MergeOne(Merge(Merge(a, b), init), v);
      MergeOne(Merge(b, init), v);
      MergePut(a, Merge(b, init), v);
    }
  }

  function NewTo(a: seq<Variable>): Variable -> bool { (v: Variable) => LastIndex(a, HasKey(v.key)) < 0 }

  /** What the list holds under a key. */
  function Lookup(s: seq<Variable>, key: string): Option<Variable> {
    var i := LastIndex(s, HasKey(key));
    if i >= 0 then Some(s[i]) else None
  }

  lemma LookupPut(s: seq<Variable>, v: Variable, key: string)
    ensures Lookup(Put(s, v), key) == if key == v.key then Some(v) else Lookup(s, key)
  {
    var i := LastIndex(s, HasKey(v.key));
    if key == v.key {
      LastIndexIs(Put(s, v), HasKey(key), if i >= 0 then i else |s|);
    } else {
      LastIndexIs(Put(s, v), HasKey(key), LastIndex(s, HasKey(key)));
    }
  }

  lemma LookupRest(b: seq<Variable>, key: string)
    requires b != []
    ensures Lookup(b, key) ==
              if Lookup(b[1..], key).Some? then Lookup(b[1..], key) else if b[0].key == key then Some(b[0]) else None
  {
    var rest := b[1..];
    var i := LastIndex(rest, HasKey(key));
    assert forall j :: 1 <= j < |b| ==> b[j] == rest[j - 1];
    LastIndexIs(b, HasKey(key), if i >= 0 then i + 1 else if b[0].key == key then 0 else -1);
  }

  /** An update wins over the current value; every other key keeps its value. */
  lemma {:induction false} UpdatesWin(a: seq<Variable>, b: seq<Variable>, key: string)
    ensures Lookup(Merge(a, b), key) == if Lookup(b, key).Some? then Lookup(b, key) else Lookup(a, key)
    decreases |b|
  {
    if b != [] {
      UpdatesWin(Put(a, b[0]), b[1..], key);
      LookupPut(a, b[0], key);
      LookupRest(b, key);
    }
  }

  /** The old variables keep their places, and their values where no update names them. */
  lemma {:induction false} MergeKeepsPlaces(a: seq<Variable>, b: seq<Variable>)
    ensures |a| <= |Merge(a, b)|
    ensures forall i :: 0 <= i < |a| ==>
                          && Merge(a, b)[i].key == a[i].key
                          && (LastIndex(b, HasKey(a[i].key)) < 0 ==> Merge(a, b)[i] == a[i])
    decreases |b|
  {
    if b != [] {
      var p := Put(a, b[0]);
      MergeKeepsPlaces(p, b[1..]);
      forall i | 0 <= i < |a| && LastIndex(b, HasKey(a[i].key)) < 0
        ensures LastIndex(b[1..], HasKey(a[i].key)) < 0 && p[i] == a[i]
      {
        assert b[0].key != a[i].key;
        LastIndexIs(b[1..], HasKey(a[i].key), -1);
      }
    }
  }

  lemma {:induction false} MergeKeepsUnique(a: seq<Variable>, b: seq<Variable>)
    requires UniqueKeys(a)
    ensures UniqueKeys(Merge(a, b))
    decreases |b|
  {
    if b != [] {
      assert UniqueKeys(Put(a, b[0])) by {
        assert forall j :: 0 <= j < |a| && LastIndex(a, HasKey(b[0].key)) < j ==> a[j].key != b[0].key;
      }
      MergeKeepsUnique(Put(a, b[0]), b[1..]);
    }
  }

  /** The new variables follow in the order of the updates. */
  lemma {:induction false} MergeAppendsTheNew(a: seq<Variable>, b: seq<Variable>)
    requires UniqueKeys(b)
    ensures |a| <= |Merge(a, b)| && Merge(a, b)[|a|..] == Filter(b, NewTo(a))
    decreases |b|
  {
    if b != [] {
      var v, rest := b[0], b[1..];
      RestHasOtherKeys(b);
      NewAfterPut(a, v, rest);
      MergeAppendsTheNew(Put(a, v), rest);
      if NewTo(a)(v) {
        LastIndexIs(rest, HasKey(v.key), -1);
        MergeKeepsPlaces(a + [v], rest);
        LastIndexIs(a + [v], HasKey(v.key), |a|);
        FromLast(Merge(a, b), |a|);
      }
    }
  }

  lemma FromLast(s: seq<Variable>, n: nat)
    requires n < |s|
    ensures s[n..] == [s[n]] + s[n + 1..]
  {
  }

  lemma RestHasOtherKeys(b: seq<Variable>)
    requires b != [] && UniqueKeys(b)
    ensures UniqueKeys(b[1..]) && forall k :: 0 <= k < |b[1..]| ==> b[1..][k].key != b[0].key
  {
  }

  lemma {:induction false} NewAfterPut(a: seq<Variable>, v: Variable, rest: seq<Variable>)
    requires forall k :: 0 <= k < |rest| ==> rest[k].key != v.key
    ensures Filter(rest, NewTo(Put(a, v))) == Filter(rest, NewTo(a))
  {
    if rest != [] {
      LookupPut(a, v, rest[0].key);
      NewAfterPut(a, v, rest[1..]);
    }
  }

  /** The empty list changes nothing on either side. */
  lemma MergeWithNothing(a: seq<Variable>)
    requires UniqueKeys(a)
    ensures Merge(a, []) == a && Merge([], a) == a && Merge(a, a) == a
  {
    MergeAppendsTheNew([], a);
    FilterAll(a, NewTo([]));
    MergeWithItself(a, a);
  }

  lemma {:induction false} MergeWithItself(a: seq<Variable>, part: seq<Variable>)
    requires UniqueKeys(a) && forall v <- part :: v in a
    ensures Merge(a, part) == a
    decreases |part|
  {
    if part != [] {
      assert part[0] in a;
      var i :| 0 <= i < |a| && a[i] == part[0];
      LastIndexIs(a, HasKey(part[0].key), i);
      assert a[i := part[0]] == a;
      MergeWithItself(a, part[1..]);
    }
  }

  // ----- validation

  predicate IsAlphanumeric(c: char) { 'A' <= c <= 'Z' || 'a' <= c <= 'z' || '0' <= c <= '9' }

  predicate ValidName(name: string) {
    && 1 <= |name| <= 128 && IsAlphanumeric(name[0])
    && forall i :: 1 <= i < |name| ==> IsAlphanumeric(name[i]) || name[i] in {'.', '_', '-'}
  }

  function TrimKeys(s: seq<Variable>): (r: seq<Variable>)
    ensures |r| == |s| && forall i :: 0 <= i < |s| ==> r[i] == s[i].(key := Trim(s[i].key))
  {
    if s == [] then [] else TrimKeys(s[..|s| - 1]) + [s[|s| - 1].(key := Trim(s[|s| - 1].key))]
  }

  /** The environment an upsert works with. */
  function Normalised(e: Environment): Environment {
    e.(id := Trim(e.id), name := Trim(e.name), variables := TrimKeys(e.variables))
  }

  ghost predicate Acceptable(e: Environment) {
    ValidName(e.name) && !e.private && AcceptableVariables(e.variables)
  }

  /** The loop writes the trimmed keys back while it checks them. */
  method ValidateEnvironment(given: Environment) returns (valid: bool, environment: Environment)
    ensures valid <==> Acceptable(given.(variables := TrimKeys(given.variables)))
    ensures valid ==> environment == given.(variables := TrimKeys(given.variables))
  {
    environment := given;
    if !ValidName(given.name) || given.private {
      return false, environment;
    }
    var variables, ok := ValidateVariables(given.variables);
    return ok, environment.(variables := variables);
  }

  ghost predicate AcceptableVariables(s: seq<Variable>) {
    UniqueKeys(s) && forall i :: 0 <= i < |s| ==> s[i].key != "" && ByteLength(s[i].key) <= 256
  }

  lemma OneMoreVariable(s: seq<Variable>, i: nat)
    requires i < |s|
    ensures AcceptableVariables(s[..i + 1]) <==>
              && AcceptableVariables(s[..i]) && s[i].key != "" && ByteLength(s[i].key) <= 256
              && forall j :: 0 <= j < i ==> s[j].key != s[i].key
    ensures AcceptableVariables(s) ==> AcceptableVariables(s[..i + 1])
  {
    var one := s[..i + 1];
    assert one[i] == s[i] && forall j :: 0 <= j < i ==> s[..i][j] == s[j] == one[j];
  }

  method ValidateVariables(given: seq<Variable>) returns (variables: seq<Variable>, ok: bool)
    ensures ok <==> AcceptableVariables(TrimKeys(given))
    ensures ok ==> variables == TrimKeys(given)
  {
    ghost var trimmed := TrimKeys(given);
    variables := given;
    var seen: set<string> := {};
    for i := 0 to |variables|
      invariant |variables| == |given|
      invariant forall j :: 0 <= j < i ==> variables[j] == trimmed[j]
      invariant forall j :: i <= j < |given| ==> variables[j] == given[j]
      invariant forall key :: key in seen <==> exists j :: 0 <= j < i && trimmed[j].key == key
      invariant AcceptableVariables(trimmed[..i])
    {
      var key := Trim(variables[i].key);
      variables := variables[i := variables[i].(key := key)];
      OneMoreVariable(trimmed, i);
      if key == "" || ByteLength(key) > 256 || key in seen {
        return variables, false;
      }
      seen := seen + {key};
    }
    assert trimmed[..|given|] == trimmed && variables == trimmed;
    ok := true;
  }

  // ----- the list of environments

  function HasId(id: string): Environment -> bool { (e: Environment) => id != "" && e.id == id }

  function HasName(name: string): Environment -> bool { (e: Environment) => e.name == name }

  function OtherName(name: string): Environment -> bool { (e: Environment) => e.name != name }

  /** A private or unnamed environment is never written to the folder. */
  function Shared(): Environment -> bool { (e: Environment) => !e.private && !Blank(e.name) }

  datatype Place = At(index: nat) | Missing | DifferentEnvironments | DifferentId

  method FindEnvironment(environments: seq<Environment>, target: Environment) returns (place: Place)
    ensures place == Find(environments, target)
  {
    var byId, byName := -1, -1;
    for i := 0 to |environments|
      invariant byId == LastIndex(environments[..i], HasId(target.id))
      invariant byName == LastIndex(environments[..i], HasName(target.name))
    {
      assert environments[..i + 1][..i] == environments[..i];
      if target.id != "" && environments[i].id == target.id {
        byId := i;
      }
      if environments[i].name == target.name {
        byName := i;
      }
    }
    assert environments[..|environments|] == environments;
    if byId >= 0 && byName >= 0 && byId != byName {
      return DifferentEnvironments;
    }
    if byId >= 0 {
      return At(byId);
    }
    if byName >= 0 {
      if target.id != "" {
        return DifferentId;
      }
      return At(byName);
    }
    return Missing;
  }

  function Find(environments: seq<Environment>, target: Environment): (place: Place)
    ensures place.At? ==> place.index < |environments|
  {
    var byId, byName := LastIndex(environments, HasId(target.id)), LastIndex(environments, HasName(target.name));
    if byId >= 0 && byName >= 0 && byId != byName then DifferentEnvironments
    else if byId >= 0 then At(byId)
    else if byName < 0 then Missing
    else if target.id != "" then DifferentId
    else At(byName)
  }

  function DerivedId(name: string, hash: string -> string): string { "env-" + hash(name) }

  function Entry(environments: seq<Environment>, e: Environment, merge: bool, hash: string -> string): Environment {
    var place := Find(environments, e);
    if !place.At? then e.(id := if e.id == "" then DerivedId(e.name, hash) else e.id)
    else
      var current := environments[place.index];
      e.(id := current.id, variables := if merge then Merge(current.variables, e.variables) else e.variables)
  }

  /** The list before it is written. */
  function Placed(environments: seq<Environment>, e: Environment, entry: Environment): seq<Environment> {
    var place := Find(environments, e);
    if place.At? then environments[place.index := entry] else environments + [entry]
  }

  /** What the folder holds after an upsert, or None where it is refused. */
  ghost function Upserted(environments: seq<Environment>, given: Environment, merge: bool, hash: string -> string): Option<seq<Environment>> {
    var e := Normalised(given);
    if !Acceptable(e) || Find(environments, e).DifferentEnvironments? || Find(environments, e).DifferentId? then None
    else Some(Filter(Placed(environments, e, Entry(environments, e, merge, hash)), Shared()))
  }

  function Deleted(environments: seq<Environment>, given: string): Option<seq<Environment>> {
    var name := Trim(given);
    if name == "" || LastIndex(environments, HasName(name)) < 0 then None
    else Some(Filter(Filter(environments, OtherName(name)), Shared()))
  }

  function OrElse<T>(o: Option<T>, otherwise: T): T { if o.Some? then o.value else otherwise }

  class Folder {
    var environments: seq<Environment>

    constructor (environments: seq<Environment>)
      ensures this.environments == environments
    {
      this.environments := environments;
    }

    method Upsert(given: Environment, merge: bool, hash: string -> string) returns (ok: bool, created: bool, id: string)
      modifies this
      ensures ok <==> Upserted(old(environments), given, merge, hash).Some?
      ensures environments == OrElse(Upserted(old(environments), given, merge, hash), old(environments))
      ensures ok ==> created == Find(old(environments), Normalised(given)).Missing?
      ensures ok ==> id == Entry(old(environments), Normalised(given), merge, hash).id
    {
      var trimmed := given.(name := Trim(given.name), id := Trim(given.id));
      var valid, environment := ValidateEnvironment(trimmed);
      if !valid {
        return false, false, "";
      }
      var place := FindEnvironment(environments, environment);
      if place.DifferentEnvironments? || place.DifferentId? {
        return false, false, "";
      }
      created := place.Missing?;
      var list := environments;
      if created {
        if environment.id == "" {
          environment := environment.(id := "env-" + hash(environment.name));
        }
        list := list + [environment];
      } else {
        var current := list[place.index];
        environment := environment.(id := current.id);
        if merge {
          var variables := MergeVariables(current.variables, environment.variables);
          environment := environment.(variables := variables);
        }
        list := list[place.index := environment];
      }
      environments := Filter(list, Shared());
      return true, created, environment.id;
    }

    method Delete(given: string) returns (ok: bool)
      modifies this
      ensures ok <==> Deleted(old(environments), given).Some?
      ensures environments == OrElse(Deleted(old(environments), given), old(environments))
    {
      var name := Trim(given);
      if name == "" {
        return false;
      }
      var kept, found := Without(environments, name);
      if !found {
        return false;
      }
      environments := Filter(kept, Shared());
      return true;
    }
  }

  method Without(environments: seq<Environment>, name: string) returns (kept: seq<Environment>, found: bool)
    ensures kept == Filter(environments, OtherName(name))
    ensures found <==> LastIndex(environments, HasName(name)) >= 0
  {
    kept, found := [], false;
    for i := 0 to |environments|
      invariant found <==> exists j :: 0 <= j < i && environments[j].name == name
      invariant kept == Filter(environments[..i], OtherName(name))
    {
      assert environments[..i + 1] == environments[..i] + [environments[i]];
      FilterAppend(environments[..i], [environments[i]], OtherName(name));
      assert [environments[i]][1..] == [];
      if environments[i].name == name {
        found := true;
        continue;
      }
      kept := kept + [environments[i]];
    }
    assert environments[..|environments|] == environments;
  }

  // ----- names

  ghost predicate UniqueNames(s: seq<Environment>) {
    forall i, j :: 0 <= i < j < |s| ==> s[i].name != s[j].name
  }

  ghost predicate UniqueIds(s: seq<Environment>) {
    forall i, j :: 0 <= i < j < |s| ==> s[i].id != s[j].id
  }

  lemma {:induction false} FilterKeepsUnique(s: seq<Environment>, p: Environment -> bool)
    ensures UniqueNames(s) ==> UniqueNames(Filter(s, p))
    ensures UniqueIds(s) ==> UniqueIds(Filter(s, p))
  {
    if s != [] {
      FilterKeepsUnique(s[1..], p);
      FilterElements(s[1..], p);
      var rest := Filter(s[1..], p);
      forall i | 0 <= i < |rest|
        ensures exists k :: 1 <= k < |s| && s[k] == rest[i]
      {
        assert rest[i] in s[1..];
        var k :| 0 <= k < |s[1..]| && s[1..][k] == rest[i];
        assert s[k + 1] == rest[i];
      }
      if p(s[0]) {
        assert Filter(s, p) == [s[0]] + rest;
      }
    }
  }

  lemma PlacedKeepsNames(environments: seq<Environment>, e: Environment, entry: Environment)
    requires UniqueNames(environments) && entry.name == e.name
    requires Find(environments, e).At? || Find(environments, e).Missing?
    ensures UniqueNames(Placed(environments, e, entry))
  {
  }

  lemma OthersPlaced(environments: seq<Environment>, e: Environment, entry: Environment)
    requires UniqueNames(environments) && entry.name == e.name
    ensures forall x: Environment | x.name != e.name ::
              x in Placed(environments, e, entry) <==>
              x in environments && !(Find(environments, e).At? && x == environments[Find(environments, e).index])
  {
    var place := Find(environments, e);
    if place.At? {
      forall x: Environment | x.name != e.name
        ensures x in environments[place.index := entry] <==> x in environments && x != environments[place.index]
      {
        if x in environments && x != environments[place.index] {
          var k :| 0 <= k < |environments| && environments[k] == x;
          assert environments[place.index := entry][k] == x;
        }
      }
    }
  }

  /** Names stay unique, the result holds the new content under its name, and nothing else is lost
      or added but the environment it takes the place of. */
  lemma UpsertKeepsNames(environments: seq<Environment>, given: Environment, merge: bool, hash: string -> string)
    requires UniqueNames(environments) && Upserted(environments, given, merge, hash).Some?
    ensures var after := Upserted(environments, given, merge, hash).value;
      && UniqueNames(after)
      && Entry(environments, Normalised(given), merge, hash) in after
      && var place := Find(environments, Normalised(given));
      forall x: Environment | x.name != Trim(given.name) ::
        x in after <==> x in environments && Shared()(x) && !(place.At? && x == environments[place.index])
  {
    var e := Normalised(given);
    var entry := Entry(environments, e, merge, hash);
    var s := Placed(environments, e, entry);
    OthersPlaced(environments, e, entry);
    PlacedKeepsNames(environments, e, entry);
    FilterKeepsUnique(s, Shared());
    FilterElements(s, Shared());
    assert entry in s by { assert s[if Find(environments, e).At? then Find(environments, e).index else |environments|] == entry; }
    assert IsAlphanumeric(entry.name[0]) && !IsSpace(entry.name[0]) && entry.name[0] in entry.name;
  }

  lemma DeleteKeepsNames(environments: seq<Environment>, name: string)
    requires UniqueNames(environments) && Deleted(environments, name).Some?
    ensures var after := Deleted(environments, name).value;
      UniqueNames(after) && forall x :: x in after <==> x in environments && x.name != Trim(name) && Shared()(x)
  {
    FilterKeepsUnique(environments, OtherName(Trim(name)));
    FilterKeepsUnique(Filter(environments, OtherName(Trim(name))), Shared());
    FilterElements(environments, OtherName(Trim(name)));
    FilterElements(Filter(environments, OtherName(Trim(name))), Shared());
  }

  datatype Command = Upsert(environment: Environment, merge: bool) | Delete(name: string)

  ghost function Run(environments: seq<Environment>, commands: seq<Command>, hash: string -> string): seq<Environment>
    decreases |commands|
  {
    if commands == [] then environments
    else
      var next := match commands[0]
        case Upsert(e, merge) => OrElse(Upserted(environments, e, merge, hash), environments)
        case Delete(name) => OrElse(Deleted(environments, name), environments);
      Run(next, commands[1..], hash)
  }

  lemma {:induction false} NamesStayUnique(environments: seq<Environment>, commands: seq<Command>, hash: string -> string)
    requires UniqueNames(environments)
    ensures UniqueNames(Run(environments, commands, hash))
    decreases |commands|
  {
    if commands != [] {
      match commands[0] {
        case Upsert(e, merge) =>
          if Upserted(environments, e, merge, hash).Some? {
            UpsertKeepsNames(environments, e, merge, hash);
          }
          NamesStayUnique(OrElse(Upserted(environments, e, merge, hash), environments), commands[1..], hash);
        case Delete(name) =>
          if Deleted(environments, name).Some? {
            DeleteKeepsNames(environments, name);
          }
          NamesStayUnique(OrElse(Deleted(environments, name), environments), commands[1..], hash);
      }
    }
  }

  // ----- doing it twice

  lemma SharedPart(s: seq<Environment>, i: nat)
    requires i < |s| && Shared()(s[i])
    ensures Filter(s, Shared()) == Filter(s[..i], Shared()) + [s[i]] + Filter(s[i + 1..], Shared())
  {
    assert s == s[..i] + ([s[i]] + s[i + 1..]);
    FilterAppend(s[..i], [s[i]] + s[i + 1..], Shared());
    FilterAppend([s[i]], s[i + 1..], Shared());
    FilterOne(s[i], Shared());
    ConcatAssociative(Filter(s[..i], Shared()), [s[i]], Filter(s[i + 1..], Shared()));
  }

  /** Where the environment just written is found again. */
  lemma FoundAgain(environments: seq<Environment>, e: Environment, entry: Environment)
    requires UniqueNames(environments) && (Find(environments, e).At? || Find(environments, e).Missing?)
    requires entry.name == e.name && Shared()(entry)
    requires if Find(environments, e).At? then entry.id == environments[Find(environments, e).index].id else e.id == "" || entry.id == e.id
    ensures var after := Filter(Placed(environments, e, entry), Shared());
      Find(after, e).At? && after[Find(after, e).index] == entry
  {
    var s := Placed(environments, e, entry);
    var place := Find(environments, e);
    var i := if place.At? then place.index else |environments|;
    SharedPart(s, i);
    PlacedKeepsNames(environments, e, entry);
    FilterElements(s[..i], Shared());
    FilterElements(s[i + 1..], Shared());
    var before, rest := Filter(s[..i], Shared()), Filter(s[i + 1..], Shared());
    var after := before + [entry] + rest;
    var k := |before|;
    forall j | 0 <= j < |after| && j != k
      ensures after[j].name != e.name
      ensures j > k && e.id != "" ==> after[j].id != e.id
    {
      if j < k {
        assert before[j] in s[..i];
      } else {
        assert rest[j - k - 1] in s[i + 1..];
      }
    }
    LastIndexIs(after, HasName(e.name), k);
    if e.id != "" {
      LastIndexIs(after, HasId(e.id), k);
    } else {
      LastIndexIs(after, HasId(e.id), -1);
    }
  }

  /** The same upsert again changes nothing, merging or not. */
  lemma UpsertTwice(environments: seq<Environment>, given: Environment, merge: bool, hash: string -> string)
    requires UniqueNames(environments) && Upserted(environments, given, merge, hash).Some?
    ensures var after := Upserted(environments, given, merge, hash).value;
      Upserted(after, given, merge, hash) == Some(after)
  {
    var e := Normalised(given);
    var entry := Entry(environments, e, merge, hash);
    assert IsAlphanumeric(entry.name[0]) && !IsSpace(entry.name[0]) && entry.name[0] in entry.name;
    var s := Placed(environments, e, entry);
    var after := Filter(s, Shared());
    FoundAgain(environments, e, entry);
    var place := Find(environments, e);
    if place.At? {
      MergeIsAssociative(environments[place.index].variables, e.variables, e.variables);
    }
    MergeWithNothing(e.variables);
    assert Entry(after, e, merge, hash) == entry;
    assert Placed(after, e, entry) == after;
    FilterElements(s, Shared());
    FilterAll(after, Shared());
  }

  // ----- ids

  /** The upsert creates an environment without a given id, and one that stays has its derived id. */
  ghost predicate DerivesTakenId(environments: seq<Environment>, given: Environment, hash: string -> string) {
    && Find(environments, Normalised(given)).Missing? && Trim(given.id) == ""
    && exists i :: 0 <= i < |environments| && Shared()(environments[i]) && environments[i].id == DerivedId(Trim(given.name), hash)
  }

  /** What the folder holds keeps its ids unique exactly when no derived id is taken. */
  lemma IdsStayUniqueIff(environments: seq<Environment>, given: Environment, merge: bool, hash: string -> string)
    requires UniqueIds(environments) && Upserted(environments, given, merge, hash).Some?
    ensures UniqueIds(Upserted(environments, given, merge, hash).value) <==> !DerivesTakenId(environments, given, hash)
  {
    var e := Normalised(given);
    var entry := Entry(environments, e, merge, hash);
    var s := Placed(environments, e, entry);
    if Find(environments, e).At? {
      assert forall i :: 0 <= i < |s| ==> s[i].id == environments[i].id;
      FilterKeepsUnique(s, Shared());
    } else {
      var kept := Filter(environments, Shared());
      assert IsAlphanumeric(entry.name[0]) && !IsSpace(entry.name[0]) && entry.name[0] in entry.name;
      FilterAppend(environments, [entry], Shared());
      FilterOne(entry, Shared());
      FilterKeepsUnique(environments, Shared());
      FilterElements(environments, Shared());
      UniqueWithOneMore(kept, entry);
      IdTaken(environments, entry.id);
      assert e.id != "" ==> forall i :: 0 <= i < |environments| ==> !HasId(e.id)(environments[i]);
    }
  }

  lemma UniqueWithOneMore(s: seq<Environment>, e: Environment)
    requires UniqueIds(s)
    ensures UniqueIds(s + [e]) <==> !exists i :: 0 <= i < |s| && s[i].id == e.id
  {
    if i :| 0 <= i < |s| && s[i].id == e.id {
      assert (s + [e])[i].id == (s + [e])[|s|].id;
    }
  }

  lemma IdTaken(environments: seq<Environment>, id: string)
    ensures var kept := Filter(environments, Shared());
      (exists i :: 0 <= i < |kept| && kept[i].id == id) <==>
      exists i :: 0 <= i < |environments| && Shared()(environments[i]) && environments[i].id == id
  {
    var kept := Filter(environments, Shared());
    FilterElements(environments, Shared());
    if i :| 0 <= i < |kept| && kept[i].id == id {
      assert kept[i] in kept;
      var k :| 0 <= k < |environments| && environments[k] == kept[i];
    }
    if i :| 0 <= i < |environments| && Shared()(environments[i]) && environments[i].id == id {
      assert environments[i] in kept;
      var k :| 0 <= k < |kept| && kept[k] == environments[i];
    }
  }

  lemma LastIndexOfOne<T>(x: T, p: T -> bool)
    ensures LastIndex([x], p) == if p(x) then 0 else -1
  {
    LastIndexIs([x], p, if p(x) then 0 else -1);
  }

  lemma OrdinaryName(name: string)
    requires name == "A" || name == "B"
    ensures Trim(name) == name && !Blank(name) && ValidName(name) && TrimKeys([]) == []
  {
    assert !IsSpace(name[0]) && name[0] in name;
    assert TrimLeft(name) == name && TrimRight(name) == name;
  }

  /** An environment nobody has, given without an id, is appended with a derived one. */
  lemma Creates(environments: seq<Environment>, name: string, hash: string -> string)
    requires name == "A" || name == "B"
    requires forall e <- environments :: Shared()(e) && e.name != name
    ensures Upserted(environments, Environment("", name, false, []), false, hash)
            == Some(environments + [Environment(DerivedId(name, hash), name, false, [])])
  {
    var e := Environment("", name, false, []);
    var entry := e.(id := DerivedId(name, hash));
    OrdinaryName(name);
    assert Trim("") == "";
    assert Normalised(e) == e && Acceptable(e);
    LastIndexIs(environments, HasId(""), -1);
    LastIndexIs(environments, HasName(name), -1);
    FilterAppend(environments, [entry], Shared());
    FilterAll(environments, Shared());
    FilterOne(entry, Shared());
  }

  lemma RenamedById(a: Environment, b: Environment, hash: string -> string)
    requires a == Environment(DerivedId("A", hash), "A", false, []) && b == a.(name := "B") && Trim(a.id) == a.id
    ensures Upserted([a], b, false, hash) == Some([b])
  {
    assert a.id[0] == 'e';
    OrdinaryName("B");
    LastIndexOfOne(a, HasId(b.id));
    LastIndexOfOne(a, HasName("B"));
    FilterOne(b, Shared());
    assert Normalised(b) == b && [a][0 := b] == [b];
  }

  lemma RefusedUnderItsId(a: Environment, b: Environment, hash: string -> string)
    requires a == Environment(DerivedId("A", hash), "A", false, []) && b == a.(name := "B") && Trim(a.id) == a.id
    ensures Upserted([b, a], b, false, hash).None?
  {
    assert a.id[0] == 'e';
    OrdinaryName("B");
    assert Normalised(b) == b;
    LastIndexIs([b, a], HasId(a.id), 1);
    LastIndexIs([b, a], HasName("B"), 0);
  }

  /** Rename an environment, then create one with the old name: both have the same id. The renamed
      one can then no longer be addressed by its own id and name. */
  lemma IdsCanRepeat(hash: string -> string)
    requires Trim(DerivedId("A", hash)) == DerivedId("A", hash)
    ensures
      var a, b := Environment(DerivedId("A", hash), "A", false, []), Environment(DerivedId("A", hash), "B", false, []);
      && Upserted([], a.(id := ""), false, hash) == Some([a])
      && Upserted([a], b, false, hash) == Some([b])
      && Upserted([b], a.(id := ""), false, hash) == Some([b, a])
      && Upserted([b, a], b, false, hash).None?
  {
    var a, b := Environment(DerivedId("A", hash), "A", false, []), Environment(DerivedId("A", hash), "B", false, []);
    assert a.id[0] == 'e' && [] + [a] == [a] && [b] + [a] == [b, a];
    OrdinaryName("B");
    Creates([], "A", hash);
    RenamedById(a, b, hash);
    Creates([b], "A", hash);
    RefusedUnderItsId(a, b, hash);
  }
}
