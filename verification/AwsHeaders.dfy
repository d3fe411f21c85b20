/** The canonical header block of an AWS version 4 signature. Header names come out of a map, so
    in an arbitrary order; lower-casing is a parameter. */
module AwsHeaders {
  import opened Text
  import opened StringOrder
  import opened AwsCanonical

  // ----- removing repetitions from a sorted slice, in place

  function Dedup(s: seq<string>): seq<string> {
    if s == [] then []
    else
      var d, x := Dedup(s[..|s| - 1]), s[|s| - 1];
      if d == [] || d[|d| - 1] != x then d + [x] else d
  }

  lemma DedupStep(s: seq<string>, i: nat)
    requires i < |s|
    ensures var d := Dedup(s[..i]); Dedup(s[..i + 1]) == if d == [] || d[|d| - 1] != s[i] then d + [s[i]] else d
  {
    assert s[..i + 1][..i] == s[..i];
  }

  /** `out := values[:0]` and appends to it: the kept values are written over the front of the array. */
  method UniqueStrings(values: array<string>) returns (n: nat)
    modifies values
    ensures n <= values.Length && values[..n] == Dedup(old(values[..]))
    ensures values[n..] == old(values[n..])
  {
    n := 0;
    ghost var before := values[..];
    for i := 0 to values.Length
      invariant n <= i && values[..n] == Dedup(before[..i])
      invariant forall k :: n <= k < values.Length ==> values[k] == before[k]
    {
      ghost var kept := values[..n];
      DedupStep(before, i);
      var value := values[i];
      if n == 0 || values[n - 1] != value {
        values[n] := value;
        n := n + 1;
        assert values[..n] == kept + [value];
      }
    }
    assert before[..values.Length] == before;
  }

  /** On a sorted slice every value survives exactly once. */
  lemma {:induction false} DedupSorted(s: seq<string>)
    requires Sorted(s)
    ensures Sorted(Dedup(s)) && Distinct(Dedup(s))
    ensures s != [] ==> Dedup(s) != [] && Dedup(s)[|Dedup(s)| - 1] == s[|s| - 1]
    ensures forall x :: x in Dedup(s) <==> x in s
  {
    if s != [] {
      var n := |s| - 1;
      var d := Dedup(s[..n]);
      DedupSorted(s[..n]);
      assert s == s[..n] + [s[n]];
      forall i | 0 <= i < |d|
        ensures Leq(d[i], s[n])
      {
        assert d[i] in s[..n];
      }
      if d == [] || d[|d| - 1] != s[n] {
        AppendGreater(d, s[n]);
      }
    }
  }

  lemma AppendGreater(d: seq<string>, x: string)
    requires Sorted(d) && Distinct(d) && (d != [] ==> d[|d| - 1] != x)
    requires forall i :: 0 <= i < |d| ==> Leq(d[i], x)
    ensures Sorted(d + [x]) && Distinct(d + [x])
  {
    forall i | 0 <= i < |d|
      ensures d[i] != x
    {
      LeqTotal(d[i], d[|d| - 1]);
    }
  }

  // ----- the header block

  type Headers = map<string, string>

  ghost predicate IsOrder(headers: Headers, order: seq<string>) {
    Distinct(order) && forall k :: k in order <==> k in headers
  }

  ghost predicate AllIn(headers: Headers, order: seq<string>) {
    forall i :: 0 <= i < |order| ==> order[i] in headers
  }

  function LowerNames(order: seq<string>, lower: string -> string): seq<string> { MapAll(order, lower) }

  /** Trimmed values by lower-case name; a later header overwrites an earlier one. */
  function LowerValues(headers: Headers, order: seq<string>, lower: string -> string): map<string, string>
    requires AllIn(headers, order)
  {
    if order == [] then map[]
    else
      var n := |order| - 1;
      LowerValues(headers, order[..n], lower)[lower(order[n]) := Trim(headers[order[n]])]
  }

  function Line(name: string, value: string): string { name + ":" + value + "\n" }

  function Block(names: seq<string>, values: map<string, string>): string {
    if names == [] then ""
    else
      var n := |names| - 1;
      Block(names[..n], values) + Line(names[n], if names[n] in values then values[names[n]] else "")
  }

  datatype Canonical = Canonical(block: string, signed: string)

  function NamesOf(order: seq<string>, lower: string -> string): seq<string> { Dedup(Sort(LowerNames(order, lower))) }

  /** What the program produces when the map yields its keys in this order. */
  function CanonicalFor(headers: Headers, order: seq<string>, lower: string -> string): Canonical
    requires AllIn(headers, order)
  {
    Canonical(Block(NamesOf(order, lower), LowerValues(headers, order, lower)), Join(NamesOf(order, lower), ';'))
  }

  ghost predicate IsCanonicalHeaders(headers: Headers, lower: string -> string, result: Canonical) {
    exists order :: IsOrder(headers, order) && AllIn(headers, order) && result == CanonicalFor(headers, order, lower)
  }

  method CanonicalHeaders(headers: Headers, lower: string -> string) returns (result: Canonical)
    ensures IsCanonicalHeaders(headers, lower, result)
  {
    var headerNames, lowerValues, order := CollectHeaders(headers, lower);
    var sorted := Sort(headerNames);
    var names := new string[|sorted|](i requires 0 <= i < |sorted| => sorted[i]);
    assert names[..] == sorted;
    var n := UniqueStrings(names);
    var block := WriteBlock(names[..n], lowerValues);
    result := Canonical(block, Join(names[..n], ';'));
  }

  method CollectHeaders(headers: Headers, lower: string -> string)
    returns (headerNames: seq<string>, lowerValues: map<string, string>, ghost order: seq<string>)
    ensures IsOrder(headers, order) && AllIn(headers, order)
    ensures headerNames == LowerNames(order, lower) && lowerValues == LowerValues(headers, order, lower)
  {
    headerNames, lowerValues, order := [], map[], [];
    var keys := headers.Keys;
    while keys != {}
      invariant keys <= headers.Keys && Distinct(order) && AllIn(headers, order)
      invariant forall k :: k in order <==> k in headers && k !in keys
      invariant headerNames == LowerNames(order, lower) && lowerValues == LowerValues(headers, order, lower)
      decreases keys
    {
      var key :| key in keys;
      ghost var longer := order + [key];
      assert longer[..|longer| - 1] == order;
      headerNames := headerNames + [lower(key)];
      lowerValues := lowerValues[lower(key) := Trim(headers[key])];
      order := longer;
      keys := keys - {key};
    }
  }

  method WriteBlock(names: seq<string>, values: map<string, string>) returns (block: string)
    ensures block == Block(names, values)
  {
    block := "";
    for i := 0 to |names|
      invariant block == Block(names[..i], values)
    {
      assert names[..i + 1][..i] == names[..i];
      block := block + Line(names[i], if names[i] in values then values[names[i]] else "");
    }
    assert names[..|names|] == names;
  }

  // ----- independence of the map order

  /** Headers whose names differ only in case carry the same value. */
  ghost predicate Consistent(headers: Headers, lower: string -> string) {
    forall k1, k2 :: k1 in headers && k2 in headers && lower(k1) == lower(k2) ==> Trim(headers[k1]) == Trim(headers[k2])
  }

  predicate NameAt(order: seq<string>, lower: string -> string, i: nat, l: string) { i < |order| && lower(order[i]) == l }

  ghost predicate HasName(order: seq<string>, lower: string -> string, l: string) {
    exists i: nat :: NameAt(order, lower, i, l)
  }

  lemma {:induction false} LowerNamesElements(order: seq<string>, lower: string -> string)
    ensures |LowerNames(order, lower)| == |order|
    ensures forall i :: 0 <= i < |order| ==> LowerNames(order, lower)[i] == lower(order[i])
  {
    if order != [] {
      LowerNamesElements(order[..|order| - 1], lower);
    }
  }

  lemma NamesElements(order: seq<string>, lower: string -> string)
    ensures var names := NamesOf(order, lower);
            Sorted(names) && Distinct(names) && forall l :: l in names <==> HasName(order, lower, l)
  {
    var raw := LowerNames(order, lower);
    LowerNamesElements(order, lower);
    SortSorts(raw);
    DedupSorted(Sort(raw));
    forall l
      ensures l in Sort(raw) <==> HasName(order, lower, l)
    {
      assert l in Sort(raw) <==> l in multiset(Sort(raw));
      assert l in raw <==> l in multiset(raw);
      if l in raw {
        var i :| 0 <= i < |raw| && raw[i] == l;
        assert NameAt(order, lower, i, l);
      }
    }
  }

  lemma SameNames(headers: Headers, o1: seq<string>, o2: seq<string>, lower: string -> string, l: string)
    requires IsOrder(headers, o1) && IsOrder(headers, o2) && HasName(o1, lower, l)
    ensures HasName(o2, lower, l)
  {
    var i: nat :| NameAt(o1, lower, i, l);
    assert o1[i] in o2;
    var j: nat :| j < |o2| && o2[j] == o1[i];
    assert NameAt(o2, lower, j, l);
  }

  lemma NamesDoNotDependOnOrder(headers: Headers, o1: seq<string>, o2: seq<string>, lower: string -> string)
    requires IsOrder(headers, o1) && IsOrder(headers, o2)
    ensures NamesOf(o1, lower) == NamesOf(o2, lower)
  {
    NamesElements(o1, lower);
    NamesElements(o2, lower);
    forall l
      ensures HasName(o1, lower, l) <==> HasName(o2, lower, l)
    {
      if HasName(o1, lower, l) {
        SameNames(headers, o1, o2, lower, l);
      }
      if HasName(o2, lower, l) {
        SameNames(headers, o2, o1, lower, l);
      }
    }
    SortedSetIsUnique(NamesOf(o1, lower), NamesOf(o2, lower));
  }

  /** Each value stems from a header of that lower-case name. */
  lemma {:induction false} LowerValuesStem(headers: Headers, order: seq<string>, lower: string -> string, l: string)
    requires AllIn(headers, order)
    ensures var values := LowerValues(headers, order, lower);
            && (l in values <==> HasName(order, lower, l))
            && (l in values ==> exists i: nat :: NameAt(order, lower, i, l) && values[l] == Trim(headers[order[i]]))
  {
    if order != [] {
      var n := |order| - 1;
      var init := order[..n];
      LowerValuesStem(headers, init, lower, l);
      if l == lower(order[n]) {
        assert NameAt(order, lower, n, l);
      } else {
        if l in LowerValues(headers, init, lower) {
          var i: nat :| NameAt(init, lower, i, l) && LowerValues(headers, init, lower)[l] == Trim(headers[init[i]]);
          assert NameAt(order, lower, i, l) && order[i] == init[i];
        }
        if HasName(order, lower, l) {
          var i: nat :| NameAt(order, lower, i, l);
          assert NameAt(init, lower, i, l);
        }
      }
    }
  }

  lemma ConsistentValues(headers: Headers, o1: seq<string>, o2: seq<string>, lower: string -> string)
    requires Consistent(headers, lower) && IsOrder(headers, o1) && IsOrder(headers, o2)
    requires AllIn(headers, o1) && AllIn(headers, o2)
    ensures LowerValues(headers, o1, lower) == LowerValues(headers, o2, lower)
  {
    var v1, v2 := LowerValues(headers, o1, lower), LowerValues(headers, o2, lower);
    forall l
      ensures l in v1 <==> l in v2
      ensures l in v1 && l in v2 ==> v1[l] == v2[l]
    {
      ConsistentValue(headers, o1, o2, lower, l);
    }
  }

  lemma ConsistentValue(headers: Headers, o1: seq<string>, o2: seq<string>, lower: string -> string, l: string)
    requires Consistent(headers, lower) && IsOrder(headers, o1) && IsOrder(headers, o2)
    requires AllIn(headers, o1) && AllIn(headers, o2)
    ensures var v1, v2 := LowerValues(headers, o1, lower), LowerValues(headers, o2, lower);
            (l in v1 <==> l in v2) && (l in v1 && l in v2 ==> v1[l] == v2[l])
  {
    LowerValuesStem(headers, o1, lower, l);
    LowerValuesStem(headers, o2, lower, l);
    if HasName(o1, lower, l) {
      SameNames(headers, o1, o2, lower, l);
    }
    if HasName(o2, lower, l) {
      SameNames(headers, o2, o1, lower, l);
    }
  }

  // ----- and what happens otherwise

  lemma {:induction false} Enumerate(keys: set<string>) returns (order: seq<string>)
    ensures Distinct(order) && forall k :: k in order <==> k in keys
  {
    if keys == {} {
      order := [];
    } else {
      var k :| k in keys;
      var rest := Enumerate(keys - {k});
      order := rest + [k];
    }
  }

  lemma {:induction false} BlockTellsValue(names: seq<string>, v1: map<string, string>, v2: map<string, string>, l: string)
    requires Distinct(names) && l in names && l in v1 && l in v2
    requires forall m <- names :: m != l ==> (if m in v1 then v1[m] else "") == (if m in v2 then v2[m] else "")
    ensures Block(names, v1) == Block(names, v2) ==> v1[l] == v2[l]
  {
    var n := |names| - 1;
    var init, last := names[..n], names[n];
    assert names == init + [last];
    if last == l {
      BlockAgrees(init, v1, v2);
      LineTellsValue(Block(init, v1), l, v1[l], v2[l]);
    } else {
      BlockTellsValue(init, v1, v2, l);
      var tail := Line(last, if last in v1 then v1[last] else "");
      if Block(init, v1) + tail == Block(init, v2) + tail {
        SameTail(Block(init, v1), Block(init, v2), tail);
      }
    }
  }

  lemma SameTail(a: string, b: string, tail: string)
    requires a + tail == b + tail
    ensures a == b
  {
    assert |a| == |b|;
    assert a == (a + tail)[..|a|] && b == (b + tail)[..|b|];
  }

  lemma LineTellsValue(prefix: string, name: string, x: string, y: string)
    ensures prefix + Line(name, x) == prefix + Line(name, y) ==> x == y
  {
    var a, b, k := prefix + Line(name, x), prefix + Line(name, y), |prefix| + |name| + 1;
    if a == b {
      assert |x| == |y|;
      assert x == a[k..k + |x|] && y == b[k..k + |y|];
    }
  }

  lemma {:induction false} BlockAgrees(names: seq<string>, v1: map<string, string>, v2: map<string, string>)
    requires forall m <- names :: (if m in v1 then v1[m] else "") == (if m in v2 then v2[m] else "")
    ensures Block(names, v1) == Block(names, v2)
  {
    if names != [] {
      var n := |names| - 1;
      assert names == names[..n] + [names[n]];
      BlockAgrees(names[..n], v1, v2);
    }
  }

  lemma LowerValuesSwap(headers: Headers, rest: seq<string>, k1: string, k2: string, lower: string -> string)
    requires AllIn(headers, rest)
    requires k1 in headers && k2 in headers && lower(k1) == lower(k2)
    ensures AllIn(headers, rest + [k1, k2])
    ensures LowerValues(headers, rest + [k1, k2], lower) == LowerValues(headers, rest, lower)[lower(k1) := Trim(headers[k2])]
  {
    var order := rest + [k1, k2];
    assert order[..|rest| + 1] == rest + [k1] && (rest + [k1])[..|rest|] == rest;
  }

  ghost predicate OrderNeverMatters(headers: Headers, lower: string -> string) {
    forall o1, o2 | IsOrder(headers, o1) && IsOrder(headers, o2) :: SameCanonical(headers, o1, o2, lower)
  }

  /** The canonical headers are the same for every order in which the map can yield its keys exactly
      when headers that differ only in case have the same trimmed value. */
  lemma OrderDoesNotMatterIff(headers: Headers, lower: string -> string)
    ensures Consistent(headers, lower) <==> OrderNeverMatters(headers, lower)
  {
    if Consistent(headers, lower) {
      forall o1, o2 | IsOrder(headers, o1) && IsOrder(headers, o2)
        ensures SameCanonical(headers, o1, o2, lower)
      {
        assert AllIn(headers, o1) && AllIn(headers, o2);
        NamesDoNotDependOnOrder(headers, o1, o2, lower);
        ConsistentValues(headers, o1, o2, lower);
      }
    } else {
      var k1, k2 :| k1 in headers && k2 in headers && lower(k1) == lower(k2) && Trim(headers[k1]) != Trim(headers[k2]);
      var o1, o2 := ConflictingOrders(headers, k1, k2, lower);
      assert !SameCanonical(headers, o1, o2, lower);
    }
  }

  /** A header "Host" set by the user beside the "host" the program adds: the answer depends on the
      order of the map. */
  lemma HostTwice(lower: string -> string) returns (o1: seq<string>, o2: seq<string>)
    requires lower("Host") == lower("host")
    ensures var headers: Headers := map["Host" := "a", "host" := "b"];
      IsOrder(headers, o1) && IsOrder(headers, o2) && !SameCanonical(headers, o1, o2, lower) && !OrderNeverMatters(headers, lower)
  {
    var headers: Headers := map["Host" := "a", "host" := "b"];
    assert headers["Host"] == "a" && headers["host"] == "b" by {
      assert "Host"[0] != "host"[0];
    }
    assert Trim("a") == "a" && Trim("b") == "b";
    o1, o2 := ConflictingOrders(headers, "Host", "host", lower);
  }

  ghost predicate SameCanonical(headers: Headers, o1: seq<string>, o2: seq<string>, lower: string -> string) {
    AllIn(headers, o1) && AllIn(headers, o2) && CanonicalFor(headers, o1, lower) == CanonicalFor(headers, o2, lower)
  }

  lemma CompleteOrder(headers: Headers, rest: seq<string>, k1: string, k2: string)
    requires k1 in headers && k2 in headers && k1 != k2
    requires Distinct(rest) && forall k :: k in rest <==> k in headers.Keys - {k1, k2}
    ensures AllIn(headers, rest) && IsOrder(headers, rest + [k1, k2])
  {
    assert forall i :: 0 <= i < |rest| ==> rest[i] in rest;
  }

  lemma ConflictingOrders(headers: Headers, k1: string, k2: string, lower: string -> string) returns (o1: seq<string>, o2: seq<string>)
    requires k1 in headers && k2 in headers && lower(k1) == lower(k2) && Trim(headers[k1]) != Trim(headers[k2])
    ensures IsOrder(headers, o1) && IsOrder(headers, o2) && !SameCanonical(headers, o1, o2, lower)
  {
    var rest := Enumerate(headers.Keys - {k1, k2});
    o1, o2 := rest + [k1, k2], rest + [k2, k1];
    CompleteOrder(headers, rest, k1, k2);
    CompleteOrder(headers, rest, k2, k1);
    NamesDoNotDependOnOrder(headers, o1, o2, lower);
    SwappedBlocksDiffer(headers, rest, k1, k2, lower, NamesOf(o1, lower));
  }

  lemma SwappedBlocksDiffer(headers: Headers, rest: seq<string>, k1: string, k2: string, lower: string -> string, names: seq<string>)
    requires AllIn(headers, rest) && k1 in headers && k2 in headers
    requires lower(k1) == lower(k2) && Trim(headers[k1]) != Trim(headers[k2])
    requires names == NamesOf(rest + [k1, k2], lower)
    ensures AllIn(headers, rest + [k1, k2]) && AllIn(headers, rest + [k2, k1])
    ensures Block(names, LowerValues(headers, rest + [k1, k2], lower)) != Block(names, LowerValues(headers, rest + [k2, k1], lower))
  {
    LowerValuesSwap(headers, rest, k1, k2, lower);
    LowerValuesSwap(headers, rest, k2, k1, lower);
    NamesElements(rest + [k1, k2], lower);
    assert NameAt(rest + [k1, k2], lower, |rest|, lower(k1));
    var v := LowerValues(headers, rest, lower);
    BlockTellsValue(names, v[lower(k1) := Trim(headers[k2])], v[lower(k1) := Trim(headers[k1])], lower(k1));
  }
}
