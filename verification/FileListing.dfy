/** The listing of a workspace folder: a recursive walk that appends to one shared list and stops
    everywhere as soon as the list is full. The file system is a tree; a path is its list of names. */
module FileListing {
  import opened Wrappers
  import opened StringOrder
  import Sorting

  /** `size` is None where the file cannot be inspected; an unreadable folder lists nothing. */
  datatype Node =
    | File(name: string, size: Option<nat>)
    | Folder(name: string, readable: bool, children: seq<Node>)

  datatype Entry = Entry(path: seq<string>, directory: bool, bytes: Option<nat>)

  /** Of the letters whose lower case is in an ignored name, only this many have an upper case. */
  function ToLower(c: char): char {
    if 'A' <= c <= 'Z' then (c as int + 32) as char else if c == '\U{130}' then 'i' else c
  }

  function Lower(s: string): string {
    if s == "" then "" else [ToLower(s[0])] + Lower(s[1..])
  }

  predicate Ignored(name: string) {
    Lower(name) in {".git", ".svn", ".hg", "node_modules", "target", "bin", "build", "out", ".gradle", ".idea", ".adomnia"}
  }

  predicate Skipped(child: Node) { child.Folder? && Ignored(child.name) }

  // ----- the order of a folder's children

  /** Folders first, then by name. */
  predicate Before(a: Node, b: Node) {
    if a.Folder? != b.Folder? then a.Folder? else Leq(a.name, b.name)
  }

  ghost predicate Ordered(s: seq<Node>) {
    forall i, j :: 0 <= i < j < |s| ==> Before(s[i], s[j])
  }

  ghost predicate DistinctNames(s: seq<Node>) {
    forall i, j :: 0 <= i < j < |s| ==> s[i].name != s[j].name
  }

  function SortChildren(s: seq<Node>): seq<Node> { Sorting.Sort(s, Before) }

  lemma BeforeIsOrder(a: Node, b: Node, c: Node)
    ensures Before(a, b) || Before(b, a)
    ensures Before(a, b) && Before(b, c) ==> Before(a, c)
    ensures Before(a, b) && Before(b, a) ==> a.name == b.name
  {
    LeqTotal(a.name, b.name);
    if Leq(a.name, b.name) && Leq(b.name, c.name) {
      LeqTransitive(a.name, b.name, c.name);
    }
  }

  lemma SortOrders(s: seq<Node>)
    ensures Ordered(SortChildren(s)) && |SortChildren(s)| == |s|
    ensures forall y :: y in SortChildren(s) <==> y in s
  {
    forall a, b, c
      ensures (Before(a, b) || Before(b, a)) && (Before(a, b) && Before(b, c) ==> Before(a, c))
    {
      BeforeIsOrder(a, b, c);
    }
    Sorting.SortOrders(s, Before);
    Sorting.SortPermutes(s, Before);
    Sorting.PermutedElements(s, SortChildren(s));
  }

  /** Names in a folder are distinct, so there is one such order and any way of sorting finds it. */
  lemma {:induction false} OrderIsUnique(a: seq<Node>, b: seq<Node>)
    requires Ordered(a) && Ordered(b) && DistinctNames(a) && DistinctNames(b)
    requires forall x :: x in a <==> x in b
    ensures a == b
    decreases |a|
  {
    assert b != [] ==> b[0] in b;
    if a != [] {
      assert a[0] in a && b != [];
      FirstIsLeast(a, b[0]);
      FirstIsLeast(b, a[0]);
      BeforeIsOrder(a[0], b[0], a[0]);
      var k :| 0 <= k < |a| && a[k] == b[0];
      assert a[0] == b[0];
      RestElements(a);
      RestElements(b);
      OrderIsUnique(a[1..], b[1..]);
      assert a == [a[0]] + a[1..] && b == [b[0]] + b[1..];
    }
  }

  lemma FirstIsLeast(s: seq<Node>, x: Node)
    requires Ordered(s) && x in s
    ensures x == s[0] || Before(s[0], x)
  {
    var k :| 0 <= k < |s| && s[k] == x;
  }

  lemma RestElements(s: seq<Node>)
    requires s != [] && DistinctNames(s)
    ensures forall x :: x in s[1..] <==> x in s && x != s[0]
  {
    forall x
      ensures x in s[1..] <==> x in s && x != s[0]
    {
      if x in s && x != s[0] {
        var k :| 0 <= k < |s| && s[k] == x;
        assert s[1..][k - 1] == x;
      }
    }
  }

  // ----- the complete listing

  function EntryOf(child: Node, path: seq<string>): Entry {
    Entry(path + [child.name], child.Folder?, if child.Folder? then None else child.size)
  }

  function ListFolder(folder: Node, path: seq<string>, level: nat, depth: nat): seq<Entry>
    requires folder.Folder?
    decreases depth + 1 - level, 1, 0
  {
    if level > depth || !folder.readable then [] else ListChildren(SortChildren(folder.children), path, level, depth)
  }

  function ListChildren(children: seq<Node>, path: seq<string>, level: nat, depth: nat): seq<Entry>
    requires level <= depth
    decreases depth + 1 - level, 0, |children|
  {
    if children == [] then []
    else
      var child := children[0];
      (if Skipped(child) then []
       else if child.Folder? then [EntryOf(child, path)] + ListFolder(child, path + [child.name], level + 1, depth)
       else [EntryOf(child, path)])
      + ListChildren(children[1..], path, level, depth)
  }

  function Take(s: seq<Entry>, n: nat): seq<Entry> { if |s| <= n then s else s[..n] }

  lemma TakeFull(done: seq<Entry>, rest: seq<Entry>, n: nat)
    requires n <= |done|
    ensures Take(done + rest, n) == Take(done, n)
  {
  }

  /** What the first of the children adds to what is listed already. */
  lemma FirstChild(children: seq<Node>, path: seq<string>, level: nat, depth: nat, done: seq<Entry>)
    requires level <= depth && children != []
    ensures var child, later := children[0], ListChildren(children[1..], path, level, depth);
      done + ListChildren(children, path, level, depth) ==
        if Skipped(child) then done + later
        else done + [EntryOf(child, path)]
             + (if child.Folder? then ListFolder(child, path + [child.name], level + 1, depth) else [])
             + later
  {
    var child, later := children[0], ListChildren(children[1..], path, level, depth);
    if Skipped(child) {
      assert ListChildren(children, path, level, depth) == later;
    } else if child.Folder? {
      var inside := ListFolder(child, path + [child.name], level + 1, depth);
      assert ListChildren(children, path, level, depth) == [EntryOf(child, path)] + inside + later;
    } else {
      assert ListChildren(children, path, level, depth) == [EntryOf(child, path)] + later;
    }
  }

  function EffectiveDepth(depth: int): nat {
    if depth <= 0 then 2 else if depth > 6 then 6 else depth
  }

  function EffectiveLimit(limit: int): nat {
    if limit <= 0 || limit > 1000 then 200 else limit
  }

  // ----- the program

  class Lister {
    const depth: nat
    const limit: nat
    var entries: seq<Entry>

    constructor (depth: nat, limit: nat)
      ensures this.depth == depth && this.limit == limit && entries == []
    {
      this.depth, this.limit, entries := depth, limit, [];
    }

    /** Appends the listing of the folder up to the limit; false tells the callers to stop. */
    method Walk(folder: Node, path: seq<string>, level: nat) returns (more: bool)
      requires folder.Folder? && |entries| < limit
      modifies this
      ensures entries == Take(old(entries) + ListFolder(folder, path, level, depth), limit)
      ensures more <==> |old(entries) + ListFolder(folder, path, level, depth)| < limit
      decreases depth + 1 - level
    {
      if level > depth {
        return true;
      }
      if !folder.readable {
        return true;
      }
      var children := SortChildren(folder.children);
      ghost var all := entries + ListFolder(folder, path, level, depth);
      assert children[0..] == children;
      for i := 0 to |children|
        invariant |entries| < limit
        invariant entries + ListChildren(children[i..], path, level, depth) == all
      {
        var child := children[i];
        ghost var later := ListChildren(children[i + 1..], path, level, depth);
        FirstChild(children[i..], path, level, depth, entries);
        assert children[i..][1..] == children[i + 1..];
        if child.Folder? && Ignored(child.name) {
          continue;
        }
        ghost var inside := if child.Folder? then ListFolder(child, path + [child.name], level + 1, depth) else [];
        entries := entries + [EntryOf(child, path)];
        assert all == entries + inside + later;
        if |entries| >= limit {
          TakeFull(entries, inside, limit);
          TakeFull(entries + inside, later, limit);
          return false;
        }
        if child.Folder? {
          ghost var before := entries;
          var go := Walk(child, path + [child.name], level + 1);
          if !go {
            TakeFull(before + inside, later, limit);
            return false;
          }
        }
      }
      assert children[|children|..] == [] && all == entries;
      return true;
    }
  }

  /** The first entries of the complete listing. The list is called truncated when it is full, so a
      list that is not truncated is complete, and a full one is complete only by chance. */
  method ListFiles(folder: Node, path: seq<string>, depth: int, limit: int) returns (entries: seq<Entry>, truncated: bool)
    requires folder.Folder?
    ensures var all := ListFolder(folder, path, 1, EffectiveDepth(depth));
      && entries == Take(all, EffectiveLimit(limit))
      && (truncated <==> |all| >= EffectiveLimit(limit))
      && (!truncated ==> entries == all)
      && (truncated && entries == all <==> |all| == EffectiveLimit(limit))
  {
    var d := depth;
    if d <= 0 {
      d := 2;
    }
    if d > 6 {
      d := 6;
    }
    var l := limit;
    if l <= 0 || l > 1000 {
      l := 200;
    }
    var lister := new Lister(d, l);
    var more := lister.Walk(folder, path, 1);
    entries := lister.entries;
    truncated := |entries| >= l;
  }

  // ----- what the complete listing is

  /** There is a child to list at this relative path: no folder on the way, nor the child itself,
      is an ignored folder, every folder on the way is readable, and the path is short enough. */
  ghost predicate Visible(folder: Node, names: seq<string>, level: nat, depth: nat, child: Node)
    requires folder.Folder?
    decreases |names|
  {
    names != [] && level <= depth && folder.readable
    && exists next <- folder.children ::
         && next.name == names[0] && !Skipped(next)
         && if |names| == 1 then child == next else next.Folder? && Visible(next, names[1..], level + 1, depth, child)
  }

  /** A child to list somewhere under `children`, at `names`. */
  ghost predicate Under(children: seq<Node>, names: seq<string>, level: nat, depth: nat, child: Node) {
    names != [] && exists i ::
      && 0 <= i < |children| && children[i].name == names[0] && !Skipped(children[i])
      && if |names| == 1 then child == children[i]
         else children[i].Folder? && Visible(children[i], names[1..], level + 1, depth, child)
  }

  ghost predicate IsEntry(e: Entry, path: seq<string>, names: seq<string>, child: Node) {
    e == Entry(path + names, child.Folder?, if child.Folder? then None else child.size)
  }

  lemma {:induction false} ListedIsVisible(folder: Node, path: seq<string>, level: nat, depth: nat, e: Entry) returns (names: seq<string>, child: Node)
    requires folder.Folder? && e in ListFolder(folder, path, level, depth)
    ensures Visible(folder, names, level, depth, child) && IsEntry(e, path, names, child)
    decreases depth + 1 - level, 1, 0
  {
    names, child := ListedIsUnder(SortChildren(folder.children), path, level, depth, e);
    SortOrders(folder.children);
  }

  lemma {:induction false} ListedIsUnder(children: seq<Node>, path: seq<string>, level: nat, depth: nat, e: Entry) returns (names: seq<string>, child: Node)
    requires level <= depth && e in ListChildren(children, path, level, depth)
    ensures Under(children, names, level, depth, child) && IsEntry(e, path, names, child)
    decreases depth + 1 - level, 0, |children|
  {
    var first := children[0];
    if e in ListChildren(children[1..], path, level, depth) {
      names, child := ListedIsUnder(children[1..], path, level, depth, e);
      var i :| 0 <= i < |children[1..]| && children[1..][i].name == names[0] && !Skipped(children[1..][i])
        && if |names| == 1 then child == children[1..][i] else children[1..][i].Folder? && Visible(children[1..][i], names[1..], level + 1, depth, child);
      assert children[i + 1] == children[1..][i];
    } else if e == EntryOf(first, path) {
      names, child := [first.name], first;
      assert children[0] == first;
    } else {
      var below;
      below, child := ListedIsVisible(first, path + [first.name], level + 1, depth, e);
      names := [first.name] + below;
      assert names[1..] == below && path + names == path + [first.name] + below;
      assert children[0] == first;
    }
  }

  lemma {:induction false} VisibleIsListed(folder: Node, path: seq<string>, names: seq<string>, level: nat, depth: nat, child: Node)
    requires folder.Folder? && Visible(folder, names, level, depth, child)
    ensures Entry(path + names, child.Folder?, if child.Folder? then None else child.size) in ListFolder(folder, path, level, depth)
    decreases |names|
  {
    var next :| next in folder.children && next.name == names[0] && !Skipped(next)
      && if |names| == 1 then child == next else next.Folder? && Visible(next, names[1..], level + 1, depth, child);
    SortOrders(folder.children);
    if |names| == 1 {
      assert names == [next.name];
      ChildIsListed(SortChildren(folder.children), path, level, depth, next, EntryOf(next, path));
    } else {
      VisibleIsListed(next, path + [next.name], names[1..], level + 1, depth, child);
      assert path + names == path + [next.name] + names[1..];
      ChildIsListed(SortChildren(folder.children), path, level, depth, next, Entry(path + names, child.Folder?, if child.Folder? then None else child.size));
    }
  }

  lemma {:induction false} ChildIsListed(children: seq<Node>, path: seq<string>, level: nat, depth: nat, next: Node, e: Entry)
    requires level <= depth && next in children && !Skipped(next)
    requires e == EntryOf(next, path) || (next.Folder? && e in ListFolder(next, path + [next.name], level + 1, depth))
    ensures e in ListChildren(children, path, level, depth)
    decreases |children|
  {
    if children[0] != next {
      assert children == [children[0]] + children[1..];
      ChildIsListed(children[1..], path, level, depth, next, e);
    }
  }

  /** Exactly the visible files and folders are listed. */
  lemma ListedIffVisible(folder: Node, path: seq<string>, level: nat, depth: nat, e: Entry)
    requires folder.Folder?
    ensures e in ListFolder(folder, path, level, depth) <==>
              exists names, child :: Visible(folder, names, level, depth, child) && IsEntry(e, path, names, child)
  {
    if e in ListFolder(folder, path, level, depth) {
      var names, child := ListedIsVisible(folder, path, level, depth, e);
    }
    if names, child :| Visible(folder, names, level, depth, child) && IsEntry(e, path, names, child) {
      VisibleIsListed(folder, path, names, level, depth, child);
    }
  }

  // ----- nothing is listed twice

  /** No folder down to the depth has two children of one name. */
  ghost predicate WellNamed(folder: Node, level: nat, depth: nat)
    requires folder.Folder?
    decreases depth + 1 - level
  {
    level <= depth ==>
      && DistinctNames(folder.children)
      && forall i :: 0 <= i < |folder.children| && folder.children[i].Folder? ==> WellNamed(folder.children[i], level + 1, depth)
  }

  ghost predicate DistinctPaths(s: seq<Entry>) {
    forall i, j :: 0 <= i < j < |s| ==> s[i].path != s[j].path
  }

  ghost predicate StartsWith(e: Entry, path: seq<string>, name: string) {
    |path| < |e.path| && e.path[..|path|] == path && e.path[|path|] == name
  }

  lemma ListedUnderName(children: seq<Node>, path: seq<string>, level: nat, depth: nat, e: Entry) returns (i: nat)
    requires level <= depth && e in ListChildren(children, path, level, depth)
    ensures i < |children| && StartsWith(e, path, children[i].name)
  {
    var names, child := ListedIsUnder(children, path, level, depth, e);
    i :| 0 <= i < |children| && children[i].name == names[0];
  }

  lemma DistinctTogether(a: seq<Entry>, b: seq<Entry>)
    requires DistinctPaths(a) && DistinctPaths(b)
    requires forall i, j :: 0 <= i < |a| && 0 <= j < |b| ==> a[i].path != b[j].path
    ensures DistinctPaths(a + b)
  {
  }

  /** No path is listed twice. */
  lemma {:induction false} ListedOnce(folder: Node, path: seq<string>, level: nat, depth: nat)
    requires folder.Folder? && WellNamed(folder, level, depth)
    ensures DistinctPaths(ListFolder(folder, path, level, depth))
    decreases depth + 1 - level, 1, 0
  {
    if level <= depth && folder.readable {
      var children := SortChildren(folder.children);
      SortOrders(folder.children);
      SortKeepsNames(folder.children);
      ChildrenListedOnce(children, path, level, depth);
    }
  }

  lemma SortKeepsNames(s: seq<Node>)
    requires DistinctNames(s)
    ensures DistinctNames(SortChildren(s))
  {
    var name := (n: Node) => n.name;
    Sorting.SortPermutes(s, Before);
    Sorting.PermutedDistinct(s, SortChildren(s), name);
    assert forall i, j :: 0 <= i < j < |s| ==> name(SortChildren(s)[i]) != name(SortChildren(s)[j]);
  }

  /** The order in which the file system returns a folder's children does not matter. */
  lemma DiskOrderDoesNotMatter(name: string, readable: bool, a: seq<Node>, b: seq<Node>, path: seq<string>, level: nat, depth: nat)
    requires DistinctNames(a) && DistinctNames(b) && forall x :: x in a <==> x in b
    ensures ListFolder(Folder(name, readable, a), path, level, depth) == ListFolder(Folder(name, readable, b), path, level, depth)
  {
    SortOrders(a);
    SortOrders(b);
    SortKeepsNames(a);
    SortKeepsNames(b);
    OrderIsUnique(SortChildren(a), SortChildren(b));
  }

  lemma {:induction false} ChildrenListedOnce(children: seq<Node>, path: seq<string>, level: nat, depth: nat)
    requires level <= depth && DistinctNames(children)
    requires forall x <- children :: x.Folder? ==> WellNamed(x, level + 1, depth)
    ensures DistinctPaths(ListChildren(children, path, level, depth))
    decreases depth + 1 - level, 0, |children|
  {
    if children != [] {
      var child, rest := children[0], ListChildren(children[1..], path, level, depth);
      ChildrenListedOnce(children[1..], path, level, depth);
      var own := if Skipped(child) then []
                 else if child.Folder? then [EntryOf(child, path)] + ListFolder(child, path + [child.name], level + 1, depth)
                 else [EntryOf(child, path)];
      if child.Folder? && !Skipped(child) {
        var inside := ListFolder(child, path + [child.name], level + 1, depth);
        ListedOnce(child, path + [child.name], level + 1, depth);
        forall j | 0 <= j < |inside|
          ensures |path| + 1 < |inside[j].path| && StartsWith(inside[j], path, child.name)
        {
          var names, x := ListedIsVisible(child, path + [child.name], level + 1, depth, inside[j]);
        }
        DistinctTogether([EntryOf(child, path)], inside);
      }
      forall j | 0 <= j < |rest|
        ensures !StartsWith(rest[j], path, child.name)
      {
        var k := ListedUnderName(children[1..], path, level, depth, rest[j]);
        assert children[1..][k] == children[k + 1];
      }
      assert forall j :: 0 <= j < |own| ==> StartsWith(own[j], path, child.name);
      DistinctTogether(own, rest);
    }
  }
}
