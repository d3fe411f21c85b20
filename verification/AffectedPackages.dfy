/** Which packages to test after a change: the patterns, the packages that import them directly or
    not, and the packages whose tests import one of those. A test import does not go further. */
module AffectedPackages {
  import opened Wrappers
  import opened Sequences
  import opened StringOrder

  /** One line of `go list`. */
  datatype Package = Package(importPath: string, directory: string, imports: seq<string>, testImports: seq<string>)

  /** The outside path functions: a cleaned directory, the directory a pattern names, and the
      slash path of a directory relative to the module, None outside it. */
  datatype Paths = Paths(clean: string -> string, locate: string -> string, relative: string -> Option<string>)

  // ----- reachability

  /** `to` imports `from`. */
  ghost predicate Imports(listed: seq<Package>, from: string, to: string) {
    exists i :: 0 <= i < |listed| && listed[i].importPath == to && from in listed[i].imports
  }

  ghost predicate IsChain(listed: seq<Package>, chain: seq<string>) {
    forall k :: 0 <= k < |chain| - 1 ==> Imports(listed, chain[k], chain[k + 1])
  }

  /** `x` is one of the roots or imports one over a chain of normal imports. */
  ghost predicate Reachable(listed: seq<Package>, roots: set<string>, x: string) {
    exists chain: seq<string> :: chain != [] && chain[0] in roots && chain[|chain| - 1] == x && IsChain(listed, chain)
  }

  ghost predicate Closed(listed: seq<Package>, s: set<string>) {
    forall from, to :: from in s && Imports(listed, from, to) ==> to in s
  }

  lemma RootIsReachable(listed: seq<Package>, roots: set<string>, x: string)
    requires x in roots
    ensures Reachable(listed, roots, x)
  {
    assert IsChain(listed, [x]);
    assert [x][0] in roots;
  }

  lemma ImporterIsReachable(listed: seq<Package>, roots: set<string>, from: string, to: string)
    requires Reachable(listed, roots, from) && Imports(listed, from, to)
    ensures Reachable(listed, roots, to)
  {
    var chain: seq<string> :| chain != [] && chain[0] in roots && chain[|chain| - 1] == from && IsChain(listed, chain);
    var longer := chain + [to];
    forall k | 0 <= k < |longer| - 1
      ensures Imports(listed, longer[k], longer[k + 1])
    {
      if k < |chain| - 1 {
        assert Imports(listed, chain[k], chain[k + 1]);
      }
    }
    assert longer[0] in roots && longer[|longer| - 1] == to;
  }

  /** A closed set with the roots holds everything reachable. */
  lemma {:induction false} ClosedHoldsChain(listed: seq<Package>, s: set<string>, chain: seq<string>)
    requires Closed(listed, s) && chain != [] && chain[0] in s && IsChain(listed, chain)
    ensures chain[|chain| - 1] in s
    decreases |chain|
  {
    if |chain| > 1 {
      var init := chain[..|chain| - 1];
      forall k | 0 <= k < |init| - 1
        ensures Imports(listed, init[k], init[k + 1])
      {
        assert Imports(listed, chain[k], chain[k + 1]);
      }
      ClosedHoldsChain(listed, s, init);
      assert Imports(listed, chain[|chain| - 2], chain[|chain| - 2 + 1]);
    }
  }

  lemma ClosedHoldsReachable(listed: seq<Package>, roots: set<string>, s: set<string>)
    requires Closed(listed, s) && roots <= s
    ensures forall x :: Reachable(listed, roots, x) ==> x in s
  {
    forall x | Reachable(listed, roots, x)
      ensures x in s
    {
      var chain: seq<string> :| chain != [] && chain[0] in roots && chain[|chain| - 1] == x && IsChain(listed, chain);
      ClosedHoldsChain(listed, s, chain);
    }
  }

  /** Reachability distributes over the union of root sets, so it is monotone in them. */
  lemma ReachableDistributes(listed: seq<Package>, r1: set<string>, r2: set<string>, x: string)
    ensures Reachable(listed, r1 + r2, x) <==> Reachable(listed, r1, x) || Reachable(listed, r2, x)
  {
    if Reachable(listed, r1 + r2, x) {
      var chain: seq<string> :| chain != [] && chain[0] in r1 + r2 && chain[|chain| - 1] == x && IsChain(listed, chain);
      assert chain[0] in r1 || chain[0] in r2;
    }
    if Reachable(listed, r1, x) {
      var chain: seq<string> :| chain != [] && chain[0] in r1 && chain[|chain| - 1] == x && IsChain(listed, chain);
      assert chain[0] in r1 + r2;
    }
    if Reachable(listed, r2, x) {
      var chain: seq<string> :| chain != [] && chain[0] in r2 && chain[|chain| - 1] == x && IsChain(listed, chain);
      assert chain[0] in r1 + r2;
    }
  }

  // ----- the result

  /** The import path of a directory; a later line for the same directory wins. */
  function AtDirectory(paths: Paths, listed: seq<Package>, directory: string): Option<string> {
    if listed == [] then None
    else
      var n := |listed| - 1;
      if paths.clean(listed[n].directory) == directory then Some(listed[n].importPath)
      else AtDirectory(paths, listed[..n], directory)
  }

  function Roots(paths: Paths, listed: seq<Package>, patterns: seq<string>): set<string> {
    set p | p in patterns && AtDirectory(paths, listed, paths.locate(p)).Some? :: AtDirectory(paths, listed, paths.locate(p)).value
  }

  ghost predicate Included(listed: seq<Package>, roots: set<string>, pkg: Package) {
    Reachable(listed, roots, pkg.importPath) || exists t <- pkg.testImports :: Reachable(listed, roots, t)
  }

  function PatternOf(relative: string): string { if relative == "." then "." else "./" + relative }

  /** A pattern belongs to the result: it was asked for, or it names an included package of the module. */
  ghost predicate Belongs(paths: Paths, listed: seq<Package>, patterns: seq<string>, result: string) {
    result in patterns
    || exists i :: && 0 <= i < |listed| && Included(listed, Roots(paths, listed, patterns), listed[i])
                   && paths.relative(listed[i].directory).Some? && result == PatternOf(paths.relative(listed[i].directory).value)
  }

  // ----- the program

  function ImportersOf(importers: map<string, seq<string>>, from: string): seq<string> {
    if from in importers then importers[from] else []
  }

  ghost predicate ImportersAre(importers: map<string, seq<string>>, listed: seq<Package>) {
    forall from, to :: to in ImportersOf(importers, from) <==> Imports(listed, from, to)
  }

  method CollectImporters(listed: seq<Package>) returns (importers: map<string, seq<string>>)
    ensures ImportersAre(importers, listed)
  {
    importers := map[];
    for i := 0 to |listed|
      invariant ImportersAre(importers, listed[..i])
    {
      ghost var before := importers;
      importers := AddImports(importers, listed[i]);
      ImportsStep(listed, i);
      assert ImportersAre(before, listed[..i]);
    }
    assert listed[..|listed|] == listed;
  }

  method AddImports(before: map<string, seq<string>>, pkg: Package) returns (importers: map<string, seq<string>>)
    ensures forall from, to :: to in ImportersOf(importers, from)
              <==> to in ImportersOf(before, from) || (to == pkg.importPath && from in pkg.imports)
  {
    importers := before;
    for j := 0 to |pkg.imports|
      invariant forall from, to :: to in ImportersOf(importers, from)
                  <==> to in ImportersOf(before, from) || (to == pkg.importPath && from in pkg.imports[..j])
    {
      var imported := pkg.imports[j];
      assert pkg.imports[..j + 1] == pkg.imports[..j] + [imported];
      importers := importers[imported := ImportersOf(importers, imported) + [pkg.importPath]];
    }
    assert pkg.imports[..|pkg.imports|] == pkg.imports;
  }

  lemma ImportsStep(listed: seq<Package>, i: nat)
    requires i < |listed|
    ensures forall from, to :: Imports(listed[..i + 1], from, to)
              <==> Imports(listed[..i], from, to) || (to == listed[i].importPath && from in listed[i].imports)
  {
    var more, less := listed[..i + 1], listed[..i];
    forall from, to
      ensures Imports(more, from, to) <==> Imports(less, from, to) || (to == listed[i].importPath && from in listed[i].imports)
    {
      if Imports(less, from, to) {
        var k :| 0 <= k < |less| && less[k].importPath == to && from in less[k].imports;
        assert more[k] == less[k];
      }
      if to == listed[i].importPath && from in listed[i].imports {
        assert more[i] == listed[i];
      }
      if Imports(more, from, to) {
        var k :| 0 <= k < |more| && more[k].importPath == to && from in more[k].imports;
        assert k < i ==> less[k] == more[k];
      }
    }
  }

  ghost function Members(s: seq<string>): set<string> { set x | x in s }

  ghost predicate AllReachable(listed: seq<Package>, roots: set<string>, s: set<string>) {
    forall x :: x in s ==> Reachable(listed, roots, x)
  }

  /** The packages of the list, the only ones the loop can add. */
  ghost function Universe(listed: seq<Package>, roots: set<string>): set<string> {
    roots + set i | 0 <= i < |listed| :: listed[i].importPath
  }

  /** The first `done` packages of `enqueued` have been visited. */
  ghost predicate Visited(listed: seq<Package>, enqueued: seq<string>, done: nat, affected: set<string>)
    requires done <= |enqueued|
  {
    forall k, to :: 0 <= k < done && Imports(listed, enqueued[k], to) ==> to in affected
  }

  /** The worklist loop. `enqueued` lists what went through the queue, in order: exactly the reachable
      packages, each once. */
  method Propagate(listed: seq<Package>, importers: map<string, seq<string>>, start: seq<string>)
    returns (affected: set<string>, ghost enqueued: seq<string>)
    requires ImportersAre(importers, listed) && Distinct(start)
    ensures Distinct(enqueued) && affected == Members(enqueued)
    ensures forall x :: x in affected <==> Reachable(listed, Members(start), x)
  {
    ghost var roots := Members(start);
    affected := set r | r in start;
    enqueued := start;
    var queue := start;
    ghost var done: nat := 0;
    forall x | x in affected
      ensures Reachable(listed, roots, x)
    {
      RootIsReachable(listed, roots, x);
    }
    while |queue| > 0
      invariant Progress(listed, roots, enqueued, done, queue, affected)
      decreases |Universe(listed, roots)| - done
    {
      ghost var added, queueBefore, affectedBefore := [], queue, affected;
      CurrentIsReachable(listed, roots, enqueued, done, queue, affected);
      affected, queue, added := Visit(listed, importers, roots, queue[0], affected, queue[1..]);
      ProgressStep(listed, roots, enqueued, done, queueBefore, affectedBefore, added, affected);
      enqueued, done := enqueued + added, done + 1;
    }
    EverythingVisited(listed, enqueued, affected);
    ClosedHoldsReachable(listed, roots, affected);
  }

  /** What the loop keeps: the queue is what is left to visit of the packages enqueued so far. */
  ghost predicate Progress(listed: seq<Package>, roots: set<string>, enqueued: seq<string>, done: nat, queue: seq<string>, affected: set<string>) {
    && done <= |enqueued| && queue == enqueued[done..] && Distinct(enqueued)
    && affected == Members(enqueued) && roots <= affected <= Universe(listed, roots)
    && AllReachable(listed, roots, affected) && Visited(listed, enqueued, done, affected)
  }

  lemma CurrentIsReachable(listed: seq<Package>, roots: set<string>, enqueued: seq<string>, done: nat, queue: seq<string>, affected: set<string>)
    requires Progress(listed, roots, enqueued, done, queue, affected) && queue != []
    ensures Reachable(listed, roots, queue[0]) && done < |enqueued| <= |Universe(listed, roots)|
  {
    assert queue[0] == enqueued[done] && enqueued[done] in affected;
    forall x | x in enqueued
      ensures x in Universe(listed, roots)
    {
      assert x in affected;
    }
    DistinctFit(enqueued, Universe(listed, roots));
  }

  lemma ProgressStep(listed: seq<Package>, roots: set<string>, enqueued: seq<string>, done: nat, queue: seq<string>, affected: set<string>,
                     added: seq<string>, affected': set<string>)
    requires Progress(listed, roots, enqueued, done, queue, affected) && queue != []
    requires affected' == affected + Members(added) && Distinct(added) && forall x <- added :: x !in affected
    requires affected' <= Universe(listed, roots) && AllReachable(listed, roots, affected')
    requires forall to :: Imports(listed, queue[0], to) ==> to in affected'
    ensures Progress(listed, roots, enqueued + added, done + 1, queue[1..] + added, affected')
  {
    EnqueuedStaysDistinct(enqueued, added);
    VisitedStep(listed, enqueued, added, done, affected, affected');
  }

  lemma EverythingVisited(listed: seq<Package>, enqueued: seq<string>, affected: set<string>)
    requires affected == Members(enqueued) && Visited(listed, enqueued, |enqueued|, affected)
    ensures Closed(listed, affected)
  {
    forall from, to | from in affected && Imports(listed, from, to)
      ensures to in affected
    {
      var k :| 0 <= k < |enqueued| && enqueued[k] == from;
    }
  }

  lemma VisitedStep(listed: seq<Package>, before: seq<string>, added: seq<string>, done: nat, affected: set<string>, affected': set<string>)
    requires done < |before| && Visited(listed, before, done, affected) && affected <= affected'
    requires forall to :: Imports(listed, before[done], to) ==> to in affected'
    ensures Visited(listed, before + added, done + 1, affected')
    ensures (before + added)[done + 1..] == before[done..][1..] + added
  {
    forall k, to | 0 <= k < done + 1 && Imports(listed, (before + added)[k], to)
      ensures to in affected'
    {
      assert (before + added)[k] == before[k];
    }
  }

  lemma EnqueuedStaysDistinct(before: seq<string>, added: seq<string>)
    requires Distinct(before) && Distinct(added) && forall x <- added :: x !in before
    ensures Distinct(before + added) && Members(before + added) == Members(before) + Members(added)
  {
    var all := before + added;
    forall i, j | 0 <= i < j < |all|
      ensures all[i] != all[j]
    {
      if i < |before| <= j {
        assert all[j] in added && all[i] in before;
      }
    }
  }

  /** One turn of the worklist loop: the importers of `current` that are new are marked and enqueued. */
  method Visit(listed: seq<Package>, importers: map<string, seq<string>>, ghost roots: set<string>,
               current: string, affected: set<string>, queue: seq<string>)
    returns (affected': set<string>, queue': seq<string>, ghost added: seq<string>)
    requires ImportersAre(importers, listed) && Reachable(listed, roots, current)
    requires affected <= Universe(listed, roots) && AllReachable(listed, roots, affected)
    ensures queue' == queue + added && affected' == affected + Members(added)
    ensures Distinct(added) && forall x <- added :: x !in affected
    ensures affected' <= Universe(listed, roots) && AllReachable(listed, roots, affected')
    ensures forall to :: Imports(listed, current, to) ==> to in affected'
  {
    affected', queue', added := affected, queue, [];
    var direct := ImportersOf(importers, current);
    for i := 0 to |direct|
      invariant queue' == queue + added && affected' == affected + Members(added)
      invariant Distinct(added) && forall x <- added :: x !in affected
      invariant affected' <= Universe(listed, roots) && AllReachable(listed, roots, affected')
      invariant forall k :: 0 <= k < i ==> direct[k] in affected'
    {
      var importer := direct[i];
      assert importer in ImportersOf(importers, current) && Imports(listed, current, importer);
      if importer !in affected' {
        ImporterIsReachable(listed, roots, current, importer);
        affected', queue' := affected' + {importer}, queue' + [importer];
        added := added + [importer];
      }
    }
  }

  /** The affected patterns, sorted and without repetitions. */
  method AffectedPackages(paths: Paths, listed: seq<Package>, patterns: seq<string>) returns (ordered: seq<string>)
    ensures forall r :: r in ordered <==> Belongs(paths, listed, patterns, r)
    ensures Distinct(ordered) && Sorted(ordered)
  {
    var importers := CollectImporters(listed);
    var start := FindRoots(paths, listed, patterns);
    var affected, _ := Propagate(listed, importers, start);
    assert Members(start) == Roots(paths, listed, patterns);
    var result := Assemble(paths, listed, patterns, affected);
    ordered := SortSet(result);
  }

  method FindRoots(paths: Paths, listed: seq<Package>, patterns: seq<string>) returns (queue: seq<string>)
    ensures Distinct(queue) && forall x :: x in queue <==> x in Roots(paths, listed, patterns)
  {
    queue := [];
    for i := 0 to |patterns|
      invariant Distinct(queue) && forall x :: x in queue <==> x in Roots(paths, listed, patterns[..i])
    {
      var found := AtDirectory(paths, listed, paths.locate(patterns[i]));
      assert patterns[..i + 1] == patterns[..i] + [patterns[i]];
      assert Roots(paths, listed, patterns[..i + 1])
          == Roots(paths, listed, patterns[..i]) + if found.Some? then {found.value} else {};
      if found.Some? && found.value !in queue {
        queue := queue + [found.value];
      }
    }
    assert patterns[..|patterns|] == patterns;
  }

  method Assemble(paths: Paths, listed: seq<Package>, patterns: seq<string>, affected: set<string>) returns (result: set<string>)
    requires forall x :: x in affected <==> Reachable(listed, Roots(paths, listed, patterns), x)
    ensures forall r :: r in result <==> Belongs(paths, listed, patterns, r)
  {
    ghost var roots := Roots(paths, listed, patterns);
    result := set p | p in patterns;
    for i := 0 to |listed|
      invariant forall r :: r in result <==>
        r in patterns || exists k :: && 0 <= k < i && Included(listed, roots, listed[k]) && paths.relative(listed[k].directory).Some?
                                     && r == PatternOf(paths.relative(listed[k].directory).value)
    {
      var pkg := listed[i];
      var affects := pkg.importPath in affected;
      for j := 0 to |pkg.testImports|
        invariant affects <==> pkg.importPath in affected || exists k :: 0 <= k < j && pkg.testImports[k] in affected
      {
        affects := affects || pkg.testImports[j] in affected;
      }
      assert affects <==> Included(listed, roots, pkg);
      var relative := paths.relative(pkg.directory);
      if affects && relative.Some? {
        result := result + {PatternOf(relative.value)};
      }
    }
  }

  /** Whatever order the map yields its keys in, sorting gives one answer. */
  method SortSet(result: set<string>) returns (ordered: seq<string>)
    ensures (forall r :: r in ordered <==> r in result) && Distinct(ordered) && Sorted(ordered)
  {
    var rest := result;
    var collected: seq<string> := [];
    while rest != {}
      invariant rest <= result && Distinct(collected) && forall r :: r in collected <==> r in result && r !in rest
      decreases rest
    {
      var pattern :| pattern in rest;
      collected, rest := collected + [pattern], rest - {pattern};
    }
    ordered := Sort(collected);
    SortSorts(collected);
    SameElements(collected, ordered);
    assert forall r :: r in ordered <==> r in multiset(ordered);
  }

  /** Asking for two sets of patterns at once gives the union of both answers. */
  lemma AffectedDistributes(paths: Paths, listed: seq<Package>, p1: seq<string>, p2: seq<string>, r: string)
    ensures Belongs(paths, listed, p1 + p2, r) <==> Belongs(paths, listed, p1, r) || Belongs(paths, listed, p2, r)
  {
    var r1, r2 := Roots(paths, listed, p1), Roots(paths, listed, p2);
    assert Roots(paths, listed, p1 + p2) == r1 + r2;
    forall pkg
      ensures Included(listed, r1 + r2, pkg) <==> Included(listed, r1, pkg) || Included(listed, r2, pkg)
    {
      ReachableDistributes(listed, r1, r2, pkg.importPath);
      forall t <- pkg.testImports
        ensures Reachable(listed, r1 + r2, t) <==> Reachable(listed, r1, t) || Reachable(listed, r2, t)
      {
        ReachableDistributes(listed, r1, r2, t);
      }
    }
  }

  /** The answer is determined by the packages and patterns alone: no map order shows in it. */
  lemma AnswerIsUnique(paths: Paths, listed: seq<Package>, patterns: seq<string>, a: seq<string>, b: seq<string>)
    requires forall r :: r in a <==> Belongs(paths, listed, patterns, r)
    requires forall r :: r in b <==> Belongs(paths, listed, patterns, r)
    requires Distinct(a) && Sorted(a) && Distinct(b) && Sorted(b)
    ensures a == b
  {
    SortedSetIsUnique(a, b);
  }
}
