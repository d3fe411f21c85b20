/** Strings in the order of Go's `<`, and `sort.Strings`. */
module StringOrder {
  import Sorting

  predicate Leq(a: string, b: string)
    decreases |a|
  {
    a == "" || (b != "" && (a[0] < b[0] || (a[0] == b[0] && Leq(a[1..], b[1..]))))
  }

  lemma {:induction false} LeqTotal(a: string, b: string)
    ensures Leq(a, b) || Leq(b, a)
    ensures Leq(a, b) && Leq(b, a) ==> a == b
    ensures Leq(a, a)
    decreases |a|
  {
    if a != "" {
      LeqTotal(a[1..], a[1..]);
      if b != "" {
        LeqTotal(a[1..], b[1..]);
        if a[0] == b[0] && a[1..] == b[1..] {
          assert a == [a[0]] + a[1..] && b == [b[0]] + b[1..];
        }
      }
    }
  }

  lemma {:induction false} LeqTransitive(a: string, b: string, c: string)
    requires Leq(a, b) && Leq(b, c)
    ensures Leq(a, c)
    decreases |a|
  {
    if a != "" && a[0] == b[0] && b[0] == c[0] {
      LeqTransitive(a[1..], b[1..], c[1..]);
    }
  }

  ghost predicate Sorted(s: seq<string>) {
    forall i, j :: 0 <= i < j < |s| ==> Leq(s[i], s[j])
  }

  /** What `sort.Strings` leaves in the slice. */
  function Sort(s: seq<string>): seq<string> { Sorting.Sort(s, Leq) }

  lemma SortSorts(s: seq<string>)
    ensures Sorted(Sort(s)) && multiset(Sort(s)) == multiset(s) && |Sort(s)| == |s|
  {
    forall a, b, c
      ensures (Leq(a, b) || Leq(b, a)) && (Leq(a, b) && Leq(b, c) ==> Leq(a, c))
    {
      LeqTotal(a, b);
      if Leq(a, b) && Leq(b, c) {
        LeqTransitive(a, b, c);
      }
    }
    Sorting.SortOrders(s, Leq);
    Sorting.SortPermutes(s, Leq);
  }

  /** A sorted arrangement is unique, so what was collected in any order sorts to the same list. */
  lemma {:induction false} SortedIsUnique(a: seq<string>, b: seq<string>)
    requires Sorted(a) && Sorted(b) && multiset(a) == multiset(b)
    ensures a == b
    decreases |a|
  {
    if a == [] {
      assert |b| == |multiset(b)| == |multiset(a)| == 0;
    } else {
      assert a[0] in multiset(b) by { assert a[0] in multiset(a); }
      assert b[0] in multiset(a) by { assert b != [] && b[0] in multiset(b); }
      LeastIsFirst(a, b[0]);
      LeastIsFirst(b, a[0]);
      LeqTotal(a[0], b[0]);
      assert a[0] == b[0];
      RestMultiset(a);
      RestMultiset(b);
      SortedIsUnique(a[1..], b[1..]);
    }
  }

  lemma RestMultiset(s: seq<string>)
    requires s != []
    ensures s == [s[0]] + s[1..] && multiset(s[1..]) == multiset(s) - multiset{s[0]}
  {
    assert s == [s[0]] + s[1..];
  }

  lemma LeastIsFirst(s: seq<string>, x: string)
    requires Sorted(s) && x in s
    ensures s != [] && Leq(s[0], x)
  {
    var i :| 0 <= i < |s| && s[i] == x;
    LeqTotal(x, x);
  }

  ghost predicate Distinct(s: seq<string>) {
    forall i, j :: 0 <= i < j < |s| ==> s[i] != s[j]
  }

  lemma SameElements(a: seq<string>, b: seq<string>)
    requires Distinct(a) && multiset(a) == multiset(b)
    ensures Distinct(b) && forall r :: r in b <==> r in a
  {
    Sorting.PermutedElements(a, b);
    Sorting.PermutedDistinct(a, b, Itself);
    assert forall i, j :: 0 <= i < j < |b| ==> Itself(b[i]) != Itself(b[j]);
  }

  function Itself(s: string): string { s }

  /** A sorted list without repetitions is determined by its elements. */
  lemma SortedSetIsUnique(a: seq<string>, b: seq<string>)
    requires Distinct(a) && Sorted(a) && Distinct(b) && Sorted(b) && forall r :: r in a <==> r in b
    ensures a == b
  {
    forall x
      ensures multiset(a)[x] == multiset(b)[x]
    {
      Sorting.OnceInMultiset(a, x);
      Sorting.OnceInMultiset(b, x);
      assert x in a <==> x in multiset(a);
      assert x in b <==> x in multiset(b);
    }
    assert multiset(a) == multiset(b);
    SortedIsUnique(a, b);
  }
}
