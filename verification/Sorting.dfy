/** Insertion sort, the specification of every sort the models use. Equal elements keep their order. */
module Sorting {

  ghost predicate TotalPreorder<T(!new)>(leq: (T, T) -> bool) {
    && (forall a, b :: leq(a, b) || leq(b, a))
    && (forall a, b, c :: leq(a, b) && leq(b, c) ==> leq(a, c))
  }

  ghost predicate Ordered<T>(s: seq<T>, leq: (T, T) -> bool) {
    forall i, j :: 0 <= i < j < |s| ==> leq(s[i], s[j])
  }

  /** Where `x` goes: behind the last element that may stand before it. */
  function Place<T>(x: T, s: seq<T>, leq: (T, T) -> bool): (p: nat)
    ensures p <= |s| && (p > 0 ==> leq(s[p - 1], x)) && forall k :: p <= k < |s| ==> !leq(s[k], x)
  {
    if s == [] || leq(s[|s| - 1], x) then |s| else Place(x, s[..|s| - 1], leq)
  }

  function Insert<T>(x: T, s: seq<T>, leq: (T, T) -> bool): seq<T> {
    var p := Place(x, s, leq);
    s[..p] + [x] + s[p..]
  }

  function Sort<T>(s: seq<T>, leq: (T, T) -> bool): (r: seq<T>)
    ensures |r| == |s|
  {
    if s == [] then [] else Insert(s[|s| - 1], Sort(s[..|s| - 1], leq), leq)
  }

  lemma PlaceDivides<T(!new)>(x: T, s: seq<T>, leq: (T, T) -> bool)
    requires TotalPreorder(leq) && Ordered(s, leq)
    ensures forall k :: 0 <= k < |s| ==> if k < Place(x, s, leq) then leq(s[k], x) else leq(x, s[k]) && !leq(s[k], x)
  {
    var p := Place(x, s, leq);
    forall k | 0 <= k < |s|
      ensures if k < p then leq(s[k], x) else leq(x, s[k]) && !leq(s[k], x)
    {
      if k + 1 < p {
        assert leq(s[k], s[p - 1]);
      }
    }
  }

  lemma InsertOrders<T(!new)>(x: T, s: seq<T>, leq: (T, T) -> bool)
    requires TotalPreorder(leq) && Ordered(s, leq)
    ensures Ordered(Insert(x, s, leq), leq)
  {
    var p, t := Place(x, s, leq), Insert(x, s, leq);
    PlaceDivides(x, s, leq);
    assert forall k :: 0 <= k < |t| ==> t[k] == if k < p then s[k] else if k == p then x else s[k - 1];
  }

  lemma {:induction false} SortOrders<T(!new)>(s: seq<T>, leq: (T, T) -> bool)
    requires TotalPreorder(leq)
    ensures Ordered(Sort(s, leq), leq)
  {
    if s != [] {
      SortOrders(s[..|s| - 1], leq);
      InsertOrders(s[|s| - 1], Sort(s[..|s| - 1], leq), leq);
    }
  }

  lemma {:induction false} SortPermutes<T>(s: seq<T>, leq: (T, T) -> bool)
    ensures multiset(Sort(s, leq)) == multiset(s)
  {
    if s != [] {
      var init, x := s[..|s| - 1], s[|s| - 1];
      var sorted := Sort(init, leq);
      SortPermutes(init, leq);
      assert s == init + [x];
      var p := Place(x, sorted, leq);
      assert sorted == sorted[..p] + sorted[p..];
    }
  }

  // ----- stability

  /** The positions the sorted elements come from. */
  function Rank<T>(s: seq<T>, leq: (T, T) -> bool): (rank: seq<nat>)
    ensures |rank| == |s| && forall k :: 0 <= k < |s| ==> rank[k] < |s|
  {
    if s == [] then []
    else
      var init, n := s[..|s| - 1], |s| - 1;
      var rank, p := Rank(init, leq), Place(s[n], Sort(init, leq), leq);
      rank[..p] + [n] + rank[p..]
  }

  lemma {:induction false} RankTakes<T>(s: seq<T>, leq: (T, T) -> bool)
    ensures forall k :: 0 <= k < |s| ==> Sort(s, leq)[k] == s[Rank(s, leq)[k]]
  {
    if s != [] {
      var init, n := s[..|s| - 1], |s| - 1;
      RankTakes(init, leq);
      var rank, p := Rank(init, leq), Place(s[n], Sort(init, leq), leq);
      InsertedTakes(s, Sort(init, leq), rank, p);
    }
  }

  lemma InsertedTakes<T>(s: seq<T>, sorted: seq<T>, rank: seq<nat>, p: nat)
    requires s != [] && |sorted| == |rank| == |s| - 1 && p <= |rank|
    requires forall k :: 0 <= k < |rank| ==> rank[k] < |s| - 1 && sorted[k] == s[rank[k]]
    ensures var sorted', rank' := sorted[..p] + [s[|s| - 1]] + sorted[p..], rank[..p] + [|s| - 1] + rank[p..];
      forall k :: 0 <= k < |s| ==> rank'[k] < |s| && sorted'[k] == s[rank'[k]]
  {
    var rank' := rank[..p] + [|s| - 1] + rank[p..];
    assert forall k :: 0 <= k < |s| ==> rank'[k] == if k < p then rank[k] else if k == p then |s| - 1 else rank[k - 1];
  }

  lemma {:induction false} RankIsComplete<T>(s: seq<T>, leq: (T, T) -> bool)
    ensures forall i :: 0 <= i < |s| ==> i in Rank(s, leq)
  {
    if s != [] {
      var init, n := s[..|s| - 1], |s| - 1;
      RankIsComplete(init, leq);
      var rank, p := Rank(init, leq), Place(s[n], Sort(init, leq), leq);
      forall i | 0 <= i < n
        ensures i in rank[..p] || i in rank[p..]
      {
        assert i in rank && rank == rank[..p] + rank[p..];
      }
    }
  }

  /** Elements stand in order, and where two may stand either way round the earlier one comes first. */
  ghost predicate Stable<T>(s: seq<T>, rank: seq<nat>, leq: (T, T) -> bool)
    requires forall k :: 0 <= k < |rank| ==> rank[k] < |s|
  {
    forall a, b :: 0 <= a < b < |rank| ==> StableAt(s, rank[a], rank[b], leq)
  }

  ghost predicate StableAt<T>(s: seq<T>, i: nat, j: nat, leq: (T, T) -> bool)
    requires i < |s| && j < |s|
  {
    leq(s[i], s[j]) && (leq(s[j], s[i]) ==> i < j)
  }

  lemma StableStep<T(!new)>(s: seq<T>, rank: seq<nat>, p: nat, leq: (T, T) -> bool)
    requires s != [] && p <= |rank| && forall k :: 0 <= k < |rank| ==> rank[k] < |s| - 1
    requires Stable(s[..|s| - 1], rank, leq)
    requires forall k :: 0 <= k < |rank| ==> var x, y := s[rank[k]], s[|s| - 1]; if k < p then leq(x, y) else leq(y, x) && !leq(x, y)
    ensures Stable(s, rank[..p] + [|s| - 1] + rank[p..], leq)
  {
    var n := |s| - 1;
    var rank' := rank[..p] + [n] + rank[p..];
    forall a, b | 0 <= a < b < |rank'|
      ensures StableAt(s, rank'[a], rank'[b], leq)
    {
      if a != p && b != p {
        var a', b' := if a < p then a else a - 1, if b < p then b else b - 1;
        assert StableAt(s[..n], rank[a'], rank[b'], leq);
      }
    }
  }

  lemma {:induction false} SortIsStable<T(!new)>(s: seq<T>, leq: (T, T) -> bool)
    requires TotalPreorder(leq)
    ensures Stable(s, Rank(s, leq), leq)
  {
    if s != [] {
      var init, n := s[..|s| - 1], |s| - 1;
      SortIsStable(init, leq);
      RankTakes(init, leq);
      SortOrders(init, leq);
      PlaceDivides(s[n], Sort(init, leq), leq);
      StableStep(s, Rank(init, leq), Place(s[n], Sort(init, leq), leq), leq);
    }
  }

  // ----- what a permutation keeps

  ghost predicate DistinctBy<T, K>(s: seq<T>, key: T -> K) {
    forall i, j :: 0 <= i < j < |s| ==> key(s[i]) != key(s[j])
  }

  lemma {:induction false} OnceInMultiset<T>(s: seq<T>, x: T)
    requires forall i, j :: 0 <= i < j < |s| ==> s[i] != s[j]
    ensures multiset(s)[x] <= 1
  {
    if s != [] {
      var init, last := s[..|s| - 1], s[|s| - 1];
      OnceInMultiset(init, x);
      assert s == init + [last];
      assert x == last ==> x !in init;
    }
  }

  lemma TwiceInMultiset<T>(s: seq<T>, i: nat, j: nat)
    requires i < j < |s| && s[i] == s[j]
    ensures multiset(s)[s[i]] >= 2
  {
    assert s == s[..j] + [s[j]] + s[j + 1..];
    assert s[i] in s[..j];
  }

  lemma PermutedElements<T>(a: seq<T>, b: seq<T>)
    requires multiset(a) == multiset(b)
    ensures |a| == |b| && forall x :: x in a <==> x in b
  {
    assert |multiset(a)| == |a| && |multiset(b)| == |b|;
    forall x
      ensures x in a <==> x in b
    {
      assert x in a <==> x in multiset(a);
      assert x in b <==> x in multiset(b);
    }
  }

  lemma PermutedDistinct<T, K>(a: seq<T>, b: seq<T>, key: T -> K)
    requires DistinctBy(a, key) && multiset(a) == multiset(b)
    ensures DistinctBy(b, key)
  {
    PermutedElements(a, b);
    forall i, j | 0 <= i < j < |b|
      ensures key(b[i]) != key(b[j])
    {
      if key(b[i]) == key(b[j]) {
        assert b[i] in a && b[j] in a;
        var k, l :| 0 <= k < |a| && a[k] == b[i] && 0 <= l < |a| && a[l] == b[j];
        assert k == l;
        OnceInMultiset(a, b[i]);
        TwiceInMultiset(b, i, j);
      }
    }
  }
}
