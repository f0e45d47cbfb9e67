/**
 * Stable in-place sorting by a key, the contract of Python's `list.sort(key=...)`.
 * Items are compared only through `less` on their keys `rank(x)`, where
 * `less` is a strict total order on keys (Python's `<` on the key values).
 *
 * The result is specified by stable insertion, `SortByKey`; SortedStableUnique
 * shows that every sorted, stable rearrangement of a list is that same list,
 * so the result does not depend on the algorithm that computes it.
 */
module StableSort {
  import opened Lexicographic

  /** `x` sorts strictly before `y`. */
  predicate Before<T, K>(rank: T -> K, less: (K, K) -> bool, x: T, y: T) {
    less(rank(x), rank(y))
  }

  /** Non-decreasing by key: no item has a smaller key than an item before it. */
  ghost predicate Sorted<T, K>(s: seq<T>, rank: T -> K, less: (K, K) -> bool) {
    forall i, j :: 0 <= i < j < |s| ==> !Before(rank, less, s[j], s[i])
  }

  /** The items of `s` whose key is `k`, in their order in `s`. */
  ghost function Filter<T, K>(s: seq<T>, rank: T -> K, k: K): seq<T> {
    if |s| == 0 then []
    else Filter(s[..|s| - 1], rank, k) + (if rank(s[|s| - 1]) == k then [s[|s| - 1]] else [])
  }

  /** `t` keeps, for every key, the relative order `s` gives the items with that key. */
  ghost predicate Stable<T, K(!new)>(s: seq<T>, t: seq<T>, rank: T -> K) {
    forall k :: Filter(t, rank, k) == Filter(s, rank, k)
  }

  /** Puts `x` after every item of `s` whose key is not greater than its own. */
  function Insert<T, K>(s: seq<T>, x: T, rank: T -> K, less: (K, K) -> bool): seq<T> {
    if |s| == 0 || !Before(rank, less, x, s[|s| - 1]) then s + [x]
    else Insert(s[..|s| - 1], x, rank, less) + [s[|s| - 1]]
  }

  /** The list sorted stably by key: each item inserted in turn. */
  function SortByKey<T, K>(s: seq<T>, rank: T -> K, less: (K, K) -> bool): seq<T> {
    if |s| == 0 then []
    else Insert(SortByKey(s[..|s| - 1], rank, less), s[|s| - 1], rank, less)
  }

  /** Inserting adds exactly the one item. */
  lemma {:induction false} InsertPermutes<T, K>(s: seq<T>, x: T, rank: T -> K, less: (K, K) -> bool)
    ensures multiset(Insert(s, x, rank, less)) == multiset(s) + multiset{x}
  {
    if |s| > 0 && Before(rank, less, x, s[|s| - 1]) {
      InsertPermutes(s[..|s| - 1], x, rank, less);
      assert s == s[..|s| - 1] + [s[|s| - 1]];
    }
  }

  /** Sorting only rearranges: the result is a permutation of the input. */
  lemma {:induction false} SortByKeyPermutes<T, K>(s: seq<T>, rank: T -> K, less: (K, K) -> bool)
    ensures multiset(SortByKey(s, rank, less)) == multiset(s)
  {
    if |s| > 0 {
      var s', last := s[..|s| - 1], s[|s| - 1];
      SortByKeyPermutes(s', rank, less);
      InsertPermutes(SortByKey(s', rank, less), last, rank, less);
      assert SortByKey(s, rank, less) == Insert(SortByKey(s', rank, less), last, rank, less);
      assert s == s' + [last];
      assert multiset(s) == multiset(s') + multiset{last};
    }
  }

  lemma SortByKeySnoc<T, K>(s: seq<T>, x: T, rank: T -> K, less: (K, K) -> bool)
    ensures SortByKey(s + [x], rank, less) == Insert(SortByKey(s, rank, less), x, rank, less)
  {
    assert (s + [x])[..|s|] == s;
  }

  /** Three items with strictly decreasing keys come out in reverse order. */
  lemma SortDescendingThree<T, K>(a: T, b: T, c: T, rank: T -> K, less: (K, K) -> bool)
    requires Before(rank, less, b, a) && Before(rank, less, c, b) && Before(rank, less, c, a)
    ensures SortByKey([a, b, c], rank, less) == [c, b, a]
  {
    SortByKeySnoc([], a, rank, less);
    SortByKeySnoc([a], b, rank, less);
    SortByKeySnoc([a, b], c, rank, less);
    InsertAt([], 0, a, rank, less);
    InsertAt([a], 0, b, rank, less);
    InsertAt([b, a], 0, c, rank, less);
    assert [] + [a] == [a] && [a] + [b] == [a, b] && [a, b] + [c] == [a, b, c];
  }

  /** Two items with equal keys keep their order. */
  lemma SortEqualTwo<T, K>(a: T, b: T, rank: T -> K, less: (K, K) -> bool)
    requires rank(a) == rank(b) && !less(rank(a), rank(a))
    ensures SortByKey([a, b], rank, less) == [a, b]
  {
    SortByKeySnoc([], a, rank, less);
    SortByKeySnoc([a], b, rank, less);
    InsertAt([], 0, a, rank, less);
    InsertAt([a], 1, b, rank, less);
    assert [] + [a] == [a] && [a] + [b] == [a, b];
  }

  lemma {:induction false} InsertSorted<T, K(!new)>(s: seq<T>, x: T, rank: T -> K, less: (K, K) -> bool)
    requires StrictTotalOrder(less) && Sorted(s, rank, less)
    ensures Sorted(Insert(s, x, rank, less), rank, less)
  {
    if |s| == 0 || !Before(rank, less, x, s[|s| - 1]) {
      assert forall i :: 0 <= i < |s| ==> !less(rank(x), rank(s[i]));
    } else {
      var s', last := s[..|s| - 1], s[|s| - 1];
      InsertSorted(s', x, rank, less);
      var r' := Insert(s', x, rank, less);
      InsertPermutes(s', x, rank, less);
      forall i | 0 <= i < |r'| ensures !Before(rank, less, last, r'[i]) {
        assert r'[i] in multiset(r');
        if r'[i] in s' {
          var j :| 0 <= j < |s'| && s'[j] == r'[i];
          assert s[j] == r'[i];
        }
      }
    }
  }

  lemma {:induction false} SortByKeySorted<T, K(!new)>(s: seq<T>, rank: T -> K, less: (K, K) -> bool)
    requires StrictTotalOrder(less)
    ensures Sorted(SortByKey(s, rank, less), rank, less)
  {
    if |s| > 0 {
      SortByKeySorted(s[..|s| - 1], rank, less);
      InsertSorted(SortByKey(s[..|s| - 1], rank, less), s[|s| - 1], rank, less);
    }
  }

  lemma {:induction false} FilterAppend<T, K>(a: seq<T>, b: seq<T>, rank: T -> K, k: K)
    ensures Filter(a + b, rank, k) == Filter(a, rank, k) + Filter(b, rank, k)
  {
    if |b| > 0 {
      FilterAppend(a, b[..|b| - 1], rank, k);
      assert (a + b)[..|a + b| - 1] == a + b[..|b| - 1];
    } else {
      assert a + b == a;
    }
  }

  lemma FilterLast<T, K>(s: seq<T>, x: T, rank: T -> K, k: K)
    ensures Filter(s + [x], rank, k) == Filter(s, rank, k) + (if rank(x) == k then [x] else [])
  {
    assert (s + [x])[..|s|] == s;
  }

  lemma {:induction false} InsertFilter<T, K(!new)>(s: seq<T>, x: T, rank: T -> K, less: (K, K) -> bool, k: K)
    requires Irreflexive(less)
    ensures Filter(Insert(s, x, rank, less), rank, k) == Filter(s, rank, k) + Filter([x], rank, k)
  {
    FilterLast([], x, rank, k);
    if |s| == 0 || !Before(rank, less, x, s[|s| - 1]) {
      FilterAppend(s, [x], rank, k);
    } else {
      var s', last := s[..|s| - 1], s[|s| - 1];
      var fx := Filter([x], rank, k);
      var fl := if rank(last) == k then [last] else [];
      InsertFilter(s', x, rank, less, k);
      assert Insert(s, x, rank, less) == Insert(s', x, rank, less) + [last];
      FilterLast(Insert(s', x, rank, less), last, rank, k);
      assert Filter(Insert(s, x, rank, less), rank, k) == Filter(s', rank, k) + fx + fl;
      assert s == s' + [last];
      FilterLast(s', last, rank, k);
      assert rank(x) != rank(last) by {
        assert !less(rank(x), rank(x));
      }
      assert fx + fl == fl + fx;
    }
  }

  lemma {:induction false} SortByKeyStable<T, K(!new)>(s: seq<T>, rank: T -> K, less: (K, K) -> bool)
    requires Irreflexive(less)
    ensures Stable(s, SortByKey(s, rank, less), rank)
  {
    if |s| > 0 {
      var s', last := s[..|s| - 1], s[|s| - 1];
      SortByKeyStable(s', rank, less);
      forall k ensures Filter(SortByKey(s, rank, less), rank, k) == Filter(s, rank, k) {
        InsertFilter(SortByKey(s', rank, less), last, rank, less, k);
        FilterLast([], last, rank, k);
      }
    }
  }

  /** A non-empty filter names an item of the list with that key. */
  lemma {:induction false} FilterWitness<T, K>(s: seq<T>, rank: T -> K, k: K) returns (i: nat)
    requires Filter(s, rank, k) != []
    ensures i < |s| && rank(s[i]) == k
  {
    if rank(s[|s| - 1]) == k {
      i := |s| - 1;
    } else {
      i := FilterWitness(s[..|s| - 1], rank, k);
    }
  }

  /** Two non-empty sorted lists that agree on every key's filter end in the same item. */
  lemma SameLast<T, K(!new)>(t1: seq<T>, t2: seq<T>, rank: T -> K, less: (K, K) -> bool)
    requires Irreflexive(less) && Connected(less)
    requires Sorted(t1, rank, less) && Sorted(t2, rank, less)
    requires |t1| > 0 && |t2| > 0 && Stable(t1, t2, rank)
    ensures t1[|t1| - 1] == t2[|t2| - 1]
    ensures Stable(t1[..|t1| - 1], t2[..|t2| - 1], rank)
  {
    var t1', x := t1[..|t1| - 1], t1[|t1| - 1];
    var t2', y := t2[..|t2| - 1], t2[|t2| - 1];
    assert t1 == t1' + [x] && t2 == t2' + [y];
    var kx, ky := rank(x), rank(y);
    FilterLast(t1', x, rank, kx);
    FilterLast(t2', y, rank, ky);
    var i := FilterWitness(t2, rank, kx);
    var j := FilterWitness(t1, rank, ky);
    assert !less(ky, kx) by {
      if i < |t2| - 1 {
        assert !Before(rank, less, y, t2[i]);
      }
    }
    assert !less(kx, ky) by {
      if j < |t1| - 1 {
        assert !Before(rank, less, x, t1[j]);
      }
    }
    assert kx == ky;
    FilterLast(t2', y, rank, kx);
    var f1, f2 := Filter(t1, rank, kx), Filter(t2, rank, kx);
    assert f1 == f2;
    assert x == f1[|f1| - 1] && y == f2[|f2| - 1];
    forall k ensures Filter(t2', rank, k) == Filter(t1', rank, k) {
      FilterLast(t1', x, rank, k);
      FilterLast(t2', y, rank, k);
      assert Filter(t1, rank, k) == Filter(t2, rank, k);
      if k == kx {
        assert Filter(t1', rank, k) == f1[..|f1| - 1];
        assert Filter(t2', rank, k) == f2[..|f2| - 1];
      } else {
        assert Filter(t1', rank, k) == Filter(t1, rank, k);
        assert Filter(t2', rank, k) == Filter(t2, rank, k);
      }
    }
  }

  /** A non-empty list never has the same filters as the empty list. */
  lemma NonEmptyFilter<T, K>(t: seq<T>, rank: T -> K)
    requires |t| > 0
    ensures Filter(t, rank, rank(t[|t| - 1])) != Filter([], rank, rank(t[|t| - 1]))
  {
  }

  /** Two sorted lists that agree on every key's filter are equal. */
  lemma {:induction false} SortedFiltersEqual<T, K(!new)>(t1: seq<T>, t2: seq<T>, rank: T -> K, less: (K, K) -> bool)
    requires Irreflexive(less) && Connected(less)
    requires Sorted(t1, rank, less) && Sorted(t2, rank, less)
    requires Stable(t1, t2, rank)
    ensures t1 == t2
    decreases |t1|
  {
    if |t1| == 0 && |t2| == 0 {
    } else if |t1| == 0 {
      NonEmptyFilter(t2, rank);
      assert false;
    } else if |t2| == 0 {
      NonEmptyFilter(t1, rank);
      assert false;
    } else {
      SameLast(t1, t2, rank, less);
      var t1', t2' := t1[..|t1| - 1], t2[..|t2| - 1];
      assert Sorted(t1', rank, less) && Sorted(t2', rank, less);
      SortedFiltersEqual(t1', t2', rank, less);
      assert t1 == t1' + [t1[|t1| - 1]] && t2 == t2' + [t2[|t2| - 1]];
    }
  }

  /**
   * Any sorted, stable rearrangement of `s` is `SortByKey(s)`: the result
   * does not depend on which stable sort computes it.
   */
  lemma SortedStableUnique<T, K(!new)>(s: seq<T>, t: seq<T>, rank: T -> K, less: (K, K) -> bool)
    requires StrictTotalOrder(less) && Sorted(t, rank, less) && Stable(s, t, rank)
    ensures t == SortByKey(s, rank, less)
  {
    SortByKeySorted(s, rank, less);
    SortByKeyStable(s, rank, less);
    SortedFiltersEqual(t, SortByKey(s, rank, less), rank, less);
  }

  /** Sorting a list that is already sorted (the empty list among them) changes nothing. */
  lemma SortedUnchanged<T, K(!new)>(s: seq<T>, rank: T -> K, less: (K, K) -> bool)
    requires StrictTotalOrder(less) && Sorted(s, rank, less)
    ensures SortByKey(s, rank, less) == s
  {
    SortedStableUnique(s, s, rank, less);
  }

  /** Sorting twice is sorting once. */
  lemma SortIdempotent<T, K(!new)>(s: seq<T>, rank: T -> K, less: (K, K) -> bool)
    requires StrictTotalOrder(less)
    ensures SortByKey(SortByKey(s, rank, less), rank, less) == SortByKey(s, rank, less)
  {
    SortByKeySorted(s, rank, less);
    SortedUnchanged(SortByKey(s, rank, less), rank, less);
  }

  /**
   * Sorts `a` in place by insertion: each item moves left past the items
   * whose key is strictly greater than its own.
   */
  method Sort<T, K(!new)>(a: array<T>, rank: T -> K, less: (K, K) -> bool)
    modifies a
    ensures a[..] == SortByKey(old(a[..]), rank, less)
  {
    ghost var s := a[..];
    var i := 0;
    while i < a.Length
      invariant 0 <= i <= a.Length
      invariant a[..i] == SortByKey(s[..i], rank, less)
      invariant a[i..] == s[i..]
    {
      assert a[i] == s[i];
      InsertLast(a, i, rank, less);
      assert s[..i + 1][..i] == s[..i];
      assert a[i + 1..] == s[i + 1..];
      i := i + 1;
    }
    assert a[..] == a[..a.Length] && s == s[..a.Length];
  }

  /** Moves `a[i]` left into the prefix `a[..i]`, leaving `a[i + 1..]` alone. */
  method InsertLast<T, K>(a: array<T>, i: nat, rank: T -> K, less: (K, K) -> bool)
    requires i < a.Length
    modifies a
    ensures a[..i + 1] == Insert(old(a[..i]), old(a[i]), rank, less)
    ensures a[i + 1..] == old(a[i + 1..])
  {
    var x := a[i];
    ghost var p := a[..i];
    var j := i;
    while j > 0 && less(rank(x), rank(a[j - 1]))
      invariant 0 <= j <= i
      invariant a[..j] == p[..j]
      invariant a[j + 1..i + 1] == p[j..]
      invariant a[i + 1..] == old(a[i + 1..])
      invariant forall m :: j <= m < i ==> Before(rank, less, x, p[m])
    {
      a[j] := a[j - 1];
      j := j - 1;
    }
    a[j] := x;
    InsertAt(p, j, x, rank, less);
    assert a[..i + 1] == a[..j] + [a[j]] + a[j + 1..i + 1];
  }

  /**
   * `x` lands right after the last item of `p` that it does not sort before,
   * when every item from there on sorts after it.
   */
  lemma {:induction false} InsertAt<T, K>(p: seq<T>, j: nat, x: T, rank: T -> K, less: (K, K) -> bool)
    requires j <= |p| && (j == 0 || !Before(rank, less, x, p[j - 1]))
    requires forall m :: j <= m < |p| ==> Before(rank, less, x, p[m])
    ensures Insert(p, x, rank, less) == p[..j] + [x] + p[j..]
  {
    if j == |p| {
      assert p[..j] == p && p[j..] == [];
    } else {
      var p', last := p[..|p| - 1], p[|p| - 1];
      assert Before(rank, less, x, last);
      assert Insert(p, x, rank, less) == Insert(p', x, rank, less) + [last];
      assert forall m :: 0 <= m < |p'| ==> p'[m] == p[m];
      InsertAt(p', j, x, rank, less);
      assert p'[..j] == p[..j];
      assert p'[j..] + [last] == p[j..];
    }
  }
}
