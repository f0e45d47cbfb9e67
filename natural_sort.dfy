/**
 * `natural_sort(list, key)` (libs/utils.py): builds the alphanumeric sort key
 * of `key(item)` and hands it to `list.sort`, which reorders the caller's
 * list in place, stably.
 */
module NaturalSort {
  import opened Lexicographic
  import opened AlphanumKey
  import opened StableSort

  /** `get_alphanum_key_func(key)`: the alphanumeric key of `key(item)`. */
  function AlphanumRank<T>(key: T -> string): T -> seq<Piece> {
    x => SplitKey(key(x))
  }

  /** The list as `natural_sort(list, key)` leaves it. */
  function NaturalSorted<T>(s: seq<T>, key: T -> string): seq<T> {
    SortByKey(s, AlphanumRank(key), KeyLess)
  }

  /**
   * The result is a permutation of the input, non-decreasing by key, and
   * keeps items with equal keys in their original order.
   */
  lemma NaturalSortedSpec<T>(s: seq<T>, key: T -> string)
    ensures multiset(NaturalSorted(s, key)) == multiset(s)
    ensures Sorted(NaturalSorted(s, key), AlphanumRank(key), KeyLess)
    ensures Stable(s, NaturalSorted(s, key), AlphanumRank(key))
  {
    KeyLessStrictTotal();
    SortByKeyPermutes(s, AlphanumRank(key), KeyLess);
    SortByKeySorted(s, AlphanumRank(key), KeyLess);
    SortByKeyStable(s, AlphanumRank(key), KeyLess);
  }

  /** Any sorted, stable rearrangement is the result of `natural_sort`. */
  lemma NaturalSortedUnique<T>(s: seq<T>, t: seq<T>, key: T -> string)
    requires Sorted(t, AlphanumRank(key), KeyLess) && Stable(s, t, AlphanumRank(key))
    ensures t == NaturalSorted(s, key)
  {
    KeyLessStrictTotal();
    SortedStableUnique(s, t, AlphanumRank(key), KeyLess);
  }

  /** An already sorted list, the empty list among them, comes back unchanged. */
  lemma NaturalSortedUnchanged<T>(s: seq<T>, key: T -> string)
    requires Sorted(s, AlphanumRank(key), KeyLess)
    ensures NaturalSorted(s, key) == s
  {
    KeyLessStrictTotal();
    SortedUnchanged(s, AlphanumRank(key), KeyLess);
  }

  lemma NaturalSortedIdempotent<T>(s: seq<T>, key: T -> string)
    ensures NaturalSorted(NaturalSorted(s, key), key) == NaturalSorted(s, key)
  {
    KeyLessStrictTotal();
    SortIdempotent(s, AlphanumRank(key), KeyLess);
  }

  /** `natural_sort` on an array standing for the caller's list. */
  method Sort<T>(a: array<T>, key: T -> string)
    modifies a
    ensures a[..] == NaturalSorted(old(a[..]), key)
    ensures multiset(a[..]) == multiset(old(a[..]))
    ensures Sorted(a[..], AlphanumRank(key), KeyLess)
    ensures Stable(old(a[..]), a[..], AlphanumRank(key))
  {
    StableSort.Sort(a, AlphanumRank(key), KeyLess);
    NaturalSortedSpec(old(a[..]), key);
  }

  /** `natural_sort(["item10", "item2", "item1"])` gives `["item1", "item2", "item10"]`. */
  lemma ItemsExample()
    ensures NaturalSorted(["item10", "item2", "item1"], s => s) == ["item1", "item2", "item10"]
  {
    ItemOneBeforeItemTwo();
    ItemTwoBeforeItemTen();
    ItemOneBeforeItemTen();
    SortDescendingThree("item10", "item2", "item1", AlphanumRank((s: string) => s), KeyLess);
  }

  /** "a7" and "a07" have equal keys, so whichever comes first stays first. */
  lemma EqualKeysKeepOrder()
    ensures NaturalSorted(["a7", "a07"], s => s) == ["a7", "a07"]
    ensures NaturalSorted(["a07", "a7"], s => s) == ["a07", "a7"]
  {
    LeadingZerosEqualKeys();
    KeyLessIrreflexive(SplitKey("a7"));
    SortEqualTwo("a7", "a07", AlphanumRank((s: string) => s), KeyLess);
    SortEqualTwo("a07", "a7", AlphanumRank((s: string) => s), KeyLess);
  }
}
