/**
 * Python compares lists and strings lexicographically: the first position
 * where the two differ decides, and a proper prefix is smaller. This module
 * defines that order once, over any element order, and proves that it is a
 * strict total order whenever the element order is one.
 */
module Lexicographic {

  ghost predicate Irreflexive<A(!new)>(less: (A, A) -> bool) {
    forall x :: !less(x, x)
  }

  ghost predicate Transitive<A(!new)>(less: (A, A) -> bool) {
    forall x, y, z :: less(x, y) && less(y, z) ==> less(x, z)
  }

  /** Any two distinct values are related one way or the other. */
  ghost predicate Connected<A(!new)>(less: (A, A) -> bool) {
    forall x, y :: x != y ==> less(x, y) || less(y, x)
  }

  /** `less` is irreflexive, transitive and relates any two distinct values. */
  ghost predicate StrictTotalOrder<A(!new)>(less: (A, A) -> bool) {
    Irreflexive(less) && Transitive(less) && Connected(less)
  }

  /** Lexicographic "strictly less than" induced by the element order `less`. */
  predicate LexLess<A(==)>(a: seq<A>, b: seq<A>, less: (A, A) -> bool) {
    if |a| == 0 then |b| > 0
    else if |b| == 0 then false
    else if a[0] != b[0] then less(a[0], b[0])
    else LexLess(a[1..], b[1..], less)
  }

  lemma {:induction false} LexIrreflexive<A(!new)>(a: seq<A>, less: (A, A) -> bool)
    requires StrictTotalOrder(less)
    ensures !LexLess(a, a, less)
  {
    if |a| > 0 {
      LexIrreflexive(a[1..], less);
    }
  }

  lemma {:induction false} LexTransitive<A(!new)>(a: seq<A>, b: seq<A>, c: seq<A>, less: (A, A) -> bool)
    requires StrictTotalOrder(less)
    requires LexLess(a, b, less) && LexLess(b, c, less)
    ensures LexLess(a, c, less)
  {
    if |a| > 0 && a[0] == b[0] && b[0] == c[0] {
      LexTransitive(a[1..], b[1..], c[1..], less);
    }
  }

  lemma {:induction false} LexTotal<A(!new)>(a: seq<A>, b: seq<A>, less: (A, A) -> bool)
    requires StrictTotalOrder(less)
    ensures a == b || LexLess(a, b, less) || LexLess(b, a, less)
  {
    if |a| > 0 && |b| > 0 && a[0] == b[0] {
      LexTotal(a[1..], b[1..], less);
      if a[1..] == b[1..] {
        assert a == [a[0]] + a[1..] && b == [b[0]] + b[1..];
      }
    }
  }
}
