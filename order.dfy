/**
 * Orderings used by the heap. Go's heap only ever asks `Less(i, j)`; the
 * algorithm is correct for any strict weak order, and the three concrete
 * heaps use strict total orders (bytewise `<` and `>` on strings, `<` on
 * 64-bit integers).
 */
module Order {

  /**
   * A term that only explicit proof steps mention. It is the trigger of the
   * three-element laws below, so that the solver applies them when a proof
   * asks for it (through LessTrans and NotLessTrans) and not to every pair
   * of comparisons in sight.
   */
  ghost predicate Triple<T>(a: T, b: T, c: T) {
    true
  }

  /** Irreflexive, transitive, and "not less" is transitive too. */
  ghost predicate StrictWeakOrder<T(!new)>(less: (T, T) -> bool) {
    && (forall a :: !less(a, a))
    && (forall a, b, c {:trigger Triple(a, b, c)} :: less(a, b) && less(b, c) ==> less(a, c))
    && (forall a, b, c {:trigger Triple(a, b, c)} :: !less(a, b) && !less(b, c) ==> !less(a, c))
  }

  lemma {:induction false} LessTrans<T(!new)>(less: (T, T) -> bool, a: T, b: T, c: T)
    requires StrictWeakOrder(less) && less(a, b) && less(b, c)
    ensures less(a, c)
  {
    assert Triple(a, b, c);
  }

  lemma {:induction false} NotLessTrans<T(!new)>(less: (T, T) -> bool, a: T, b: T, c: T)
    requires StrictWeakOrder(less) && !less(a, b) && !less(b, c)
    ensures !less(a, c)
  {
    assert Triple(a, b, c);
  }

  lemma {:induction false} Asymmetric<T(!new)>(less: (T, T) -> bool, a: T, b: T)
    requires StrictWeakOrder(less) && less(a, b)
    ensures !less(b, a)
  {
    if less(b, a) {
      LessTrans(less, a, b, a);
    }
  }

  /** Irreflexive, transitive, and any two distinct values are comparable. */
  ghost predicate StrictTotalOrder<T(!new)>(less: (T, T) -> bool) {
    && (forall a :: !less(a, a))
    && (forall a, b, c :: less(a, b) && less(b, c) ==> less(a, c))
    && (forall a, b :: a != b ==> less(a, b) || less(b, a))
  }

  lemma {:induction false} TotalIsWeak<T(!new)>(less: (T, T) -> bool)
    requires StrictTotalOrder(less)
    ensures StrictWeakOrder(less)
  {
    forall a, b, c | less(a, b) && less(b, c) ensures less(a, c) {
    }
    forall a, b, c | !less(a, b) && !less(b, c) ensures !less(a, c) {
    }
  }

  /** No later element is strictly before an earlier one. */
  ghost predicate SortedBy<T>(less: (T, T) -> bool, s: seq<T>) {
    forall i, j :: 0 <= i < j < |s| ==> !less(s[j], s[i])
  }

  /** The head of a sorted sequence is before-or-tied with every element. */
  lemma {:induction false} SortedHeadFirst<T(!new)>(less: (T, T) -> bool, a: seq<T>, x: T)
    requires StrictWeakOrder(less)
    requires SortedBy(less, a) && x in a
    ensures !less(x, a[0])
  {
    var k :| 0 <= k < |a| && a[k] == x;
    if k > 0 {
      assert !less(a[k], a[0]);
    }
  }

  lemma {:induction false} SortedTail<T>(less: (T, T) -> bool, a: seq<T>)
    requires SortedBy(less, a) && a != []
    ensures SortedBy(less, a[1..])
  {
    forall i, j | 0 <= i < j < |a| - 1
      ensures !less(a[1..][j], a[1..][i])
    {
      assert a[1..][j] == a[j + 1] && a[1..][i] == a[i + 1];
    }
  }

  /**
   * Under a strict total order, a sorted sequence is determined by its
   * multiset of elements.
   */
  lemma {:induction false} SortedUnique<T(!new)>(less: (T, T) -> bool, a: seq<T>, b: seq<T>)
    requires StrictTotalOrder(less)
    requires SortedBy(less, a) && SortedBy(less, b)
    requires multiset(a) == multiset(b)
    ensures a == b
    decreases |a|
  {
    if a == [] {
      assert |multiset(b)| == 0;
    } else {
      assert |b| == |multiset(b)| == |a|;
      assert a[0] in multiset(b) && b[0] in multiset(a);
      SortedHeadFirst(less, b, a[0]);
      SortedHeadFirst(less, a, b[0]);
      assert a[0] == b[0];
      assert a == [a[0]] + a[1..];
      assert b == [b[0]] + b[1..];
      assert multiset(a[1..]) == multiset(a) - multiset{a[0]};
      assert multiset(b[1..]) == multiset(b) - multiset{b[0]};
      SortedTail(less, a);
      SortedTail(less, b);
      SortedUnique(less, a[1..], b[1..]);
    }
  }
}
