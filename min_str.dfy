/**
 * `MinStr`: the heap of Go strings whose `Less(i, j)` is `h[i] < h[j]`, so
 * that the root is the lexicographically smallest string.
 */
module MinStr {
  import opened Order
  import opened GoString
  import opened HeapSpec
  import opened HeapProps
  import H = Heap

  /** `MinStr(s)`: a slice of strings viewed as a min-heap; nothing is reordered. */
  method New(s: seq<GoString>) returns (hp: H.Heap<GoString>)
    ensures fresh(hp) && hp.less == LexLess && hp.h == s
    ensures StrictWeakOrder(hp.less)
  {
    hp := new H.Heap(LexLess, s);
    LessIsStrictWeakOrder();
  }

  /** Every heap operation's requirement on `Less` holds for string `<`. */
  lemma {:induction false} LessIsStrictWeakOrder()
    ensures StrictWeakOrder(LexLess)
  {
    LexLessIsStrictTotalOrder();
    TotalIsWeak(LexLess);
  }

  /** The root of a valid min-heap is lexicographically at most every element. */
  lemma {:induction false} RootIsMinimum(s: seq<GoString>)
    requires IsHeap(LexLess, s) && |s| > 0
    ensures forall y :: y in s ==> s[0] == y || LexLess(s[0], y)
  {
    LexLessIsStrictTotalOrder();
    TotalIsWeak(LexLess);
    RootFirstAll(LexLess, s);
  }

  /**
   * `Pop` on a valid min-heap returns the old root, which is at most every
   * string left behind, and leaves a valid heap.
   */
  lemma {:induction false} PopReturnsMinimum(s: seq<GoString>)
    requires IsHeap(LexLess, s) && |s| > 0
    ensures var (r, x) := PopSpec(LexLess, s);
      && x == s[0] && IsHeap(LexLess, r)
      && forall y :: y in r ==> x == y || LexLess(x, y)
  {
    LexLessIsStrictTotalOrder();
    TotalIsWeak(LexLess);
    PopKeepsHeap(LexLess, s);
    PopReturnsFirst(LexLess, s);
  }

  /** Popping a valid min-heap until it is empty yields ascending strings. */
  lemma {:induction false} PopAllAscending(s: seq<GoString>)
    requires IsHeap(LexLess, s)
    ensures var r := PopAll(LexLess, s);
      forall i, j :: 0 <= i < j < |r| ==> r[i] == r[j] || LexLess(r[i], r[j])
  {
    LexLessIsStrictTotalOrder();
    TotalIsWeak(LexLess);
    PopAllSorted(LexLess, s);
    var r := PopAll(LexLess, s);
    forall i, j | 0 <= i < j < |r| ensures r[i] == r[j] || LexLess(r[i], r[j]) {
      assert !LexLess(r[j], r[i]);
    }
  }

  /**
   * `Init` on strings in any order, then popping until empty, yields them
   * in ascending order: exactly the ascending sequence `u` of those strings,
   * repeated strings included.
   */
  lemma {:induction false} InitThenPopAllAscending(t: seq<GoString>, u: seq<GoString>)
    requires forall i, j :: 0 <= i < j < |u| ==> u[i] == u[j] || LexLess(u[i], u[j])
    requires multiset(u) == multiset(t)
    ensures PopAll(LexLess, InitSpec(LexLess, t)) == u
  {
    AscendingIsSorted(u);
    LexLessIsStrictTotalOrder();
    InitThenPopAllSorts(LexLess, t, u);
  }

  lemma {:induction false} AscendingIsSorted(u: seq<GoString>)
    requires forall i, j :: 0 <= i < j < |u| ==> u[i] == u[j] || LexLess(u[i], u[j])
    ensures SortedBy(LexLess, u)
  {
    forall i, j | 0 <= i < j < |u| ensures !LexLess(u[j], u[i]) {
      if u[i] == u[j] {
        LexIrreflexive(u[i]);
      } else {
        LexAsymmetric(u[i], u[j]);
      }
    }
  }

  /** A heap of `n` copies of one string is valid, and every pop returns that string. */
  lemma {:induction false} AllEqualPopsSame(v: GoString, n: nat)
    ensures IsHeap(LexLess, seq(n, _ => v))
    ensures PopAll(LexLess, seq(n, _ => v)) == seq(n, _ => v)
  {
    LessIsStrictWeakOrder();
    ConstantHeap(LexLess, v, n);
  }
}
