/**
 * `MinInt64`: the heap of Go `int64` values whose `less(i, j)` is
 * `h[i] < h[j]`, so that the root is the smallest value.
 */
module MinInt64 {
  import opened Order
  import opened HeapSpec
  import opened HeapProps
  import H = Heap

  newtype int64 = x: int | -0x8000_0000_0000_0000 <= x < 0x8000_0000_0000_0000

  /** `MinInt64.less`: integer `<`. */
  predicate Less(a: int64, b: int64) {
    a < b
  }

  /** `MinInt64(s)`: a slice of integers viewed as a min-heap; nothing is reordered. */
  method New(s: seq<int64>) returns (hp: H.Heap<int64>)
    ensures fresh(hp) && hp.less == Less && hp.h == s
    ensures StrictWeakOrder(hp.less)
  {
    hp := new H.Heap(Less, s);
    LessIsStrictTotalOrder();
    TotalIsWeak(Less);
  }

  lemma {:induction false} LessIsStrictTotalOrder()
    ensures StrictTotalOrder(Less)
  {
  }

  /**
   * `Pop` on a valid heap returns the old root, which is at most every value
   * left behind, and leaves a valid heap.
   */
  lemma {:induction false} PopReturnsMinimum(s: seq<int64>)
    requires IsHeap(Less, s) && |s| > 0
    ensures var (r, x) := PopSpec(Less, s);
      && x == s[0] && IsHeap(Less, r)
      && forall y :: y in r ==> x <= y
  {
    LessIsStrictTotalOrder();
    TotalIsWeak(Less);
    PopKeepsHeap(Less, s);
    PopReturnsFirst(Less, s);
  }

  /** Popping a valid heap until it is empty yields a non-decreasing sequence. */
  lemma {:induction false} PopAllNonDecreasing(s: seq<int64>)
    requires IsHeap(Less, s)
    ensures var r := PopAll(Less, s);
      forall i, j :: 0 <= i < j < |r| ==> r[i] <= r[j]
  {
    LessIsStrictTotalOrder();
    TotalIsWeak(Less);
    PopAllSorted(Less, s);
  }

  /** The values 1, 2, ..., n. */
  function OneTo(n: nat): (r: seq<int64>)
    requires n < 0x7fff_ffff_ffff_ffff
    ensures |r| == n && forall k :: 0 <= k < n ==> r[k] as int == k + 1
  {
    seq(n, k requires 0 <= k < n => (k + 1) as int64)
  }

  /**
   * `Init` on the values 1 to n in any order, then popping until empty,
   * yields 1, 2, ..., n.
   */
  lemma {:induction false} InitThenPopAllCounts(t: seq<int64>, n: nat)
    requires n < 0x7fff_ffff_ffff_ffff
    requires multiset(t) == multiset(OneTo(n))
    ensures PopAll(Less, InitSpec(Less, t)) == OneTo(n)
  {
    LessIsStrictTotalOrder();
    var u := OneTo(n);
    assert SortedBy(Less, u);
    InitThenPopAllSorts(Less, t, u);
  }

  /** A heap of zeros is valid, and every pop returns 0. */
  lemma {:induction false} AllZeroPopsZero(n: nat)
    ensures IsHeap(Less, seq(n, _ => 0))
    ensures PopAll(Less, seq(n, _ => 0)) == seq(n, _ => 0)
  {
    LessIsStrictTotalOrder();
    TotalIsWeak(Less);
    ConstantHeap(Less, 0, n);
  }

  /** Go's `x *= 2` on `int64`: the product wraps around modulo 2^64. */
  function Double(x: int64): (r: int64)
    ensures (r as int - 2 * x as int) % 0x1_0000_0000_0000_0000 == 0
    ensures -0x4000_0000_0000_0000 <= x < 0x4000_0000_0000_0000 ==> r as int == 2 * x as int
  {
    ((2 * x as int + 0x8000_0000_0000_0000) % 0x1_0000_0000_0000_0000 - 0x8000_0000_0000_0000) as int64
  }

  /** Go's `x /= 2` on `int64`: truncates toward zero. */
  function Halve(x: int64): (r: int64)
    ensures x >= 0 ==> 0 <= x as int - 2 * r as int < 2
    ensures x < 0 ==> -2 < x as int - 2 * r as int <= 0
  {
    TruncDiv2(x as int) as int64
  }

  /**
   * Doubling or halving one slot of a valid heap in place, then `Fix` at
   * that slot, leaves a valid heap with only that value changed.
   */
  lemma {:induction false} FixAfterScaling(s: seq<int64>, i: nat, double: bool)
    requires IsHeap(Less, s) && i < |s|
    ensures var v := if double then Double(s[i]) else Halve(s[i]);
      var r := FixSpec(Less, s[i := v], i);
      IsHeap(Less, r) && multiset(r) == multiset(s) - multiset{s[i]} + multiset{v}
  {
    LessIsStrictTotalOrder();
    TotalIsWeak(Less);
    var v := if double then Double(s[i]) else Halve(s[i]);
    FixAfterOverwrite(Less, s, i, v);
  }
}
