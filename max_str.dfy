/**
 * `MaxStr`: the heap of Go strings whose `Less(i, j)` is `h[i] > h[j]`. The
 * heap invariant then says that no child is greater than its parent, so the
 * root is the lexicographically greatest string. The `up` and `down` that
 * its methods call are the loops of `MinStr`, run with this `Less`: the
 * class Heap.Heap with `less` set to Greater.
 */
module MaxStr {
  import opened Order
  import opened GoString
  import opened HeapSpec
  import opened HeapProps
  import H = Heap

  /** `MaxStr.Less`: string `>`. */
  predicate Greater(a: GoString, b: GoString) {
    LexLess(b, a)
  }

  /** `MaxStr(s)`: a slice of strings viewed as a max-heap; nothing is reordered. */
  method New(s: seq<GoString>) returns (hp: H.Heap<GoString>)
    ensures fresh(hp) && hp.less == Greater && hp.h == s
    ensures StrictWeakOrder(hp.less)
  {
    hp := new H.Heap(Greater, s);
    GreaterIsStrictTotalOrder();
    TotalIsWeak(Greater);
  }

  /** String `>` is a strict total order too, so every heap operation applies. */
  lemma {:induction false} GreaterIsStrictTotalOrder()
    ensures StrictTotalOrder(Greater)
  {
    LexLessIsStrictTotalOrder();
    forall a, b, c | Greater(a, b) && Greater(b, c) ensures Greater(a, c) {
      LexTransitive(c, b, a);
    }
  }

  /** The root of a valid max-heap is at least every element. */
  lemma {:induction false} RootIsMaximum(s: seq<GoString>)
    requires IsHeap(Greater, s) && |s| > 0
    ensures forall y :: y in s ==> y == s[0] || LexLess(y, s[0])
  {
    GreaterIsStrictTotalOrder();
    TotalIsWeak(Greater);
    RootFirstAll(Greater, s);
  }

  /**
   * `Pop` on a valid max-heap returns the old root, which is at least every
   * string left behind, and leaves a valid heap.
   */
  lemma {:induction false} PopReturnsMaximum(s: seq<GoString>)
    requires IsHeap(Greater, s) && |s| > 0
    ensures var (r, x) := PopSpec(Greater, s);
      && x == s[0] && IsHeap(Greater, r)
      && forall y :: y in r ==> y == x || LexLess(y, x)
  {
    GreaterIsStrictTotalOrder();
    TotalIsWeak(Greater);
    PopKeepsHeap(Greater, s);
    PopReturnsFirst(Greater, s);
  }

  /** Popping a valid max-heap until it is empty yields descending strings. */
  lemma {:induction false} PopAllDescending(s: seq<GoString>)
    requires IsHeap(Greater, s)
    ensures var r := PopAll(Greater, s);
      forall i, j :: 0 <= i < j < |r| ==> r[j] == r[i] || LexLess(r[j], r[i])
  {
    GreaterIsStrictTotalOrder();
    TotalIsWeak(Greater);
    PopAllSorted(Greater, s);
    var r := PopAll(Greater, s);
    forall i, j | 0 <= i < j < |r| ensures r[j] == r[i] || LexLess(r[j], r[i]) {
      assert !Greater(r[j], r[i]);
    }
  }

  /**
   * `Init` on strings in any order builds a valid max-heap of the same
   * strings, with the greatest at the root.
   */
  lemma {:induction false} InitBuildsMaxHeap(s: seq<GoString>)
    ensures var r := InitSpec(Greater, s);
      && IsHeap(Greater, r) && multiset(r) == multiset(s)
      && (|r| > 0 ==> forall y :: y in s ==> y == r[0] || LexLess(y, r[0]))
  {
    GreaterIsStrictTotalOrder();
    TotalIsWeak(Greater);
    InitMakesHeap(Greater, s);
    var r := InitSpec(Greater, s);
    if |r| > 0 {
      RootIsMaximum(r);
      forall y | y in s ensures y == r[0] || LexLess(y, r[0]) {
        assert y in multiset(s);
        assert y in r;
      }
    }
  }

  /**
   * `Init` on strings in any order, then popping until empty, yields them
   * in descending order: exactly the descending sequence `u` of those strings,
   * repeated strings included.
   */
  lemma {:induction false} InitThenPopAllDescending(t: seq<GoString>, u: seq<GoString>)
    requires forall i, j :: 0 <= i < j < |u| ==> u[j] == u[i] || LexLess(u[j], u[i])
    requires multiset(u) == multiset(t)
    ensures PopAll(Greater, InitSpec(Greater, t)) == u
  {
    DescendingIsSorted(u);
    GreaterIsStrictTotalOrder();
    InitThenPopAllSorts(Greater, t, u);
  }

  lemma {:induction false} DescendingIsSorted(u: seq<GoString>)
    requires forall i, j :: 0 <= i < j < |u| ==> u[j] == u[i] || LexLess(u[j], u[i])
    ensures SortedBy(Greater, u)
  {
    forall i, j | 0 <= i < j < |u| ensures !Greater(u[j], u[i]) {
      if u[i] == u[j] {
        LexIrreflexive(u[i]);
      } else {
        LexAsymmetric(u[j], u[i]);
      }
    }
  }

  /** A heap of `n` copies of one string is valid, and every pop returns that string. */
  lemma {:induction false} AllEqualPopsSame(v: GoString, n: nat)
    ensures IsHeap(Greater, seq(n, _ => v))
    ensures PopAll(Greater, seq(n, _ => v)) == seq(n, _ => v)
  {
    GreaterIsStrictTotalOrder();
    TotalIsWeak(Greater);
    ConstantHeap(Greater, v, n);
  }
}
