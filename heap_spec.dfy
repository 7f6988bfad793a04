/**
 * The array-backed binary heap of Go's container/heap, as functions on
 * sequences: each function computes exactly what the corresponding Go
 * routine leaves in the slice (and what it returns). The in-place methods of
 * module Heap are proved equal to these functions; the properties of the
 * heap are proved here, as lemmas about them.
 *
 * The heap is a sequence `s`; index `c > 0` has parent `Parent(c)`, index
 * `p` has children `2p+1` and `2p+2`. `less` plays the role of the Go type's
 * `Less` method, applied to the two elements rather than to two indices.
 */
module HeapSpec {
  import opened Order

  // ---------------------------------------------------------------------
  // Index arithmetic and the primitives

  /** Go's `/` on `int`: truncates toward zero (Dafny's `/` is Euclidean). */
  function TruncDiv2(a: int): (q: int)
    ensures a >= 0 ==> 0 <= a - 2 * q < 2
    ensures a < 0 ==> -2 < a - 2 * q <= 0
  {
    if a >= 0 then a / 2 else -((-a) / 2)
  }

  /** `(j - 1) / 2` as Go computes it: the root is its own parent. */
  function Parent(j: nat): (p: nat)
    ensures j == 0 ==> p == 0
    ensures j > 0 ==> p < j && (j == 2 * p + 1 || j == 2 * p + 2)
  {
    TruncDiv2(j - 1)
  }

  /** `Swap(i, j)`: exchange two slots. */
  function Swap<T>(s: seq<T>, i: nat, j: nat): (r: seq<T>)
    requires i < |s| && j < |s|
    ensures |r| == |s| && r[i] == s[j] && r[j] == s[i]
    ensures forall k {:trigger r[k]} :: 0 <= k < |s| && k != i && k != j ==> r[k] == s[k]
    ensures multiset(r) == multiset(s)
  {
    var r := seq(|s|, k requires 0 <= k < |s| => if k == j then s[i] else if k == i then s[j] else s[k]);
    assert r == s[i := s[j]][j := s[i]];
    r
  }

  // ---------------------------------------------------------------------
  // The heap invariant

  /** The element at child index `c` is not strictly before its parent's. */
  ghost predicate PairOk<T>(less: (T, T) -> bool, s: seq<T>, c: nat)
    requires 0 < c < |s|
  {
    !less(s[c], s[Parent(c)])
  }

  /** The heap invariant on the first `n` elements. */
  ghost predicate IsHeapBelow<T>(less: (T, T) -> bool, s: seq<T>, n: nat)
    requires n <= |s|
  {
    forall c :: 0 < c < n ==> PairOk(less, s, c)
  }

  ghost predicate IsHeap<T>(less: (T, T) -> bool, s: seq<T>) {
    IsHeapBelow(less, s, |s|)
  }

  /** The test helper `verify`: checks both children of `i`, then recurses. */
  ghost predicate Verify<T>(less: (T, T) -> bool, s: seq<T>, i: nat)
    decreases |s| - i
  {
    && (2 * i + 1 < |s| ==> !less(s[2 * i + 1], s[i]) && Verify(less, s, 2 * i + 1))
    && (2 * i + 2 < |s| ==> !less(s[2 * i + 2], s[i]) && Verify(less, s, 2 * i + 2))
  }

  /** No child of `p` below bound `n` is strictly before the element at `a`. */
  ghost predicate ChildrenNotBefore<T>(less: (T, T) -> bool, s: seq<T>, p: nat, a: nat, n: nat)
    requires n <= |s| && a < |s|
  {
    && (2 * p + 1 < n ==> !less(s[2 * p + 1], s[a]))
    && (2 * p + 2 < n ==> !less(s[2 * p + 2], s[a]))
  }

  /**
   * The heap below `n` with a hole at `i`: every parent-child pair that does
   * not involve `i` is in order, and the children of `i` are in order with
   * the parent of `i`. This is what overwriting `s[i]` in a heap leaves.
   */
  ghost predicate HoleBelow<T>(less: (T, T) -> bool, s: seq<T>, i: nat, n: nat)
    requires i < n <= |s|
  {
    && (forall c :: 0 < c < n && c != i && Parent(c) != i ==> PairOk(less, s, c))
    && (i > 0 ==> ChildrenNotBefore(less, s, i, Parent(i), n))
  }

  ghost predicate HoleAt<T>(less: (T, T) -> bool, s: seq<T>, i: nat)
    requires i < |s|
  {
    HoleBelow(less, s, i, |s|)
  }

  // ---------------------------------------------------------------------
  // up and down

  /** `up(j)`: swap `j` with its parent while it is strictly before it. */
  function SiftUp<T>(less: (T, T) -> bool, s: seq<T>, j: nat): (r: seq<T>)
    requires j < |s|
    ensures |r| == |s| && multiset(r) == multiset(s)
    ensures forall k {:trigger r[k]} :: j < k < |s| ==> r[k] == s[k]
    decreases j
  {
    var i := Parent(j);
    if i == j || !less(s[j], s[i]) then s
    else SiftUp(less, Swap(s, i, j), i)
  }

  /**
   * `down(i, n)`: swap `i` with its smaller child below `n` while that child
   * is strictly before it. The result is the final slice and the final
   * index; Go's `down` returns whether that index moved past the start.
   */
  function SiftDown<T>(less: (T, T) -> bool, s: seq<T>, i: nat, n: nat): (r: (seq<T>, nat))
    requires n <= |s|
    ensures |r.0| == |s| && multiset(r.0) == multiset(s)
    ensures i <= r.1 && (r.1 > i ==> r.1 < n)
    ensures r.1 == i ==> r.0 == s
    decreases n - i
  {
    if 2 * i + 1 >= n then (s, i)
    else
      var j := SmallerChild(less, s, i, n);
      if !less(s[j], s[i]) then (s, i)
      else SiftDown(less, Swap(s, i, j), j, n)
  }

  /** The child `down` compares with: the right one only if it is strictly before the left. */
  function SmallerChild<T>(less: (T, T) -> bool, s: seq<T>, i: nat, n: nat): (j: nat)
    requires 2 * i + 1 < n <= |s|
    ensures j < n && (j == 2 * i + 1 || j == 2 * i + 2)
  {
    var j1 := 2 * i + 1;
    if j1 + 1 < n && less(s[j1 + 1], s[j1]) then j1 + 1 else j1
  }

  /**
   * `down(i, n)` writes only slots from `i` up to `n`, and when it moves
   * anything, what it leaves at `i` is strictly before what was there.
   */
  lemma {:induction false} SiftDownFrame<T>(less: (T, T) -> bool, s: seq<T>, i: nat, n: nat)
    requires n <= |s|
    ensures var r := SiftDown(less, s, i, n);
      forall k :: 0 <= k < |s| && (k < i || n <= k) ==> r.0[k] == s[k]
    ensures var r := SiftDown(less, s, i, n); r.1 > i ==> less(r.0[i], s[i])
    decreases n - i
  {
    if 2 * i + 1 < n {
      var j := SmallerChild(less, s, i, n);
      if less(s[j], s[i]) {
        SiftDownFrame(less, Swap(s, i, j), j, n);
      }
    }
  }

  /**
   * `down(i0, n)` reads no slot at or above `n`: two slices that agree below
   * `n` end at the same index and agree below `n` afterwards.
   */
  lemma {:induction false} SiftDownReadsBelow<T>(less: (T, T) -> bool, s: seq<T>, t: seq<T>, i: nat, n: nat)
    requires n <= |s| && n <= |t| && s[..n] == t[..n]
    ensures SiftDown(less, s, i, n).1 == SiftDown(less, t, i, n).1
    ensures SiftDown(less, s, i, n).0[..n] == SiftDown(less, t, i, n).0[..n]
    decreases n - i
  {
    if 2 * i + 1 < n {
      assert forall k :: 0 <= k < n ==> s[k] == s[..n][k] == t[..n][k] == t[k];
      var j := SmallerChild(less, s, i, n);
      assert j == SmallerChild(less, t, i, n);
      if less(s[j], s[i]) {
        var s', t' := Swap(s, i, j), Swap(t, i, j);
        assert s'[..n] == t'[..n] by {
          assert forall k :: 0 <= k < n ==> s'[..n][k] == t'[..n][k];
        }
        SiftDownReadsBelow(less, s', t', j, n);
      }
    }
  }

  // ---------------------------------------------------------------------
  // The public operations

  /** The heapify loop of `Init`: `down(i, |s|)` for i = k-1 down to 0. */
  function Heapify<T>(less: (T, T) -> bool, s: seq<T>, k: nat): (r: seq<T>)
    ensures |r| == |s| && multiset(r) == multiset(s)
    decreases k
  {
    if k == 0 then s
    else Heapify(less, SiftDown(less, s, k - 1, |s|).0, k - 1)
  }

  /** `Init`. */
  function InitSpec<T>(less: (T, T) -> bool, s: seq<T>): (r: seq<T>)
    ensures |r| == |s| && multiset(r) == multiset(s)
  {
    Heapify(less, s, |s| / 2)
  }

  /** `Push(x)`: append, then `up` from the new last index. */
  function PushSpec<T>(less: (T, T) -> bool, s: seq<T>, x: T): (r: seq<T>)
    ensures |r| == |s| + 1 && multiset(r) == multiset(s) + multiset{x}
  {
    var t := s + [x];
    SiftUp(less, t, |t| - 1)
  }

  /** `Pop()`: the remaining slice and the returned element. */
  function PopSpec<T>(less: (T, T) -> bool, s: seq<T>): (r: (seq<T>, T))
    requires |s| > 0
    ensures |r.0| == |s| - 1 && r.1 == s[0]
    ensures multiset(r.0) + multiset{r.1} == multiset(s)
  {
    var n := |s| - 1;
    var t := SiftDown(less, Swap(s, 0, n), 0, n).0;
    SiftDownFrame(less, Swap(s, 0, n), 0, n);
    assert t == t[..n] + [t[n]];
    (t[..n], t[n])
  }

  /**
   * The step shared by `Remove` and `Fix`: `if !down(i, n) { up(i) }`.
   * Slots at and above `n` are left alone.
   */
  function DownOrUp<T>(less: (T, T) -> bool, s: seq<T>, i: nat, n: nat): (r: seq<T>)
    requires i < n <= |s|
    ensures |r| == |s| && multiset(r) == multiset(s)
  {
    var d := SiftDown(less, s, i, n);
    if !(d.1 > i) then SiftUp(less, d.0, i) else d.0
  }

  /** Down-or-up below `n` leaves the slots at and above `n` alone. */
  lemma {:induction false} DownOrUpFrame<T>(less: (T, T) -> bool, s: seq<T>, i: nat, n: nat)
    requires n <= |s|
    ensures i < n ==> forall k :: n <= k < |s| ==> DownOrUp(less, s, i, n)[k] == s[k]
  {
    SiftDownFrame(less, s, i, n);
  }

  /** `Remove(i)`: the remaining slice and the returned element. */
  function RemoveSpec<T>(less: (T, T) -> bool, s: seq<T>, i: nat): (r: (seq<T>, T))
    requires i < |s|
    ensures |r.0| == |s| - 1 && r.1 == s[i]
    ensures multiset(r.0) + multiset{r.1} == multiset(s)
    ensures i == |s| - 1 ==> r.0 == s[..i]
  {
    var n := |s| - 1;
    var t :=
      if n != i then DownOrUp(less, Swap(s, i, n), i, n) else s;
    DownOrUpFrame(less, Swap(s, i, n), i, n);
    assert t == t[..n] + [t[n]];
    (t[..n], t[n])
  }

  /** `Fix(i)`: `down(i, len)`, and `up(i)` if that moved nothing. */
  function FixSpec<T>(less: (T, T) -> bool, s: seq<T>, i: nat): (r: seq<T>)
    requires i < |s|
    ensures |r| == |s| && multiset(r) == multiset(s)
  {
    DownOrUp(less, s, i, |s|)
  }

  /** Pop until empty, collecting the popped elements in order. */
  function PopAll<T>(less: (T, T) -> bool, s: seq<T>): (r: seq<T>)
    ensures |r| == |s| && multiset(r) == multiset(s)
    decreases |s|
  {
    if |s| == 0 then []
    else
      var p := PopSpec(less, s);
      [p.1] + PopAll(less, p.0)
  }

  /** Remove at index (len-1)/2 until empty, collecting the removed elements. */
  function RemoveMiddleAll<T>(less: (T, T) -> bool, s: seq<T>): (r: seq<T>)
    ensures |r| == |s| && multiset(r) == multiset(s)
    decreases |s|
  {
    if |s| == 0 then []
    else
      var p := RemoveSpec(less, s, (|s| - 1) / 2);
      [p.1] + RemoveMiddleAll(less, p.0)
  }
}
