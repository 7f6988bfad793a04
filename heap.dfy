/**
 * The heap as the Go code runs it: a slice that the methods change in
 * place. `Swap` writes two slots, `push` and `pop` append to and truncate
 * the slice, and `up`, `down` and the loop of `Init` are `for` loops over
 * indices. Each method is proved to leave exactly what its HeapSpec
 * function computes, and through the lemmas of HeapProps, to keep the heap
 * valid.
 *
 * One class serves the three concrete heaps: `less` is the element
 * comparison their `Less` methods apply to two slots.
 */
module Heap {
  import opened Order
  import HeapSpec
  import opened HeapProps

  class Heap<T(!new)> {
    /** The element order behind the type's `Less(i, j)`. */
    const less: (T, T) -> bool
    /** The slice. */
    var h: seq<T>

    /** Converting a slice to the heap type: no reordering happens. */
    constructor(less: (T, T) -> bool, h0: seq<T>)
      ensures this.less == less && h == h0
    {
      this.less := less;
      h := h0;
    }

    /** `Len()` */
    function Len(): nat
      reads this
    {
      |h|
    }

    /** `Less(i, j)` */
    predicate Less(i: nat, j: nat)
      reads this
      requires i < |h| && j < |h|
    {
      less(h[i], h[j])
    }

    /** `Swap(i, j)`: exchange two slots; nothing else changes. */
    method Swap(i: nat, j: nat)
      requires i < |h| && j < |h|
      modifies this
      ensures h == HeapSpec.Swap(old(h), i, j)
    {
      h := h[i := h[j]][j := h[i]];
    }

    /** `push(x)`: `append`. */
    method Append(x: T)
      modifies this
      ensures h == old(h) + [x]
    {
      h := h + [x];
    }

    /** `pop()`: cut off and return the last element. */
    method RemoveLast() returns (x: T)
      requires |h| > 0
      modifies this
      ensures h == old(h)[..|old(h)| - 1] && x == old(h)[|old(h)| - 1]
    {
      x := h[|h| - 1];
      h := h[..|h| - 1];
    }

    /** `up(j)`: swap toward the root while strictly before the parent. */
    method Up(j0: nat)
      requires j0 < |h|
      modifies this
      ensures h == HeapSpec.SiftUp(less, old(h), j0)
    {
      var j: nat := j0;
      while true
        invariant j < |h|
        invariant HeapSpec.SiftUp(less, h, j) == HeapSpec.SiftUp(less, old(h), j0)
        decreases j
      {
        var i := HeapSpec.Parent(j);
        if i == j || !Less(j, i) {
          break;
        }
        Swap(i, j);
        j := i;
      }
    }

    /**
     * `down(i0, n)`: swap toward the leaves below `n` while the smaller
     * child is strictly before; reports whether anything moved.
     */
    method Down(i0: nat, n: nat) returns (moved: bool)
      requires n <= |h|
      modifies this
      ensures h == HeapSpec.SiftDown(less, old(h), i0, n).0
      ensures moved == (HeapSpec.SiftDown(less, old(h), i0, n).1 > i0)
    {
      var i := i0;
      while true
        invariant n <= |h| && i0 <= i
        invariant HeapSpec.SiftDown(less, h, i, n).0 == HeapSpec.SiftDown(less, old(h), i0, n).0
        invariant HeapSpec.SiftDown(less, h, i, n).1 == HeapSpec.SiftDown(less, old(h), i0, n).1
        decreases n - i
      {
        var j1 := 2 * i + 1;
        if j1 >= n {
          break;
        }
        var j := PickChild(i, n);
        if !Less(j, i) {
          break;
        }
        Swap(i, j);
        i := j;
      }
      moved := i > i0;
    }

    /**
     * The child of `i` that `down` compares with: the left one, or the
     * right one when that is below `n` and strictly before the left one.
     */
    method PickChild(i: nat, n: nat) returns (j: nat)
      requires 2 * i + 1 < n <= |h|
      ensures j == HeapSpec.SmallerChild(less, h, i, n)
      ensures j < n && (j == 2 * i + 1 || j == 2 * i + 2)
      ensures j == 2 * i + 2 <==> 2 * i + 2 < n && less(h[2 * i + 2], h[2 * i + 1])
    {
      var j1 := 2 * i + 1;
      j := j1;
      var j2 := j1 + 1;
      if j2 < n && Less(j2, j1) {
        j := j2;
      }
    }

    /** `if !down(i, n) { up(i) }`, the step `Remove` and `Fix` share. */
    method DownOrUp(i: nat, n: nat)
      requires i < n <= |h|
      modifies this
      ensures h == HeapSpec.DownOrUp(less, old(h), i, n)
    {
      var moved := Down(i, n);
      if !moved {
        Up(i);
      }
      DownOrUpIs(less, old(h), i, n, h, moved);
    }

    /** `Init()`: `down(i, n)` for i = n/2-1 down to 0 (`for i := n/2 downto 0` visits exactly those). */
    method Init()
      requires StrictWeakOrder(less)
      modifies this
      ensures h == HeapSpec.InitSpec(less, old(h))
      ensures HeapSpec.IsHeap(less, h) && multiset(h) == multiset(old(h))
      ensures old(HeapSpec.IsHeap(less, h)) ==> h == old(h)
    {
      var n := |h|;
      for i: nat := n / 2 downto 0
        invariant |h| == n
        invariant HeapSpec.Heapify(less, h, i) == HeapSpec.InitSpec(less, old(h))
      {
        ghost var before := h;
        var _ := Down(i, n);
        HeapifyStep(less, before, i, n, h);
      }
      InitFacts(less, old(h), h);
    }

    /** `Push(x)`: `push(x)`, then `up` from the new last index. */
    method Push(x: T)
      requires StrictWeakOrder(less)
      modifies this
      ensures h == HeapSpec.PushSpec(less, old(h), x)
      ensures |h| == |old(h)| + 1 && multiset(h) == multiset(old(h)) + multiset{x}
      ensures old(HeapSpec.IsHeap(less, h)) ==> HeapSpec.IsHeap(less, h)
    {
      Append(x);
      Up(|h| - 1);
      if old(HeapSpec.IsHeap(less, h)) {
        PushKeepsHeap(less, old(h), x);
      }
    }

    /** `Pop()`: move the root to the end, `down` from the root, then `pop()`. */
    method Pop() returns (x: T)
      requires StrictWeakOrder(less)
      requires |h| > 0
      modifies this
      ensures (h, x) == HeapSpec.PopSpec(less, old(h))
      ensures x == old(h)[0] && multiset(h) + multiset{x} == multiset(old(h))
      ensures old(HeapSpec.IsHeap(less, h)) ==> HeapSpec.IsHeap(less, h) && forall y :: y in h ==> !less(y, x)
    {
      var n := |h| - 1;
      Swap(0, n);
      var _ := Down(0, n);
      x := RemoveLast();
      if old(HeapSpec.IsHeap(less, h)) {
        PopKeepsHeap(less, old(h));
        PopReturnsFirst(less, old(h));
      }
    }

    /** `Remove(i)`: move slot `i` to the end, restore it with down-or-up, then `pop()`. */
    method Remove(i: nat) returns (x: T)
      requires StrictWeakOrder(less)
      requires i < |h|
      modifies this
      ensures (h, x) == HeapSpec.RemoveSpec(less, old(h), i)
      ensures x == old(h)[i] && multiset(h) + multiset{x} == multiset(old(h))
      ensures i == |old(h)| - 1 ==> h == old(h)[..i]
      ensures old(HeapSpec.IsHeap(less, h)) ==> HeapSpec.IsHeap(less, h)
    {
      var n := |h| - 1;
      if n != i {
        Swap(i, n);
        DownOrUp(i, n);
        assert h == HeapSpec.DownOrUp(less, HeapSpec.Swap(old(h), i, n), i, n);
      } else {
        assert h == old(h);
      }
      ghost var t := h;
      x := RemoveLast();
      RemoveSpecIs(less, old(h), i, t, h, x);
      if old(HeapSpec.IsHeap(less, h)) {
        RemoveKeepsHeap(less, old(h), i);
      }
    }

    /** `Fix(i)`: `down(i, len)`, and `up(i)` if that moved nothing. */
    method Fix(i: nat)
      requires StrictWeakOrder(less)
      requires i < |h|
      modifies this
      ensures h == HeapSpec.FixSpec(less, old(h), i)
      ensures multiset(h) == multiset(old(h))
      ensures old(HeapSpec.HoleAt(less, h, i)) ==> HeapSpec.IsHeap(less, h)
    {
      DownOrUp(i, |h|);
      if old(HeapSpec.HoleAt(less, h, i)) {
        FixRestoresHeap(less, old(h), i);
      }
    }
  }
}
