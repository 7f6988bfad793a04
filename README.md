# A verified model of the heap package `hnakamur/heap`

The package provides binary heaps made concrete per element type. Each one is
a Go slice type with the operations of Go's `container/heap` written out as
methods. The three types modelled here are:

- `MinStr`: strings, smallest first.
- `MaxStr`: strings, greatest first.
- `MinInt64`: 64-bit integers, smallest first.

The heap is a slice `h`. The children of index `i` are `2i+1` and `2i+2`.
The invariant is that no child is `Less` than its parent. `up(j)` sifts an
element toward the root. `down(i0, n)` sifts one toward the leaves within
the bound `n` and reports whether it moved. `Init`, `Push`, `Pop`, `Remove`
and `Fix` are built from those two and from the slice primitives `Swap`,
`push` (append) and `pop` (truncate and return the last element).

The Dafny project has these parts:

- `order.dfy` (module `Order`): strict weak and strict total orders, and
  sorted sequences. The algorithm is proved once, for any strict weak order.
- `heap_spec.dfy` (module `HeapSpec`): each Go routine as a function on
  sequences, computing exactly what the routine leaves in the slice and what
  it returns.
- `heap_props.dfy` (module `HeapProps`): the properties of those functions.
  - Every operation keeps the invariant. `Init` and `Fix` keep the multiset
    of elements; `Push`, `Pop` and `Remove` add or remove exactly the one
    element concerned.
  - `Pop` returns an element that no remaining one is before.
  - Popping until empty yields sorted order.
  - `Pop` is `Remove(0)`.
  - Overwriting a slot and calling `Fix` there restores the invariant.
- `heap.dfy` (module `Heap`): the class `Heap.Heap<T>`. It holds the slice as
  a field and has the Go methods as in-place methods with the same loops.
  `Swap`, `Up`, `Down`, `DownOrUp` and the public operations are proved to
  leave exactly what their `HeapSpec` functions compute. `Append` and
  `RemoveLast` give their new state directly, and `PickChild` changes
  nothing. The public operations (`Init`, `Push`, `Pop`, `Remove`, `Fix`)
  also state the heap facts directly.
- `go_string.dfy` (module `GoString`): Go strings as byte sequences, with
  Go's `<` on them (bytewise lexicographic). This order is proved equal to the
  first-difference definition and proved to be a strict total order.
- `min_str.dfy`, `max_str.dfy`, `min_int64.dfy`: the three concrete heaps.
  Each supplies the element order of its `Less` method, proves that order
  meets the algorithm's requirement, and states the type's own promises. Two
  examples: `MaxStr`'s root is the greatest string, and `MinInt64` pops 1 to
  n in order.

One algorithm, proved once, serves the three types. They differ only in the
comparison each type's `Less` makes between two slots, so the class takes that
comparison as the constant `less` of two elements.

## Model

| member | source | states |
|---|---|---|
| HeapSpec.TruncDiv2 | min_str.go:94 | Go's integer division by 2 truncates toward zero, also for negative operands |
| HeapSpec.Parent | min_str.go:94 | `(j-1)/2` with truncation: the root is its own parent; any other index is a child `2p+1` or `2p+2` of a smaller `p` |
| HeapSpec.Swap | min_str.go:29 | exactly slots `i` and `j` are exchanged; every other slot, the length and the multiset are unchanged |
| HeapSpec.SiftUp | min_str.go:92-101 | `up(j)` keeps the length and multiset and never changes a slot above `j` |
| HeapSpec.SiftDown | min_str.go:103-121 | `down(i0, n)` keeps the length and multiset; the final index is at least `i0` and below `n` when it moved; nothing changes when it did not move |
| HeapSpec.SmallerChild | min_str.go:110-113 | the child `down` compares with is `2i+1` or `2i+2`, below `n` |
| HeapSpec.SiftDownReadsBelow | min_int64.go:73-91 | `down(i0, n)` reads no slot at or above `n`: slices that agree below `n` end at the same index and agree below `n` afterwards |
| HeapSpec.SiftDownFrame | min_str.go:103-121 | `down(i0, n)` changes no slot below `i0` or at and above `n`; when it moves, the new element at `i0` is strictly before the old one |
| HeapSpec.Heapify | min_str.go:38-40 | the heapify loop keeps the length and multiset |
| HeapSpec.InitSpec | min_str.go:35-41 | `Init` keeps the length and multiset |
| HeapSpec.PushSpec | min_str.go:45-48 | `Push(x)` grows the length by one and adds exactly `x` to the multiset |
| HeapSpec.PopSpec | min_str.go:53-58 | `Pop` returns the old root and removes exactly it: length one less, multiset minus that element |
| HeapSpec.DownOrUp | min_str.go:66-68 | `if !down(i, n) { up(i) }` keeps the length and multiset |
| HeapSpec.DownOrUpFrame | min_str.go:66-68 | down-or-up within `n` leaves the slots at and above `n` alone |
| HeapSpec.RemoveSpec | min_str.go:62-71 | `Remove(i)` returns the element that was at `i` and removes exactly it; removing the last index leaves the rest of the slice unchanged |
| HeapSpec.FixSpec | min_str.go:77-81 | `Fix(i)` keeps the length and multiset |
| HeapSpec.PopAll | min_str_test.go:60-66 | popping until empty yields every element exactly once |
| HeapSpec.RemoveMiddleAll | min_str_test.go:139-142 | removing at `(len-1)/2` until empty yields every element exactly once |
| HeapProps.HeapVerifiesFrom | min_str_test.go:14-33 | on a valid heap the test helper `verify` succeeds from every index |
| HeapProps.VerifyReaches | min_str_test.go:14-33 | when `verify` succeeds from the root, it succeeds from every index, and each pair is in order |
| HeapSpec.Verify | min_str_test.go:14-33 | the test helper `verify(i)`: both children of `i` are checked, then `verify` recurses into them; `HeapProps.VerifyIsHeap` shows `Verify(0)` is the heap invariant |
| HeapProps.VerifyIsHeap | min_str_test.go:14-33 | the test helper `verify(0)` succeeds exactly when every child is not `Less` than its parent |
| HeapProps.RootFirst | doc.go:2-5 | in a valid heap no element is strictly before the root |
| HeapProps.RootFirstAll | doc.go:2-5 | in a valid heap no element of the slice is strictly before `h[0]` |
| HeapProps.SiftUpOnlyTouchesPath | min_int64.go:62-71 | `up(j)` changes only slots on the chain of parents from `j` to the root |
| HeapProps.SiftUpRestores | min_str.go:92-101 | when `j` is the only slot out of order with its parent, and the children of `j` are in order with that parent, `up(j)` leaves the first `n` slots a valid heap |
| HeapProps.DownStep | min_str.go:110-118 | one iteration of `down` (swap with the smaller child) keeps the sift-down invariant, with the hole moved to the child |
| HeapProps.DownStop | min_str.go:107-116 | when `down` stops (no child, or the smaller child is not strictly before), every pair below `n` whose parent is at or above `lo` (the lower bound the invariant carries: `Init`'s loop index, or 0) is in order, other than the pair entering `i0` when the loop is still at `i0` |
| HeapProps.SiftDownRestores | min_str.go:103-121 | from the sift-down invariant, `down` leaves every pair below `n` whose parent is at or above `lo` (`Init`'s loop index, or 0) in order, except the pair entering `i0` when nothing moved |
| HeapProps.SmallerChildFirst | min_str.go:110-116 | neither child is strictly before the chosen one; when the chosen one is not before the parent, neither child is |
| HeapProps.SubtreeDownStep | min_str.go:110-118 | one iteration of `down` keeps the invariant restricted to the subtree of `i0`, with the hole moved to the child |
| HeapProps.SubtreeDownStop | min_str.go:107-116 | when `down` stops, every pair whose parent lies in the subtree of `i0` is in order |
| HeapProps.SubtreeDownRestores | min_str.go:103-121 | from the subtree invariant, `down` leaves every pair of the subtree of `i0` in order |
| HeapProps.SiftDownHeapifiesSubtree | min_str.go:103-121 | when both child subtrees of `i0` are valid heaps within `n`, `down(i0, n)` makes the subtree of `i0` a valid heap within `n`; pairs outside it are not assumed |
| HeapProps.SiftDownReportsChange | min_str.go:120 | `down` returns true exactly when it changed the slice |
| HeapProps.SiftDownOnHeap | min_str.go:103-121 | on a valid heap `down` moves nothing |
| HeapProps.DownOrUpFillsHole | min_str.go:66-68 | with a hole at `i`, down-or-up within `n` makes the first `n` slots a valid heap |
| HeapProps.HeapifyRestores | min_str.go:38-40 | when all pairs with parent at or above `k` are in order, the remaining iterations of the heapify loop leave a valid heap |
| HeapProps.InitMakesHeap | min_str.go:35-41 | `Init` on any slice leaves a valid heap with the same multiset |
| HeapProps.HeapifyStep | min_str.go:38-40 | one iteration `down(i, n)` hands the loop the state it continues from |
| HeapProps.HeapifyOnHeap | min_str.go:38-40 | the heapify loop changes nothing on a valid heap |
| HeapProps.InitOnHeapIsIdentity | min_str.go:31-41 | `Init` on a valid heap performs no swaps and leaves the slice unchanged |
| HeapProps.InitIdempotent | min_str.go:32 | `Init` twice is `Init` once |
| HeapProps.PushKeepsHeap | min_str.go:45-48 | `Push(x)` on a valid heap leaves a valid heap |
| HeapProps.PrefixIsHeap | min_str.go:87-90 | cutting off the tail of a slice whose first `n` slots are a heap leaves a valid heap |
| HeapProps.PopKeepsHeap | min_str.go:53-58 | `Pop` on a valid heap leaves a valid heap |
| HeapProps.PopFillsHole | min_str.go:54-56 | after moving the last element to the root, `down(0, n)` makes the first `n` slots a valid heap |
| HeapProps.PopReturnsFirst | min_str.go:50-58 | `Pop` on a valid heap returns an element that no remaining element is strictly before |
| HeapProps.PopIsRemoveZero | min_str.go:52-71 | `Pop` returns the same element and leaves the same slice as `Remove(0)` |
| HeapProps.SwapLastMakesHole | min_str.go:63-65 | moving the last element of a valid heap to slot `i` leaves a heap with a hole at `i` among the first `len-1` slots |
| HeapProps.RemoveKeepsHeap | min_str.go:62-71 | `Remove(i)` on a valid heap leaves a valid heap, for the first, the last and every middle index |
| HeapProps.RemoveFillsHole | min_str.go:64-68 | after the last element moves to `i`, down-or-up within `len-1` makes those slots a valid heap |
| HeapProps.OverwriteMakesHole | min_str.go:73-74 | overwriting one slot of a valid heap leaves a heap with a hole at that slot |
| HeapProps.FixRestoresHeap | min_str.go:77-81 | `Fix(i)` on a heap with a hole at `i` leaves a valid heap |
| HeapProps.FixAfterOverwrite | min_str.go:73-81 | changing `h[i]` and calling `Fix(i)` leaves a valid heap with the same elements as `Remove(i)` followed by `Push` of the new value |
| HeapProps.FixIsRemoveThenPush | min_str.go:73-75 | changing `h[i]` then `Fix(i)` and `Remove(i)` then `Push` of the new value leave heaps that pop in exactly the same order, under a total order |
| HeapProps.PopAllSorted | min_str_test.go:52-67 | popping a valid heap until it is empty yields the elements in sorted order |
| HeapProps.PopOrderDeterminedByElements | min_str_test.go:52-67 | under a total order, two valid heaps with the same elements pop in the same order |
| HeapProps.InitThenPopAllSorts | min_str_test.go:52-67 | `Init` on any slice, then popping until empty, yields exactly the sorted sequence of its elements |
| HeapProps.ConstantHeap | min_str_test.go:35-50 | a heap of equal elements is valid, and every pop returns that element |
| HeapProps.PopAllOfCopies | min_str_test.go:43-49 | draining copies of one value gives back those copies |
| Heap.Heap.constructor | min_str.go:20 | converting a slice to the heap type keeps it as it is |
| Heap.Heap.Swap | min_str.go:29 | the in-place `Swap` leaves the slice `HeapSpec.Swap` computes |
| Heap.Heap.Append | min_str.go:83-85 | `push(x)` appends `x` |
| Heap.Heap.RemoveLast | min_str.go:87-90 | `pop()` returns the last element and truncates the slice by one |
| Heap.Heap.Up | min_str.go:92-101 | the `up` loop leaves exactly `HeapSpec.SiftUp` |
| Heap.Heap.Down | min_str.go:103-121 | the `down` loop leaves exactly `HeapSpec.SiftDown` and returns whether the index moved past `i0` |
| Heap.Heap.PickChild | min_str.go:110-113 | the right child is chosen exactly when it is below `n` and strictly before the left child |
| Heap.Heap.DownOrUp | min_str.go:66-68 | `if !down(i, n) { up(i) }` in place leaves exactly `HeapSpec.DownOrUp` |
| Heap.Heap.Init | min_str.go:35-41 | the heapify loop leaves a valid heap with the same multiset, and changes nothing on a valid heap |
| Heap.Heap.Push | min_str.go:45-48 | `Push(x)` leaves `HeapSpec.PushSpec`: one longer, `x` added, still valid |
| Heap.Heap.Pop | min_str.go:53-58 | `Pop` returns the old root, removes exactly it, and on a valid heap leaves a valid heap, with no remaining element strictly before the returned one |
| Heap.Heap.Remove | min_str.go:62-71 | `Remove(i)` returns the element at `i`, removes exactly it, leaves the other slots alone when `i` is last, and keeps a valid heap valid |
| Heap.Heap.Fix | min_str.go:77-81 | `Fix(i)` keeps the multiset and makes a heap valid again when only slot `i` was out of place |
| GoString.FirstDifferenceOfTails | min_str.go:26 | after an equal first byte, the first difference of the tails is one position earlier |
| GoString.FirstDifferenceGivesLess | min_str.go:26 | strings that agree up to a first difference where `a` is smaller, or where `a` ends first, compare `a < b` |
| GoString.LessGivesFirstDifference | min_str.go:26 | when `a < b` there is such a first difference |
| GoString.LexLess | min_str.go:26 | Go's string `<`; `GoString.LexLessIsFirstDifference` shows it is bytewise lexicographic order |
| GoString.LexLessIsFirstDifference | min_str.go:26 | Go's string `<` is exactly lexicographic order on bytes, both ways |
| GoString.LexIrreflexive | min_str.go:26 | no string is less than itself |
| GoString.LexTransitive | min_str.go:26 | string `<` is transitive |
| GoString.LexAsymmetric | min_str.go:26 | of two strings, at most one is less than the other |
| GoString.LexTotal | min_str.go:26 | of two different strings, one is less than the other |
| GoString.LexLessIsStrictTotalOrder | min_str.go:26 | string `<` is a strict total order |
| MinStr.New | min_str.go:20 | a slice viewed as a `MinStr` is unchanged and its order meets the heap's requirement |
| MinStr.LessIsStrictWeakOrder | min_str.go:26 | `h[i] < h[j]` on strings is a strict weak order |
| MinStr.RootIsMinimum | min_str.go:9 | the root of a valid `MinStr` is at most every string in it |
| MinStr.PopReturnsMinimum | min_str.go:50-58 | `Pop` returns the old root, at most every remaining string, and leaves a valid heap |
| MinStr.PopAllAscending | min_str_test.go:60-66 | popping a valid `MinStr` until empty yields ascending strings |
| MinStr.InitThenPopAllAscending | min_str_test.go:52-67 | after `Init` on any strings, repeated ones included, the pops come out in exactly ascending order |
| MinStr.AllEqualPopsSame | min_str_test.go:35-50 | a `MinStr` of equal strings is valid and every pop returns that string |
| MaxStr.New | max_str.go:20 | a slice viewed as a `MaxStr` is unchanged and its order meets the heap's requirement |
| MaxStr.Greater | max_str.go:26 | `MaxStr.Less`, string `>`: `b < a` under Go's string order; `MaxStr.GreaterIsStrictTotalOrder` shows it is a strict total order |
| MaxStr.GreaterIsStrictTotalOrder | max_str.go:26 | `h[i] > h[j]` on strings is a strict total order |
| MaxStr.RootIsMaximum | max_str.go:9 | the root of a valid `MaxStr` is at least every string in it (the package comment's "minimum" is by `Less`, which is `>` here) |
| MaxStr.PopReturnsMaximum | max_str.go:53-58 | `Pop` returns the old root, at least every remaining string, and leaves a valid heap |
| MaxStr.PopAllDescending | max_str_test.go:50-65 | popping a valid `MaxStr` until empty yields descending strings |
| MaxStr.InitBuildsMaxHeap | max_str.go:35-41 | `Init` on any slice builds a valid max-heap of the same strings, with the greatest at the root |
| MaxStr.InitThenPopAllDescending | max_str_test.go:50-65 | after `Init` on any strings, repeated ones included, the pops come out in exactly descending order |
| MaxStr.AllEqualPopsSame | max_str_test.go:33-48 | a `MaxStr` of equal strings is valid and every pop returns that string |
| MinInt64.New | min_int64.go:8 | a slice viewed as a `MinInt64` is unchanged and its order meets the heap's requirement |
| MinInt64.Less | min_int64.go:94 | `less(i, j)`, `<` on `int64` values; `MinInt64.LessIsStrictTotalOrder` shows it is a strict total order |
| MinInt64.PopReturnsMinimum | min_int64.go:32-37 | `Pop` returns the old root, at most every remaining value, and leaves a valid heap |
| MinInt64.PopAllNonDecreasing | min_int64_test.go:58-64 | popping a valid `MinInt64` until empty yields non-decreasing values |
| MinInt64.InitThenPopAllCounts | min_int64_test.go:50-65 | after `Init` on the values 1 to n in any order, the pops return 1, 2, ..., n |
| MinInt64.AllZeroPopsZero | min_int64_test.go:33-48 | a heap of zeros is valid and every pop returns 0 |
| MinInt64.Double | min_int64_test.go:185 | Go's `x *= 2` on `int64` wraps around modulo 2^64 and is exact when it fits |
| MinInt64.Halve | min_int64_test.go:187 | Go's `x /= 2` on `int64` truncates toward zero |
| MinInt64.FixAfterScaling | min_int64_test.go:182-191 | doubling or halving a slot of a valid heap in place, then `Fix` there, leaves a valid heap with only that value replaced |

## Left out

- Heap.Heap.Len and Heap.Heap.Less carry no contract of their own. They are the one-line accessors `len(h)` and `Less(i, j)`, used inside the method bodies.
- Heap.Heap.Fix: `Fix(i)` requires `0 <= i < len`. Two Go calls outside that range return without doing anything, and neither is modelled.
  - `Fix(0)` on an empty heap: `down` stops at once, and `up(0)` stops at the root.
  - `Fix(-1)` on any heap: `down(-1, n)` computes `j1 = -1` and stops at the `j1 < 0` guard (min_str.go:106-108). Then `up(-1)` stops, because Go's `(-2)/2` is `-1`, which equals `j` (min_str.go:94-95).
- Heap.Heap.Pop, Heap.Heap.Remove: the out-of-range calls are excluded by preconditions: `Pop` on an empty heap, and `Remove` with a negative or too-large index. Go panics with an index error on them.
- The `j1 < 0` overflow guard in `down` (min_str.go:107, min_int64.go:77) is not modelled. It fires when `2*i+1` overflows `int`, or when the start index is negative (as in `Fix(-1)`). Indices here are unbounded naturals, so neither case can occur.
- Index width: slice indices and lengths are unbounded naturals, not Go's `int`. `MinInt64` elements are a 64-bit range type.
- Slice capacity and the reallocation `append` may do are not modelled. The slice is a growable sequence.
- MaxStr calls free functions `up(h, i)` and `down(h, i, n)`. Their source is not part of this model. They are taken to be the loops of `MinStr.up`/`MinStr.down` run with `MaxStr`'s `Less`, which is what `Heap.Heap` with `less = MaxStr.Greater` does.
- Only `MinInt64` (min_int64.go:93-95) has lower-case `length`/`less`/`swap`. They are the same one-line slice operations as `Len`/`Less`/`Swap`.
- `MaxUint64` and `MaxStrHeap` are not part of this model. Only their tests exist.
- The benchmark (benchmark_test.go) and the package documentation (doc.go) are not part of this model. So are the test helpers `toHex`/`fromHex`, which only encode numbers as sortable strings.
- The test loops are not modelled as code; their assertions are stated as lemmas.
  - `rand.Intn` index choice is an arbitrary valid index `i`.
  - The mixed push/pop scenario of `TestMinStr` is covered by the general `Pop` and `Push` lemmas.
- Complexity claims (O(n) `Init`, O(log n) operations) are not modelled.
