/**
 * What the heap promises, proved about the functions of HeapSpec for any
 * strict weak order `less`.
 *
 * Every lemma turns automatic induction off: the inductive proofs call
 * themselves explicitly, and an induction hypothesis over all sequences
 * only sends the solver searching.
 */
module HeapProps {
  import opened Order
  import opened HeapSpec

  // ---------------------------------------------------------------------
  // The invariant: the test helper's recursive check and the root

  lemma {:induction false} HeapVerifiesFrom<T>(less: (T, T) -> bool, s: seq<T>, i: nat)
    requires IsHeap(less, s)
    ensures Verify(less, s, i)
    decreases |s| - i
  {
    if 2 * i + 1 < |s| {
      assert PairOk(less, s, 2 * i + 1);
      HeapVerifiesFrom(less, s, 2 * i + 1);
    }
    if 2 * i + 2 < |s| {
      assert PairOk(less, s, 2 * i + 2);
      HeapVerifiesFrom(less, s, 2 * i + 2);
    }
  }

  lemma {:induction false} VerifyReaches<T>(less: (T, T) -> bool, s: seq<T>, c: nat)
    requires Verify(less, s, 0) && c < |s|
    ensures Verify(less, s, c)
    ensures c > 0 ==> PairOk(less, s, c)
    decreases c
  {
    if c > 0 {
      VerifyReaches(less, s, Parent(c));
    }
  }

  /** The test helper's recursive `verify` from the root is exactly the invariant. */
  lemma {:induction false} VerifyIsHeap<T>(less: (T, T) -> bool, s: seq<T>)
    ensures Verify(less, s, 0) <==> IsHeap(less, s)
  {
    if IsHeap(less, s) {
      HeapVerifiesFrom(less, s, 0);
    }
    if Verify(less, s, 0) {
      forall c | 0 < c < |s| ensures PairOk(less, s, c) {
        VerifyReaches(less, s, c);
      }
    }
  }

  /** In a heap, no element is strictly before the root. */
  lemma {:induction false} RootFirst<T(!new)>(less: (T, T) -> bool, s: seq<T>, k: nat)
    requires StrictWeakOrder(less)
    requires IsHeap(less, s) && k < |s|
    ensures !less(s[k], s[0])
    decreases k
  {
    if k > 0 {
      assert PairOk(less, s, k);
      RootFirst(less, s, Parent(k));
      NotLessTrans(less, s[k], s[Parent(k)], s[0]);
    }
  }

  lemma {:induction false} RootFirstAll<T(!new)>(less: (T, T) -> bool, s: seq<T>)
    requires StrictWeakOrder(less)
    requires IsHeap(less, s) && |s| > 0
    ensures forall y :: y in s ==> !less(y, s[0])
  {
    forall y | y in s ensures !less(y, s[0]) {
      var k :| 0 <= k < |s| && s[k] == y;
      RootFirst(less, s, k);
    }
  }

  // ---------------------------------------------------------------------
  // up

  /** `k` lies on the chain of parents from `j` up to the root. */
  ghost predicate OnPathToRoot(k: nat, j: nat)
    decreases j
  {
    k == j || (j > 0 && OnPathToRoot(k, Parent(j)))
  }

  /** `up(j)` writes only slots on the parent chain of `j`. */
  lemma {:induction false} SiftUpOnlyTouchesPath<T>(less: (T, T) -> bool, s: seq<T>, j: nat, k: nat)
    requires j < |s| && k < |s| && !OnPathToRoot(k, j)
    ensures SiftUp(less, s, j)[k] == s[k]
    decreases j
  {
    var i := Parent(j);
    if i == j || !less(s[j], s[i]) {
    } else {
      SiftUpOnlyTouchesPath(less, Swap(s, i, j), i, k);
    }
  }

  /**
   * `up(j)` restores the invariant below `n` when `j` is the only slot out
   * of order with its parent and the children of `j` are in order with that
   * parent.
   */
  lemma {:induction false} SiftUpRestores<T(!new)>(less: (T, T) -> bool, s: seq<T>, j: nat, n: nat)
    requires StrictWeakOrder(less)
    requires j < n <= |s|
    requires forall c :: 0 < c < n && c != j ==> PairOk(less, s, c)
    requires j > 0 ==> ChildrenNotBefore(less, s, j, Parent(j), n)
    ensures IsHeapBelow(less, SiftUp(less, s, j), n)
    decreases j
  {
    var i := Parent(j);
    if i == j || !less(s[j], s[i]) {
      assert j > 0 ==> PairOk(less, s, j);
    } else {
      var t := Swap(s, i, j);
      forall c | 0 < c < n && c != i
        ensures PairOk(less, t, c)
      {
        var p := Parent(c);
        if c == j {
          Asymmetric(less, s[j], s[i]);
        } else if p == i {
          assert PairOk(less, s, c);
          if less(s[c], s[j]) {
            LessTrans(less, s[c], s[j], s[i]);
          }
        } else if p == j {
          assert c == 2 * j + 1 || c == 2 * j + 2;
        } else {
          assert PairOk(less, s, c);
        }
      }
      if i > 0 {
        assert PairOk(less, s, i);
        assert Parent(2 * i + 1) == i && Parent(2 * i + 2) == i;
        if 2 * i + 1 < n && 2 * i + 1 != j {
          assert PairOk(less, s, 2 * i + 1);
          NotLessTrans(less, s[2 * i + 1], s[i], s[Parent(i)]);
        }
        if 2 * i + 2 < n && 2 * i + 2 != j {
          assert PairOk(less, s, 2 * i + 2);
          NotLessTrans(less, s[2 * i + 2], s[i], s[Parent(i)]);
        }
      }
      SiftUpRestores(less, t, i, n);
    }
  }

  // ---------------------------------------------------------------------
  // down

  /**
   * The loop invariant of `down(i0, n)` at index `i`. Pairs whose parent is
   * below `lo` are left out of consideration (`Init` uses lo = i0, `Remove`
   * and `Fix` use lo = 0). Every other pair is in order except those leaving
   * `i`, and the pair entering `i0` while nothing has moved; the children of
   * `i` are in order with the parent of `i`.
   */
  ghost predicate DownInvariant<T>(less: (T, T) -> bool, s: seq<T>, lo: nat, i0: nat, i: nat, n: nat)
    requires n <= |s|
  {
    && lo <= i0 <= i
    && (i > i0 ==> i < n && Parent(i) >= i0)
    && (forall c :: 0 < c < n && Parent(c) >= lo && Parent(c) != i && (c == i0 ==> i > i0) ==>
          PairOk(less, s, c))
    && (i > 0 && i < n && Parent(i) >= lo ==> ChildrenNotBefore(less, s, i, Parent(i), n))
  }

  /** One pair after one iteration of `down`. */
  lemma {:induction false} DownStepPair<T(!new)>(less: (T, T) -> bool, s: seq<T>, lo: nat, i0: nat, i: nat, j: nat, n: nat, c: nat)
    requires StrictWeakOrder(less)
    requires n <= |s| && DownInvariant(less, s, lo, i0, i, n)
    requires j < n && (j == 2 * i + 1 || j == 2 * i + 2)
    requires ChildrenNotBefore(less, s, i, j, n) && less(s[j], s[i])
    requires 0 < c < n && Parent(c) >= lo && Parent(c) != j
    ensures PairOk(less, Swap(s, i, j), c)
  {
    var t := Swap(s, i, j);
    var p := Parent(c);
    if c == j {
      Asymmetric(less, s[j], s[i]);
      assert t[c] == s[i] && t[p] == s[j];
    } else if p == i {
      assert c == 2 * i + 1 || c == 2 * i + 2;
      assert t[c] == s[c] && t[p] == s[j];
    } else if c == i {
      assert t[c] == s[j] && t[p] == s[p];
    } else {
      assert PairOk(less, s, c);
      assert t[c] == s[c] && t[p] == s[p];
    }
  }

  /** One iteration of `down`: swapping `i` with its smaller child `j`. */
  lemma {:induction false} DownStep<T(!new)>(less: (T, T) -> bool, s: seq<T>, lo: nat, i0: nat, i: nat, j: nat, n: nat)
    requires StrictWeakOrder(less)
    requires n <= |s| && DownInvariant(less, s, lo, i0, i, n)
    requires j < n && (j == 2 * i + 1 || j == 2 * i + 2)
    requires ChildrenNotBefore(less, s, i, j, n) && less(s[j], s[i])
    ensures DownInvariant(less, Swap(s, i, j), lo, i0, j, n)
  {
    var t := Swap(s, i, j);
    assert Parent(j) == i;
    forall c | 0 < c < n && Parent(c) >= lo && Parent(c) != j && (c == i0 ==> j > i0)
      ensures PairOk(less, t, c)
    {
      DownStepPair(less, s, lo, i0, i, j, n, c);
    }
    assert Parent(2 * j + 1) == j && Parent(2 * j + 2) == j;
    if 2 * j + 1 < n {
      assert PairOk(less, s, 2 * j + 1);
    }
    if 2 * j + 2 < n {
      assert PairOk(less, s, 2 * j + 2);
    }
    assert ChildrenNotBefore(less, t, j, Parent(j), n);
  }

  /** Where `down` stops, the children of `i` are in order with `i`. */
  lemma {:induction false} DownStop<T>(less: (T, T) -> bool, s: seq<T>, lo: nat, i0: nat, i: nat, n: nat)
    requires n <= |s| && DownInvariant(less, s, lo, i0, i, n)
    requires 2 * i + 1 < n ==> ChildrenNotBefore(less, s, i, i, n)
    ensures forall c :: 0 < c < n && Parent(c) >= lo && (c == i0 ==> i > i0) ==> PairOk(less, s, c)
  {
    forall c | 0 < c < n && Parent(c) >= lo && (c == i0 ==> i > i0)
      ensures PairOk(less, s, c)
    {
      if Parent(c) == i {
        assert c == 2 * i + 1 || c == 2 * i + 2;
      }
    }
  }

  /**
   * `down(i, n)` from a state satisfying the invariant: afterwards every pair
   * with parent at or above `lo` is in order, except the pair entering `i0`
   * when nothing moved.
   */
  lemma {:induction false} SiftDownRestores<T(!new)>(
    less: (T, T) -> bool, s: seq<T>, lo: nat, i0: nat, i: nat, n: nat)
    requires StrictWeakOrder(less)
    requires n <= |s| && DownInvariant(less, s, lo, i0, i, n)
    ensures var r := SiftDown(less, s, i, n);
      forall c :: 0 < c < n && Parent(c) >= lo && (c == i0 ==> r.1 > i0) ==> PairOk(less, r.0, c)
    decreases n - i
  {
    if 2 * i + 1 >= n {
      DownStop(less, s, lo, i0, i, n);
    } else {
      var j := SmallerChild(less, s, i, n);
      SmallerChildFirst(less, s, i, n);
      if !less(s[j], s[i]) {
        DownStop(less, s, lo, i0, i, n);
      } else {
        DownStep(less, s, lo, i0, i, j, n);
        SiftDownRestores(less, Swap(s, i, j), lo, i0, j, n);
      }
    }
  }

  /**
   * Neither child is strictly before the chosen one, and when the chosen one
   * is not strictly before the parent, neither child is.
   */
  lemma {:induction false} SmallerChildFirst<T(!new)>(less: (T, T) -> bool, s: seq<T>, i: nat, n: nat)
    requires StrictWeakOrder(less)
    requires 2 * i + 1 < n <= |s|
    ensures ChildrenNotBefore(less, s, i, SmallerChild(less, s, i, n), n)
    ensures !less(s[SmallerChild(less, s, i, n)], s[i]) ==> ChildrenNotBefore(less, s, i, i, n)
  {
    var j1 := 2 * i + 1;
    var j := SmallerChild(less, s, i, n);
    if j == j1 + 1 {
      Asymmetric(less, s[j1 + 1], s[j1]);
    }
    if !less(s[j], s[i]) {
      if j == j1 && j1 + 1 < n {
        NotLessTrans(less, s[j1 + 1], s[j1], s[i]);
      } else if j == j1 + 1 && less(s[j1], s[i]) {
        LessTrans(less, s[j1 + 1], s[j1], s[i]);
      }
    }
  }

  /** A slot in the subtree of `k` is at or below `k`. */
  lemma {:induction false} OnPathToRootBelow(k: nat, j: nat)
    requires OnPathToRoot(k, j)
    ensures k <= j
    decreases j
  {
    if k != j {
      OnPathToRootBelow(k, Parent(j));
    }
  }

  /**
   * The loop invariant of `down(i0, n)` at index `i`, restricted to the
   * subtree of `i0`: `i` lies in that subtree; every pair whose parent lies
   * in it is in order except those leaving `i`; and once `i` has moved, the
   * children of `i` are in order with the parent of `i`.
   */
  ghost predicate SubtreeDownInvariant<T>(less: (T, T) -> bool, s: seq<T>, i0: nat, i: nat, n: nat)
    requires n <= |s|
  {
    && OnPathToRoot(i0, i)
    && (i > i0 ==> i < n)
    && (forall c {:trigger PairOk(less, s, c)} :: 0 < c < n && OnPathToRoot(i0, Parent(c)) && Parent(c) != i ==> PairOk(less, s, c))
    && (i > i0 ==> ChildrenNotBefore(less, s, i, Parent(i), n))
  }

  /** One pair of the subtree after one iteration of `down`. */
  lemma {:induction false} SubtreeDownStepPair<T(!new)>(less: (T, T) -> bool, s: seq<T>, i0: nat, i: nat, j: nat, n: nat, c: nat)
    requires StrictWeakOrder(less)
    requires n <= |s| && SubtreeDownInvariant(less, s, i0, i, n)
    requires j < n && (j == 2 * i + 1 || j == 2 * i + 2)
    requires ChildrenNotBefore(less, s, i, j, n) && less(s[j], s[i])
    requires 0 < c < n && OnPathToRoot(i0, Parent(c)) && Parent(c) != j
    ensures PairOk(less, Swap(s, i, j), c)
  {
    var t := Swap(s, i, j);
    var p := Parent(c);
    if c == j {
      Asymmetric(less, s[j], s[i]);
      assert t[c] == s[i] && t[p] == s[j];
    } else if p == i {
      assert c == 2 * i + 1 || c == 2 * i + 2;
      assert t[c] == s[c] && t[p] == s[j];
    } else if c == i {
      OnPathToRootBelow(i0, p);
      assert i > i0;
      assert t[c] == s[j] && t[p] == s[p];
    } else {
      assert PairOk(less, s, c);
      assert t[c] == s[c] && t[p] == s[p];
    }
  }

  /** One iteration of `down` keeps the subtree invariant. */
  lemma {:induction false} SubtreeDownStep<T(!new)>(less: (T, T) -> bool, s: seq<T>, i0: nat, i: nat, j: nat, n: nat)
    requires StrictWeakOrder(less)
    requires n <= |s| && SubtreeDownInvariant(less, s, i0, i, n)
    requires j < n && (j == 2 * i + 1 || j == 2 * i + 2)
    requires ChildrenNotBefore(less, s, i, j, n) && less(s[j], s[i])
    ensures SubtreeDownInvariant(less, Swap(s, i, j), i0, j, n)
  {
    var t := Swap(s, i, j);
    assert Parent(j) == i;
    OnPathToRootBelow(i0, i);
    assert OnPathToRoot(i0, j);
    forall c | 0 < c < n && OnPathToRoot(i0, Parent(c)) && Parent(c) != j
      ensures PairOk(less, t, c)
    {
      SubtreeDownStepPair(less, s, i0, i, j, n, c);
    }
    assert Parent(2 * j + 1) == j && Parent(2 * j + 2) == j;
    if 2 * j + 1 < n {
      assert PairOk(less, s, 2 * j + 1);
    }
    if 2 * j + 2 < n {
      assert PairOk(less, s, 2 * j + 2);
    }
    assert ChildrenNotBefore(less, t, j, Parent(j), n);
  }

  /** Where `down` stops, every pair of the subtree is in order. */
  lemma {:induction false} SubtreeDownStop<T>(less: (T, T) -> bool, s: seq<T>, i0: nat, i: nat, n: nat)
    requires n <= |s| && SubtreeDownInvariant(less, s, i0, i, n)
    requires 2 * i + 1 < n ==> ChildrenNotBefore(less, s, i, i, n)
    ensures forall c :: 0 < c < n && OnPathToRoot(i0, Parent(c)) ==> PairOk(less, s, c)
  {
    forall c | 0 < c < n && OnPathToRoot(i0, Parent(c))
      ensures PairOk(less, s, c)
    {
      var p := Parent(c);
      if p == i {
        assert 2 * i + 1 < n && (c == 2 * i + 1 || c == 2 * i + 2);
        assert !less(s[c], s[i]);
      } else {
        assert 0 < c < n && OnPathToRoot(i0, p) && p != i;
      }
    }
  }

  /** `down` from a state satisfying the subtree invariant orders the whole subtree of `i0`. */
  lemma {:induction false} SubtreeDownRestores<T(!new)>(less: (T, T) -> bool, s: seq<T>, i0: nat, i: nat, n: nat)
    requires StrictWeakOrder(less)
    requires n <= |s| && SubtreeDownInvariant(less, s, i0, i, n)
    ensures forall c :: 0 < c < n && OnPathToRoot(i0, Parent(c)) ==> PairOk(less, SiftDown(less, s, i, n).0, c)
    decreases n - i
  {
    if 2 * i + 1 >= n {
      SubtreeDownStop(less, s, i0, i, n);
    } else {
      var j := SmallerChild(less, s, i, n);
      SmallerChildFirst(less, s, i, n);
      if !less(s[j], s[i]) {
        SubtreeDownStop(less, s, i0, i, n);
      } else {
        SubtreeDownStep(less, s, i0, i, j, n);
        SubtreeDownRestores(less, Swap(s, i, j), i0, j, n);
      }
    }
  }

  /**
   * When both child subtrees of `i0` are valid heaps within `n`, `down(i0, n)`
   * leaves the subtree of `i0` a valid heap within `n`.
   */
  lemma {:induction false} SiftDownHeapifiesSubtree<T(!new)>(less: (T, T) -> bool, s: seq<T>, i0: nat, n: nat)
    requires StrictWeakOrder(less)
    requires n <= |s|
    requires forall c :: 0 < c < n && Parent(c) != i0 && OnPathToRoot(i0, Parent(c)) ==> PairOk(less, s, c)
    ensures forall c :: 0 < c < n && OnPathToRoot(i0, Parent(c)) ==> PairOk(less, SiftDown(less, s, i0, n).0, c)
  {
    assert SubtreeDownInvariant(less, s, i0, i0, n);
    SubtreeDownRestores(less, s, i0, i0, n);
  }

  /** `down` reports a move exactly when it changed the slice. */
  lemma {:induction false} SiftDownReportsChange<T(!new)>(less: (T, T) -> bool, s: seq<T>, i: nat, n: nat)
    requires StrictWeakOrder(less)
    requires n <= |s|
    ensures var r := SiftDown(less, s, i, n); (r.1 > i) <==> (r.0 != s)
  {
    var r := SiftDown(less, s, i, n);
    SiftDownFrame(less, s, i, n);
    if r.1 > i {
      assert i < |s| && r.0[i] != s[i];
    }
  }

  /** On a valid heap, `down` moves nothing. */
  lemma {:induction false} SiftDownOnHeap<T>(less: (T, T) -> bool, s: seq<T>, i: nat)
    requires IsHeap(less, s)
    ensures SiftDown(less, s, i, |s|) == (s, i)
  {
    var j1 := 2 * i + 1;
    if j1 < |s| {
      assert Parent(j1) == i && Parent(j1 + 1) == i;
      assert PairOk(less, s, j1);
      assert j1 + 1 < |s| ==> PairOk(less, s, j1 + 1);
    }
    assert SiftDown(less, s, i, |s|).1 == i;
  }

  /** `down` followed, when it moved nothing, by `up`, fills a hole at `i`. */
  lemma {:induction false} DownOrUpFillsHole<T(!new)>(less: (T, T) -> bool, s: seq<T>, i: nat, n: nat)
    requires StrictWeakOrder(less)
    requires i < n <= |s| && HoleBelow(less, s, i, n)
    ensures IsHeapBelow(less, DownOrUp(less, s, i, n), n)
  {
    var d := SiftDown(less, s, i, n);
    assert DownInvariant(less, s, 0, i, i, n);
    SiftDownRestores(less, s, 0, i, i, n);
    if !(d.1 > i) {
      SiftUpRestores(less, d.0, i, n);
    }
  }

  // ---------------------------------------------------------------------
  // Init

  lemma {:induction false} HeapifyRestores<T(!new)>(less: (T, T) -> bool, s: seq<T>, k: nat)
    requires StrictWeakOrder(less)
    requires forall c :: 0 < c < |s| && Parent(c) >= k ==> PairOk(less, s, c)
    ensures IsHeap(less, Heapify(less, s, k))
    decreases k
  {
    if k > 0 {
      assert DownInvariant(less, s, k - 1, k - 1, k - 1, |s|);
      SiftDownRestores(less, s, k - 1, k - 1, k - 1, |s|);
      HeapifyRestores(less, SiftDown(less, s, k - 1, |s|).0, k - 1);
    }
  }

  /** `Init` turns any slice into a heap with the same elements. */
  lemma {:induction false} InitMakesHeap<T(!new)>(less: (T, T) -> bool, s: seq<T>)
    requires StrictWeakOrder(less)
    ensures IsHeap(less, InitSpec(less, s))
    ensures multiset(InitSpec(less, s)) == multiset(s)
  {
    forall c | 0 < c < |s| ensures Parent(c) < |s| / 2 {
    }
    HeapifyRestores(less, s, |s| / 2);
  }

  /** One iteration of `Init`'s loop: `r` is what `down(i, len)` leaves. */
  lemma {:induction false} HeapifyStep<T>(less: (T, T) -> bool, s: seq<T>, i: nat, n: nat, r: seq<T>)
    requires n == |s| && r == SiftDown(less, s, i, n).0
    ensures Heapify(less, s, i + 1) == Heapify(less, r, i)
  {
  }

  /** What `Init` promises, about its result `r`. */
  lemma {:induction false} InitFacts<T(!new)>(less: (T, T) -> bool, s: seq<T>, r: seq<T>)
    requires StrictWeakOrder(less)
    requires r == InitSpec(less, s)
    ensures IsHeap(less, r) && multiset(r) == multiset(s)
    ensures IsHeap(less, s) ==> r == s
  {
    InitMakesHeap(less, s);
    if IsHeap(less, s) {
      InitOnHeapIsIdentity(less, s);
    }
  }

  /** Heapify changes nothing when none of its `down` calls moves anything. */
  lemma {:induction false} HeapifyNoMoves<T>(less: (T, T) -> bool, s: seq<T>, k: nat)
    requires forall i: nat :: i < k ==> SiftDown(less, s, i, |s|) == (s, i)
    ensures Heapify(less, s, k) == s
    decreases k
  {
    if k > 0 {
      HeapifyNoMoves(less, s, k - 1);
    }
  }

  lemma {:induction false} HeapifyOnHeap<T>(less: (T, T) -> bool, s: seq<T>, k: nat)
    requires IsHeap(less, s)
    ensures Heapify(less, s, k) == s
  {
    forall i: nat | i < k ensures SiftDown(less, s, i, |s|) == (s, i) {
      SiftDownOnHeap(less, s, i);
    }
    HeapifyNoMoves(less, s, k);
  }

  /** `Init` on a valid heap performs no swaps. */
  lemma {:induction false} InitOnHeapIsIdentity<T>(less: (T, T) -> bool, s: seq<T>)
    requires IsHeap(less, s)
    ensures InitSpec(less, s) == s
  {
    HeapifyOnHeap(less, s, |s| / 2);
  }

  /** `Init` is idempotent. */
  lemma {:induction false} InitIdempotent<T(!new)>(less: (T, T) -> bool, s: seq<T>)
    requires StrictWeakOrder(less)
    ensures InitSpec(less, InitSpec(less, s)) == InitSpec(less, s)
  {
    InitMakesHeap(less, s);
    InitOnHeapIsIdentity(less, InitSpec(less, s));
  }

  // ---------------------------------------------------------------------
  // Push, Pop, Remove, Fix

  /** `Push(x)` keeps the heap valid. */
  lemma {:induction false} PushKeepsHeap<T(!new)>(less: (T, T) -> bool, s: seq<T>, x: T)
    requires StrictWeakOrder(less)
    requires IsHeap(less, s)
    ensures IsHeap(less, PushSpec(less, s, x))
  {
    var t := s + [x];
    forall c | 0 < c < |t| && c != |s| ensures PairOk(less, t, c) {
      assert PairOk(less, s, c);
    }
    SiftUpRestores(less, s + [x], |s|, |s| + 1);
    PushSpecRestored(less, s, x);
  }

  lemma {:induction false} PushSpecRestored<T>(less: (T, T) -> bool, s: seq<T>, x: T)
    requires IsHeapBelow(less, SiftUp(less, s + [x], |s|), |s| + 1)
    ensures IsHeap(less, PushSpec(less, s, x))
  {
    assert PushSpec(less, s, x) == SiftUp(less, s + [x], |s|);
  }

  /** A prefix of a heap is a heap. */
  lemma {:induction false} PrefixIsHeap<T>(less: (T, T) -> bool, s: seq<T>, n: nat)
    requires n <= |s| && IsHeapBelow(less, s, n)
    ensures IsHeap(less, s[..n])
  {
    forall c | 0 < c < n ensures PairOk(less, s[..n], c) {
      assert PairOk(less, s, c);
    }
  }

  /** `Pop` keeps the heap valid. */
  lemma {:induction false} PopKeepsHeap<T(!new)>(less: (T, T) -> bool, s: seq<T>)
    requires StrictWeakOrder(less)
    requires IsHeap(less, s) && |s| > 0
    ensures IsHeap(less, PopSpec(less, s).0)
  {
    if |s| > 1 {
      PopFillsHole(less, s, Swap(s, 0, |s| - 1));
    }
    PopSpecPrefix(less, s);
  }

  /**
   * `u` is `s` with its last element moved into slot `i`, as far as the
   * first `|s| - 1` slots go: what `Swap(i, len - 1)` does before `Pop` and
   * `Remove` shrink the heap.
   */
  ghost predicate LastMovedTo<T>(s: seq<T>, u: seq<T>, i: nat) {
    && |u| == |s| && i < |s| - 1
    && u[i] == s[|s| - 1]
    && forall k :: 0 <= k < |s| - 1 && k != i ==> u[k] == s[k]
  }

  /** After moving the last element to the root, `down(0, len - 1)` leaves a heap below. */
  lemma {:induction false} PopFillsHole<T(!new)>(less: (T, T) -> bool, s: seq<T>, u: seq<T>)
    requires StrictWeakOrder(less)
    requires IsHeap(less, s) && LastMovedTo(s, u, 0)
    ensures IsHeap(less, SiftDown(less, u, 0, |s| - 1).0[..|s| - 1])
  {
    var n := |s| - 1;
    SwapLastMakesHole(less, s, u, 0);
    assert DownInvariant(less, u, 0, 0, 0, n);
    SiftDownRestores(less, u, 0, 0, 0, n);
    PrefixIsHeap(less, SiftDown(less, u, 0, n).0, n);
  }

  /** What `Pop` leaves is the prefix of the slice after its `down`. */
  lemma {:induction false} PopSpecPrefix<T>(less: (T, T) -> bool, s: seq<T>)
    requires |s| > 0
    ensures PopSpec(less, s).0 == SiftDown(less, Swap(s, 0, |s| - 1), 0, |s| - 1).0[..|s| - 1]
  {
  }

  /** `Pop` on a heap returns an element that no remaining element is strictly before. */
  lemma {:induction false} PopReturnsFirst<T(!new)>(less: (T, T) -> bool, s: seq<T>)
    requires StrictWeakOrder(less)
    requires IsHeap(less, s) && |s| > 0
    ensures forall y :: y in PopSpec(less, s).0 ==> !less(y, PopSpec(less, s).1)
  {
    RootFirstAll(less, s);
    var p := PopSpec(less, s);
    forall y | y in p.0 ensures !less(y, p.1) {
      assert y in multiset(p.0);
      assert y in multiset(s);
    }
  }

  /** `Pop` is `Remove(0)`: same result, same remaining slice. */
  lemma {:induction false} PopIsRemoveZero<T>(less: (T, T) -> bool, s: seq<T>)
    requires |s| > 0
    ensures PopSpec(less, s) == RemoveSpec(less, s, 0)
  {
    var n := |s| - 1;
    if n != 0 {
      var d := SiftDown(less, Swap(s, 0, n), 0, n);
      assert SiftUp(less, d.0, 0) == d.0;
      assert DownOrUp(less, Swap(s, 0, n), 0, n) == d.0;
    } else {
      assert Swap(s, 0, 0) == s;
    }
  }

  /** Moving the last element of a heap into slot `i` leaves a hole there. */
  lemma {:induction false} SwapLastMakesHole<T(!new)>(less: (T, T) -> bool, s: seq<T>, u: seq<T>, i: nat)
    requires StrictWeakOrder(less)
    requires IsHeap(less, s) && LastMovedTo(s, u, i)
    ensures HoleBelow(less, u, i, |s| - 1)
  {
    var n := |s| - 1;
    forall c | 0 < c < n && c != i && Parent(c) != i ensures PairOk(less, u, c) {
      assert PairOk(less, s, c);
    }
    if i > 0 {
      assert PairOk(less, s, i);
      assert Parent(2 * i + 1) == i && Parent(2 * i + 2) == i;
      if 2 * i + 1 < n {
        assert PairOk(less, s, 2 * i + 1);
        NotLessTrans(less, s[2 * i + 1], s[i], s[Parent(i)]);
      }
      if 2 * i + 2 < n {
        assert PairOk(less, s, 2 * i + 2);
        NotLessTrans(less, s[2 * i + 2], s[i], s[Parent(i)]);
      }
    }
  }

  /** The steps of `Remove(i)` and `Fix(i)`: down, then up if down moved nothing. */
  lemma {:induction false} DownOrUpIs<T>(less: (T, T) -> bool, u: seq<T>, i: nat, n: nat, r: seq<T>, moved: bool)
    requires i < n <= |u|
    requires moved == (SiftDown(less, u, i, n).1 > i)
    requires r == if moved then SiftDown(less, u, i, n).0 else SiftUp(less, SiftDown(less, u, i, n).0, i)
    ensures r == DownOrUp(less, u, i, n)
  {
  }

  /**
   * The steps of `Remove(i)`: `t` is the slice just before the final
   * `pop()`, which leaves `r` and returns `x`.
   */
  lemma {:induction false} RemoveSpecIs<T>(less: (T, T) -> bool, s: seq<T>, i: nat, t: seq<T>, r: seq<T>, x: T)
    requires i < |s|
    requires i != |s| - 1 ==> t == DownOrUp(less, Swap(s, i, |s| - 1), i, |s| - 1)
    requires i == |s| - 1 ==> t == s
    requires 0 < |t| && r == t[..|t| - 1] && x == t[|t| - 1]
    ensures (r, x) == RemoveSpec(less, s, i)
  {
  }

  /** Removing at `i` from a heap leaves a heap. */
  lemma {:induction false} RemoveKeepsHeap<T(!new)>(less: (T, T) -> bool, s: seq<T>, i: nat)
    requires StrictWeakOrder(less)
    requires IsHeap(less, s) && i < |s|
    ensures IsHeap(less, RemoveSpec(less, s, i).0)
  {
    if i < |s| - 1 {
      RemoveFillsHole(less, s, Swap(s, i, |s| - 1), i);
      RemoveSpecPrefix(less, s, i);
    } else {
      PrefixIsHeap(less, s, i);
    }
  }

  /**
   * After moving the last element into slot `i`, down-or-up below
   * `len - 1` leaves a heap there.
   */
  lemma {:induction false} RemoveFillsHole<T(!new)>(less: (T, T) -> bool, s: seq<T>, u: seq<T>, i: nat)
    requires StrictWeakOrder(less)
    requires IsHeap(less, s) && LastMovedTo(s, u, i)
    ensures IsHeap(less, DownOrUp(less, u, i, |s| - 1)[..|s| - 1])
  {
    var n := |s| - 1;
    SwapLastMakesHole(less, s, u, i);
    DownOrUpFillsHole(less, u, i, n);
    PrefixIsHeap(less, DownOrUp(less, u, i, n), n);
  }

  /** What `Remove(i)` of a slot other than the last leaves is a prefix of down-or-up. */
  lemma {:induction false} RemoveSpecPrefix<T>(less: (T, T) -> bool, s: seq<T>, i: nat)
    requires i < |s| - 1
    ensures RemoveSpec(less, s, i).0 == DownOrUp(less, Swap(s, i, |s| - 1), i, |s| - 1)[..|s| - 1]
  {
  }

  /** Overwriting one slot of a heap leaves a heap with a hole there. */
  lemma {:induction false} OverwriteMakesHole<T(!new)>(less: (T, T) -> bool, s: seq<T>, i: nat, v: T)
    requires StrictWeakOrder(less)
    requires IsHeap(less, s) && i < |s|
    ensures HoleAt(less, s[i := v], i)
  {
    var t := s[i := v];
    forall c | 0 < c < |t| && c != i && Parent(c) != i ensures PairOk(less, t, c) {
      assert PairOk(less, s, c);
    }
    if i > 0 {
      assert PairOk(less, s, i);
      assert Parent(2 * i + 1) == i && Parent(2 * i + 2) == i;
      if 2 * i + 1 < |s| {
        assert PairOk(less, s, 2 * i + 1);
        NotLessTrans(less, s[2 * i + 1], s[i], s[Parent(i)]);
      }
      if 2 * i + 2 < |s| {
        assert PairOk(less, s, 2 * i + 2);
        NotLessTrans(less, s[2 * i + 2], s[i], s[Parent(i)]);
      }
    }
  }

  /** `Fix(i)` restores the invariant around a hole at `i`. */
  lemma {:induction false} FixRestoresHeap<T(!new)>(less: (T, T) -> bool, s: seq<T>, i: nat)
    requires StrictWeakOrder(less)
    requires i < |s| && HoleAt(less, s, i)
    ensures IsHeap(less, FixSpec(less, s, i))
  {
    DownOrUpFillsHole(less, s, i, |s|);
  }

  /**
   * Overwriting `s[i]` with `v` and calling `Fix(i)` gives a heap with the
   * same elements as `Remove(i)` followed by `Push(v)`.
   */
  lemma {:induction false} FixAfterOverwrite<T(!new)>(less: (T, T) -> bool, s: seq<T>, i: nat, v: T)
    requires StrictWeakOrder(less)
    requires IsHeap(less, s) && i < |s|
    ensures IsHeap(less, FixSpec(less, s[i := v], i))
    ensures multiset(FixSpec(less, s[i := v], i))
         == multiset(PushSpec(less, RemoveSpec(less, s, i).0, v))
         == multiset(s) - multiset{s[i]} + multiset{v}
  {
    OverwriteMakesHole(less, s, i, v);
    FixRestoresHeap(less, s[i := v], i);
    assert multiset(s[i := v]) == multiset(s) - multiset{s[i]} + multiset{v};
  }

  /**
   * Changing `h[i]` and calling `Fix(i)` is equivalent to `Remove(i)`
   * followed by `Push` of the new value: under a strict total order the two
   * heaps pop in exactly the same order.
   */
  lemma {:induction false} FixIsRemoveThenPush<T(!new)>(less: (T, T) -> bool, s: seq<T>, i: nat, v: T)
    requires StrictTotalOrder(less)
    requires IsHeap(less, s) && i < |s|
    ensures PopAll(less, FixSpec(less, s[i := v], i)) == PopAll(less, PushSpec(less, RemoveSpec(less, s, i).0, v))
  {
    TotalIsWeak(less);
    FixAfterOverwrite(less, s, i, v);
    RemoveKeepsHeap(less, s, i);
    PushKeepsHeap(less, RemoveSpec(less, s, i).0, v);
    PopOrderDeterminedByElements(less, FixSpec(less, s[i := v], i), PushSpec(less, RemoveSpec(less, s, i).0, v));
  }

  // ---------------------------------------------------------------------
  // Draining the heap

  /** Putting a first element before a sorted sequence of no-earlier elements. */
  lemma {:induction false} SortedCons<T>(less: (T, T) -> bool, x: T, rest: seq<T>)
    requires SortedBy(less, rest)
    requires forall y :: y in rest ==> !less(y, x)
    ensures SortedBy(less, [x] + rest)
  {
    var r := [x] + rest;
    forall i, j | 0 <= i < j < |r| ensures !less(r[j], r[i]) {
      assert r[j] == rest[j - 1];
      if i > 0 {
        assert r[i] == rest[i - 1];
      }
    }
  }

  /** Popping a heap until it is empty yields its elements in sorted order. */
  lemma {:induction false} PopAllSorted<T(!new)>(less: (T, T) -> bool, s: seq<T>)
    requires StrictWeakOrder(less)
    requires IsHeap(less, s)
    ensures SortedBy(less, PopAll(less, s))
    decreases |s|
  {
    if |s| > 0 {
      var p := PopSpec(less, s);
      PopKeepsHeap(less, s);
      PopReturnsFirst(less, s);
      PopAllSorted(less, p.0);
      var rest := PopAll(less, p.0);
      forall y | y in rest ensures !less(y, p.1) {
        assert y in multiset(rest);
        assert y in p.0;
      }
      SortedCons(less, p.1, rest);
    }
  }

  /**
   * Under a strict total order, two heaps with the same elements pop in
   * exactly the same order, whatever their layouts.
   */
  lemma {:induction false} PopOrderDeterminedByElements<T(!new)>(less: (T, T) -> bool, s: seq<T>, t: seq<T>)
    requires StrictTotalOrder(less)
    requires IsHeap(less, s) && IsHeap(less, t) && multiset(s) == multiset(t)
    ensures PopAll(less, s) == PopAll(less, t)
  {
    TotalIsWeak(less);
    PopAllSorted(less, s);
    PopAllSorted(less, t);
    SortedUnique(less, PopAll(less, s), PopAll(less, t));
  }

  /**
   * `Init` on any slice, then popping until empty, yields the slice's
   * elements in sorted order: under a strict total order, exactly the sorted
   * sequence `u` with those elements.
   */
  lemma {:induction false} InitThenPopAllSorts<T(!new)>(less: (T, T) -> bool, t: seq<T>, u: seq<T>)
    requires StrictTotalOrder(less)
    requires SortedBy(less, u) && multiset(u) == multiset(t)
    ensures PopAll(less, InitSpec(less, t)) == u
  {
    TotalIsWeak(less);
    InitMakesHeap(less, t);
    PopAllSorted(less, InitSpec(less, t));
    SortedUnique(less, PopAll(less, InitSpec(less, t)), u);
  }

  /**
   * A heap of copies of one value: it is valid, and every pop returns that
   * value.
   */
  lemma {:induction false} ConstantHeap<T(!new)>(less: (T, T) -> bool, v: T, n: nat)
    requires StrictWeakOrder(less)
    ensures IsHeap(less, seq(n, _ => v))
    ensures PopAll(less, seq(n, _ => v)) == seq(n, _ => v)
  {
    var s := seq(n, _ => v);
    assert forall k :: 0 <= k < |s| ==> s[k] == v;
    PopAllOfCopies(less, s, v);
  }

  /** Draining a sequence of copies of `v` gives back that sequence. */
  lemma {:induction false} PopAllOfCopies<T>(less: (T, T) -> bool, s: seq<T>, v: T)
    requires forall k :: 0 <= k < |s| ==> s[k] == v
    ensures PopAll(less, s) == s
  {
    var r := PopAll(less, s);
    forall k | 0 <= k < |s| ensures r[k] == s[k] {
      assert r[k] in multiset(r);
      assert r[k] in s;
    }
  }
}
