/**
 * Go strings as the string heaps compare them: a Go `string` is a sequence
 * of bytes, and `<` on strings is bytewise lexicographic order, a proper
 * prefix coming first. (Dafny's own `<` on sequences means "proper prefix",
 * so the order is defined here.)
 */
module GoString {
  import opened Order

  newtype byte = b: int | 0 <= b < 256

  type GoString = seq<byte>

  /** Go's `a < b` on strings: the first differing byte decides, else the shorter string is first. */
  predicate LexLess(a: GoString, b: GoString)
    decreases |a|
  {
    if |a| == 0 then |b| > 0
    else if |b| == 0 then false
    else if a[0] != b[0] then a[0] < b[0]
    else LexLess(a[1..], b[1..])
  }

  /**
   * The textbook definition: `a` and `b` agree on their first `k` bytes, and
   * then either `a` ends while `b` goes on, or both go on and `a[k] < b[k]`.
   */
  ghost predicate FirstDifferenceAt(a: GoString, b: GoString, k: nat) {
    && k <= |a| && k <= |b| && a[..k] == b[..k]
    && ((k == |a| && k < |b|) || (k < |a| && k < |b| && a[k] < b[k]))
  }

  ghost predicate LexLessByFirstDifference(a: GoString, b: GoString) {
    exists k: nat :: FirstDifferenceAt(a, b, k)
  }

  lemma {:induction false} FirstDifferenceOfTails(a: GoString, b: GoString, k: nat)
    requires |a| > 0 && |b| > 0 && a[0] == b[0]
    ensures FirstDifferenceAt(a[1..], b[1..], k) <==> FirstDifferenceAt(a, b, k + 1)
  {
    if k + 1 <= |a| && k + 1 <= |b| {
      assert a[..k + 1] == [a[0]] + a[1..][..k];
      assert b[..k + 1] == [b[0]] + b[1..][..k];
      if a[..k + 1] == b[..k + 1] {
        assert a[1..][..k] == a[..k + 1][1..];
        assert b[1..][..k] == b[..k + 1][1..];
      }
    }
  }

  /** A first difference at `k` makes `a` come before `b`. */
  lemma {:induction false} FirstDifferenceGivesLess(a: GoString, b: GoString, k: nat)
    requires FirstDifferenceAt(a, b, k)
    ensures LexLess(a, b)
    decreases k
  {
    if k > 0 {
      assert a[0] == a[..k][0] && b[0] == b[..k][0];
      FirstDifferenceOfTails(a, b, k - 1);
      FirstDifferenceGivesLess(a[1..], b[1..], k - 1);
    }
  }

  /** When `a` comes before `b`, there is a first difference. */
  lemma {:induction false} LessGivesFirstDifference(a: GoString, b: GoString) returns (k: nat)
    requires LexLess(a, b)
    ensures FirstDifferenceAt(a, b, k)
    decreases |a|
  {
    if |a| == 0 || a[0] != b[0] {
      k := 0;
    } else {
      var k' := LessGivesFirstDifference(a[1..], b[1..]);
      FirstDifferenceOfTails(a, b, k');
      k := k' + 1;
    }
  }

  /** The recursive comparison is lexicographic order, both ways. */
  lemma {:induction false} LexLessIsFirstDifference(a: GoString, b: GoString)
    ensures LexLess(a, b) <==> LexLessByFirstDifference(a, b)
  {
    if LexLess(a, b) {
      var k := LessGivesFirstDifference(a, b);
    }
    if LexLessByFirstDifference(a, b) {
      var k: nat :| FirstDifferenceAt(a, b, k);
      FirstDifferenceGivesLess(a, b, k);
    }
  }

  lemma {:induction false} LexIrreflexive(a: GoString)
    ensures !LexLess(a, a)
    decreases |a|
  {
    if |a| > 0 {
      LexIrreflexive(a[1..]);
    }
  }

  lemma {:induction false} LexTransitive(a: GoString, b: GoString, c: GoString)
    requires LexLess(a, b) && LexLess(b, c)
    ensures LexLess(a, c)
    decreases |a|
  {
    if |a| > 0 && a[0] == b[0] && b[0] == c[0] {
      LexTransitive(a[1..], b[1..], c[1..]);
    }
  }

  lemma {:induction false} LexAsymmetric(a: GoString, b: GoString)
    requires LexLess(a, b)
    ensures !LexLess(b, a)
    decreases |a|
  {
    if |a| > 0 && a[0] == b[0] {
      LexAsymmetric(a[1..], b[1..]);
    }
  }

  lemma {:induction false} LexTotal(a: GoString, b: GoString)
    requires a != b
    ensures LexLess(a, b) || LexLess(b, a)
    decreases |a|
  {
    if |a| > 0 && |b| > 0 && a[0] == b[0] {
      assert a == [a[0]] + a[1..] && b == [b[0]] + b[1..];
      LexTotal(a[1..], b[1..]);
    }
  }

  /** Go's string `<` is a strict total order. */
  lemma {:induction false} LexLessIsStrictTotalOrder()
    ensures StrictTotalOrder(LexLess)
  {
    forall a ensures !LexLess(a, a) {
      LexIrreflexive(a);
    }
    forall a, b, c | LexLess(a, b) && LexLess(b, c) ensures LexLess(a, c) {
      LexTransitive(a, b, c);
    }
    forall a, b | a != b ensures LexLess(a, b) || LexLess(b, a) {
      LexTotal(a, b);
    }
  }
}
