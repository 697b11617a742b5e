/**
 * The order of JavaScript's `<` and `>` on strings: element-wise comparison of the
 * characters, a proper prefix coming first.  Bucket keys are compared with it.
 */
module StringOrder {
  import opened Sequences

  /** `a < b` on strings. */
  predicate LexLess(a: string, b: string)
    decreases |a|
  {
    if |b| == 0 then false
    else if |a| == 0 then true
    else if a[0] != b[0] then a[0] < b[0]
    else LexLess(a[1..], b[1..])
  }

  /** The comparator `(dt1, dt2) => dt1 > dt2 ? 1 : -1` puts `a` after `b` exactly when `a > b`. */
  function KeyAfter(a: string, b: string): bool {
    LexLess(b, a)
  }

  lemma {:induction false} LexIrreflexive(a: string)
    ensures !LexLess(a, a)
  {
    if |a| > 0 {
      LexIrreflexive(a[1..]);
    }
  }

  lemma {:induction false} LexTransitive(a: string, b: string, c: string)
    requires LexLess(a, b) && LexLess(b, c)
    ensures LexLess(a, c)
    decreases |a|
  {
    if |a| > 0 && a[0] == b[0] && b[0] == c[0] {
      LexTransitive(a[1..], b[1..], c[1..]);
    }
  }

  lemma {:induction false} LexTotal(a: string, b: string)
    requires a != b
    ensures LexLess(a, b) || LexLess(b, a)
    decreases |a|
  {
    if |a| > 0 && |b| > 0 && a[0] == b[0] {
      assert a == [a[0]] + a[1..] && b == [b[0]] + b[1..];
      LexTotal(a[1..], b[1..]);
    }
  }

  /** Keys are ordered strictly and totally, so sorting them is deterministic. */
  lemma KeyAfterIsStrictTotalOrder()
    ensures StrictTotalOrder(KeyAfter)
  {
    forall a, b | KeyAfter(a, b) ensures !KeyAfter(b, a) {
      if KeyAfter(b, a) {
        LexTransitive(a, b, a);
        LexIrreflexive(a);
      }
    }
    forall a, b, c | KeyAfter(a, c) ensures KeyAfter(a, b) || KeyAfter(b, c) {
      if a == b || b == c {
      } else {
        LexTotal(a, b);
        LexTotal(b, c);
        if LexLess(a, b) && LexLess(b, c) {
          LexTransitive(a, b, c);
          LexTransitive(c, a, c);
          LexIrreflexive(c);
        }
      }
    }
    forall a, b | a != b ensures KeyAfter(a, b) || KeyAfter(b, a) {
      LexTotal(a, b);
    }
  }
}
