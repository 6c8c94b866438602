/**
 * Facts about real multiplication, division and floor that the binning proofs
 * use. Each is stated over plain reals so that it is proved once, away from the
 * definitions that use it.
 */
module RealArith {

  lemma DivMul(x: real, d: real)
    requires d != 0.0
    ensures d * (x / d) == x
  {
  }

  lemma DivPositive(x: real, d: real)
    requires d > 0.0
    ensures x > 0.0 ==> x / d > 0.0
  {
  }

  lemma DivNonnegative(x: real, d: real)
    requires x >= 0.0 && d > 0.0
    ensures x / d >= 0.0
  {
  }

  lemma DivByQuotient(x: real, d: real)
    requires x != 0.0 && d != 0.0
    ensures x / (x / d) == d
  {
  }

  /** lo plus n times (hi - lo) / n is hi. */
  lemma SpanCancel(lo: real, hi: real, n: nat)
    requires n >= 1
    ensures lo + n as real * ((hi - lo) / n as real) == hi
  {
  }

  lemma MulMonotone(a: real, b: real, w: real)
    requires a <= b && w > 0.0
    ensures a * w <= b * w
  {
  }

  lemma MulMonotoneStrict(a: real, b: real, w: real)
    requires a < b && w > 0.0
    ensures a * w < b * w
  {
  }

  lemma MulCancel(a: real, b: real, w: real)
    requires a * w <= b * w && w > 0.0
    ensures a <= b
  {
  }

  lemma MulCancelStrict(a: real, b: real, w: real)
    requires a * w < b * w && w > 0.0
    ensures a < b
  {
  }

  /** floor(x / w) whole widths fit into x, and one more does not. */
  lemma FloorBounds(x: real, w: real)
    requires w > 0.0
    ensures (x / w).Floor as real * w <= x < (x / w).Floor as real * w + w
  {
    var q := x / w;
    var r := q.Floor;
    assert r as real <= q < r as real + 1.0;
    DivMul(x, w);
    MulMonotone(r as real, q, w);
    assert q * w == x;
    MulMonotoneStrict(q, r as real + 1.0, w);
    assert q * w < (r as real + 1.0) * w;
    assert (r as real + 1.0) * w == r as real * w + w;
    assert x < r as real * w + w;
  }

  /** If k whole widths fit into x and k + 1 do not, then floor(x / w) is k. */
  lemma FloorUnique(x: real, w: real, k: int)
    requires w > 0.0
    requires k as real * w <= x < k as real * w + w
    ensures (x / w).Floor == k
  {
    var q := x / w;
    DivMul(x, w);
    MulCancel(k as real, q, w);
    assert (k as real + 1.0) * w == k as real * w + w;
    MulCancelStrict(q, k as real + 1.0, w);
  }
}
