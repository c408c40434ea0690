/** Real-arithmetic facts the bound proofs rely on: dividing inequalities by a positive
    number and rewriting the chord between two quotes as a secant line. */
module Arithmetic {

  lemma MulLeq(a: real, b: real, c: real)
    requires a <= b && c >= 0.0
    ensures a * c <= b * c
  {
  }

  /** A fraction 0 <= t <= 1 of a non-negative d lies between 0 and d. */
  lemma FractionWithin(t: real, d: real)
    requires 0.0 <= t <= 1.0 && d >= 0.0
    ensures 0.0 <= t * d <= d
  {
    MulLeq(0.0, t, d);
    MulLeq(t, 1.0, d);
  }

  /** x >= c·d with d > 0 gives x / d >= c. */
  lemma DivAtLeast(x: real, d: real, c: real)
    requires d > 0.0 && x >= c * d
    ensures x / d >= c
  {
    var q := x / d;
    assert q * d == x;
    if q < c {
      assert (c - q) * d > 0.0;
      assert c * d - q * d > 0.0;
    }
  }

  /** x <= c·d with d > 0 gives x / d <= c. */
  lemma DivAtMost(x: real, d: real, c: real)
    requires d > 0.0 && x <= c * d
    ensures x / d <= c
  {
    var q := x / d;
    assert q * d == x;
    if q > c {
      assert (q - c) * d > 0.0;
      assert q * d - c * d > 0.0;
    }
  }

  /** Multiplying back a quotient by its (non-zero) denominator. */
  lemma DivMul(x: real, d: real)
    requires d != 0.0
    ensures x / d * d == x
  {
  }

  /** The quotient of two negated numbers is the quotient of the numbers. */
  lemma DivNegNeg(x: real, d: real)
    requires d != 0.0
    ensures (-x) / (-d) == x / d
  {
    DivMul(x, d);
    DivMul(-x, -d);
  }

  /** The chord through (kL, mL) and (kR, mR), evaluated at k, is the secant line from the
      left point with the chord's slope. */
  lemma ChordAsSecant(kL: real, k: real, kR: real, mL: real, mR: real)
    requires kL < kR
    ensures ((kR - k) * mL + (k - kL) * mR) / (kR - kL) == mL + (mR - mL) / (kR - kL) * (k - kL)
  {
    var d := kR - kL;
    var sigma := (mR - mL) / d;
    DivMul(mR - mL, d);
    assert (kR - k) * mL + (k - kL) * mR == d * mL + (k - kL) * (mR - mL);
    assert (k - kL) * (mR - mL) == (k - kL) * sigma * d;
    assert (kR - k) * mL + (k - kL) * mR == (mL + sigma * (k - kL)) * d;
    DivMul((mL + sigma * (k - kL)) * d, d);
  }

  /** Moving right along a slope of at least c from a point on or above the line 1 + c·k stays
      on or above that line. */
  lemma StepStaysAbove(k0: real, k1: real, m0: real, m1: real, sigma: real, c: real)
    requires k0 <= k1 && sigma >= c
    requires m1 == m0 + sigma * (k1 - k0)
    requires m0 >= 1.0 + c * k0
    ensures m1 >= 1.0 + c * k1
  {
    MulLeq(c, sigma, k1 - k0);
  }

  /** Moving right along a non-positive slope does not raise the value. */
  lemma StepDoesNotRise(k0: real, k1: real, m0: real, m1: real, sigma: real)
    requires k0 <= k1 && sigma <= 0.0
    requires m1 == m0 + sigma * (k1 - k0)
    ensures m1 <= m0
  {
    MulLeq(sigma, 0.0, k1 - k0);
  }

  /** The secant across two adjacent segments, k0 < k1 < k2, lies between the segments'
      slopes when the left one is at most the right one. */
  lemma MergedSlopeBetween(k0: real, k1: real, k2: real, m0: real, m1: real, m2: real)
    requires k0 < k1 < k2
    requires (m1 - m0) / (k1 - k0) <= (m2 - m1) / (k2 - k1)
    ensures (m1 - m0) / (k1 - k0) <= (m2 - m0) / (k2 - k0) <= (m2 - m1) / (k2 - k1)
  {
    var s1 := (m1 - m0) / (k1 - k0);
    var s2 := (m2 - m1) / (k2 - k1);
    DivMul(m1 - m0, k1 - k0);
    DivMul(m2 - m1, k2 - k1);
    assert m2 - m0 == s1 * (k1 - k0) + s2 * (k2 - k1);
    MulLeq(s1, s2, k2 - k1);
    MulLeq(s1, s2, k1 - k0);
    assert s1 * (k2 - k0) == s1 * (k1 - k0) + s1 * (k2 - k1);
    assert s2 * (k2 - k0) == s2 * (k1 - k0) + s2 * (k2 - k1);
    DivAtLeast(m2 - m0, k2 - k0, s1);
    DivAtMost(m2 - m0, k2 - k0, s2);
  }
}
