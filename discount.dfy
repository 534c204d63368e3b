/** The discount arithmetic of both scrapers, on exact reals. */
module Discount {

  /** `((original - current) / original) * 100`, the percentage both scripts
      compute. Python raises ZeroDivisionError when original is 0; each call
      site models what its except clause then does. */
  function PercentOff(current: real, original: real): (r: real)
    requires original != 0.0
    ensures original * r == 100.0 * (original - current)
    ensures r == 0.0 <==> current == original
    ensures original > 0.0 ==> (r > 0.0 <==> current < original)
  {
    var q := (original - current) / original;
    assert q * original == original - current;
    q * 100.0
  }

  /** Partner of PercentOff: the current price is recovered from the original
      price and the discount. */
  lemma PercentOffRecoversCurrent(current: real, original: real)
    requires original != 0.0
    ensures current == original * (100.0 - PercentOff(current, original)) / 100.0
  {
    var q := (original - current) / original;
    assert q * original == original - current;
    assert PercentOff(current, original) == q * 100.0;
  }

  /** For a genuine markdown of a non-negative price the discount lies in
      (0, 100], and it is 100 exactly for a free item. */
  lemma PercentOffBounds(current: real, original: real)
    requires 0.0 <= current < original
    ensures 0.0 < PercentOff(current, original) <= 100.0
    ensures PercentOff(current, original) == 100.0 <==> current == 0.0
  {
    var q := (original - current) / original;
    assert q * original == original - current;
    assert 0.0 < q;
    assert q <= 1.0;
    assert q == 1.0 <==> current == 0.0;
  }

  /** A higher original price never gives a smaller discount on the same
      current price. */
  lemma PercentOffMonotone(current: real, original1: real, original2: real)
    requires 0.0 <= current && 0.0 < original1 <= original2
    ensures PercentOff(current, original1) <= PercentOff(current, original2)
  {
    var q1 := current / original1;
    var q2 := current / original2;
    QuotientAntitone(current, original1, original2);
    QuotientUnique(original1 - current, original1, (original1 - current) / original1, 1.0 - q1);
    QuotientUnique(original2 - current, original2, (original2 - current) / original2, 1.0 - q2);
  }

  lemma QuotientAntitone(c: real, d1: real, d2: real)
    requires 0.0 <= c && 0.0 < d1 <= d2
    ensures c / d2 <= c / d1
  {
    var q1, q2 := c / d1, c / d2;
    assert q1 * d1 == c && q2 * d2 == c;
    assert 0.0 <= q1;
    assert 0.0 <= q1 * (d2 - d1);
    assert (q1 - q2) * d2 == q1 * (d2 - d1);
    assert q1 - q2 == q1 * (d2 - d1) / d2;
  }

  lemma QuotientUnique(a: real, d: real, p: real, q: real)
    requires d != 0.0 && p * d == a && q * d == a
    ensures p == q
  {
    assert (p - q) * d == 0.0;
  }

  /** An "original" price below the current one gives a negative figure. */
  lemma PercentOffNegative(current: real, original: real)
    requires 0.0 < original < current
    ensures PercentOff(current, original) < 0.0
  {
    var q := (original - current) / original;
    assert q * original == original - current;
  }

  /** Round half to even, the rule of Python's round(). */
  function RoundHalfEven(y: real): (n: int)
    ensures y - 0.5 <= n as real <= y + 0.5
    ensures n as real - y == 0.5 || y - n as real == 0.5 ==> n % 2 == 0
  {
    var f := y.Floor;
    var frac := y - f as real;
    if frac < 0.5 then f
    else if frac > 0.5 then f + 1
    else if f % 2 == 0 then f
    else f + 1
  }

  /** `round(x, 2)` on exact reals: the nearest multiple of 0.01, ties to the
      even hundredth. */
  function Round2(x: real): (r: real)
    ensures (r * 100.0).Floor as real == r * 100.0
    ensures -0.005 <= r - x <= 0.005
    ensures r - x == 0.005 || x - r == 0.005 ==> (r * 100.0).Floor % 2 == 0
  {
    var n := RoundHalfEven(x * 100.0);
    var r := n as real / 100.0;
    assert r * 100.0 == n as real;
    assert (r * 100.0).Floor == n;
    r
  }

  /** Rounding keeps a percentage within [0, 100]. */
  lemma Round2Bounds(x: real)
    requires 0.0 <= x <= 100.0
    ensures 0.0 <= Round2(x) <= 100.0
  {
    var n := RoundHalfEven(x * 100.0);
    assert n as real >= -0.5;
    assert n >= 0;
    assert n as real <= 10000.5;
    assert n <= 10000;
  }

  /** A value already at two decimals is left unchanged. */
  lemma Round2Exact(k: int)
    ensures Round2(k as real / 100.0) == k as real / 100.0
  {
    var y := k as real / 100.0 * 100.0;
    assert y == k as real;
    assert y.Floor == k;
  }
}
