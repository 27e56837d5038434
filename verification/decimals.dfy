/**
 * Decimal numbers as exact reals, and the half-up rounding to two
 * places that every service applies (BigDecimal.setScale(2, RoundingMode.HALF_UP)).
 * A rounded value is carried as a whole number of hundredths.
 */
module Decimals {

  /**
   * `x` rounded half-up (half away from zero) to two places, in hundredths: the
   * nearest hundredth, and of two equally near ones the one farther from zero.
   */
  function RoundHalfUp(x: real): (h: int)
    ensures 0.0 <= x ==> h as real - 0.5 <= 100.0 * x < h as real + 0.5
    ensures x < 0.0 ==> h as real - 0.5 < 100.0 * x <= h as real + 0.5
  {
    if x >= 0.0 then (100.0 * x + 0.5).Floor else -((-100.0 * x + 0.5).Floor)
  }

  /** The rounded value itself, as Java hands it on (a two-place Double or BigDecimal). */
  function Round2(x: real): (r: real)
    ensures (100.0 * r).Floor as real == 100.0 * r
    ensures 0.0 <= x ==> r - 0.005 <= x < r + 0.005
    ensures x < 0.0 ==> r - 0.005 < x <= r + 0.005
  {
    RoundHalfUp(x) as real / 100.0
  }

  /** The two inequalities of RoundHalfUp pin its result down: no other count of hundredths meets them. */
  lemma RoundHalfUpUnique(x: real, h: int)
    requires 0.0 <= x ==> h as real - 0.5 <= 100.0 * x < h as real + 0.5
    requires x < 0.0 ==> h as real - 0.5 < 100.0 * x <= h as real + 0.5
    ensures RoundHalfUp(x) == h
  {
  }

  /** Half-up rounding is symmetric about zero: rounding -x gives minus the rounding of x. */
  lemma RoundHalfUpOdd(x: real)
    ensures RoundHalfUp(-x) == -RoundHalfUp(x)
  {
    if x != 0.0 {
      RoundHalfUpUnique(-x, -RoundHalfUp(x));
    }
  }

  /** Rounding never reverses the order of two values. */
  lemma RoundHalfUpMonotone(x: real, y: real)
    requires x <= y
    ensures RoundHalfUp(x) <= RoundHalfUp(y)
    ensures Round2(x) <= Round2(y)
  {
  }

  /** Rounding a value already at two places changes nothing. */
  lemma RoundHalfUpIdempotent(h: int)
    ensures RoundHalfUp(h as real / 100.0) == h
  {
    RoundHalfUpUnique(h as real / 100.0, h);
  }

  /** The rounded value is below zero exactly when x is at or below -0.005. */
  lemma RoundsBelowZeroIff(x: real)
    ensures RoundHalfUp(x) < 0 <==> 200.0 * x <= -1.0
  {
  }
}
