/**
 * `Math.round((part / whole) * 100)`, the percentage every view of the
 * application shows, computed exactly on integers.
 */
module Numeric {

  /** Division rounding toward negative infinity, for either sign of divisor. */
  function FloorDiv(a: int, b: int): (q: int)
    requires b != 0
    ensures b > 0 ==> b * q <= a < b * q + b
    ensures b < 0 ==> b * q >= a > b * q + b
  {
    if b > 0 then a / b else (-a) / (-b)
  }

  /**
   * `Math.round(part / whole * 100)`: `Math.round(x)` is the greatest integer
   * not above `x + 1/2`, and `part / whole * 100 + 1/2 == (200 * part + whole) / (2 * whole)`.
   */
  function RoundedPercent(part: int, whole: int): int
    requires whole != 0
  {
    FloorDiv(200 * part + whole, 2 * whole)
  }

  /** The rounded value is within one half of the exact percentage `100 * part / whole`. */
  lemma RoundedPercentIsNearest(part: int, whole: int)
    requires whole > 0
    ensures var p := RoundedPercent(part, whole);
      2 * whole * p <= 200 * part + whole < 2 * whole * p + 2 * whole
  {
  }

  lemma MulStrictMonotone(b: int, x: int, y: int)
    requires b > 0 && b * x < b * y
    ensures x < y
  {
  }

  /** A part between nothing and the whole gives a percentage between 0 and 100. */
  lemma RoundedPercentBounds(part: int, whole: int)
    requires 0 <= part <= whole && whole > 0
    ensures 0 <= RoundedPercent(part, whole) <= 100
  {
    var p := RoundedPercent(part, whole);
    RoundedPercentIsNearest(part, whole);
    MulStrictMonotone(2 * whole, -1, p);
    assert 2 * whole * p <= 200 * whole + whole < 2 * whole * 101;
    MulStrictMonotone(2 * whole, p, 101);
  }

  /** The percentage rounds to 100 exactly when the part reaches 99.5% of the whole. */
  lemma RoundedPercentIsHundred(part: int, whole: int)
    requires 0 <= part <= whole && whole > 0
    ensures RoundedPercent(part, whole) == 100 <==> 200 * part >= 199 * whole
  {
    var p := RoundedPercent(part, whole);
    RoundedPercentIsNearest(part, whole);
    RoundedPercentBounds(part, whole);
    if 200 * part >= 199 * whole {
      assert 2 * whole * p + 2 * whole == 2 * whole * (p + 1);
      MulStrictMonotone(2 * whole, 100, p + 1);
    }
  }

  /** The percentage is 0 exactly when the part is below half a percent of the whole. */
  lemma RoundedPercentIsZero(part: int, whole: int)
    requires 0 <= part <= whole && whole > 0
    ensures RoundedPercent(part, whole) == 0 <==> 200 * part < whole
  {
    var p := RoundedPercent(part, whole);
    RoundedPercentIsNearest(part, whole);
    RoundedPercentBounds(part, whole);
    if 200 * part < whole {
      assert 2 * whole * p + 2 * whole == 2 * whole * (p + 1);
      MulStrictMonotone(2 * whole, p, 1);
    }
  }

  /** The whole is 100% of itself, whatever the sign of the whole. */
  lemma RoundedPercentOfWhole(whole: int)
    requires whole != 0
    ensures RoundedPercent(whole, whole) == 100
  {
    var q := RoundedPercent(whole, whole);
    var v := if whole > 0 then whole else -whole;
    assert 2 * v * q <= 201 * v < 2 * v * q + 2 * v;
    MulStrictMonotone(2 * v, q, 101);
    assert 2 * v * 99 < 2 * v * q;
    MulStrictMonotone(2 * v, 99, q);
  }
}
