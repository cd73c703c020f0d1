/**
 * months_between(date1, date2, round_off): whole months between the two dates
 * plus a fraction of 31-day months, with no fraction when both dates are the
 * last day of their month, optionally rounded half-up to 8 decimal places.
 * The arithmetic is on exact reals (see README for the double rounding).
 */
module MonthsBetween {
  import opened Calendar
  import opened Literals

  /** 10^8: round_off keeps 8 digits after the decimal point. */
  const SCALE: real := 100_000_000.0

  predicate IsLastDayOfMonth(l: Literal)
    requires l.Valid()
  {
    l.day == DaysInMonth(l.year, l.month)
  }

  /** yearBetween * 12 + monthBetween. */
  function WholeMonths(a: Literal, b: Literal): (n: int) {
    (a.year - b.year) * 12 + (a.month - b.month)
  }

  /** dayBetween: zero when both dates end their month, else the day difference over 31. */
  function DayFraction(a: Literal, b: Literal): (f: real)
    requires a.Valid() && b.Valid()
    ensures -30.0 / 31.0 <= f <= 30.0 / 31.0
    ensures f == 0.0 <==> a.day == b.day || (IsLastDayOfMonth(a) && IsLastDayOfMonth(b))
    ensures f > 0.0 <==> a.day > b.day && !(IsLastDayOfMonth(a) && IsLastDayOfMonth(b))
  {
    if IsLastDayOfMonth(a) && IsLastDayOfMonth(b) then 0.0
    else (a.day - b.day) as real / 31.0
  }

  /** The unrounded result. */
  function MonthsBetweenExact(a: Literal, b: Literal): (r: real)
    requires a.Valid() && b.Valid()
    ensures WholeMonths(a, b) as real - 30.0 / 31.0 <= r <= WholeMonths(a, b) as real + 30.0 / 31.0
  {
    WholeMonths(a, b) as real + DayFraction(a, b)
  }

  /**
   * setScale(8, HALF_UP): the nearest multiple of 10^-8, ties away from zero.
   */
  function RoundHalfUp8(x: real): (r: real)
    ensures r * SCALE == HalfUpUnits(x) as real
    ensures x >= 0.0 ==> -0.5 / SCALE < r - x <= 0.5 / SCALE
    ensures x < 0.0 ==> -0.5 / SCALE <= r - x < 0.5 / SCALE
  {
    var k := HalfUpUnits(x);
    assert (k as real / SCALE) - x == (k as real - x * SCALE) / SCALE;
    k as real / SCALE
  }

  /** The rounded value counted in units of 10^-8. */
  function HalfUpUnits(x: real): (k: int)
    ensures x >= 0.0 ==> -0.5 < k as real - x * SCALE <= 0.5
    ensures x < 0.0 ==> -0.5 <= k as real - x * SCALE < 0.5
  {
    if x >= 0.0 then (x * SCALE + 0.5).Floor else -((-x) * SCALE + 0.5).Floor
  }

  /** monthsBetween(t1, t2, roundOff). */
  function MonthsBetween(a: Literal, b: Literal, roundOff: bool): (r: real)
    requires a.Valid() && b.Valid() && a.kind == DateV2 && b.kind == DateV2
    ensures !roundOff ==> r == MonthsBetweenExact(a, b)
    ensures roundOff ==> r == RoundHalfUp8(MonthsBetweenExact(a, b))
  {
    var result := MonthsBetweenExact(a, b);
    if roundOff then RoundHalfUp8(result) else result
  }

  /** Rounding leaves a whole number unchanged. */
  lemma RoundWhole(n: int)
    ensures RoundHalfUp8(n as real) == n as real
  {
    var x := n as real;
    assert HalfUpUnits(x) == n * 100_000_000;
  }

  /** Rounding is symmetric about zero. */
  lemma RoundOdd(x: real)
    ensures RoundHalfUp8(-x) == -RoundHalfUp8(x)
  {
    assert HalfUpUnits(-x) == -HalfUpUnits(x);
  }

  /** When both dates are the last day of their month the result is a whole number of months. */
  lemma LastDaysGiveWholeMonths(a: Literal, b: Literal, roundOff: bool)
    requires a.Valid() && b.Valid() && a.kind == DateV2 && b.kind == DateV2
    requires IsLastDayOfMonth(a) && IsLastDayOfMonth(b)
    ensures MonthsBetween(a, b, roundOff) == WholeMonths(a, b) as real
  {
    RoundWhole(WholeMonths(a, b));
  }

  /** The same day of the month also gives a whole number of months. */
  lemma SameDayGivesWholeMonths(a: Literal, b: Literal, roundOff: bool)
    requires a.Valid() && b.Valid() && a.kind == DateV2 && b.kind == DateV2
    requires a.day == b.day
    ensures MonthsBetween(a, b, roundOff) == WholeMonths(a, b) as real
  {
    RoundWhole(WholeMonths(a, b));
  }

  /** Swapping the dates negates the result, rounded or not. */
  lemma MonthsBetweenAntisymmetric(a: Literal, b: Literal, roundOff: bool)
    requires a.Valid() && b.Valid() && a.kind == DateV2 && b.kind == DateV2
    ensures MonthsBetween(b, a, roundOff) == -MonthsBetween(a, b, roundOff)
  {
    RoundOdd(MonthsBetweenExact(a, b));
  }

  /**
   * The unrounded result is positive exactly when the first date is later:
   * a later month, or the same month and a later day.
   */
  lemma MonthsBetweenSign(a: Literal, b: Literal)
    requires a.Valid() && b.Valid()
    ensures MonthsBetweenExact(a, b) > 0.0 <==>
            WholeMonths(a, b) > 0 || (WholeMonths(a, b) == 0 && a.day > b.day)
    ensures MonthsBetweenExact(a, b) == 0.0 <==> WholeMonths(a, b) == 0 && a.day == b.day
  {
    if WholeMonths(a, b) == 0 {
      assert a.year * 12 + a.month == b.year * 12 + b.month;
      assert a.year == b.year && a.month == b.month;
    }
  }

  /**
   * Without rounding the results add up along three dates as long as none of
   * them ends its month: the 31-day fractions telescope.
   */
  lemma MonthsBetweenAdditive(a: Literal, b: Literal, c: Literal)
    requires a.Valid() && b.Valid() && c.Valid()
    requires !IsLastDayOfMonth(a) && !IsLastDayOfMonth(b) && !IsLastDayOfMonth(c)
    ensures MonthsBetweenExact(a, b) + MonthsBetweenExact(b, c) == MonthsBetweenExact(a, c)
  {
  }
}
