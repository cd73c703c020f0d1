/**
 * java.time.temporal.WeekFields: the localized week-of-year, week-of-week-based-year
 * and week-based-year fields, computed as the JDK computes them from the day of
 * the year and the day of the week.
 */
module WeekNumbering {
  import opened Calendar

  /** WeekFields.of(firstDayOfWeek, minimalDaysInFirstWeek); days are ISO numbers, 1 = Monday .. 7 = Sunday. */
  datatype WeekRule = WeekRule(firstDay: int, minDays: int)
  {
    predicate Valid() { 1 <= firstDay <= 7 && 1 <= minDays <= 7 }
  }

  const SUNDAY_7: WeekRule := WeekRule(7, 7)
  const ISO: WeekRule := WeekRule(1, 4)
  const SUNDAY_4: WeekRule := WeekRule(7, 4)
  const MONDAY_7: WeekRule := WeekRule(1, 7)

  /** localizedDayOfWeek: 1 on the rule's first day of the week, 7 on its last. */
  function LocalizedDayOfWeek(rule: WeekRule, isoDow: int): (r: int)
    requires rule.Valid() && 1 <= isoDow <= 7
    ensures 1 <= r <= 7
    ensures r == 1 <==> isoDow == rule.firstDay
    ensures (r - isoDow + rule.firstDay - 1) % 7 == 0
  {
    (isoDow - rule.firstDay) % 7 + 1
  }

  /**
   * startOfWeekOffset: week 1 begins on day-of-year 1 - offset.  It is the first
   * week with at least minDays days in the year: when it begins on or before
   * day 1 it keeps 7 - offset >= minDays days of the year, and when it begins
   * later the -offset days before it are fewer than minDays.
   */
  function StartOfWeekOffset(rule: WeekRule, day: int, dow: int): (offset: int)
    requires rule.Valid()
    ensures -6 <= offset <= 6
    ensures (day - dow + offset) % 7 == 0
    ensures offset >= 0 ==> 7 - offset >= rule.minDays
    ensures offset < 0 ==> -offset < rule.minDays
  {
    var weekStart := (day - dow) % 7;
    if weekStart + 1 > rule.minDays then 7 - weekStart else -weekStart
  }

  /** computeWeek: the week, counted from week 1 at day 1 - offset, that holds the given day. */
  function ComputeWeek(offset: int, day: int): (w: int)
    requires -6 <= offset <= 6 && day >= 1
    ensures w >= 0
    ensures 7 * w - 6 - offset <= day <= 7 * w - offset
  {
    (7 + offset + (day - 1)) / 7
  }

  /** The day of year and the offset of week 1 for a date under a rule. */
  function DayOfYearOfDate(t: LocalDateTime): (doy: int)
    requires Calendar.Valid(t)
    ensures 1 <= doy <= YearLength(t.year)
  {
    DayOfYear(t.year, t.month, t.day)
  }

  function OffsetOf(rule: WeekRule, t: LocalDateTime): (offset: int)
    requires rule.Valid() && Calendar.Valid(t)
    ensures -6 <= offset <= 6
  {
    StartOfWeekOffset(rule, DayOfYearOfDate(t), LocalizedDayOfWeek(rule, DayOfWeekOf(t)))
  }

  /** localizedWeekOfYear: week 0 holds the days before week 1. */
  function WeekOfYear(rule: WeekRule, t: LocalDateTime): (w: int)
    requires rule.Valid() && Calendar.Valid(t)
    ensures 0 <= w <= 54
    ensures rule.minDays >= 2 ==> w <= 53
  {
    ComputeWeek(OffsetOf(rule, t), DayOfYearOfDate(t))
  }

  /** The first week of the next year, counted in this year's weeks. */
  function NewYearWeek(rule: WeekRule, t: LocalDateTime): (w: int)
    requires rule.Valid() && Calendar.Valid(t)
    ensures w >= 53
  {
    ComputeWeek(OffsetOf(rule, t), YearLength(t.year) + rule.minDays)
  }

  /** A date's week never passes the first week of the next year. */
  lemma WeekNotPastNewYear(rule: WeekRule, t: LocalDateTime)
    requires rule.Valid() && Calendar.Valid(t)
    ensures WeekOfYear(rule, t) <= NewYearWeek(rule, t)
  {
    var offset, doy := OffsetOf(rule, t), DayOfYearOfDate(t);
    var w, n := ComputeWeek(offset, doy), ComputeWeek(offset, YearLength(t.year) + rule.minDays);
    assert 7 * w - 6 - offset <= doy < YearLength(t.year) + rule.minDays <= 7 * n - offset;
  }

  /** The last day of the previous year is day-of-year 365 or 366 of that year. */
  lemma LastDayOfPreviousYear(t: LocalDateTime)
    requires Calendar.Valid(t)
    ensures var p := PlusDays(t, -DayOfYearOfDate(t));
            p.year == t.year - 1 && DayOfYearOfDate(p) == YearLength(t.year - 1)
  {
    var p := PlusDays(t, -DayOfYearOfDate(t));
    YearStep(t.year - 1);
    YearOfDayNumber(p, t.year - 1);
  }

  /**
   * localizedWeekOfWeekBasedYear: week 0 is counted as the last week of the
   * previous year (recomputed at its last day); a week that overlaps the first
   * week of the next year is counted as week 1 of that year.
   */
  function WeekOfWeekBasedYear(rule: WeekRule, t: LocalDateTime): (w: int)
    requires rule.Valid() && Calendar.Valid(t)
    ensures 1 <= w <= 54
    ensures rule.minDays >= 2 ==> w <= 53
    decreases if WeekOfYear(rule, t) == 0 then 1 else 0
  {
    var doy := DayOfYearOfDate(t);
    var week := WeekOfYear(rule, t);
    if week == 0 then
      var p := PlusDays(t, -doy);
      LastDayOfPreviousYear(t);
      assert WeekOfYear(rule, p) >= 52;
      WeekOfWeekBasedYear(rule, p)
    else if week > 50 then
      var newYearWeek := NewYearWeek(rule, t);
      if week >= newYearWeek then week - newYearWeek + 1 else week
    else
      week
  }

  /** localizedWeekBasedYear: the year that owns the date's week. */
  function WeekBasedYear(rule: WeekRule, t: LocalDateTime): (y: int)
    requires rule.Valid() && Calendar.Valid(t)
    ensures t.year - 1 <= y <= t.year + 1
  {
    var week := WeekOfYear(rule, t);
    if week == 0 then t.year - 1
    else if week >= NewYearWeek(rule, t) then t.year + 1
    else t.year
  }

  /**
   * Week 0 holds exactly the dates whose week begins in the previous year and
   * keeps fewer than minDays days of this one.
   */
  lemma WeekZeroIsShortFirstWeek(rule: WeekRule, t: LocalDateTime)
    requires rule.Valid() && Calendar.Valid(t)
    ensures var start := DayOfYearOfDate(t) - LocalizedDayOfWeek(rule, DayOfWeekOf(t)) + 1;
            WeekOfYear(rule, t) == 0 <==> start < 1 && 6 + start < rule.minDays
  {
    var doy, ldow := DayOfYearOfDate(t), LocalizedDayOfWeek(rule, DayOfWeekOf(t));
    var offset := OffsetOf(rule, t);
    var start := doy - ldow + 1;
    var w := WeekOfYear(rule, t);
    // start and 1 - offset are both first days of a week
    var k := (doy - ldow + offset) / 7;
    assert doy - ldow + offset == 7 * k;
    assert start == 1 - offset + 7 * k;
    if w == 0 {
      assert doy <= -offset;
      assert k <= -1;
    } else {
      assert doy >= 1 - offset;
      assert k >= 0;
    }
  }

  /** The week-based year is the previous year exactly for the dates of week 0. */
  lemma WeekBasedYearBefore(rule: WeekRule, t: LocalDateTime)
    requires rule.Valid() && Calendar.Valid(t)
    ensures WeekBasedYear(rule, t) == t.year - 1 <==> WeekOfYear(rule, t) == 0
  {
  }

  /** A date counted in the next week-based year is in that year's week 1. */
  lemma WeekBasedYearAfter(rule: WeekRule, t: LocalDateTime)
    requires rule.Valid() && Calendar.Valid(t)
    requires WeekBasedYear(rule, t) == t.year + 1
    ensures WeekOfWeekBasedYear(rule, t) == 1
  {
    WeekNotPastNewYear(rule, t);
  }

  /** A date counted in its own year keeps its week of the year. */
  lemma WeekBasedYearSame(rule: WeekRule, t: LocalDateTime)
    requires rule.Valid() && Calendar.Valid(t)
    requires WeekBasedYear(rule, t) == t.year
    ensures WeekOfWeekBasedYear(rule, t) == WeekOfYear(rule, t)
  {
  }
}
