/**
 * date_trunc: truncation of a date or datetime to a unit, cascading through the
 * two fall-through switches of the library (date part, then time of day).
 */
module Truncate {
  import opened Calendar
  import opened JavaInt
  import opened Text
  import opened Literals
  import opened Wrappers

  /** firstDayOfWeek: the Monday on or before t, at the same time of day. */
  function FirstDayOfWeek(t: LocalDateTime): (r: LocalDateTime)
    requires Calendar.Valid(t)
    ensures Calendar.Valid(r) && DayOfWeekOf(r) == 1
    ensures 0 <= DayNumberOf(t) - DayNumberOf(r) <= 6
    ensures DayNumberOf(t) - DayNumberOf(r) == DayOfWeekOf(t) - 1
    ensures r.hour == t.hour && r.minute == t.minute && r.second == t.second && r.nano == t.nano
  {
    BackToMonday(DayNumberOf(t));
    PlusDays(t, -(DayOfWeekOf(t) - 1))
  }

  /** Units whose truncation resets the time of day (the second switch's first group). */
  predicate ResetsHour(u: string) { u == "year" || u == "quarter" || u == "month" || u == "week" || u == "day" }
  predicate ResetsMinute(u: string) { ResetsHour(u) || u == "hour" }
  predicate ResetsSecond(u: string) { ResetsMinute(u) || u == "minute" }

  /**
   * dateTruncHelper.  The unit is matched case-insensitively.  The first switch
   * falls through year -> quarter -> month and sets the date; "week" takes the
   * date of the Monday on or before.  The second switch falls through
   * day -> hour -> minute and zeroes the time fields.  The result is rebuilt from
   * whole seconds, so its fraction of a second is always zero.
   */
  function DateTrunc(t: LocalDateTime, unit: string): (r: LocalDateTime)
    requires Calendar.Valid(t)
    ensures Calendar.Valid(r) && r.nano == 0
  {
    var u := ToLower(unit);
    var date := TruncDatePart(t, u);
    LocalDateTime(
      date.year, date.month, date.day,
      if ResetsHour(u) then 0 else t.hour,
      if ResetsMinute(u) then 0 else t.minute,
      if ResetsSecond(u) then 0 else t.second,
      0)
  }

  /**
   * The first switch of dateTruncHelper: the year, month and day it leaves
   * (the time fields of the result are those of t).
   */
  function TruncDatePart(t: LocalDateTime, u: string): (r: LocalDateTime)
    requires Calendar.Valid(t)
    ensures ValidDate(r.year, r.month, r.day)
    ensures r.hour == t.hour && r.minute == t.minute && r.second == t.second
    ensures u != "week" ==> r.year == t.year && r.month <= t.month && r.day <= t.day
    ensures u == "week" ==> DayOfWeekOf(r) == 1 && 0 <= DayNumberOf(t) - DayNumberOf(r) <= 6
  {
    if u == "week" then
      FirstDayOfWeek(t)
    else
      var month0 := if u == "year" then 0 else t.month;
      var month := if u == "year" || u == "quarter" then JavaDiv(month0 - 1, 3) * 3 + 1 else month0;
      var day := if u == "year" || u == "quarter" || u == "month" then 1 else t.day;
      t.(month := month, day := day)
  }

  /** A truncation never moves a value forward in time. */
  lemma TruncNotAfter(t: LocalDateTime, unit: string)
    requires Calendar.Valid(t)
    ensures !IsAfter(DateTrunc(t, unit), t)
  {
    var r := DateTrunc(t, unit);
    CompareIsInstantOrder(r, t);
    if ToLower(unit) == "week" {
      assert DayNumberOf(r) <= DayNumberOf(t);
    } else if (r.year, r.month, r.day) != (t.year, t.month, t.day) {
      DayNumberMonotone(r.year, r.month, r.day, t.year, t.month, t.day);
    }
  }

  /**
   * The literal overloads, in either argument order: the result has the
   * input's kind; "week" on 0000-01-01 or 0000-01-02 reaches back to
   * -0001-12-27 and is the range error.
   */
  function DateTruncLiteral(l: Literal, unit: string): (r: Result<Literal>)
    requires l.Valid()
    ensures r.Err? <==> ToLower(unit) == "week" && DayNumberOfLiteral(l) <= 1
    ensures r.Err? ==> r.message == RANGE_ERROR
    ensures r.Ok? ==> r.value.Valid() && r.value.kind == l.kind
    ensures r.Ok? ==> ToJava(r.value) == DateTrunc(ToJava(l), unit)
  {
    TruncRange(ToJava(l), unit);
    FromJava(l.kind, DateTrunc(ToJava(l), unit))
  }

  /** Truncation stays within the years 0..9999, except "week" on the first two days. */
  lemma TruncRange(t: LocalDateTime, unit: string)
    requires Calendar.Valid(t) && 0 <= DayNumberOf(t) <= LAST_DAY
    ensures var r := DateTrunc(t, unit);
            0 <= DayNumberOf(r) <= LAST_DAY <==> !(ToLower(unit) == "week" && DayNumberOf(t) <= 1)
  {
    var r := DateTrunc(t, unit);
    YearRangeByDayNumber(t.year, t.month, t.day);
    YearRangeByDayNumber(r.year, r.month, r.day);
    if ToLower(unit) == "week" {
      MondayBefore(DayNumberOf(r), DayNumberOf(t));
    }
  }

  // ---------------------------------------------------------------------
  // What each unit produces

  lemma TruncYear(t: LocalDateTime, unit: string)
    requires Calendar.Valid(t) && ToLower(unit) == "year"
    ensures DateTrunc(t, unit) == AtMidnight(t.year, 1, 1)
  {
  }

  lemma TruncQuarter(t: LocalDateTime, unit: string)
    requires Calendar.Valid(t) && ToLower(unit) == "quarter"
    ensures var r := DateTrunc(t, unit);
            r == AtMidnight(t.year, r.month, 1) &&
            r.month in {1, 4, 7, 10} && r.month <= t.month < r.month + 3
  {
  }

  lemma TruncMonth(t: LocalDateTime, unit: string)
    requires Calendar.Valid(t) && ToLower(unit) == "month"
    ensures DateTrunc(t, unit) == AtMidnight(t.year, t.month, 1)
  {
  }

  lemma TruncWeek(t: LocalDateTime, unit: string)
    requires Calendar.Valid(t) && ToLower(unit) == "week"
    ensures var r := DateTrunc(t, unit);
            r == r.Midnight() && DayOfWeekOf(r) == 1 &&
            0 <= DayNumberOf(t) - DayNumberOf(r) <= 6
  {
  }

  lemma TruncDay(t: LocalDateTime, unit: string)
    requires Calendar.Valid(t) && ToLower(unit) == "day"
    ensures DateTrunc(t, unit) == t.Midnight()
  {
  }

  lemma TruncHourMinuteSecond(t: LocalDateTime, unit: string)
    requires Calendar.Valid(t)
    ensures ToLower(unit) == "hour" ==> DateTrunc(t, unit) == t.(minute := 0, second := 0, nano := 0)
    ensures ToLower(unit) == "minute" ==> DateTrunc(t, unit) == t.(second := 0, nano := 0)
    ensures ToLower(unit) == "second" ==> DateTrunc(t, unit) == t.(nano := 0)
  {
  }

  predicate KnownUnit(u: string) { ResetsSecond(u) || u == "second" }

  /** An unrecognised unit changes nothing but the fraction of a second. */
  lemma TruncUnknown(t: LocalDateTime, unit: string)
    requires Calendar.Valid(t) && !KnownUnit(ToLower(unit))
    ensures DateTrunc(t, unit) == t.(nano := 0)
  {
  }

  // ---------------------------------------------------------------------
  // Idempotence and cascading

  /** t is already truncated to unit u (u in lower case). */
  predicate IsTruncated(t: LocalDateTime, u: string)
    requires 1 <= t.month <= 12
  {
    && t.nano == 0
    && (ResetsSecond(u) ==> t.second == 0)
    && (ResetsMinute(u) ==> t.minute == 0)
    && (ResetsHour(u) ==> t.hour == 0)
    && (u == "week" ==> DayOfWeekOf(t) == 1)
    && (u == "year" || u == "quarter" || u == "month" ==> t.day == 1)
    && (u == "quarter" ==> t.month in {1, 4, 7, 10})
    && (u == "year" ==> t.month == 1)
  }

  lemma TruncIsTruncated(t: LocalDateTime, unit: string)
    requires Calendar.Valid(t)
    ensures IsTruncated(DateTrunc(t, unit), ToLower(unit))
  {
  }

  lemma TruncFixesTruncated(t: LocalDateTime, unit: string)
    requires Calendar.Valid(t) && IsTruncated(t, ToLower(unit))
    ensures DateTrunc(t, unit) == t
  {
    if ToLower(unit) == "week" {
      PlusZeroDays(t);
    }
  }

  /** Truncating twice to the same unit is truncating once. */
  lemma TruncIdempotent(t: LocalDateTime, unit: string)
    requires Calendar.Valid(t)
    ensures DateTrunc(DateTrunc(t, unit), unit) == DateTrunc(t, unit)
  {
    TruncIsTruncated(t, unit);
    TruncFixesTruncated(DateTrunc(t, unit), unit);
  }

  /** Rank of a unit in the cascade; week sits beside day. */
  function Rank(u: string): int {
    if u == "year" then 6 else if u == "quarter" then 5 else if u == "month" then 4
    else if u == "week" || u == "day" then 3 else if u == "hour" then 2
    else if u == "minute" then 1 else 0
  }

  /** u is at least as coarse as v, so truncating to u also truncates to v. */
  predicate Coarser(u: string, v: string) {
    KnownUnit(u) && KnownUnit(v) && Rank(u) >= Rank(v) && (v == "week" ==> u == "week")
  }

  /** Truncating to a coarser unit and then to a finer one keeps the coarser result. */
  lemma TruncCascade(t: LocalDateTime, coarse: string, fine: string)
    requires Calendar.Valid(t) && Coarser(ToLower(coarse), ToLower(fine))
    ensures DateTrunc(DateTrunc(t, coarse), fine) == DateTrunc(t, coarse)
  {
    var r := DateTrunc(t, coarse);
    TruncIsTruncated(t, coarse);
    assert IsTruncated(r, ToLower(fine));
    TruncFixesTruncated(r, fine);
  }
}
