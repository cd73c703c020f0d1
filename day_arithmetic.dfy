/**
 * Day-number arithmetic: from_days, to_days, last_day, makedate, to_monday and
 * next_day, with the weekday-name table next_day reads.
 */
module DayArithmetic {
  import opened Calendar
  import opened JavaInt
  import opened Text
  import opened Wrappers
  import opened Literals

  // ---------------------------------------------------------------------
  // to_days and from_days

  /**
   * to_days: Duration.between(0000-01-01T00:00, t).toDays(), the whole seconds
   * between them divided by 86400 with Java's truncating division.
   */
  function ToDays(l: Literal): (r: int)
    requires l.Valid()
    ensures DayNumberOfLiteral(l) >= 0 ==> r == DayNumberOfLiteral(l)
    ensures !l.HasTime() ==> r == DayNumberOfLiteral(l)
  {
    var t := ToJava(l);
    JavaDiv(DayNumberOf(t) * 86400 + SecondOfDay(t), 86400)
  }

  const MARCH_FIRST_YEAR_0: LocalDateTime := AtMidnight(0, 3, 1)

  /**
   * from_days: the date n days after 0000-01-01 in java.time, moved one day
   * back when it falls before 0000-03-01 (the dialect's year 0 has no
   * February 29th).  The result is a date-v2 literal, and the range error
   * when that date lies outside the years 0..9999.
   */
  function FromDays(n: int): (r: Result<Literal>)
    ensures r.Err? <==> n < 1 || n > LAST_DAY
    ensures r.Err? ==> r.message == RANGE_ERROR
    ensures r.Ok? ==> r.value.Valid() && r.value.kind == DateV2
    ensures r.Ok? ==> DayNumberOfLiteral(r.value) == if n >= MARCH_FIRST_YEAR_0_DAY then n else n - 1
  {
    var t := FromDaysJava(n);
    assert DayNumberOf(t) == DayNumber(t.year, t.month, t.day);
    FromJava(DateV2, t)
  }

  /** The LocalDateTime from_days computes: n days after 0000-01-01, one back before 0000-03-01. */
  function FromDaysJava(n: int): (t: LocalDateTime)
    ensures Calendar.Valid(t) && t == t.Midnight()
    ensures DayNumberOf(t) == if n >= MARCH_FIRST_YEAR_0_DAY then n else n - 1
  {
    var res := PlusDays(AtMidnight(0, 1, 1), n);
    BeforeMidnight(res, MARCH_FIRST_YEAR_0);
    if IsBefore(res, MARCH_FIRST_YEAR_0) then PlusDays(res, -1) else res
  }

  /** to_days undoes from_days from 0000-03-01 on, and lands one day short before it. */
  lemma ToDaysOfFromDays(n: int)
    requires 1 <= n <= LAST_DAY
    ensures FromDays(n).Ok?
    ensures ToDays(FromDays(n).value) == if n >= MARCH_FIRST_YEAR_0_DAY then n else n - 1
  {
  }

  /** from_days undoes to_days for dates from 0000-03-01 on. */
  lemma FromDaysOfToDays(l: Literal)
    requires l.Valid() && DayNumberOfLiteral(l) >= MARCH_FIRST_YEAR_0_DAY
    ensures FromDays(ToDays(l)) == Ok(Literal(DateV2, l.year, l.month, l.day, 0, 0, 0, 0))
  {
    var n := ToDays(l);
    assert n == DayNumberOfLiteral(l);
    var r := FromDays(n);
    assert r.Ok? && DayNumberOfLiteral(r.value) == n;
    var v := r.value;
    DayNumberInjective(v.year, v.month, v.day, l.year, l.month, l.day);
  }

  /**
   * For 0000-01-02 .. 0000-02-29, from_days(to_days(d)) is the day before d;
   * for 0000-01-01 it is the range error.
   */
  lemma FromDaysOfToDaysEarly(l: Literal)
    requires l.Valid() && DayNumberOfLiteral(l) < MARCH_FIRST_YEAR_0_DAY
    ensures DayNumberOfLiteral(l) == 0 ==> FromDays(ToDays(l)) == Err(RANGE_ERROR)
    ensures DayNumberOfLiteral(l) > 0 ==>
              FromDays(ToDays(l)).Ok? && DayNumberOfLiteral(FromDays(ToDays(l)).value) == DayNumberOfLiteral(l) - 1
  {
  }

  // ---------------------------------------------------------------------
  // last_day

  /** LocalDateTime.plusMonths(1) from the first day of a month: the day after that month's last day. */
  function FirstOfNextMonth(y: int, m: int): (r: LocalDateTime)
    requires 1 <= m <= 12
    ensures Calendar.Valid(r) && r == r.Midnight() && r.day == 1
    ensures DayNumberOf(r) == DayNumber(y, m, 1) + DaysInMonth(y, m)
  {
    MonthStep(y, m);
    YearStep(y);
    if m == 12 then AtMidnight(y + 1, 1, 1) else AtMidnight(y, m + 1, 1)
  }

  /** last_day: the day before the first of the next month, in the date kind of the input. */
  function LastDay(l: Literal): (r: Literal)
    requires l.Valid()
    ensures r.Valid() && r.kind == DateKindOf(l.kind)
    ensures r == Literal(DateKindOf(l.kind), l.year, l.month, DaysInMonth(l.year, l.month), 0, 0, 0, 0)
  {
    var next := FirstOfNextMonth(l.year, l.month);
    var last := PlusDays(next, -1);
    DayNumberInjective(last.year, last.month, last.day, l.year, l.month, DaysInMonth(l.year, l.month));
    Make(DateKindOf(l.kind), last)
  }

  // ---------------------------------------------------------------------
  // makedate

  /**
   * makedate: day dayOfYear of the year counted from January 1st; a typed
   * null when dayOfYear <= 0, and the range error when the day lies outside
   * the years 0..9999.
   */
  function MakeDate(year: int, dayOfYear: int): (r: Result<Option<Literal>>)
    ensures r == Ok(None) <==> dayOfYear <= 0
    ensures r.Err? <==> dayOfYear > 0 && !(0 <= DayNumber(year, 1, 1) + dayOfYear - 1 <= LAST_DAY)
    ensures r.Err? ==> r.message == RANGE_ERROR
    ensures r.Ok? && r.value.Some? ==> r.value.value.Valid() && r.value.value.kind == Date
    ensures r.Ok? && r.value.Some? ==> DayNumberOfLiteral(r.value.value) == DayNumber(year, 1, 1) + dayOfYear - 1
  {
    if dayOfYear > 0 then
      match FromJava(Date, PlusDays(AtMidnight(year, 1, 1), dayOfYear - 1))
      case Ok(l) => Ok(Some(l))
      case Err(e) => Err(e)
    else Ok(None)
  }

  /** Within the year's length, makedate lands in that year on that day of the year. */
  lemma MakeDateInYear(year: int, dayOfYear: int)
    requires 0 <= year <= 9999 && 1 <= dayOfYear <= YearLength(year)
    ensures MakeDate(year, dayOfYear).Ok? && MakeDate(year, dayOfYear).value.Some?
    ensures var r := MakeDate(year, dayOfYear).value.value;
            r.year == year && DayOfYear(r.year, r.month, r.day) == dayOfYear
  {
    var t := PlusDays(AtMidnight(year, 1, 1), dayOfYear - 1);
    YearOfDayNumber(t, year);
    YearRangeByDayNumber(t.year, t.month, t.day);
  }

  // ---------------------------------------------------------------------
  // to_monday

  const EPOCH_START: LocalDateTime := AtMidnight(1970, 1, 1)
  const SPECIAL_UPPER: LocalDateTime := LocalDateTime(1970, 1, 4, 23, 59, 59, 999_999_999)

  /**
   * toMonday: the Monday on or before t, except that every instant from
   * 1970-01-01T00:00 to 1970-01-04T23:59:59.999999999 maps to 1970-01-01.
   */
  function ToMondayJava(t: LocalDateTime): (r: LocalDateTime)
    requires Calendar.Valid(t)
    ensures Calendar.Valid(r)
    ensures EPOCH_DAY <= DayNumberOf(t) <= EPOCH_DAY + 3 ==> r == EPOCH_START
    ensures !(EPOCH_DAY <= DayNumberOf(t) <= EPOCH_DAY + 3) ==>
              DayOfWeekOf(r) == 1 && 0 <= DayNumberOf(t) - DayNumberOf(r) <= 6
  {
    SpecialWeek(t);
    BackToMonday(DayNumberOf(t));
    if IsAfter(t, SPECIAL_UPPER) || IsBefore(t, EPOCH_START) then
      PlusDays(t, -DayOfWeekOf(t) + 1)
    else
      EPOCH_START
  }

  /** The special range is the days 1970-01-01 to 1970-01-04, whatever the time of day. */
  lemma SpecialWeek(t: LocalDateTime)
    requires Calendar.Valid(t)
    ensures (IsAfter(t, SPECIAL_UPPER) || IsBefore(t, EPOCH_START)) <==> !(EPOCH_DAY <= DayNumberOf(t) <= EPOCH_DAY + 3)
  {
    assert DayNumberOf(SPECIAL_UPPER) == EPOCH_DAY + 3;
    assert DayNumberOf(EPOCH_START) == EPOCH_DAY;
    AfterEndOfDay(t, SPECIAL_UPPER);
    BeforeMidnight(t, EPOCH_START);
  }

  /**
   * to_monday on a literal: the result is in the input's date kind, and the
   * range error for 0000-01-01 and 0000-01-02, whose Monday lies in year -1.
   */
  function ToMonday(l: Literal): (r: Result<Literal>)
    requires l.Valid()
    ensures r.Err? <==> DayNumberOfLiteral(l) <= 1
    ensures r.Err? ==> r.message == RANGE_ERROR
    ensures r.Ok? ==> r.value.Valid() && r.value.kind == DateKindOf(l.kind)
    ensures r.Ok? ==> ToJava(r.value) == ToMondayJava(ToJava(l)).Midnight()
  {
    ToMondayRange(ToJava(l));
    FromJava(DateKindOf(l.kind), ToMondayJava(ToJava(l)))
  }

  /** The Monday of a day of the years 0..9999 stays in them, except for days 0 and 1. */
  lemma ToMondayRange(t: LocalDateTime)
    requires Calendar.Valid(t) && 0 <= DayNumberOf(t) <= LAST_DAY
    ensures 0 <= DayNumberOf(ToMondayJava(t)) <= LAST_DAY <==> DayNumberOf(t) >= 2
  {
    var m := ToMondayJava(t);
    if !(EPOCH_DAY <= DayNumberOf(t) <= EPOCH_DAY + 3) {
      MondayBefore(DayNumberOf(m), DayNumberOf(t));
    }
  }

  // ---------------------------------------------------------------------
  // next_day

  /** DAY_OF_WEEK: the upper-case weekday names and abbreviations, 1 = Monday .. 7 = Sunday. */
  const DAY_OF_WEEK: map<string, int> := map[
    "MO" := 1, "MON" := 1, "MONDAY" := 1,
    "TU" := 2, "TUE" := 2, "TUESDAY" := 2,
    "WE" := 3, "WED" := 3, "WEDNESDAY" := 3,
    "TH" := 4, "THU" := 4, "THURSDAY" := 4,
    "FR" := 5, "FRI" := 5, "FRIDAY" := 5,
    "SA" := 6, "SAT" := 6, "SATURDAY" := 6,
    "SU" := 7, "SUN" := 7, "SUNDAY" := 7]

  /** getDayOfWeek: the table entry for the upper-cased name, 0 when there is none. */
  function GetDayOfWeek(name: string): (r: int)
    ensures 0 <= r <= 7
    ensures r == 0 <==> ToUpper(name) !in DAY_OF_WEEK
    ensures ToUpper(name) in DAY_OF_WEEK ==> r == DAY_OF_WEEK[ToUpper(name)]
  {
    var key := ToUpper(name);
    if key in DAY_OF_WEEK then DAY_OF_WEEK[key] else 0
  }

  /**
   * next_day: the first date strictly after the input that falls on the named
   * weekday, counting from the literal's own day of week; an unknown name is an
   * evaluation error, and so is a date past 9999-12-31.
   */
  function NextDay(l: Literal, name: string, rd: WeekdayReading): (r: Result<Literal>)
    requires l.Valid() && l.kind == DateV2 && rd.Valid()
    ensures GetDayOfWeek(name) == 0 ==> r == Err("Invalid day of week: " + name)
    ensures GetDayOfWeek(name) != 0 ==> r == NextDayOn(l, GetDayOfWeek(name), rd)
  {
    var dayOfWeek := GetDayOfWeek(name);
    if dayOfWeek == 0 then
      Err("Invalid day of week: " + name)
    else
      NextDayOn(l, dayOfWeek, rd)
  }

  /**
   * next_day once the name is known as the weekday target: the range error when
   * no day after the input up to 9999-12-31 is a target day; otherwise a date
   * one to seven days later, seven exactly when the literal already falls on the
   * target, and, where the literal's weekday is its ISO weekday, the first later
   * date on the target weekday.
   */
  function NextDayOn(l: Literal, target: int, rd: WeekdayReading): (r: Result<Literal>)
    requires l.Valid() && l.kind == DateV2 && rd.Valid() && 1 <= target <= 7
    ensures r.Err? ==> r.message == RANGE_ERROR
    ensures r.Err? <==> forall d :: DayNumberOfLiteral(l) < d <= LAST_DAY ==> IsoDayOfWeek(d) != target
    ensures r.Ok? ==> r.value.Valid() && r.value.kind == DateV2
    ensures r.Ok? ==> var gap := DayNumberOfLiteral(r.value) - DayNumberOfLiteral(l);
              && 1 <= gap <= 7
              && (gap == 7 <==> LiteralDayOfWeek(l, rd) == target)
    ensures r.Ok? && LiteralDayOfWeek(l, rd) == IsoDayOfWeekOf(l) ==>
              && IsoDayOfWeekOf(r.value) == target
              && forall d :: DayNumberOfLiteral(l) < d < DayNumberOfLiteral(r.value) ==> IsoDayOfWeek(d) != target
  {
    var w := LiteralDayOfWeek(l, rd);
    var daysToAdd := WeekdayGap(w, target);
    var n := DayNumberOfLiteral(l);
    var next := PlusDays(ToJava(l), daysToAdd);
    assert DayNumberOf(next) == n + daysToAdd;
    NextDayRange(n, w, target);
    FromJava(DateV2, next)
  }

  /** daysToAdd of next_day: (target - from + 7) % 7, with 0 replaced by a whole week. */
  function WeekdayGap(from: int, target: int): int {
    var daysToAdd := (target - from + 7) % 7;
    if daysToAdd == 0 then 7 else daysToAdd
  }

  /**
   * The gap counted from the literal's weekday w lands on a target day exactly
   * when one lies between day n and 9999-12-31: from 0000-03-01 on w is the
   * ISO weekday, and before it every gap stays far inside the range.
   */
  lemma NextDayRange(n: int, w: int, target: int)
    requires 0 <= n <= LAST_DAY && 1 <= w <= 7 && 1 <= target <= 7
    requires n >= MARCH_FIRST_YEAR_0_DAY ==> w == IsoDayOfWeek(n)
    ensures var gap := WeekdayGap(w, target);
            && 1 <= gap <= 7 && (gap == 7 <==> w == target)
            && (n + gap <= LAST_DAY <==> !forall d :: n < d <= LAST_DAY ==> IsoDayOfWeek(d) != target)
    ensures w == IsoDayOfWeek(n) ==>
              && IsoDayOfWeek(n + WeekdayGap(w, target)) == target
              && forall d :: n < d < n + WeekdayGap(w, target) ==> IsoDayOfWeek(d) != target
  {
    var javaGap := WeekdayGap(IsoDayOfWeek(n), target);
    NextDayLands(n, target, javaGap);
    assert IsoDayOfWeek(n + javaGap) == target;
  }

  /** Adding the computed gap lands on the target weekday, and no earlier day does. */
  lemma NextDayLands(n: int, target: int, gap: int)
    requires 1 <= target <= 7
    requires gap == WeekdayGap(IsoDayOfWeek(n), target)
    ensures 1 <= gap <= 7 && IsoDayOfWeek(n + gap) == target
    ensures gap == 7 <==> IsoDayOfWeek(n) == target
    ensures forall d :: n < d < n + gap ==> IsoDayOfWeek(d) != target
  {
    var g := (target - IsoDayOfWeek(n) + 7) % 7;
    assert gap == if g == 0 then 7 else g;
    var q, r := (n + 5) / 7, (n + 5) % 7;
    assert n + 5 == 7 * q + r;
    forall d | n < d <= n + gap
      ensures IsoDayOfWeek(d) == (r + d - n) % 7 + 1
    {
      assert d + 5 == 7 * q + (r + d - n);
    }
  }
}
