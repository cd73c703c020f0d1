/**
 * week and yearweek: the eight week modes, the hard-coded results
 * at 0000-01-01 and 0000-01-02, and the unknown-mode errors.
 */
module Weeks {
  import opened Calendar
  import opened Text
  import opened Wrappers
  import opened WeekNumbering

  /** isSpecificDate: 0000-01-01 and 0000-01-02, which are answered from a table. */
  function IsSpecificDate(t: LocalDateTime): (b: bool)
    requires Calendar.Valid(t)
    ensures b <==> 0 <= DayNumberOf(t) <= 1
  {
    FirstTwoDays(t);
    t.year == 0 && t.month == 1 && (t.day == 1 || t.day == 2)
  }

  /** 0000-01-01 and 0000-01-02 are the days numbered 0 and 1. */
  lemma FirstTwoDays(t: LocalDateTime)
    requires Calendar.Valid(t)
    ensures (t.year == 0 && t.month == 1 && (t.day == 1 || t.day == 2)) <==> 0 <= DayNumberOf(t) <= 1
  {
    YearRangeByDayNumber(t.year, t.month, t.day);
    if t.year == 0 && t.month == 1 && t.day <= 2 {
      assert DayNumber(0, 1, t.day) == t.day - 1;
    } else if t.year >= 0 {
      DayNumberMonotone(0, 1, 2, t.year, t.month, t.day);
      assert DayNumber(0, 1, 2) == 1;
    }
  }

  /** resultOfFirstDayBC1: the week of 0000-01-01 in each mode. */
  const FIRST_DAY_BC1: seq<int> := [1, 0, 1, 52, 1, 0, 1, 52]

  predicate KnownMode(mode: int) { 0 <= mode <= 7 }

  /**
   * The WeekFields rule of a mode: odd modes start the week on Monday, even
   * modes on Sunday; modes 1, 3, 4 and 6 need four days of the year in week 1,
   * the others a whole week.
   */
  function ModeRule(mode: int): (rule: WeekRule)
    requires KnownMode(mode)
    ensures rule.Valid()
    ensures rule.firstDay == if mode % 2 == 1 then 1 else 7
    ensures rule.minDays == if mode in {1, 3, 4, 6} then 4 else 7
  {
    if mode == 0 || mode == 2 then SUNDAY_7
    else if mode == 1 || mode == 3 then ISO
    else if mode == 4 || mode == 6 then SUNDAY_4
    else MONDAY_7
  }

  /** Modes 2, 3, 6 and 7 number the weeks of the week-based year, the others those of the calendar year. */
  predicate CountsWeekBasedYear(mode: int) {
    mode in {2, 3, 6, 7}
  }

  /** week(date, mode), after the literal is turned into a LocalDateTime. */
  function Week(t: LocalDateTime, mode: int): (r: Result<int>)
    requires Calendar.Valid(t)
    ensures r.Err? <==> !KnownMode(mode)
    ensures r.Err? ==> r.message == "unknown mode " + IntToString(mode) + " in week function"
    ensures r.Ok? ==> 0 <= r.value <= 53
    ensures r.Ok? && CountsWeekBasedYear(mode) ==> r.value >= 1
  {
    if IsSpecificDate(t) && KnownMode(mode) then
      Ok(if t.day == 1 then FIRST_DAY_BC1[mode] else 1)
    else if KnownMode(mode) then
      var rule := ModeRule(mode);
      Ok(if CountsWeekBasedYear(mode) then WeekOfWeekBasedYear(rule, t) else WeekOfYear(rule, t))
    else
      Err("unknown mode " + IntToString(mode) + " in week function")
  }

  /** At 0000-01-01 every known mode answers from the table. */
  lemma WeekAtFirstDayBC1(t: LocalDateTime, mode: int)
    requires Calendar.Valid(t) && t.year == 0 && t.month == 1 && t.day == 1 && KnownMode(mode)
    ensures Week(t, mode) == Ok([1, 0, 1, 52, 1, 0, 1, 52][mode])
  {
  }

  /** At 0000-01-02 every known mode answers 1. */
  lemma WeekAtSecondDayBC1(t: LocalDateTime, mode: int)
    requires Calendar.Valid(t) && t.year == 0 && t.month == 1 && t.day == 2 && KnownMode(mode)
    ensures Week(t, mode) == Ok(1)
  {
  }

  /**
   * The table is needed: at 0000-01-01, a Saturday in the proleptic calendar,
   * the Sunday-first rule of mode 0 puts the day in week 0, not week 1, while
   * mode 1 agrees with the table.
   */
  lemma FirstDayBC1Overrides(t: LocalDateTime)
    requires Calendar.Valid(t) && t.year == 0 && t.month == 1 && t.day == 1
    ensures DayOfWeekOf(t) == 6
    ensures WeekOfYear(ModeRule(0), t) == 0 && FIRST_DAY_BC1[0] == 1
    ensures WeekOfYear(ModeRule(1), t) == 0 && FIRST_DAY_BC1[1] == 0
  {
    FirstDayFacts(t);
    SaturdayNewYearWeeks(t);
    SaturdayRules();
  }

  lemma FirstDayFacts(t: LocalDateTime)
    requires Calendar.Valid(t) && t.year == 0 && t.month == 1 && t.day == 1
    ensures DayOfWeekOf(t) == 6 && DayOfYearOfDate(t) == 1
  {
    assert DayNumberOf(t) == 0;
    FirstDayIsSaturday(t);
  }

  lemma FirstDayIsSaturday(t: LocalDateTime)
    requires Calendar.Valid(t) && DayNumberOf(t) == 0
    ensures DayOfWeekOf(t) == 6
  {
  }

  /** A year that opens on a Saturday opens in week 0 under both the Sunday-first and the ISO rule. */
  lemma SaturdayNewYearWeeks(t: LocalDateTime)
    requires Calendar.Valid(t) && DayOfWeekOf(t) == 6 && DayOfYearOfDate(t) == 1
    ensures WeekOfYear(SUNDAY_7, t) == 0 && WeekOfYear(ISO, t) == 0
  {
    SundayOffsetOfSaturday();
    IsoOffsetOfSaturday();
  }

  lemma SaturdayRules()
    ensures ModeRule(0) == SUNDAY_7 && ModeRule(1) == ISO
    ensures FIRST_DAY_BC1[0] == 1 && FIRST_DAY_BC1[1] == 0
  {
  }

  /** Under the Sunday-first rule a year that opens on a Saturday starts week 1 on day 2. */
  lemma SundayOffsetOfSaturday()
    ensures StartOfWeekOffset(SUNDAY_7, 1, LocalizedDayOfWeek(SUNDAY_7, 6)) == -1
  {
    assert LocalizedDayOfWeek(SUNDAY_7, 6) == 7;
  }

  /** Under the ISO rule a year that opens on a Saturday starts week 1 on day 3. */
  lemma IsoOffsetOfSaturday()
    ensures StartOfWeekOffset(ISO, 1, LocalizedDayOfWeek(ISO, 6)) == -2
  {
    assert LocalizedDayOfWeek(ISO, 6) == 6;
  }

  /** Away from the two special dates, week is the WeekFields number of the mode's rule. */
  lemma WeekIsWeekFields(t: LocalDateTime, mode: int)
    requires Calendar.Valid(t) && !IsSpecificDate(t) && KnownMode(mode)
    ensures Week(t, mode) == Ok(if CountsWeekBasedYear(mode) then WeekOfWeekBasedYear(ModeRule(mode), t)
                                else WeekOfYear(ModeRule(mode), t))
  {
  }

  /** week(date): the one-argument form uses mode 0 and never fails. */
  function WeekDefault(t: LocalDateTime): (r: int)
    requires Calendar.Valid(t)
    ensures Week(t, 0) == Ok(r)
    ensures !IsSpecificDate(t) ==> r == WeekOfYear(SUNDAY_7, t)
  {
    Week(t, 0).value
  }

  /**
   * yearWeek: in year 0 the week result itself (with its error message);
   * otherwise week-based year * 100 + week of the week-based year.
   */
  function YearWeek(t: LocalDateTime, mode: int): (r: Result<int>)
    requires Calendar.Valid(t)
    ensures t.year == 0 ==> r == Week(t, mode)
    ensures r.Err? <==> !KnownMode(mode)
    ensures t.year != 0 && r.Err? ==> r.message == "unknown mode " + IntToString(mode) + " in yearweek function"
  {
    if t.year == 0 then
      Week(t, mode)
    else if KnownMode(mode) then
      Ok(YearAndWeek(ModeRule(mode), t))
    else
      Err("unknown mode " + IntToString(mode) + " in yearweek function")
  }

  /**
   * The week-based year times 100 plus the week of that year: the two parts are
   * recovered by / 100 and % 100.
   */
  function YearAndWeek(rule: WeekRule, t: LocalDateTime): (v: int)
    requires rule.Valid() && rule.minDays >= 2 && Calendar.Valid(t)
    ensures v / 100 == WeekBasedYear(rule, t) && v % 100 == WeekOfWeekBasedYear(rule, t)
    ensures 1 <= v % 100 <= 53 && t.year - 1 <= v / 100 <= t.year + 1
  {
    var y, w := WeekBasedYear(rule, t), WeekOfWeekBasedYear(rule, t);
    SplitHundreds(y, w);
    y * 100 + w
  }

  lemma SplitHundreds(y: int, w: int)
    requires 0 <= w < 100
    ensures (y * 100 + w) / 100 == y && (y * 100 + w) % 100 == w
  {
  }

  /**
   * Outside year 0 a yearweek splits into a week-based year next to the date's
   * year and a week number 1..53.
   */
  lemma YearWeekSplits(t: LocalDateTime, mode: int)
    requires Calendar.Valid(t) && t.year != 0 && KnownMode(mode)
    ensures YearWeek(t, mode).Ok?
    ensures var v := YearWeek(t, mode).value;
            1 <= v % 100 <= 53 && t.year - 1 <= v / 100 <= t.year + 1
    ensures var v := YearWeek(t, mode).value;
            v / 100 == WeekBasedYear(ModeRule(mode), t) && v % 100 == WeekOfWeekBasedYear(ModeRule(mode), t)
  {
  }

  /** yearweek(date): the one-argument form uses mode 0 and never fails. */
  function YearWeekDefault(t: LocalDateTime): (r: int)
    requires Calendar.Valid(t)
    ensures YearWeek(t, 0) == Ok(r)
  {
    YearWeek(t, 0).value
  }
}
