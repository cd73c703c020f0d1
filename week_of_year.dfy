/**
 * weekofyear: the ISO week of the week-based year, with the year-0 Monday
 * adjustment of the literal-level function.
 */
module WeekOfYear {
  import opened Calendar
  import opened Literals
  import opened WeekNumbering
  import opened Wrappers
  import opened Weeks

  /**
   * weekofyear: the ISO week of the week-based year, except that in year 0 a
   * Monday (by the literal's own day of week) counts one week more, and
   * 0000-01-02, if it is a Monday, counts 1.
   */
  function WeekOfYearLiteral(l: Literal, rd: WeekdayReading): (r: int)
    requires l.Valid() && l.kind != Date && rd.Valid()
    ensures 1 <= r <= 54
    ensures l.year != 0 ==> r <= 53
  {
    var iso := WeekOfWeekBasedYear(ISO, ToJava(l));
    YearZeroMondaysBounds(l.year, l.month, l.day, LiteralDayOfWeek(l, rd), iso);
    YearZeroMondays(l.year, l.month, l.day, LiteralDayOfWeek(l, rd), iso)
  }

  /** The year-0 adjustment of weekofyear applied to a date's day of week and ISO week. */
  function YearZeroMondays(year: int, month: int, day: int, dayOfWeek: int, iso: int): int {
    if year == 0 && dayOfWeek == 1 then
      (if month == 1 && day == 2 then 1 else iso + 1)
    else
      iso
  }

  lemma YearZeroMondaysBounds(year: int, month: int, day: int, dayOfWeek: int, iso: int)
    requires 1 <= iso <= 53
    ensures 1 <= YearZeroMondays(year, month, day, dayOfWeek, iso) <= 54
    ensures year != 0 ==> YearZeroMondays(year, month, day, dayOfWeek, iso) <= 53
  {
  }

  /** Outside year 0, weekofyear is week in mode 3, whatever the reading of the early days. */
  lemma WeekOfYearIsMode3(l: Literal, rd: WeekdayReading)
    requires l.Valid() && l.kind != Date && l.year != 0 && rd.Valid()
    ensures Week(ToJava(l), 3) == Ok(WeekOfYearLiteral(l, rd))
  {
  }

  /**
   * Where the literal's day of week is its ISO day of week, weekofyear is the ISO
   * week of the week-based year, one more on a Monday of year 0 and unchanged on
   * every other date.
   */
  lemma WeekOfYearIsIsoWeek(l: Literal, rd: WeekdayReading)
    requires l.Valid() && l.kind != Date && rd.Valid()
    requires LiteralDayOfWeek(l, rd) == IsoDayOfWeekOf(l)
    ensures WeekOfYearLiteral(l, rd) ==
            WeekOfWeekBasedYear(ISO, ToJava(l)) + (if l.year == 0 && IsoDayOfWeekOf(l) == 1 then 1 else 0)
  {
    var iso := WeekOfWeekBasedYear(ISO, ToJava(l));
    if l.year == 0 && l.month == 1 && l.day == 2 {
      assert DayNumberOfLiteral(l) == 1;
    }
    YearZeroMondaysRule(l.year, l.month, l.day, IsoDayOfWeekOf(l), iso);
  }

  lemma YearZeroMondaysRule(year: int, month: int, day: int, dayOfWeek: int, iso: int)
    requires year == 0 && month == 1 && day == 2 ==> dayOfWeek == 7
    ensures YearZeroMondays(year, month, day, dayOfWeek, iso) == iso + (if year == 0 && dayOfWeek == 1 then 1 else 0)
  {
  }

  /**
   * 0000-01-02 is a Sunday in java.time, so there weekofyear's 0000-01-02 branch
   * is not taken; in the dialect's count it is a Monday, the branch is taken and
   * the answer is 1.
   */
  lemma SecondDayOfYearZero(l: Literal)
    requires l.Valid() && l.kind != Date && l.year == 0 && l.month == 1 && l.day == 2
    ensures JAVA_WEEKDAYS.Valid() && DIALECT_WEEKDAYS.Valid()
    ensures LiteralDayOfWeek(l, JAVA_WEEKDAYS) == 7
    ensures WeekOfYearLiteral(l, JAVA_WEEKDAYS) == WeekOfWeekBasedYear(ISO, ToJava(l))
    ensures LiteralDayOfWeek(l, DIALECT_WEEKDAYS) == 1
    ensures WeekOfYearLiteral(l, DIALECT_WEEKDAYS) == 1
  {
    SecondDayWeekdays(l);
    WeekOfYearLiteralParts(l, JAVA_WEEKDAYS);
    WeekOfYearLiteralParts(l, DIALECT_WEEKDAYS);
  }

  lemma SecondDayWeekdays(l: Literal)
    requires l.Valid() && l.year == 0 && l.month == 1 && l.day == 2
    ensures JAVA_WEEKDAYS.Valid() && DIALECT_WEEKDAYS.Valid()
    ensures LiteralDayOfWeek(l, JAVA_WEEKDAYS) == 7
    ensures LiteralDayOfWeek(l, DIALECT_WEEKDAYS) == 1
  {
    SecondDayNumber(l);
    JavaFirst(l);
    DialectFirst(l);
  }

  lemma JavaFirst(l: Literal)
    requires l.Valid() && DayNumberOfLiteral(l) == 1
    ensures JAVA_WEEKDAYS.Valid()
    ensures LiteralDayOfWeek(l, JAVA_WEEKDAYS) == 7
  {
    JavaReading(l);
  }

  lemma DialectFirst(l: Literal)
    requires l.Valid() && DayNumberOfLiteral(l) == 1
    ensures DIALECT_WEEKDAYS.Valid()
    ensures LiteralDayOfWeek(l, DIALECT_WEEKDAYS) == 1
  {
    DialectReading(l);
  }

  lemma SecondDayNumber(l: Literal)
    requires l.Valid() && l.year == 0 && l.month == 1 && l.day == 2
    ensures DayNumberOfLiteral(l) == 1
  {
    assert DayNumber(0, 1, 2) == 1;
  }

  lemma WeekOfYearLiteralParts(l: Literal, rd: WeekdayReading)
    requires l.Valid() && l.kind != Date && rd.Valid()
    ensures WeekOfYearLiteral(l, rd) ==
            YearZeroMondays(l.year, l.month, l.day, LiteralDayOfWeek(l, rd), WeekOfWeekBasedYear(ISO, ToJava(l)))
  {
  }
}
