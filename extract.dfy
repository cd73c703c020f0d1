/** Field extraction: year, quarter, month, day, dayofweek, weekday, dayofyear and the time fields. */
module Extract {
  import opened Calendar
  import opened Literals
  import opened JavaInt

  /** year: the literal's year, one of 0..9999. */
  function Year(l: Literal): (r: int)
    requires l.Valid()
    ensures 0 <= r <= 9999 && r == ToJava(l).year
  {
    l.year
  }

  /** quarter: (month - 1) / 3 + 1 in Java integer arithmetic. */
  function Quarter(l: Literal): (r: int)
    requires l.Valid()
    ensures 1 <= r <= 4
    ensures 3 * (r - 1) + 1 <= l.month <= 3 * r
  {
    JavaDiv(l.month - 1, 3) + 1
  }

  function Month(l: Literal): (r: int)
    requires l.Valid()
    ensures 1 <= r <= 12 && r == ToJava(l).month
  {
    l.month
  }

  function Day(l: Literal): (r: int)
    requires l.Valid()
    ensures 1 <= r <= DaysInMonth(l.year, l.month) && r == ToJava(l).day
  {
    l.day
  }

  /** dayofmonth reads the day through the LocalDateTime. */
  function DayOfMonth(l: Literal): (r: int)
    requires l.Valid()
    ensures 1 <= r <= DaysInMonth(l.year, l.month)
    ensures r == l.day
  {
    ToJava(l).day
  }

  function Hour(l: Literal): (r: int)
    requires l.Valid() && l.HasTime()
    ensures 0 <= r < 24 && r == ToJava(l).hour
  {
    l.hour
  }

  function Minute(l: Literal): (r: int)
    requires l.Valid() && l.HasTime()
    ensures 0 <= r < 60 && r == ToJava(l).minute
  {
    l.minute
  }

  function Second(l: Literal): (r: int)
    requires l.Valid() && l.HasTime()
    ensures 0 <= r < 60 && r == ToJava(l).second
  {
    l.second
  }

  function Microsecond(l: Literal): (r: int)
    requires l.Valid() && l.kind == DateTimeV2
    ensures 0 <= r < 1_000_000 && r * 1000 == ToJava(l).nano
  {
    l.microsecond
  }

  /** The extracted fields rebuild the literal they came from. */
  lemma FieldsDetermineLiteral(l: Literal)
    requires l.Valid() && l.kind == DateTimeV2
    ensures Literal(DateTimeV2, Year(l), Month(l), Day(l), Hour(l), Minute(l), Second(l), Microsecond(l)) == l
  {
  }

  /** dayofyear: 1 for January 1st, counting in the java.time calendar. */
  function DayOfYearOf(l: Literal): (r: int)
    requires l.Valid()
    ensures 1 <= r <= YearLength(l.year)
    ensures r == DayNumberOfLiteral(l) - DayNumber(l.year, 1, 1) + 1
  {
    DayOfYear(l.year, l.month, l.day)
  }

  /** dayofweek: 1 = Sunday, 2 = Monday, .., 7 = Saturday, from the literal's own day of week. */
  function DayOfWeek(l: Literal, rd: WeekdayReading): (r: int)
    requires l.Valid() && rd.Valid()
    ensures 1 <= r <= 7
    ensures r == 1 <==> LiteralDayOfWeek(l, rd) == 7
    ensures r == LiteralDayOfWeek(l, rd) + 1 || r == 1
  {
    LiteralDayOfWeek(l, rd) % 7 + 1
  }

  /** weekday: 0 = Monday, .., 6 = Sunday, from the java.time weekday of toJavaDateType. */
  function Weekday(l: Literal): (r: int)
    requires l.Valid()
    ensures 0 <= r <= 6
    ensures r == IsoDayOfWeekOf(l) - 1
  {
    JavaWeekday(l);
    MondayZero(DayOfWeekOf(ToJava(l)));
    (DayOfWeekOf(ToJava(l)) + 6) % 7
  }

  /** The weekday of toJavaDateType is the literal's ISO weekday. */
  lemma JavaWeekday(l: Literal)
    requires l.Valid()
    ensures DayOfWeekOf(ToJava(l)) == IsoDayOfWeekOf(l)
  {
    assert DayNumberOf(ToJava(l)) == DayNumberOfLiteral(l);
  }

  /** Shifting 1 = Monday .. 7 = Sunday to 0 = Monday .. 6 = Sunday. */
  lemma MondayZero(w: int)
    requires 1 <= w <= 7
    ensures (w + 6) % 7 == w - 1
  {
  }

  /**
   * Where the literal's weekday is java.time's (from 0000-03-01 on, or under
   * the java.time reading), dayofweek is weekday shifted to a Sunday start.
   */
  lemma DayOfWeekFromWeekday(l: Literal, rd: WeekdayReading)
    requires l.Valid() && rd.Valid()
    requires DayNumberOfLiteral(l) >= MARCH_FIRST_YEAR_0_DAY || rd == JAVA_WEEKDAYS
    ensures DayOfWeek(l, rd) == (Weekday(l) + 1) % 7 + 1
  {
    IsoReading(l, rd);
  }

  /** Consecutive days have consecutive dayofweek values, Saturday (7) wrapping to Sunday (1). */
  lemma DayOfWeekOfNextDay(l: Literal, n: Literal, rd: WeekdayReading)
    requires l.Valid() && n.Valid() && rd.Valid()
    requires DayNumberOfLiteral(l) >= MARCH_FIRST_YEAR_0_DAY || rd == JAVA_WEEKDAYS
    requires DayNumberOfLiteral(n) == DayNumberOfLiteral(l) + 1
    ensures DayOfWeek(n, rd) == DayOfWeek(l, rd) % 7 + 1
  {
    IsoDayOfWeekNext(DayNumberOfLiteral(l));
    IsoReading(l, rd);
    IsoReading(n, rd);
  }

  /** date, to_date and datev2: the date part of a datetime literal, in the matching date kind. */
  function ToDate(l: Literal): (r: Literal)
    requires l.Valid() && l.HasTime()
    ensures r.Valid() && !r.HasTime()
    ensures r.kind == DateKindOf(l.kind)
    ensures ToJava(r) == ToJava(l).Midnight()
  {
    Literal(DateKindOf(l.kind), l.year, l.month, l.day, 0, 0, 0, 0)
  }

  /** timestamp: a datetime literal is returned as it is. */
  function Timestamp(l: Literal): (r: Literal)
    requires l.Valid() && l.HasTime()
    ensures r == l
  {
    l
  }
}
