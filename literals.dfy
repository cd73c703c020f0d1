/**
 * The four literal kinds the folding library receives and produces, their
 * conversions to and from the calendar value (toJavaDateType /
 * fromJavaDateType), and the literal's own day of week.
 */
module Literals {
  import opened Calendar
  import opened Wrappers

  datatype Kind = Date | DateTime | DateV2 | DateTimeV2

  /**
   * A date or datetime literal: a date of the years 0..9999; date kinds carry a
   * zero time of day, and only datetime-v2 carries microseconds.
   */
  datatype Literal = Literal(kind: Kind, year: int, month: int, day: int,
                             hour: int, minute: int, second: int, microsecond: int)
  {
    predicate HasTime() { kind == DateTime || kind == DateTimeV2 }

    predicate Valid() {
      && 0 <= year <= 9999
      && ValidDate(year, month, day)
      && 0 <= microsecond < 1_000_000
      && ValidTime(hour, minute, second, microsecond * 1000)
      && (!HasTime() ==> hour == 0 && minute == 0 && second == 0)
      && (kind != DateTimeV2 ==> microsecond == 0)
    }
  }

  /** The date-only kind a function returns for a literal of kind k. */
  function DateKindOf(k: Kind): Kind {
    if k == Date || k == DateTime then Date else DateV2
  }

  /** The years a literal can hold. */
  predicate InLiteralRange(t: LocalDateTime) { 0 <= t.year <= 9999 }

  /** The evaluation error of building a literal outside the years 0..9999. */
  const RANGE_ERROR: string := "date literal out of range"

  /** toJavaDateType: the literal as a LocalDateTime. */
  function ToJava(l: Literal): (t: LocalDateTime)
    requires l.Valid()
    ensures Calendar.Valid(t) && InLiteralRange(t)
    ensures t.year == l.year && t.month == l.month && t.day == l.day
    ensures t.hour == l.hour && t.minute == l.minute && t.second == l.second
    ensures t.nano == l.microsecond * 1000
  {
    LocalDateTime(l.year, l.month, l.day, l.hour, l.minute, l.second, l.microsecond * 1000)
  }

  /**
   * What a literal of kind k keeps of t: the date kinds the date, the legacy
   * datetime whole seconds, datetime-v2 whole microseconds.
   */
  function Narrow(k: Kind, t: LocalDateTime): LocalDateTime {
    match k
    case Date => t.Midnight()
    case DateV2 => t.Midnight()
    case DateTime => t.(nano := 0)
    case DateTimeV2 => t.(nano := t.nano / 1000 * 1000)
  }

  /** The literal of kind k holding t, for a t within the literal range. */
  function Make(k: Kind, t: LocalDateTime): (l: Literal)
    requires Calendar.Valid(t) && InLiteralRange(t)
    ensures l.Valid() && l.kind == k
    ensures ToJava(l) == Narrow(k, t)
  {
    match k
    case Date => Literal(Date, t.year, t.month, t.day, 0, 0, 0, 0)
    case DateV2 => Literal(DateV2, t.year, t.month, t.day, 0, 0, 0, 0)
    case DateTime => Literal(DateTime, t.year, t.month, t.day, t.hour, t.minute, t.second, 0)
    case DateTimeV2 => Literal(DateTimeV2, t.year, t.month, t.day, t.hour, t.minute, t.second, t.nano / 1000)
  }

  /**
   * fromJavaDateType for a literal of kind k: the literal keeping what its kind
   * keeps of t, or the range error when t lies outside the years 0..9999.
   */
  function FromJava(k: Kind, t: LocalDateTime): (r: Result<Literal>)
    requires Calendar.Valid(t)
    ensures r.Err? <==> !(0 <= DayNumberOf(t) <= LAST_DAY)
    ensures r.Err? ==> r.message == RANGE_ERROR
    ensures r.Ok? ==> r.value.Valid() && r.value.kind == k && ToJava(r.value) == Narrow(k, t)
    ensures r.Ok? ==> r.value.year == t.year && r.value.month == t.month && r.value.day == t.day
  {
    YearRangeByDayNumber(t.year, t.month, t.day);
    if InLiteralRange(t) then Ok(Make(k, t)) else Err(RANGE_ERROR)
  }

  /** A valid literal survives the trip to LocalDateTime and back unchanged. */
  lemma JavaRoundTrip(l: Literal)
    requires l.Valid()
    ensures FromJava(l.kind, ToJava(l)) == Ok(l)
  {
    YearRangeByDayNumber(l.year, l.month, l.day);
  }

  /** The literal's day number, which lies in 0..LAST_DAY. */
  function DayNumberOfLiteral(l: Literal): (n: int)
    requires l.Valid()
    ensures 0 <= n <= LAST_DAY
  {
    YearRangeByDayNumber(l.year, l.month, l.day);
    DayNumber(l.year, l.month, l.day)
  }

  /** The literal's ISO day of week in java.time (1 = Monday .. 7 = Sunday). */
  function IsoDayOfWeekOf(l: Literal): (r: int)
    requires l.Valid()
    ensures 1 <= r <= 7
  {
    IsoDayOfWeek(DayNumberOfLiteral(l))
  }

  // ---------------------------------------------------------------------
  // The literal's own day of week

  /** Day number of 0000-03-01: from here on the dialect's calendar and java.time agree. */
  const MARCH_FIRST_YEAR_0_DAY: int := 60

  /**
   * How the literal classes' getDayOfWeek (1 = Monday .. 7 = Sunday) reads the
   * days before 0000-03-01: early[n] is the weekday of day number n.  The
   * dialect's year 0 has no February 29th, so these days may sit one place
   * later in the week than in java.time.  From 0000-03-01 on every reading is
   * java.time's.
   */
  datatype WeekdayReading = WeekdayReading(early: seq<int>)
  {
    predicate Valid() {
      |early| == MARCH_FIRST_YEAR_0_DAY && forall n :: 0 <= n < |early| ==> 1 <= early[n] <= 7
    }
  }

  /** java.time throughout: 0000-01-01 is a Saturday. */
  const JAVA_WEEKDAYS: WeekdayReading := WeekdayReading(seq(MARCH_FIRST_YEAR_0_DAY, n => IsoDayOfWeek(n)))

  /** The dialect's day count, one day later: 0000-01-01 is a Sunday and 0000-01-02 a Monday. */
  const DIALECT_WEEKDAYS: WeekdayReading := WeekdayReading(seq(MARCH_FIRST_YEAR_0_DAY, n => IsoDayOfWeek(n + 1)))

  /** getDayOfWeek of a literal under a reading of the days before 0000-03-01. */
  function LiteralDayOfWeek(l: Literal, rd: WeekdayReading): (r: int)
    requires l.Valid() && rd.Valid()
    ensures 1 <= r <= 7
    ensures DayNumberOfLiteral(l) >= MARCH_FIRST_YEAR_0_DAY ==> r == IsoDayOfWeekOf(l)
    ensures DayNumberOfLiteral(l) < MARCH_FIRST_YEAR_0_DAY ==> r == rd.early[DayNumberOfLiteral(l)]
  {
    var n := DayNumberOfLiteral(l);
    if n < MARCH_FIRST_YEAR_0_DAY then rd.early[n] else IsoDayOfWeek(n)
  }

  /** Under the java.time reading every literal's weekday is its ISO weekday. */
  lemma JavaReading(l: Literal)
    requires l.Valid()
    ensures JAVA_WEEKDAYS.Valid()
    ensures LiteralDayOfWeek(l, JAVA_WEEKDAYS) == IsoDayOfWeekOf(l)
  {
  }

  /** From 0000-03-01 on, or under the java.time reading, the literal's weekday is its ISO weekday. */
  lemma IsoReading(l: Literal, rd: WeekdayReading)
    requires l.Valid() && rd.Valid()
    requires DayNumberOfLiteral(l) >= MARCH_FIRST_YEAR_0_DAY || rd == JAVA_WEEKDAYS
    ensures LiteralDayOfWeek(l, rd) == IsoDayOfWeekOf(l)
  {
    if DayNumberOfLiteral(l) < MARCH_FIRST_YEAR_0_DAY {
      JavaReading(l);
    }
  }

  /** Under the dialect's reading every early day sits one place later in the week. */
  lemma DialectReading(l: Literal)
    requires l.Valid()
    ensures DIALECT_WEEKDAYS.Valid()
    ensures LiteralDayOfWeek(l, DIALECT_WEEKDAYS) ==
            if DayNumberOfLiteral(l) < MARCH_FIRST_YEAR_0_DAY then IsoDayOfWeekOf(l) % 7 + 1 else IsoDayOfWeekOf(l)
  {
    IsoDayOfWeekNext(DayNumberOfLiteral(l));
  }
}
