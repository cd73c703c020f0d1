/**
 * The proleptic Gregorian calendar of java.time, on which every operation of
 * the date/time library is computed.  Year 0 exists and, being divisible by
 * 400, is a leap year here; the dialect's own treatment of year 0 shows up
 * only as explicit corrections in the operations that need it.
 *
 * Day numbers count days from 0000-01-01 (day 0), the origin the library
 * itself uses for to_days and from_days.
 */
module Calendar {

  /** A java.time.LocalDateTime, field by field (nano is the nano-of-second). */
  datatype LocalDateTime = LocalDateTime(year: int, month: int, day: int,
                                         hour: int, minute: int, second: int, nano: int)
  {
    /** The same day at midnight. */
    function Midnight(): LocalDateTime {
      LocalDateTime(year, month, day, 0, 0, 0, 0)
    }
  }

  function AtMidnight(year: int, month: int, day: int): LocalDateTime {
    LocalDateTime(year, month, day, 0, 0, 0, 0)
  }

  predicate IsLeap(y: int) {
    y % 4 == 0 && (y % 100 != 0 || y % 400 == 0)
  }

  function YearLength(y: int): int {
    if IsLeap(y) then 366 else 365
  }

  function DaysInMonth(y: int, m: int): int
    requires 1 <= m <= 12
  {
    if m == 2 then (if IsLeap(y) then 29 else 28)
    else if m == 4 || m == 6 || m == 9 || m == 11 then 30
    else 31
  }

  predicate ValidDate(y: int, m: int, d: int) {
    1 <= m <= 12 && 1 <= d <= DaysInMonth(y, m)
  }

  predicate ValidTime(h: int, mi: int, s: int, n: int) {
    0 <= h < 24 && 0 <= mi < 60 && 0 <= s < 60 && 0 <= n < 1_000_000_000
  }

  predicate Valid(t: LocalDateTime) {
    ValidDate(t.year, t.month, t.day) && ValidTime(t.hour, t.minute, t.second, t.nano)
  }

  /** Days from 0000-01-01 to the first day of year y (negative before year 0). */
  function DaysBeforeYear(y: int): int {
    365 * y + (y + 3) / 4 - (y + 99) / 100 + (y + 399) / 400
  }

  /** Days of year y before the first day of month m (m == 13 gives the year's length). */
  function DaysBeforeMonth(y: int, m: int): (r: int)
    requires 1 <= m <= 13
  {
    var leap := if IsLeap(y) && m > 2 then 1 else 0;
    leap + (
      if m == 1 then 0 else if m == 2 then 31 else if m == 3 then 59
      else if m == 4 then 90 else if m == 5 then 120 else if m == 6 then 151
      else if m == 7 then 181 else if m == 8 then 212 else if m == 9 then 243
      else if m == 10 then 273 else if m == 11 then 304 else if m == 12 then 334
      else 365)
  }

  /** The day number of a date: days since 0000-01-01. */
  function DayNumber(y: int, m: int, d: int): int
    requires 1 <= m <= 12
  {
    DaysBeforeYear(y) + DaysBeforeMonth(y, m) + d - 1
  }

  function DayNumberOf(t: LocalDateTime): int
    requires 1 <= t.month <= 12
  {
    DayNumber(t.year, t.month, t.day)
  }

  /** 1-based day of the year, as java.time's getDayOfYear. */
  function DayOfYear(y: int, m: int, d: int): (r: int)
    requires ValidDate(y, m, d)
    ensures 1 <= r <= YearLength(y)
    ensures r == DayNumber(y, m, d) - DaysBeforeYear(y) + 1
  {
    MonthStep(y, m);
    MonthsBelowYearLength(y, m + 1);
    DaysBeforeMonth(y, m) + d
  }

  /** ISO day of week of a day number: 1 = Monday .. 7 = Sunday (0000-01-01 is a Saturday). */
  function IsoDayOfWeek(n: int): (r: int)
    ensures 1 <= r <= 7
  {
    (n + 5) % 7 + 1
  }

  /** The ISO day of week advances by one each day, Sunday (7) wrapping to Monday (1). */
  lemma IsoDayOfWeekNext(n: int)
    ensures IsoDayOfWeek(n + 1) == IsoDayOfWeek(n) % 7 + 1
  {
    var r := (n + 5) % 7;
    assert n + 5 == 7 * ((n + 5) / 7) + r;
    if r == 6 {
      assert n + 6 == 7 * ((n + 5) / 7 + 1);
    } else {
      assert n + 6 == 7 * ((n + 5) / 7) + (r + 1);
    }
  }

  /** Stepping back (day of week - 1) days from any day reaches a Monday. */
  lemma BackToMonday(n: int)
    ensures IsoDayOfWeek(n - (IsoDayOfWeek(n) - 1)) == 1
  {
    var q, r := (n + 5) / 7, (n + 5) % 7;
    assert n + 5 == 7 * q + r;
    assert n - r + 5 == 7 * q + 0;
  }

  function DayOfWeekOf(t: LocalDateTime): (r: int)
    requires 1 <= t.month <= 12
    ensures 1 <= r <= 7
  {
    IsoDayOfWeek(DayNumberOf(t))
  }

  // ---------------------------------------------------------------------
  // Facts about the year and month tables

  lemma YearStep(y: int)
    ensures DaysBeforeYear(y + 1) == DaysBeforeYear(y) + YearLength(y)
  {
    StepAt4(y);
    StepAt100(y);
    StepAt400(y);
    DivisibilityChain(y);
  }

  /** The term (y + c - 1) / c of DaysBeforeYear grows by one from y to y + 1 exactly when c divides y. */
  lemma StepAt4(y: int)
    ensures (y + 4) / 4 - (y + 3) / 4 == if y % 4 == 0 then 1 else 0
  {
    var q, r := y / 4, y % 4;
    assert y + 4 == 4 * (q + 1) + r;
    if r == 0 {
      assert y + 3 == 4 * q + 3;
    } else {
      assert y + 3 == 4 * (q + 1) + (r - 1);
    }
  }

  lemma StepAt100(y: int)
    ensures (y + 100) / 100 - (y + 99) / 100 == if y % 100 == 0 then 1 else 0
  {
    var q, r := y / 100, y % 100;
    assert y + 100 == 100 * (q + 1) + r;
    if r == 0 {
      assert y + 99 == 100 * q + 99;
    } else {
      assert y + 99 == 100 * (q + 1) + (r - 1);
    }
  }

  lemma StepAt400(y: int)
    ensures (y + 400) / 400 - (y + 399) / 400 == if y % 400 == 0 then 1 else 0
  {
    var q, r := y / 400, y % 400;
    assert y + 400 == 400 * (q + 1) + r;
    if r == 0 {
      assert y + 399 == 400 * q + 399;
    } else {
      assert y + 399 == 400 * (q + 1) + (r - 1);
    }
  }

  lemma DivisibilityChain(y: int)
    ensures y % 400 == 0 ==> y % 100 == 0
    ensures y % 100 == 0 ==> y % 4 == 0
  {
    if y % 400 == 0 {
      var k := y / 400;
      assert y == 0 + 100 * (4 * k);
      DivShift(0, 100, 4 * k);
    }
    if y % 100 == 0 {
      var k := y / 100;
      assert y == 0 + 4 * (25 * k);
      DivShift(0, 4, 25 * k);
    }
  }

  lemma MonthStep(y: int, m: int)
    requires 1 <= m <= 12
    ensures DaysBeforeMonth(y, m + 1) == DaysBeforeMonth(y, m) + DaysInMonth(y, m)
  {
  }

  lemma MonthsBelowYearLength(y: int, m: int)
    requires 1 <= m <= 13
    ensures 0 <= DaysBeforeMonth(y, m) <= YearLength(y)
    ensures DaysBeforeMonth(y, 13) == YearLength(y)
  {
  }

  /** Later years start later: the year brackets of day numbers do not overlap. */
  lemma {:induction false} YearsIncrease(a: int, b: int)
    requires a < b
    ensures DaysBeforeYear(a) + YearLength(a) <= DaysBeforeYear(b)
    decreases b - a
  {
    YearStep(a);
    if a + 1 < b {
      YearsIncrease(a + 1, b);
      YearStep(a + 1);
    }
  }

  lemma {:induction false} MonthsIncrease(y: int, a: int, b: int)
    requires 1 <= a < b <= 13
    ensures DaysBeforeMonth(y, a) + DaysInMonth(y, a) <= DaysBeforeMonth(y, b)
    decreases b - a
  {
    MonthStep(y, a);
    if a + 1 < b {
      MonthsIncrease(y, a + 1, b);
    }
  }

  /** The 400-year cycle: the calendar repeats every 146097 days. */
  lemma Cycle(y: int, q: int)
    ensures DaysBeforeYear(y + 400 * q) == DaysBeforeYear(y) + 146097 * q
    ensures IsLeap(y + 400 * q) == IsLeap(y)
  {
    DivShift(y + 3, 4, 100 * q);
    DivShift(y + 99, 100, 4 * q);
    DivShift(y + 399, 400, q);
    DivShift(y, 4, 100 * q);
    DivShift(y, 100, 4 * q);
    DivShift(y, 400, q);
  }

  lemma DivShift(x: int, c: int, k: int)
    requires c == 4 || c == 100 || c == 400
    ensures (x + c * k) / c == x / c + k
    ensures (x + c * k) % c == x % c
  {
    var q, r := x / c, x % c;
    assert x == c * q + r && 0 <= r < c;
    assert x + c * k == c * (q + k) + r;
  }

  /** A valid date's day number lies inside its year and inside its month. */
  lemma Bracket(y: int, m: int, d: int)
    requires ValidDate(y, m, d)
    ensures DaysBeforeYear(y) <= DayNumber(y, m, d) < DaysBeforeYear(y) + YearLength(y)
    ensures DaysBeforeYear(y) + DaysBeforeMonth(y, m) <= DayNumber(y, m, d)
    ensures DayNumber(y, m, d) < DaysBeforeYear(y) + DaysBeforeMonth(y, m) + DaysInMonth(y, m)
  {
    MonthStep(y, m);
    MonthsBelowYearLength(y, m + 1);
    MonthsBelowYearLength(y, m);
  }

  // ---------------------------------------------------------------------
  // From a day number back to a date

  /** The year of the 400-year cycle holding day r of the cycle. */
  function YearInCycle(r: int, y: int): (res: int)
    requires 0 <= y < 400 && DaysBeforeYear(y) <= r < 146097
    ensures y <= res < 400
    ensures DaysBeforeYear(res) <= r < DaysBeforeYear(res) + YearLength(res)
    decreases 400 - y
  {
    YearStep(y);
    if r < DaysBeforeYear(y + 1) then y else YearInCycle(r, y + 1)
  }

  /** The month holding the 0-based day doy of year y. */
  function MonthOfYear(y: int, doy: int, m: int): (res: int)
    requires 1 <= m <= 12 && DaysBeforeMonth(y, m) <= doy < YearLength(y)
    ensures m <= res <= 12
    ensures DaysBeforeMonth(y, res) <= doy < DaysBeforeMonth(y, res) + DaysInMonth(y, res)
    decreases 13 - m
  {
    MonthStep(y, m);
    MonthsBelowYearLength(y, m + 1);
    if doy < DaysBeforeMonth(y, m + 1) then m else MonthOfYear(y, doy, m + 1)
  }

  /** The date with day number n (java's LocalDate.ofEpochDay, shifted to our origin). */
  function FromDayNumber(n: int): (t: LocalDateTime)
    ensures ValidDate(t.year, t.month, t.day)
    ensures DayNumberOf(t) == n
    ensures t == t.Midnight()
  {
    var q := n / 146097;
    var r := n % 146097;
    var y0 := YearInCycle(r, 0);
    var y := y0 + 400 * q;
    Cycle(y0, q);
    var doy := r - DaysBeforeYear(y0);
    var m := MonthOfYear(y, doy, 1);
    AtMidnight(y, m, doy - DaysBeforeMonth(y, m) + 1)
  }

  /** Day numbers order dates exactly as (year, month, day) does lexicographically. */
  lemma DayNumberMonotone(y1: int, m1: int, d1: int, y2: int, m2: int, d2: int)
    requires ValidDate(y1, m1, d1) && ValidDate(y2, m2, d2)
    requires y1 < y2 || (y1 == y2 && (m1 < m2 || (m1 == m2 && d1 < d2)))
    ensures DayNumber(y1, m1, d1) < DayNumber(y2, m2, d2)
  {
    Bracket(y1, m1, d1);
    Bracket(y2, m2, d2);
    if y1 < y2 {
      YearsIncrease(y1, y2);
    } else if m1 < m2 {
      MonthsIncrease(y1, m1, m2);
    }
  }

  lemma DayNumberInjective(y1: int, m1: int, d1: int, y2: int, m2: int, d2: int)
    requires ValidDate(y1, m1, d1) && ValidDate(y2, m2, d2)
    requires DayNumber(y1, m1, d1) == DayNumber(y2, m2, d2)
    ensures y1 == y2 && m1 == m2 && d1 == d2
  {
    if y1 < y2 || (y1 == y2 && (m1 < m2 || (m1 == m2 && d1 < d2))) {
      DayNumberMonotone(y1, m1, d1, y2, m2, d2);
    } else if y2 < y1 || (y1 == y2 && (m2 < m1 || (m1 == m2 && d2 < d1))) {
      DayNumberMonotone(y2, m2, d2, y1, m1, d1);
    }
  }

  /** Round trip: a valid date is the date of its own day number. */
  lemma FromDayNumberOfDate(y: int, m: int, d: int)
    requires ValidDate(y, m, d)
    ensures FromDayNumber(DayNumber(y, m, d)) == AtMidnight(y, m, d)
  {
    var t := FromDayNumber(DayNumber(y, m, d));
    DayNumberInjective(t.year, t.month, t.day, y, m, d);
  }

  /** The year whose bracket holds a valid date's day number is the date's year. */
  lemma YearOfDayNumber(t: LocalDateTime, y: int)
    requires ValidDate(t.year, t.month, t.day)
    requires DaysBeforeYear(y) <= DayNumberOf(t) < DaysBeforeYear(y) + YearLength(y)
    ensures t.year == y
  {
    Bracket(t.year, t.month, t.day);
    if t.year < y {
      YearsIncrease(t.year, y);
    } else if y < t.year {
      YearsIncrease(y, t.year);
    }
  }

  /** Day number of 9999-12-31, the last day of year 9999. */
  const LAST_DAY: int := 3652424

  /** A valid date lies in the years 0..9999 exactly when its day number lies in 0..LAST_DAY. */
  lemma YearRangeByDayNumber(y: int, m: int, d: int)
    requires ValidDate(y, m, d)
    ensures 0 <= y <= 9999 <==> 0 <= DayNumber(y, m, d) <= LAST_DAY
  {
    YearZeroByDayNumber(y, m, d);
    Year9999ByDayNumber(y, m, d);
  }

  lemma YearZeroByDayNumber(y: int, m: int, d: int)
    requires ValidDate(y, m, d)
    ensures 0 <= y <==> 0 <= DayNumber(y, m, d)
  {
    Bracket(y, m, d);
    assert DaysBeforeYear(0) == 0;
    if y < 0 {
      YearsIncrease(y, 0);
    } else if y > 0 {
      YearsIncrease(0, y);
    }
  }

  lemma Year9999ByDayNumber(y: int, m: int, d: int)
    requires ValidDate(y, m, d)
    ensures y <= 9999 <==> DayNumber(y, m, d) <= LAST_DAY
  {
    Bracket(y, m, d);
    assert DaysBeforeYear(10000) == LAST_DAY + 1;
    if y < 10000 {
      YearsIncrease(y, 10000);
    } else if y > 10000 {
      YearsIncrease(10000, y);
    }
  }

  /** 0000-01-03 (day 2) is the first Monday: the Monday at most six days before day n is day 0 or later exactly when n is day 2 or later. */
  lemma MondayBefore(x: int, n: int)
    requires IsoDayOfWeek(x) == 1 && 0 <= n - x <= 6
    ensures x >= 0 <==> n >= 2
  {
    var k := (x + 5) / 7;
    assert x + 5 == 7 * k;
  }

  // ---------------------------------------------------------------------
  // Day arithmetic

  /** LocalDateTime.plusDays: moves the date by k days and keeps the time of day. */
  function PlusDays(t: LocalDateTime, k: int): (r: LocalDateTime)
    requires Valid(t)
    ensures Valid(r)
    ensures DayNumberOf(r) == DayNumberOf(t) + k
    ensures r.hour == t.hour && r.minute == t.minute && r.second == t.second && r.nano == t.nano
  {
    var d := FromDayNumber(DayNumberOf(t) + k);
    LocalDateTime(d.year, d.month, d.day, t.hour, t.minute, t.second, t.nano)
  }

  lemma PlusZeroDays(t: LocalDateTime)
    requires Valid(t)
    ensures PlusDays(t, 0) == t
  {
    FromDayNumberOfDate(t.year, t.month, t.day);
  }

  lemma PlusDaysWeekday(t: LocalDateTime, k: int)
    requires Valid(t)
    ensures DayOfWeekOf(PlusDays(t, k)) == IsoDayOfWeek(DayNumberOf(t) + k)
  {
  }

  // ---------------------------------------------------------------------
  // Instants: ordering and epoch seconds

  /** LocalDateTime.compareTo: lexicographic over the fields. */
  function Compare(a: LocalDateTime, b: LocalDateTime): int {
    if a.year != b.year then (if a.year < b.year then -1 else 1)
    else if a.month != b.month then (if a.month < b.month then -1 else 1)
    else if a.day != b.day then (if a.day < b.day then -1 else 1)
    else if a.hour != b.hour then (if a.hour < b.hour then -1 else 1)
    else if a.minute != b.minute then (if a.minute < b.minute then -1 else 1)
    else if a.second != b.second then (if a.second < b.second then -1 else 1)
    else if a.nano != b.nano then (if a.nano < b.nano then -1 else 1)
    else 0
  }

  predicate IsBefore(a: LocalDateTime, b: LocalDateTime) { Compare(a, b) < 0 }
  predicate IsAfter(a: LocalDateTime, b: LocalDateTime) { Compare(a, b) > 0 }

  const EPOCH_DAY: int := 719528   // day number of 1970-01-01

  function SecondOfDay(t: LocalDateTime): int {
    t.hour * 3600 + t.minute * 60 + t.second
  }

  /** Whole seconds since 1970-01-01T00:00:00 (the nano part is kept apart). */
  function EpochSecond(t: LocalDateTime): int
    requires 1 <= t.month <= 12
  {
    (DayNumberOf(t) - EPOCH_DAY) * 86400 + SecondOfDay(t)
  }

  /** Nanoseconds since 1970-01-01T00:00:00: a total key for the instant. */
  function EpochNano(t: LocalDateTime): int
    requires 1 <= t.month <= 12
  {
    EpochSecond(t) * 1_000_000_000 + t.nano
  }

  /** Comparing two valid values field by field is comparing their instants. */
  lemma CompareIsInstantOrder(a: LocalDateTime, b: LocalDateTime)
    requires Valid(a) && Valid(b)
    ensures IsBefore(a, b) <==> EpochNano(a) < EpochNano(b)
    ensures IsAfter(a, b) <==> EpochNano(a) > EpochNano(b)
    ensures Compare(a, b) == 0 <==> a == b
  {
    var da, db := DayNumberOf(a), DayNumberOf(b);
    if (a.year, a.month, a.day) != (b.year, b.month, b.day) {
      if a.year < b.year || (a.year == b.year && (a.month < b.month || (a.month == b.month && a.day < b.day))) {
        DayNumberMonotone(a.year, a.month, a.day, b.year, b.month, b.day);
        assert EpochSecond(a) < EpochSecond(b);
      } else {
        DayNumberMonotone(b.year, b.month, b.day, a.year, a.month, a.day);
        assert EpochSecond(b) < EpochSecond(a);
      }
    }
  }

  /** A key made of a count of whole units and a remainder orders lexicographically. */
  lemma {:induction false} MixedRadixOrder(s1: int, n1: int, s2: int, n2: int, unit: int)
    requires unit > 0 && 0 <= n1 < unit && 0 <= n2 < unit
    ensures s1 * unit + n1 < s2 * unit + n2 <==> s1 < s2 || (s1 == s2 && n1 < n2)
  {
    if s1 != s2 {
      var lo, hi := if s1 < s2 then s1 else s2, if s1 < s2 then s2 else s1;
      var k := hi - lo - 1;
      assert k * unit >= 0;
      assert hi * unit == lo * unit + k * unit + unit;
    }
  }

  /** "Before" compares epoch seconds first, then nanoseconds. */
  lemma BeforeBySeconds(a: LocalDateTime, b: LocalDateTime)
    requires Valid(a) && Valid(b)
    ensures IsBefore(a, b) <==> EpochSecond(a) < EpochSecond(b) || (EpochSecond(a) == EpochSecond(b) && a.nano < b.nano)
    ensures IsAfter(a, b) <==> EpochSecond(b) < EpochSecond(a) || (EpochSecond(a) == EpochSecond(b) && b.nano < a.nano)
  {
    CompareIsInstantOrder(a, b);
    MixedRadixOrder(EpochSecond(a), a.nano, EpochSecond(b), b.nano, 1_000_000_000);
    MixedRadixOrder(EpochSecond(b), b.nano, EpochSecond(a), a.nano, 1_000_000_000);
  }

  /** Against a midnight, "before" means "on an earlier day". */
  lemma BeforeMidnight(a: LocalDateTime, b: LocalDateTime)
    requires Valid(a) && Valid(b) && b == b.Midnight()
    ensures IsBefore(a, b) <==> DayNumberOf(a) < DayNumberOf(b)
  {
    CompareIsInstantOrder(a, b);
  }

  /** Against the last nanosecond of a day, "after" means "on a later day". */
  lemma AfterEndOfDay(a: LocalDateTime, b: LocalDateTime)
    requires Valid(a) && Valid(b)
    requires b.hour == 23 && b.minute == 59 && b.second == 59 && b.nano == 999_999_999
    ensures IsAfter(a, b) <==> DayNumberOf(a) > DayNumberOf(b)
  {
    CompareIsInstantOrder(a, b);
  }

  /** LocalDateTime.ofEpochSecond(sec, nano, UTC). */
  function FromEpochSecond(sec: int, nano: int): (t: LocalDateTime)
    requires 0 <= nano < 1_000_000_000
    ensures Valid(t)
    ensures EpochSecond(t) == sec && t.nano == nano
  {
    var d := FromDayNumber(EPOCH_DAY + sec / 86400);
    var sod := sec % 86400;
    SplitSecondOfDay(sod);
    assert sec == sec / 86400 * 86400 + sod;
    LocalDateTime(d.year, d.month, d.day, sod / 3600, sod % 3600 / 60, sod % 60, nano)
  }

  /** A second of the day splits into hour, minute and second. */
  lemma SplitSecondOfDay(sod: int)
    requires 0 <= sod < 86400
    ensures 0 <= sod / 3600 < 24 && 0 <= sod % 3600 / 60 < 60 && 0 <= sod % 60 < 60
    ensures sod / 3600 * 3600 + sod % 3600 / 60 * 60 + sod % 60 == sod
  {
    assert sod == sod / 3600 * 3600 + sod % 3600;
    assert sod % 3600 == sod % 3600 / 60 * 60 + sod % 3600 % 60;
    assert sod % 3600 % 60 == sod % 60 by {
      assert sod == (sod / 3600 * 60) * 60 + sod % 3600;
    }
  }

  /** Round trip: a valid value is recovered from its epoch second and nano. */
  lemma FromEpochSecondOf(t: LocalDateTime)
    requires Valid(t)
    ensures FromEpochSecond(EpochSecond(t), t.nano) == t
  {
    var r := FromEpochSecond(EpochSecond(t), t.nano);
    CompareIsInstantOrder(r, t);
  }

  /** Epoch seconds of 0000-01-01T00:00:00 and of 9999-12-31T23:59:59. */
  const FIRST_EPOCH_SECOND: int := -EPOCH_DAY * 86400
  const LAST_EPOCH_SECOND: int := (LAST_DAY - EPOCH_DAY) * 86400 + 86399

  /** A valid value lies on days 0..LAST_DAY exactly when its epoch second lies between those of the first and last second. */
  lemma DayRangeByEpochSecond(t: LocalDateTime)
    requires Valid(t)
    ensures 0 <= DayNumberOf(t) <= LAST_DAY <==> FIRST_EPOCH_SECOND <= EpochSecond(t) <= LAST_EPOCH_SECOND
  {
    var k := DayNumberOf(t) - EPOCH_DAY;
    MixedRadixOrder(k, SecondOfDay(t), -EPOCH_DAY, 0, 86400);
    MixedRadixOrder(LAST_DAY - EPOCH_DAY + 1, 0, k, SecondOfDay(t), 86400);
  }
}
