/**
 * Unix-time conversions and their range policies: from_unixtime, unix_timestamp
 * (getTimestamp), from_second, from_millisecond and from_microsecond.
 *
 * The session time zone is a fixed offset, in seconds east of UTC.
 */
module UnixTime {
  import opened Calendar
  import opened JavaInt
  import opened Text
  import opened Wrappers
  import opened Literals

  /** The largest second from_unixtime accepts: 3001-01-19T07:59:59 at UTC+8 (3001-01-18T23:59:59 in UTC). */
  const MAX_UNIX_SECOND: int := 32536771199
  /** The largest microsecond from_microsecond accepts: 9999-12-31T23:59:59.999999 at UTC+8 (9999-12-31T15:59:59.999999 in UTC). */
  const MAX_UNIX_MICROSECOND: int := 253402271999999999

  /** The wall-clock microsecond since the epoch of 9999-12-31T23:59:59.999999, the last a literal holds. */
  const LAST_EPOCH_MICRO: int := LAST_EPOCH_SECOND * 1_000_000 + 999_999

  /** A zone offset in seconds: java.time limits it to -18:00 .. +18:00. */
  predicate ValidOffset(offset: int) { -18 * 3600 <= offset <= 18 * 3600 }

  const TIMESTAMP_LOWER: LocalDateTime := LocalDateTime(1970, 1, 1, 0, 0, 0, 0)
  const TIMESTAMP_UPPER: LocalDateTime := LocalDateTime(2038, 1, 19, 3, 14, 7, 0)

  /** The wall-clock time, `offset` seconds east of UTC, of the UTC instant (sec, nano). */
  function AtOffset(sec: int, nano: int, offset: int): (t: LocalDateTime)
    requires 0 <= nano < 1_000_000_000
    ensures Calendar.Valid(t) && EpochSecond(t) == sec + offset && t.nano == nano
  {
    FromEpochSecond(sec + offset, nano)
  }

  /** The UTC wall clock of a wall-clock time read at `offset` seconds east of UTC. */
  function ToUtc(t: LocalDateTime, offset: int): (u: LocalDateTime)
    requires Calendar.Valid(t)
    ensures Calendar.Valid(u) && EpochSecond(u) == EpochSecond(t) - offset && u.nano == t.nano
  {
    FromEpochSecond(EpochSecond(t) - offset, t.nano)
  }

  // ---------------------------------------------------------------------
  // from_unixtime

  /**
   * from_unixtime, up to the formatting: the datetime literal for the given
   * second in the session zone, or a typed null outside [0, 32536771199].
   */
  function FromUnixTime(seconds: int, offset: int): (r: Option<Literal>)
    requires ValidOffset(offset)
    ensures r.None? <==> seconds < 0 || seconds > MAX_UNIX_SECOND
    ensures r.Some? ==> r.value.Valid() && r.value.kind == DateTime
    ensures r.Some? ==> EpochSecond(ToJava(r.value)) == seconds + offset
  {
    if seconds < 0 || seconds > MAX_UNIX_SECOND then None
    else
      var t := AtOffset(seconds, 0, offset);
      DayRangeByEpochSecond(t);
      YearRangeByDayNumber(t.year, t.month, t.day);
      Some(Make(DateTime, t))
  }

  /** The last accepted second, read at UTC+8, is 3001-01-19T07:59:59. */
  lemma FromUnixTimeLastSecond()
    ensures FromUnixTime(MAX_UNIX_SECOND, 8 * 3600) == Some(Literal(DateTime, 3001, 1, 19, 7, 59, 59, 0))
  {
    var t := LocalDateTime(3001, 1, 19, 7, 59, 59, 0);
    assert EpochSecond(t) == MAX_UNIX_SECOND + 8 * 3600;
    FromEpochSecondOf(t);
  }

  // ---------------------------------------------------------------------
  // getTimestamp and unix_timestamp

  /** The UTC instant of t lies in [1970-01-01T00:00:00, 2038-01-19T03:14:07]. */
  predicate InTimestampWindow(t: LocalDateTime, offset: int)
    requires Calendar.Valid(t)
  {
    var s := EpochSecond(t) - offset;
    0 <= s && (s < INT32_MAX || (s == INT32_MAX && t.nano == 0))
  }

  /** The window's lower bound is the epoch. */
  lemma LowerBoundIsEpoch()
    ensures EpochSecond(TIMESTAMP_LOWER) == 0 && TIMESTAMP_LOWER.nano == 0
  {
    var t := TIMESTAMP_LOWER;
    assert DayNumberOf(t) == EPOCH_DAY;
    assert SecondOfDay(t) == 0;
  }

  /** The window's upper bound is the largest 32-bit second. */
  lemma UpperBoundIsInt32Max()
    ensures EpochSecond(TIMESTAMP_UPPER) == INT32_MAX
  {
  }

  /** Before the lower bound means a negative epoch second. */
  lemma BeforeLowerBound(u: LocalDateTime)
    requires Calendar.Valid(u)
    ensures IsBefore(u, TIMESTAMP_LOWER) <==> EpochSecond(u) < 0
  {
    BeforeMidnight(u, TIMESTAMP_LOWER);
    MixedRadixOrder(DayNumberOf(u) - EPOCH_DAY, SecondOfDay(u), 0, 0, 86400);
  }

  /** After the upper bound means past the largest 32-bit second. */
  lemma AfterUpperBound(u: LocalDateTime)
    requires Calendar.Valid(u)
    ensures IsAfter(u, TIMESTAMP_UPPER) <==> EpochSecond(u) > INT32_MAX || (EpochSecond(u) == INT32_MAX && u.nano > 0)
  {
    UpperBoundIsInt32Max();
    BeforeBySeconds(u, TIMESTAMP_UPPER);
  }

  lemma WindowIsComparison(t: LocalDateTime, offset: int)
    requires Calendar.Valid(t)
    ensures var u := ToUtc(t, offset);
            (IsBefore(u, TIMESTAMP_LOWER) || IsAfter(u, TIMESTAMP_UPPER)) <==> !InTimestampWindow(t, offset)
  {
    var u := ToUtc(t, offset);
    BeforeLowerBound(u);
    AfterUpperBound(u);
  }

  /**
   * The text of a duration of `sec` seconds and `nano` nanoseconds, as written:
   * the seconds, then "." and the microseconds when there are any, printed
   * without leading zeros.
   */
  function DurationTextAsWritten(sec: nat, nano: nat): (r: string)
    ensures IsDecimalText(r)
    ensures nano == 0 ==> DecimalValue(r) == sec as real
    ensures nano != 0 ==>
              DecimalValue(r) == sec as real + (nano / 1000) as real / Pow10(|Digits(nano / 1000)|) as real
  {
    WholeSecondsText(sec);
    if nano == 0 then
      Digits(sec)
    else
      DigitsRoundTrip(nano / 1000);
      DecimalValueOfParts(Digits(sec), Digits(nano / 1000));
      Digits(sec) + "." + Digits(nano / 1000)
  }

  /** The text of a duration with the microseconds padded to six digits. */
  function DurationText(sec: nat, nano: nat): (r: string)
    requires nano < 1_000_000_000
    ensures IsDecimalText(r)
    ensures DecimalValue(r) == sec as real + (nano / 1000) as real / 1_000_000.0
    ensures nano == 0 ==> AllDigits(r) && DigitsValue(r) == sec
  {
    if nano == 0 then
      WholeSecondsText(sec);
      Digits(sec)
    else
      SecondsText(sec, nano / 1000);
      Digits(sec) + "." + PaddedDigits(nano / 1000, 6)
  }

  /** Whole seconds, a point and six digits of microseconds read as their value. */
  lemma SecondsText(sec: nat, micro: nat)
    requires micro < 1_000_000
    ensures IsDecimalText(Digits(sec) + "." + PaddedDigits(micro, 6))
    ensures DecimalValue(Digits(sec) + "." + PaddedDigits(micro, 6)) == sec as real + micro as real / 1_000_000.0
  {
    var w, f := Digits(sec), PaddedDigits(micro, 6);
    DigitsRoundTrip(sec);
    MicrosFraction(micro);
    DecimalValueOfParts(w, f);
    assert DigitsValue(w) as real == sec as real;
  }

  /** Six digits after the point are millionths. */
  lemma MicrosFraction(micro: nat)
    requires micro < 1_000_000
    ensures FractionValue(PaddedDigits(micro, 6)) == micro as real / 1_000_000.0
  {
    assert Pow10(6) == 1_000_000;
  }

  /** Whole seconds alone read as their value. */
  lemma WholeSecondsText(sec: nat)
    ensures IsDecimalText(Digits(sec)) && AllDigits(Digits(sec))
    ensures DigitsValue(Digits(sec)) == sec && DecimalValue(Digits(sec)) == sec as real
  {
    DigitsRoundTrip(sec);
    DecimalValueOfDigits(Digits(sec));
  }

  /** One second and five microseconds: as written the text reads 1.5 seconds, padded it reads 1.000005. */
  lemma DurationTextDropsLeadingZeros()
    ensures DurationTextAsWritten(1, 5000) == "1.5"
    ensures IsDecimalText("1.5") && DecimalValue("1.5") == 1.5
    ensures DecimalValue(DurationText(1, 5000)) == 1.000005
  {
    assert Digits(1) == "1" && Digits(5) == "5";
    assert "1" + "." + "5" == "1.5";
    DecimalValueOfParts("1", "5");
    assert DigitsValue("1") == 1 && DigitsValue("5") == 5;
  }

  /**
   * Whenever the microseconds are not zero but have fewer than six digits, the
   * text as written reads as a longer duration than the true one.
   */
  lemma DurationTextAsWrittenOverstates(sec: nat, nano: nat)
    requires 1000 <= nano < 100_000_000
    ensures IsDecimalText(DurationTextAsWritten(sec, nano))
    ensures DecimalValue(DurationTextAsWritten(sec, nano)) > DecimalValue(DurationText(sec, nano))
  {
    var micro := nano / 1000;
    var d := Digits(micro);
    assert Pow10(5) == 100_000;
    DigitsLength(micro, 5);
    DigitsRoundTrip(sec);
    DigitsRoundTrip(micro);
    DecimalValueOfParts(Digits(sec), d);
    assert 1 <= |d| <= 5;
    assert Pow10(|d|) <= 100_000 by {
      if |d| == 1 { assert Pow10(1) == 10; }
      else if |d| == 2 { assert Pow10(2) == 100; }
      else if |d| == 3 { assert Pow10(3) == 1000; }
      else if |d| == 4 { assert Pow10(4) == 10_000; }
    }
    FractionExceeds(micro, Pow10(|d|));
  }

  lemma FractionExceeds(micro: nat, p: nat)
    requires 1 <= micro && 1 <= p <= 100_000
    ensures micro as real / p as real > micro as real / 1_000_000.0
  {
    var m, q := micro as real, p as real;
    var a := m / q;
    assert a * q == m;
    assert a >= 0.0;
    assert a * (100_000.0 - q) >= 0.0;
    assert a * 100_000.0 >= m;
  }

  /** getTimestamp as written: "0" outside the window, otherwise the text of the duration since the epoch. */
  function GetTimestampAsWritten(t: LocalDateTime, offset: int): (r: string)
    requires Calendar.Valid(t)
    ensures !InTimestampWindow(t, offset) ==> r == "0"
    ensures InTimestampWindow(t, offset) ==> r == DurationTextAsWritten(EpochSecond(t) - offset, t.nano)
  {
    var u := ToUtc(t, offset);
    WindowIsComparison(t, offset);
    if IsBefore(u, TIMESTAMP_LOWER) || IsAfter(u, TIMESTAMP_UPPER) then "0"
    else
      assert EpochSecond(u) == EpochSecond(t) - offset && u.nano == t.nano;
      DurationTextAsWritten(EpochSecond(u), u.nano)
  }

  /** Inside the window, getTimestamp as written overstates every instant whose microseconds have one to five digits. */
  lemma GetTimestampAsWrittenOverstates(t: LocalDateTime, offset: int)
    requires Calendar.Valid(t) && InTimestampWindow(t, offset) && 1000 <= t.nano < 100_000_000
    ensures IsDecimalText(GetTimestampAsWritten(t, offset))
    ensures DecimalValue(GetTimestampAsWritten(t, offset)) > DecimalValue(GetTimestamp(t, offset))
  {
    var sec := EpochSecond(t) - offset;
    assert GetTimestampAsWritten(t, offset) == DurationTextAsWritten(sec, t.nano);
    assert DecimalValue(GetTimestamp(t, offset)) == DecimalValue(DurationText(sec, t.nano));
    DurationTextAsWrittenOverstates(sec, t.nano);
  }

  /**
   * getTimestamp with the microseconds padded to six digits, so that the text
   * reads as the seconds and microseconds since the epoch.
   */
  function GetTimestamp(t: LocalDateTime, offset: int): (r: string)
    requires Calendar.Valid(t)
    ensures IsDecimalText(r)
    ensures !InTimestampWindow(t, offset) ==> r == "0"
    ensures InTimestampWindow(t, offset) ==>
              DecimalValue(r) == (EpochSecond(t) - offset) as real + (t.nano / 1000) as real / 1_000_000.0
    ensures t.nano == 0 ==>
              AllDigits(r) && DigitsValue(r) == if InTimestampWindow(t, offset) then EpochSecond(t) - offset else 0
  {
    var u := ToUtc(t, offset);
    WindowIsComparison(t, offset);
    if IsBefore(u, TIMESTAMP_LOWER) || IsAfter(u, TIMESTAMP_UPPER) then
      WholeSecondsText(0);
      Digits(0)
    else
      DurationText(EpochSecond(u), u.nano)
  }

  /** unix_timestamp of a date, datetime or date-v2 literal: Integer.parseInt of getTimestamp. */
  function UnixTimestamp(l: Literal, offset: int): (r: int)
    requires l.Valid() && l.kind != DateTimeV2
    ensures r == if InTimestampWindow(ToJava(l), offset) then EpochSecond(ToJava(l)) - offset else 0
    ensures 0 <= r <= INT32_MAX
  {
    DigitsValue(GetTimestamp(ToJava(l), offset))
  }

  /** unix_timestamp of a datetime-v2 literal: the decimal value of getTimestamp. */
  function UnixTimestampV2(l: Literal, offset: int): (r: real)
    requires l.Valid() && l.kind == DateTimeV2
    ensures InTimestampWindow(ToJava(l), offset) ==>
              r == (EpochSecond(ToJava(l)) - offset) as real + l.microsecond as real / 1_000_000.0
    ensures !InTimestampWindow(ToJava(l), offset) ==> r == 0.0
  {
    assert ToJava(l).nano / 1000 == l.microsecond;
    WholeSecondsText(0);
    DecimalValue(GetTimestamp(ToJava(l), offset))
  }

  /** unix_timestamp undoes from_unixtime on the 32-bit range. */
  lemma UnixTimestampOfFromUnixTime(seconds: int, offset: int)
    requires ValidOffset(offset) && 0 <= seconds <= INT32_MAX
    ensures FromUnixTime(seconds, offset).Some?
    ensures UnixTimestamp(FromUnixTime(seconds, offset).value, offset) == seconds
  {
  }

  /** Beyond 2038-01-19T03:14:07 UTC unix_timestamp gives 0, not the true offset. */
  lemma UnixTimestampClampsAfter2038(seconds: int, offset: int)
    requires ValidOffset(offset) && INT32_MAX < seconds <= MAX_UNIX_SECOND
    ensures UnixTimestamp(FromUnixTime(seconds, offset).value, offset) == 0
  {
  }

  // ---------------------------------------------------------------------
  // from_microsecond, from_millisecond, from_second

  /** Microseconds since the epoch of a literal's wall clock. */
  function EpochMicro(l: Literal): int
    requires l.Valid()
  {
    EpochSecond(ToJava(l)) * 1_000_000 + l.microsecond
  }

  /**
   * fromMicroSecond: the datetime-v2 literal at the given microsecond since the
   * epoch, seen in the session zone; a typed null outside [0, 253402271999999999],
   * and the range error where the wall clock passes 9999-12-31 (zones east of UTC+8).
   */
  function FromMicroSecond(micro: int, offset: int): (r: Result<Option<Literal>>)
    requires ValidOffset(offset)
    ensures r == Ok(None) <==> micro < 0 || micro > MAX_UNIX_MICROSECOND
    ensures r.Err? <==> 0 <= micro <= MAX_UNIX_MICROSECOND && micro + offset * 1_000_000 > LAST_EPOCH_MICRO
    ensures r.Err? ==> r.message == RANGE_ERROR
    ensures r.Ok? && r.value.Some? ==> r.value.value.Valid() && r.value.value.kind == DateTimeV2
    ensures r.Ok? && r.value.Some? ==> EpochMicro(r.value.value) == micro + offset * 1_000_000
  {
    if micro < 0 || micro > MAX_UNIX_MICROSECOND then Ok(None)
    else
      // Instant.ofEpochMilli(micro / 1000).plusNanos(micro % 1000 * 1000)
      var millis := JavaDiv(micro, 1000);
      var sec := millis / 1000;
      var nano := millis % 1000 * 1_000_000 + micro % 1000 * 1000;
      assert micro == sec * 1_000_000 + nano / 1000;
      var t := AtOffset(sec, nano, offset);
      LocalMicroRange(t, micro + offset * 1_000_000);
      match FromJava(DateTimeV2, t)
      case Ok(l) => Ok(Some(l))
      case Err(e) => Err(e)
  }

  /** A wall clock from 1969 on lies within the literal range exactly when its epoch microsecond does not pass the last one. */
  lemma LocalMicroRange(t: LocalDateTime, micro: int)
    requires Calendar.Valid(t) && EpochSecond(t) >= -18 * 3600
    requires micro == EpochSecond(t) * 1_000_000 + t.nano / 1000
    ensures 0 <= DayNumberOf(t) <= LAST_DAY <==> micro <= LAST_EPOCH_MICRO
  {
    DayRangeByEpochSecond(t);
    MixedRadixOrder(LAST_EPOCH_SECOND, 999_999, EpochSecond(t), t.nano / 1000, 1_000_000);
  }

  const LAST_MICROSECOND: LocalDateTime := LocalDateTime(9999, 12, 31, 23, 59, 59, 999_999_000)

  /** After the last microsecond of 9999 means past its epoch second or within its last microsecond. */
  lemma AfterLastMicrosecond(u: LocalDateTime)
    requires Calendar.Valid(u)
    ensures IsAfter(u, LAST_MICROSECOND) <==> EpochSecond(u) > 253402300799 || (EpochSecond(u) == 253402300799 && u.nano > 999_999_000)
  {
    assert DayNumberOf(LAST_MICROSECOND) == 3652424;
    BeforeBySeconds(u, LAST_MICROSECOND);
  }

  /**
   * East of UTC by at most eight hours (the offset the bounds were chosen for),
   * every accepted microsecond lands in the years 1970 to 9999.
   */
  lemma FromMicroSecondYears(micro: int, offset: int)
    requires 0 <= micro <= MAX_UNIX_MICROSECOND && 0 <= offset <= 8 * 3600
    ensures FromMicroSecond(micro, offset).Ok? && FromMicroSecond(micro, offset).value.Some?
    ensures 1970 <= FromMicroSecond(micro, offset).value.value.year <= 9999
  {
    var l := FromMicroSecond(micro, offset).value.value;
    var t := ToJava(l);
    MixedRadixOrder(EpochSecond(t), l.microsecond, 0, 0, 1_000_000);
    assert 0 <= EpochSecond(t);
    BeforeLowerBound(t);
  }

  /** At eight hours east of UTC the last accepted microsecond is the last of 9999. */
  lemma FromMicroSecondLast()
    ensures FromMicroSecond(MAX_UNIX_MICROSECOND, 8 * 3600) == Ok(Some(Literal(DateTimeV2, 9999, 12, 31, 23, 59, 59, 999_999)))
  {
    var t := LAST_MICROSECOND;
    assert DayNumberOf(t) == 3652424;
    assert EpochSecond(t) == 253402300799;
    FromEpochSecondOf(t);
    assert JavaDiv(MAX_UNIX_MICROSECOND, 1000) == 253402271999999;
    assert AtOffset(253402271999, 999_999_000, 8 * 3600) == t;
  }

  /** from_second as written: the seconds are scaled to microseconds in 64-bit arithmetic. */
  function FromSecondAsWritten(seconds: int, offset: int): (r: Result<Option<Literal>>)
    requires IsLong(seconds) && ValidOffset(offset)
    ensures var micro := LongMul(LongMul(seconds, 1000), 1000);
            && (r == Ok(None) <==> micro < 0 || micro > MAX_UNIX_MICROSECOND)
            && (r.Ok? && r.value.Some? ==> r.value.value.Valid() && EpochMicro(r.value.value) == micro + offset * 1_000_000)
  {
    FromMicroSecond(LongMul(LongMul(seconds, 1000), 1000), offset)
  }

  /** from_millisecond as written: the milliseconds are scaled in 64-bit arithmetic. */
  function FromMilliSecondAsWritten(millis: int, offset: int): (r: Result<Option<Literal>>)
    requires IsLong(millis) && ValidOffset(offset)
    ensures var micro := LongMul(millis, 1000);
            && (r == Ok(None) <==> micro < 0 || micro > MAX_UNIX_MICROSECOND)
            && (r.Ok? && r.value.Some? ==> r.value.value.Valid() && EpochMicro(r.value.value) == micro + offset * 1_000_000)
  {
    FromMicroSecond(LongMul(millis, 1000), offset)
  }

  /** A second count far outside the range wraps around to one second past the epoch and is not null. */
  lemma FromSecondWraps()
    ensures IsLong(0x400_0000_0000_0001)
    ensures 0x400_0000_0000_0001 * 1_000_000 > MAX_UNIX_MICROSECOND
    ensures var r := FromSecondAsWritten(0x400_0000_0000_0001, 0);
            r.Ok? && r.value.Some? && EpochMicro(r.value.value) == 1_000_000
  {
    var millis := LongMul(0x400_0000_0000_0001, 1000);
    assert 0x400_0000_0000_0001 * 1000 == 5 * 0x2000_0000_0000_0000 + 15 * 0x1_0000_0000_0000_0000 + 1000;
    assert millis == 1000 - 3 * 0x2000_0000_0000_0000 by { WrapBy(0x400_0000_0000_0001 * 1000, 16); }
    assert millis * 1000 == 1_000_000 - 375 * 0x1_0000_0000_0000_0000;
    assert LongMul(millis, 1000) == 1_000_000 by { WrapBy(millis * 1000, -375); }
  }

  /** A millisecond count far outside the range wraps around to one millisecond past the epoch and is not null. */
  lemma FromMilliSecondWraps()
    ensures IsLong(0x2000_0000_0000_0001)
    ensures 0x2000_0000_0000_0001 * 1000 > MAX_UNIX_MICROSECOND
    ensures var r := FromMilliSecondAsWritten(0x2000_0000_0000_0001, 0);
            r.Ok? && r.value.Some? && EpochMicro(r.value.value) == 1000
  {
    assert 0x2000_0000_0000_0001 * 1000 == 1000 + 125 * 0x1_0000_0000_0000_0000;
    assert LongMul(0x2000_0000_0000_0001, 1000) == 1000 by { WrapBy(0x2000_0000_0000_0001 * 1000, 125); }
  }

  /** A product k whole turns of 2^64 away from a 64-bit value wraps to that value. */
  lemma WrapBy(x: int, k: int)
    requires IsLong(x - k * 0x1_0000_0000_0000_0000)
    ensures Wrap64(x) == x - k * 0x1_0000_0000_0000_0000
  {
    var y := x - k * 0x1_0000_0000_0000_0000;
    var r := Wrap64(x);
    var j := (r - x) / 0x1_0000_0000_0000_0000;
    assert r - y == (j + k) * 0x1_0000_0000_0000_0000;
    assert j + k == 0;
  }

  /** from_second, with the scaling done without overflow. */
  function FromSecond(seconds: int, offset: int): (r: Result<Option<Literal>>)
    requires IsLong(seconds) && ValidOffset(offset)
    ensures r == Ok(None) <==> seconds < 0 || seconds > 253402271999
    ensures r.Err? <==> 0 <= seconds <= 253402271999 && seconds + offset > LAST_EPOCH_SECOND
    ensures r.Ok? && r.value.Some? ==> r.value.value.Valid() && EpochMicro(r.value.value) == (seconds + offset) * 1_000_000
  {
    MixedRadixOrder(LAST_EPOCH_SECOND, 999_999, seconds + offset, 0, 1_000_000);
    FromMicroSecond(seconds * 1_000_000, offset)
  }

  /** from_millisecond, with the scaling done without overflow. */
  function FromMilliSecond(millis: int, offset: int): (r: Result<Option<Literal>>)
    requires IsLong(millis) && ValidOffset(offset)
    ensures r == Ok(None) <==> millis < 0 || millis > 253402271999999
    ensures r.Err? <==> 0 <= millis <= 253402271999999 && millis * 1000 + offset * 1_000_000 > LAST_EPOCH_MICRO
    ensures r.Ok? && r.value.Some? ==> r.value.value.Valid() && EpochMicro(r.value.value) == millis * 1000 + offset * 1_000_000
  {
    FromMicroSecond(millis * 1000, offset)
  }

  /** Where the 64-bit products do not overflow, the code as written agrees with the corrected one. */
  lemma AsWrittenAgreesWithoutOverflow(seconds: int, millis: int, offset: int)
    requires ValidOffset(offset)
    requires IsLong(seconds * 1_000_000) && IsLong(seconds * 1000) && IsLong(millis * 1000)
    ensures FromSecondAsWritten(seconds, offset) == FromSecond(seconds, offset)
    ensures FromMilliSecondAsWritten(millis, offset) == FromMilliSecond(millis, offset)
  {
  }
}
