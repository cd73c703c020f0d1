# Date/time constant folding, modelled in Dafny

Apache Doris' Nereids planner folds calls of SQL date functions whose arguments
are literals at plan time. `DateTimeExtractAndTransform` evaluates each such
call on date, datetime, date-v2 and datetime-v2 literals and returns a new
literal, a typed NULL or an evaluation error. This project models that library
as pure Dafny functions over a proleptic-Gregorian calendar that agrees with
`java.time`, including year 0 as a leap year. It proves the library's
contracts: bounds, fixed sentinel values, the range cut-offs, the fall-through
semantics of `date_trunc`, and the week-mode dispatch.

Modules:

- `JavaInt` (java_int.dfy): Java's truncating `/` and 64-bit `long` multiplication.
- `Calendar` (calendar.dfy): `LocalDateTime` as a value. It provides day numbers
  counted from 0000-01-01, ISO weekdays, `plusDays`, `compareTo`/`isBefore`/`isAfter`,
  and epoch seconds.
- `Text` (text.dfy): ASCII case mapping, the decimal rendering of integers and
  the value of a decimal string.
- `Wrappers`, `Literals` (wrappers.dfy, literals.dfy): typed NULL (`Option`),
  evaluation errors (`Result`), the four literal kinds, and
  `toJavaDateType`/`fromJavaDateType`.
- `Extract` (extract.dfy): `year` .. `microsecond`, `quarter`, `dayofyear`,
  `dayofweek`, `weekday`, `date`/`to_date`/`datev2` and `timestamp`.
- `Truncate` (truncate.dfy): `firstDayOfWeek` and `date_trunc`.
- `DayArithmetic` (day_arithmetic.dfy): `to_days`, `from_days`, `last_day`,
  `makedate`, `to_monday`, the `DAY_OF_WEEK` table and `next_day`.
- `UnixTime` (unix_time.dfy): `from_unixtime`, `getTimestamp`/`unix_timestamp`,
  `from_second`, `from_millisecond` and `from_microsecond`.
- `WeekNumbering` (week_fields.dfy): the week numbering of `java.time.temporal.WeekFields`
  that the week functions call. It covers the week of the year, the week of the
  week-based year and the week-based year, for a first day of the week and a
  minimal number of days in week 1.
- `Weeks` (weeks.dfy): `week` and `yearweek`. This includes the year-0 table
  and the unknown-mode errors.
- `WeekOfYear` (week_of_year.dfy): `weekofyear` and its year-0 correction.
- `MonthsBetween` (months_between.dfy): `months_between`.

The session time zone is a parameter `offset`: a fixed offset from UTC in
seconds. Every `@ExecFunction` overload that only converts its literal argument
and calls a shared helper is modelled once, on the helper, plus the literal
conversion.

## Model

| member | source | states |
|---|---|---|
| JavaInt.JavaDiv | fe/fe-core/src/main/java/org/apache/doris/nereids/trees/expressions/functions/executable/DateTimeExtractAndTransform.java:425 | Java's `/` for divisors of either sign: the remainder a - q*b is 0 or has the dividend's sign, and is smaller in magnitude than the divisor |
| JavaInt.LongMul | fe/fe-core/src/main/java/org/apache/doris/nereids/trees/expressions/functions/executable/DateTimeExtractAndTransform.java:1016 | `long * long` lies in the 64-bit range, differs from the true product by a multiple of 2^64, and equals it whenever the product fits |
| Calendar.FromDayNumber | fe/fe-core/src/main/java/org/apache/doris/nereids/trees/expressions/functions/executable/DateTimeExtractAndTransform.java:458-460 | the date `plusDays` reaches from 0000-01-01 is a valid date at midnight whose day number is exactly the count of days added |
| Calendar.FromDayNumberOfDate | fe/fe-core/src/main/java/org/apache/doris/nereids/trees/expressions/functions/executable/DateTimeExtractAndTransform.java:458-460 | round trip: every valid date is the date of its own day number |
| Calendar.DayNumberInjective | fe/fe-core/src/main/java/org/apache/doris/nereids/trees/expressions/functions/executable/DateTimeExtractAndTransform.java:643-665 | two valid dates with the same day number are the same date |
| Calendar.PlusDays | fe/fe-core/src/main/java/org/apache/doris/nereids/trees/expressions/functions/executable/DateTimeExtractAndTransform.java:321-323 | `plusDays(k)` gives a valid value k day numbers later with the time of day unchanged |
| Calendar.CompareIsInstantOrder | fe/fe-core/src/main/java/org/apache/doris/nereids/trees/expressions/functions/executable/DateTimeExtractAndTransform.java:461 | `isBefore`/`isAfter` of two valid values are the order of their instants, and `compareTo` is 0 only for equal values |
| Calendar.FromEpochSecondOf | fe/fe-core/src/main/java/org/apache/doris/nereids/trees/expressions/functions/executable/DateTimeExtractAndTransform.java:546-550 | round trip: a valid value is recovered from its epoch second and nano |
| Calendar.YearRangeByDayNumber | fe/fe-core/src/main/java/org/apache/doris/nereids/trees/expressions/functions/executable/DateTimeExtractAndTransform.java:458-465 | a valid date lies in the years 0..9999 exactly when its day number lies in 0..3652424 (9999-12-31) |
| Calendar.DayRangeByEpochSecond | fe/fe-core/src/main/java/org/apache/doris/nereids/trees/expressions/functions/executable/DateTimeExtractAndTransform.java:546-550 | a value lies on a day of 0000-01-01 .. 9999-12-31 exactly when its epoch second lies between those of 0000-01-01T00:00:00 and 9999-12-31T23:59:59 |
| Literals.JavaRoundTrip | fe/fe-core/src/main/java/org/apache/doris/nereids/trees/expressions/functions/executable/DateTimeExtractAndTransform.java:375-376 | `fromJavaDateType(toJavaDateType(l))` is `l` for every valid literal of every kind |
| Literals.ToJava | fe/fe-core/src/main/java/org/apache/doris/nereids/trees/expressions/functions/executable/DateTimeExtractAndTransform.java:410-411 | `toJavaDateType` gives a valid LocalDateTime in the years 0..9999 carrying the literal's fields, its microseconds as nanoseconds |
| Literals.FromJava | fe/fe-core/src/main/java/org/apache/doris/nereids/trees/expressions/functions/executable/DateTimeExtractAndTransform.java:410-411 | `fromJavaDateType` is the range error exactly when the value lies outside 0000-01-01 .. 9999-12-31; otherwise a valid literal of the requested kind with the value's date and what its kind keeps of the time |
| Literals.LiteralDayOfWeek | fe/fe-core/src/main/java/org/apache/doris/nereids/trees/expressions/functions/executable/DateTimeExtractAndTransform.java:297-314 | the literal's `getDayOfWeek` lies in 1..7 and is the java.time ISO weekday from 0000-03-01 on; before that day it is the reading's weekday |
| Literals.DialectReading | fe/fe-core/src/main/java/org/apache/doris/nereids/trees/expressions/functions/executable/DateTimeExtractAndTransform.java:297-314 | under the dialect's day count, in which year 0 has no February 29th, every day before 0000-03-01 is one weekday later than in java.time |
| Extract.Quarter | fe/fe-core/src/main/java/org/apache/doris/nereids/trees/expressions/functions/executable/DateTimeExtractAndTransform.java:135-153 | quarter lies in 1..4, and the month lies in the three months of that quarter |
| Extract.Year | fe/fe-core/src/main/java/org/apache/doris/nereids/trees/expressions/functions/executable/DateTimeExtractAndTransform.java:113-131 | year lies in 0..9999 and is the year of `toJavaDateType` |
| Extract.Month | fe/fe-core/src/main/java/org/apache/doris/nereids/trees/expressions/functions/executable/DateTimeExtractAndTransform.java:159-177 | month lies in 1..12 and is the month of `toJavaDateType` |
| Extract.Day | fe/fe-core/src/main/java/org/apache/doris/nereids/trees/expressions/functions/executable/DateTimeExtractAndTransform.java:182-200 | day lies in 1..the length of the month and is the day of `toJavaDateType` |
| Extract.Hour | fe/fe-core/src/main/java/org/apache/doris/nereids/trees/expressions/functions/executable/DateTimeExtractAndTransform.java:205-213 | hour lies in 0..23 and is the hour of `toJavaDateType` |
| Extract.Minute | fe/fe-core/src/main/java/org/apache/doris/nereids/trees/expressions/functions/executable/DateTimeExtractAndTransform.java:218-226 | minute lies in 0..59 and is the minute of `toJavaDateType` |
| Extract.Second | fe/fe-core/src/main/java/org/apache/doris/nereids/trees/expressions/functions/executable/DateTimeExtractAndTransform.java:231-239 | second lies in 0..59 and is the second of `toJavaDateType` |
| Extract.Microsecond | fe/fe-core/src/main/java/org/apache/doris/nereids/trees/expressions/functions/executable/DateTimeExtractAndTransform.java:244-247 | microsecond lies in 0..999999, and times 1000 it is the nano of `toJavaDateType` |
| Extract.DayOfMonth | fe/fe-core/src/main/java/org/apache/doris/nereids/trees/expressions/functions/executable/DateTimeExtractAndTransform.java:274-292 | dayofmonth is the literal's day, which lies in 1..the length of its month |
| Extract.FieldsDetermineLiteral | fe/fe-core/src/main/java/org/apache/doris/nereids/trees/expressions/functions/executable/DateTimeExtractAndTransform.java:112-247 | the extracted year, month, day, hour, minute, second and microsecond rebuild the datetime-v2 literal |
| Extract.DayOfYearOf | fe/fe-core/src/main/java/org/apache/doris/nereids/trees/expressions/functions/executable/DateTimeExtractAndTransform.java:251-269 | dayofyear lies in 1..365/366 and counts the days from January 1st of the literal's year |
| Extract.DayOfWeek | fe/fe-core/src/main/java/org/apache/doris/nereids/trees/expressions/functions/executable/DateTimeExtractAndTransform.java:297-314 | dayofweek = getDayOfWeek % 7 + 1: it lies in 1..7, is 1 exactly when the literal's getDayOfWeek is 7 (Sunday), and is otherwise that weekday plus one |
| Extract.Weekday | fe/fe-core/src/main/java/org/apache/doris/nereids/trees/expressions/functions/executable/DateTimeExtractAndTransform.java:734-752 | weekday lies in 0..6 and is the java.time ISO weekday minus one (Monday 0) |
| Extract.DayOfWeekFromWeekday | fe/fe-core/src/main/java/org/apache/doris/nereids/trees/expressions/functions/executable/DateTimeExtractAndTransform.java:297-314 | from 0000-03-01 on, or under the java.time reading, the two numberings agree: dayofweek = (weekday + 1) mod 7 + 1 |
| Extract.DayOfWeekOfNextDay | fe/fe-core/src/main/java/org/apache/doris/nereids/trees/expressions/functions/executable/DateTimeExtractAndTransform.java:297-314 | from 0000-03-01 on, or under the java.time reading, dayofweek advances by one per day, Saturday (7) wrapping to Sunday (1) |
| Extract.ToDate | fe/fe-core/src/main/java/org/apache/doris/nereids/trees/expressions/functions/executable/DateTimeExtractAndTransform.java:104-107 | date/to_date/datev2 return the midnight of the input, in the date kind matching its kind |
| Extract.Timestamp | fe/fe-core/src/main/java/org/apache/doris/nereids/trees/expressions/functions/executable/DateTimeExtractAndTransform.java:706-714 | timestamp returns its datetime argument unchanged |
| Truncate.FirstDayOfWeek | fe/fe-core/src/main/java/org/apache/doris/nereids/trees/expressions/functions/executable/DateTimeExtractAndTransform.java:317-323 | the result is a Monday 0..6 days before, exactly (ISO weekday - 1) days back, with the same time of day |
| Truncate.TruncDatePart | fe/fe-core/src/main/java/org/apache/doris/nereids/trees/expressions/functions/executable/DateTimeExtractAndTransform.java:414-433 | the first switch of the helper: a valid date with the time of day kept; for a unit other than week the same year and no later month and day; for week a Monday 0..6 days back |
| Truncate.DateTrunc | fe/fe-core/src/main/java/org/apache/doris/nereids/trees/expressions/functions/executable/DateTimeExtractAndTransform.java:414-451 | the result is valid and has no fraction of a second |
| Truncate.DateTruncLiteral | fe/fe-core/src/main/java/org/apache/doris/nereids/trees/expressions/functions/executable/DateTimeExtractAndTransform.java:374-411 | the range error exactly for "week" on 0000-01-01 or 0000-01-02, whose Monday lies in year -1; otherwise a literal of the input's kind, in either argument order, holding the truncated value |
| Truncate.TruncRange | fe/fe-core/src/main/java/org/apache/doris/nereids/trees/expressions/functions/executable/DateTimeExtractAndTransform.java:414-451 | truncation stays within 0000-01-01 .. 9999-12-31 for every unit, except "week" on 0000-01-01 and 0000-01-02 |
| Truncate.TruncNotAfter | fe/fe-core/src/main/java/org/apache/doris/nereids/trees/expressions/functions/executable/DateTimeExtractAndTransform.java:414-451 | a truncation never moves a value forward in time |
| Truncate.TruncYear | fe/fe-core/src/main/java/org/apache/doris/nereids/trees/expressions/functions/executable/DateTimeExtractAndTransform.java:421-428 | "year" (any case) gives January 1st of the year at midnight |
| Truncate.TruncQuarter | fe/fe-core/src/main/java/org/apache/doris/nereids/trees/expressions/functions/executable/DateTimeExtractAndTransform.java:424-428 | "quarter" gives the first day, at midnight, of the quarter's first month (1, 4, 7 or 10), and that quarter holds the input's month |
| Truncate.TruncMonth | fe/fe-core/src/main/java/org/apache/doris/nereids/trees/expressions/functions/executable/DateTimeExtractAndTransform.java:426-428 | "month" gives the first day of the month at midnight |
| Truncate.TruncWeek | fe/fe-core/src/main/java/org/apache/doris/nereids/trees/expressions/functions/executable/DateTimeExtractAndTransform.java:429-433 | "week" gives the Monday on or before the input, 0..6 days back, at midnight |
| Truncate.TruncDay | fe/fe-core/src/main/java/org/apache/doris/nereids/trees/expressions/functions/executable/DateTimeExtractAndTransform.java:437-447 | "day" gives the input's midnight |
| Truncate.TruncHourMinuteSecond | fe/fe-core/src/main/java/org/apache/doris/nereids/trees/expressions/functions/executable/DateTimeExtractAndTransform.java:437-449 | "hour", "minute" and "second" clear exactly the fields below the unit |
| Truncate.TruncUnknown | fe/fe-core/src/main/java/org/apache/doris/nereids/trees/expressions/functions/executable/DateTimeExtractAndTransform.java:434-449 | any other unit leaves the value unchanged apart from its fraction of a second |
| Truncate.TruncIsTruncated | fe/fe-core/src/main/java/org/apache/doris/nereids/trees/expressions/functions/executable/DateTimeExtractAndTransform.java:414-451 | every result satisfies the unit's truncation predicate |
| Truncate.TruncFixesTruncated | fe/fe-core/src/main/java/org/apache/doris/nereids/trees/expressions/functions/executable/DateTimeExtractAndTransform.java:414-451 | a value that already satisfies the unit's predicate is returned unchanged |
| Truncate.TruncIdempotent | fe/fe-core/src/main/java/org/apache/doris/nereids/trees/expressions/functions/executable/DateTimeExtractAndTransform.java:414-451 | truncating twice to the same unit is the same as truncating once |
| Truncate.TruncCascade | fe/fe-core/src/main/java/org/apache/doris/nereids/trees/expressions/functions/executable/DateTimeExtractAndTransform.java:414-451 | truncating to a coarser unit and then a finer one keeps the coarser result |
| DayArithmetic.ToDays | fe/fe-core/src/main/java/org/apache/doris/nereids/trees/expressions/functions/executable/DateTimeExtractAndTransform.java:643-665 | to_days is the day number counted from 0000-01-01 for every date from there on and for every date-only literal |
| DayArithmetic.FromDays | fe/fe-core/src/main/java/org/apache/doris/nereids/trees/expressions/functions/executable/DateTimeExtractAndTransform.java:456-465 | from_days is the range error exactly when n < 1 or n > 3652424; otherwise a valid date-v2 whose day number is n from 0000-03-01 (n >= 60) on and n - 1 before it |
| DayArithmetic.ToDaysOfFromDays | fe/fe-core/src/main/java/org/apache/doris/nereids/trees/expressions/functions/executable/DateTimeExtractAndTransform.java:456-465 | for 1 <= n <= 3652424, to_days(from_days(n)) is n for n >= 60 and n - 1 below |
| DayArithmetic.FromDaysOfToDays | fe/fe-core/src/main/java/org/apache/doris/nereids/trees/expressions/functions/executable/DateTimeExtractAndTransform.java:456-465 | from_days(to_days(d)) is the date of d for every date from 0000-03-01 on |
| DayArithmetic.FromDaysOfToDaysEarly | fe/fe-core/src/main/java/org/apache/doris/nereids/trees/expressions/functions/executable/DateTimeExtractAndTransform.java:456-465 | for 0000-01-01 the round trip is the range error; for 0000-01-02 .. 0000-02-29 it lands one day early |
| DayArithmetic.FirstOfNextMonth | fe/fe-core/src/main/java/org/apache/doris/nereids/trees/expressions/functions/executable/DateTimeExtractAndTransform.java:469-470 | plusMonths(1) from the first of a month gives the first of the next month at midnight, as many days later as the month is long |
| DayArithmetic.LastDay | fe/fe-core/src/main/java/org/apache/doris/nereids/trees/expressions/functions/executable/DateTimeExtractAndTransform.java:467-494 | last_day is the last day of the input's month, at midnight, in the date kind matching the input's kind |
| DayArithmetic.MakeDate | fe/fe-core/src/main/java/org/apache/doris/nereids/trees/expressions/functions/executable/DateTimeExtractAndTransform.java:670-676 | makedate is NULL exactly when dayOfYear <= 0; the range error exactly when the day (dayOfYear - 1) days after January 1st of the year lies outside 0000-01-01 .. 9999-12-31; otherwise a valid date on that day |
| DayArithmetic.MakeDateInYear | fe/fe-core/src/main/java/org/apache/doris/nereids/trees/expressions/functions/executable/DateTimeExtractAndTransform.java:670-676 | for dayOfYear within the year's length, the result is in that year on that day of the year |
| DayArithmetic.ToMondayJava | fe/fe-core/src/main/java/org/apache/doris/nereids/trees/expressions/functions/executable/DateTimeExtractAndTransform.java:518-525 | every input on 1970-01-01 .. 1970-01-04 gives 1970-01-01; every other gives a Monday 0..6 days before its date |
| DayArithmetic.SpecialWeek | fe/fe-core/src/main/java/org/apache/doris/nereids/trees/expressions/functions/executable/DateTimeExtractAndTransform.java:519-521 | "after 1970-01-04T23:59:59.999999999 or before 1970-01-01T00:00" is exactly "on a day outside 1970-01-01 .. 1970-01-04" |
| DayArithmetic.ToMonday | fe/fe-core/src/main/java/org/apache/doris/nereids/trees/expressions/functions/executable/DateTimeExtractAndTransform.java:498-516 | the range error exactly for 0000-01-01 and 0000-01-02, whose Monday lies in year -1; otherwise ToMondayJava's date in the date kind matching the input's kind |
| DayArithmetic.ToMondayRange | fe/fe-core/src/main/java/org/apache/doris/nereids/trees/expressions/functions/executable/DateTimeExtractAndTransform.java:518-525 | the Monday of a day in 0000-01-01 .. 9999-12-31 stays in that range exactly when the day is neither 0000-01-01 nor 0000-01-02 |
| DayArithmetic.GetDayOfWeek | fe/fe-core/src/main/java/org/apache/doris/nereids/trees/expressions/functions/executable/DateTimeExtractAndTransform.java:1249-1255 | the weekday number lies in 0..7; it is 0 exactly when the upper-cased name is not in DAY_OF_WEEK, and the table's entry for that name otherwise |
| DayArithmetic.NextDay | fe/fe-core/src/main/java/org/apache/doris/nereids/trees/expressions/functions/executable/DateTimeExtractAndTransform.java:1257-1269 | an unknown name is the error "Invalid day of week: " followed by the name; a known name gives next_day to that name's weekday, NextDayOn |
| DayArithmetic.NextDayOn | fe/fe-core/src/main/java/org/apache/doris/nereids/trees/expressions/functions/executable/DateTimeExtractAndTransform.java:1257-1269 | the range error exactly when no day after the input up to 9999-12-31 falls on the target weekday; otherwise a valid date-v2 1..7 days later, 7 exactly when the literal's own weekday is the target; where that weekday is the ISO one, the result falls on the target and is the first such day |
| DayArithmetic.NextDayRange | fe/fe-core/src/main/java/org/apache/doris/nereids/trees/expressions/functions/executable/DateTimeExtractAndTransform.java:1266-1268 | the gap counted from the literal's weekday stays within 9999-12-31 exactly when some later day up to 9999-12-31 falls on the target |
| DayArithmetic.NextDayLands | fe/fe-core/src/main/java/org/apache/doris/nereids/trees/expressions/functions/executable/DateTimeExtractAndTransform.java:1266-1268 | the computed gap lies in 1..7, lands on the target weekday, passes no earlier target day, and is 7 exactly when the start day is the target |
| UnixTime.AtOffset | fe/fe-core/src/main/java/org/apache/doris/nereids/trees/expressions/functions/executable/DateTimeExtractAndTransform.java:546-550 | the local time of a UTC instant has the instant's epoch second plus the zone offset |
| UnixTime.ToUtc | fe/fe-core/src/main/java/org/apache/doris/nereids/trees/expressions/functions/executable/DateTimeExtractAndTransform.java:611-613 | the UTC time of a local time has the local epoch second minus the zone offset |
| UnixTime.FromUnixTime | fe/fe-core/src/main/java/org/apache/doris/nereids/trees/expressions/functions/executable/DateTimeExtractAndTransform.java:538-555 | for zone offsets within ±18:00: NULL exactly when seconds < 0 or seconds > 32536771199; otherwise a valid datetime whose local epoch second is seconds plus the offset |
| UnixTime.FromUnixTimeLastSecond | fe/fe-core/src/main/java/org/apache/doris/nereids/trees/expressions/functions/executable/DateTimeExtractAndTransform.java:542-543 | at UTC+8 the last accepted second is 3001-01-19 07:59:59 |
| UnixTime.LowerBoundIsEpoch | fe/fe-core/src/main/java/org/apache/doris/nereids/trees/expressions/functions/executable/DateTimeExtractAndTransform.java:609 | the lower bound 1970-01-01 00:00:00 is epoch second 0 |
| UnixTime.UpperBoundIsInt32Max | fe/fe-core/src/main/java/org/apache/doris/nereids/trees/expressions/functions/executable/DateTimeExtractAndTransform.java:608 | the upper bound 2038-01-19 03:14:07 is epoch second 2^31 - 1 |
| UnixTime.BeforeLowerBound | fe/fe-core/src/main/java/org/apache/doris/nereids/trees/expressions/functions/executable/DateTimeExtractAndTransform.java:614 | "before 1970-01-01 00:00:00" is a negative epoch second |
| UnixTime.AfterUpperBound | fe/fe-core/src/main/java/org/apache/doris/nereids/trees/expressions/functions/executable/DateTimeExtractAndTransform.java:614 | "after 2038-01-19 03:14:07" is an epoch second past 2^31 - 1, or equal to it with a fraction |
| UnixTime.WindowIsComparison | fe/fe-core/src/main/java/org/apache/doris/nereids/trees/expressions/functions/executable/DateTimeExtractAndTransform.java:607-616 | the two comparisons of getTimestamp reject exactly the instants outside the window [0, 2^31 - 1], both ends included |
| UnixTime.DurationTextAsWritten | fe/fe-core/src/main/java/org/apache/doris/nereids/trees/expressions/functions/executable/DateTimeExtractAndTransform.java:617-624 | as written: a decimal text whose value is the seconds, plus, when there are nanos, the microseconds divided by 10 to the number of their own digits rather than by 10^6 |
| UnixTime.DurationText | fe/fe-core/src/main/java/org/apache/doris/nereids/trees/expressions/functions/executable/DateTimeExtractAndTransform.java:617-624 | corrected rendering: a decimal text whose value is the seconds plus the whole microseconds / 10^6, and plain digits of the seconds when there is no fraction |
| UnixTime.DurationTextDropsLeadingZeros | fe/fe-core/src/main/java/org/apache/doris/nereids/trees/expressions/functions/executable/DateTimeExtractAndTransform.java:623 | as written, 1 s + 5000 ns prints "1.5", whose value is 1.5 rather than 1.000005 |
| UnixTime.DurationTextAsWrittenOverstates | fe/fe-core/src/main/java/org/apache/doris/nereids/trees/expressions/functions/executable/DateTimeExtractAndTransform.java:623 | as written, every fraction of 1 .. 99999 µs reads as a larger value than the true one |
| UnixTime.GetTimestampAsWritten | fe/fe-core/src/main/java/org/apache/doris/nereids/trees/expressions/functions/executable/DateTimeExtractAndTransform.java:607-625 | "0" outside the window; inside it, the as-written rendering of the UTC seconds and nanos |
| UnixTime.GetTimestampAsWrittenOverstates | fe/fe-core/src/main/java/org/apache/doris/nereids/trees/expressions/functions/executable/DateTimeExtractAndTransform.java:607-625 | as written, a datetime in the window with 1 .. 99999 µs gives a larger value than the corrected one |
| UnixTime.GetTimestamp | fe/fe-core/src/main/java/org/apache/doris/nereids/trees/expressions/functions/executable/DateTimeExtractAndTransform.java:607-625 | corrected getTimestamp: a decimal text, "0" outside the window; inside it, UTC epoch seconds plus microseconds / 10^6, and plain digits when there is no fraction |
| UnixTime.UnixTimestamp | fe/fe-core/src/main/java/org/apache/doris/nereids/trees/expressions/functions/executable/DateTimeExtractAndTransform.java:560-573 | the date and datetime overloads give the UTC epoch second inside the window and 0 outside it, always within 0..2^31 - 1 |
| UnixTime.UnixTimestampV2 | fe/fe-core/src/main/java/org/apache/doris/nereids/trees/expressions/functions/executable/DateTimeExtractAndTransform.java:578-589 | corrected datetime-v2 overload (built on the corrected getTimestamp): epoch seconds plus microseconds / 10^6 inside the window and 0 outside it |
| UnixTime.UnixTimestampOfFromUnixTime | fe/fe-core/src/main/java/org/apache/doris/nereids/trees/expressions/functions/executable/DateTimeExtractAndTransform.java:538-573 | round trip: for 0 <= s <= 2^31 - 1, unix_timestamp(from_unixtime(s)) = s in any fixed zone |
| UnixTime.UnixTimestampClampsAfter2038 | fe/fe-core/src/main/java/org/apache/doris/nereids/trees/expressions/functions/executable/DateTimeExtractAndTransform.java:538-616 | from_unixtime accepts seconds past 2^31 - 1 that unix_timestamp maps back to 0 |
| UnixTime.FromMicroSecond | fe/fe-core/src/main/java/org/apache/doris/nereids/trees/expressions/functions/executable/DateTimeExtractAndTransform.java:1024-1039 | NULL exactly when micro < 0 or micro > 253402271999999999; the range error exactly when the local time would pass 9999-12-31 23:59:59.999999 (zones east of UTC+8); otherwise a valid datetime-v2 whose local epoch microsecond is micro plus the offset |
| UnixTime.AfterLastMicrosecond | fe/fe-core/src/main/java/org/apache/doris/nereids/trees/expressions/functions/executable/DateTimeExtractAndTransform.java:1030 | "after 9999-12-31 23:59:59.999999" in epoch seconds and nanos |
| UnixTime.FromMicroSecondYears | fe/fe-core/src/main/java/org/apache/doris/nereids/trees/expressions/functions/executable/DateTimeExtractAndTransform.java:1029-1039 | for zones from UTC to UTC+8 every accepted input lands in years 1970..9999 |
| UnixTime.FromMicroSecondLast | fe/fe-core/src/main/java/org/apache/doris/nereids/trees/expressions/functions/executable/DateTimeExtractAndTransform.java:1030 | at UTC+8 the last accepted microsecond is 9999-12-31 23:59:59.999999 |
| UnixTime.FromSecondWraps | fe/fe-core/src/main/java/org/apache/doris/nereids/trees/expressions/functions/executable/DateTimeExtractAndTransform.java:1014-1017 | as written, s = 2^58 + 1, far past the range, wraps in the 64-bit products to 10^6 µs and gives 1970-01-01 00:00:01 UTC instead of NULL |
| UnixTime.FromMilliSecondWraps | fe/fe-core/src/main/java/org/apache/doris/nereids/trees/expressions/functions/executable/DateTimeExtractAndTransform.java:1019-1022 | as written, ms = 2^61 + 1 wraps to 1000 µs and gives 1970-01-01 00:00:00.001 UTC instead of NULL |
| UnixTime.FromSecondAsWritten | fe/fe-core/src/main/java/org/apache/doris/nereids/trees/expressions/functions/executable/DateTimeExtractAndTransform.java:1014-1017 | as written: NULL exactly when the 64-bit-wrapped product s * 1000 * 1000 is < 0 or > 253402271999999999; otherwise a datetime-v2 whose local epoch microsecond is that wrapped product plus the offset |
| UnixTime.FromMilliSecondAsWritten | fe/fe-core/src/main/java/org/apache/doris/nereids/trees/expressions/functions/executable/DateTimeExtractAndTransform.java:1019-1022 | as written: NULL exactly when the 64-bit-wrapped product ms * 1000 is < 0 or > 253402271999999999; otherwise a datetime-v2 whose local epoch microsecond is that wrapped product plus the offset |
| UnixTime.FromSecond | fe/fe-core/src/main/java/org/apache/doris/nereids/trees/expressions/functions/executable/DateTimeExtractAndTransform.java:1014-1017 | corrected from_second: NULL exactly when s < 0 or s > 253402271999; the range error exactly when s plus the offset passes 9999-12-31 23:59:59; otherwise epoch microsecond (s + offset) * 10^6 |
| UnixTime.FromMilliSecond | fe/fe-core/src/main/java/org/apache/doris/nereids/trees/expressions/functions/executable/DateTimeExtractAndTransform.java:1019-1022 | corrected from_millisecond: NULL exactly when ms < 0 or ms > 253402271999999; the range error exactly when the local microsecond passes 9999-12-31 23:59:59.999999; otherwise epoch microsecond ms * 1000 + offset * 10^6 |
| UnixTime.AsWrittenAgreesWithoutOverflow | fe/fe-core/src/main/java/org/apache/doris/nereids/trees/expressions/functions/executable/DateTimeExtractAndTransform.java:1014-1022 | when the products do not overflow, the as-written and corrected functions agree |
| WeekNumbering.LocalizedDayOfWeek | fe/fe-core/src/main/java/org/apache/doris/nereids/trees/expressions/functions/executable/DateTimeExtractAndTransform.java:798-827 | the weekday counted from the rule's first day lies in 1..7, is 1 exactly on that day, and is congruent to the ISO weekday shifted by it |
| WeekNumbering.StartOfWeekOffset | fe/fe-core/src/main/java/org/apache/doris/nereids/trees/expressions/functions/executable/DateTimeExtractAndTransform.java:798-827 | week 1 starts on day 1 - offset of the year, with offset in -6..6 and the start on the rule's first weekday; a week 1 starting on or before day 1 keeps at least minDays days of the year, and one starting later leaves fewer than minDays days before it |
| WeekNumbering.ComputeWeek | fe/fe-core/src/main/java/org/apache/doris/nereids/trees/expressions/functions/executable/DateTimeExtractAndTransform.java:798-827 | the week number w >= 0 is the one whose seven days hold the day |
| WeekNumbering.WeekOfYear | fe/fe-core/src/main/java/org/apache/doris/nereids/trees/expressions/functions/executable/DateTimeExtractAndTransform.java:798-827 | the week of the year lies in 0..54, and in 0..53 when minDays >= 2 |
| WeekNumbering.WeekZeroIsShortFirstWeek | fe/fe-core/src/main/java/org/apache/doris/nereids/trees/expressions/functions/executable/DateTimeExtractAndTransform.java:798-827 | week 0 exactly when the day lies before the first week that has minDays days in the year |
| WeekNumbering.WeekNotPastNewYear | fe/fe-core/src/main/java/org/apache/doris/nereids/trees/expressions/functions/executable/DateTimeExtractAndTransform.java:798-827 | a date's week never passes the first week of the next year |
| WeekNumbering.LastDayOfPreviousYear | fe/fe-core/src/main/java/org/apache/doris/nereids/trees/expressions/functions/executable/DateTimeExtractAndTransform.java:798-827 | stepping back the day of the year lands on the last day of the previous year |
| WeekNumbering.WeekOfWeekBasedYear | fe/fe-core/src/main/java/org/apache/doris/nereids/trees/expressions/functions/executable/DateTimeExtractAndTransform.java:798-827 | the week of the week-based year lies in 1..54, and in 1..53 when minDays >= 2 |
| WeekNumbering.WeekBasedYear | fe/fe-core/src/main/java/org/apache/doris/nereids/trees/expressions/functions/executable/DateTimeExtractAndTransform.java:877-926 | the week-based year is the date's year or one next to it |
| WeekNumbering.WeekBasedYearBefore | fe/fe-core/src/main/java/org/apache/doris/nereids/trees/expressions/functions/executable/DateTimeExtractAndTransform.java:877-926 | the week-based year is the previous year exactly when the week of the year is 0 |
| WeekNumbering.WeekBasedYearAfter | fe/fe-core/src/main/java/org/apache/doris/nereids/trees/expressions/functions/executable/DateTimeExtractAndTransform.java:877-926 | when the week-based year is the next year, the week of the week-based year is 1 |
| WeekNumbering.WeekBasedYearSame | fe/fe-core/src/main/java/org/apache/doris/nereids/trees/expressions/functions/executable/DateTimeExtractAndTransform.java:877-926 | when the week-based year is the date's own year, the two week numbers agree |
| Weeks.ModeRule | fe/fe-core/src/main/java/org/apache/doris/nereids/trees/expressions/functions/executable/DateTimeExtractAndTransform.java:797-827 | odd modes start the week on Monday, even modes on Sunday; modes 1, 3, 4 and 6 need 4 days of the year in week 1, the others 7 |
| Weeks.IsSpecificDate | fe/fe-core/src/main/java/org/apache/doris/nereids/trees/expressions/functions/executable/DateTimeExtractAndTransform.java:839-842 | isSpecificDate holds exactly on the days numbered 0 and 1, 0000-01-01 and 0000-01-02 |
| Weeks.Week | fe/fe-core/src/main/java/org/apache/doris/nereids/trees/expressions/functions/executable/DateTimeExtractAndTransform.java:787-832 | an error exactly for modes outside 0..7, with the message "unknown mode N in week function"; otherwise a week in 0..53, at least 1 in modes 2, 3, 6 and 7 |
| Weeks.WeekAtFirstDayBC1 | fe/fe-core/src/main/java/org/apache/doris/nereids/trees/expressions/functions/executable/DateTimeExtractAndTransform.java:788-792 | at 0000-01-01 mode m gives {1,0,1,52,1,0,1,52}[m] |
| Weeks.WeekAtSecondDayBC1 | fe/fe-core/src/main/java/org/apache/doris/nereids/trees/expressions/functions/executable/DateTimeExtractAndTransform.java:788-795 | at 0000-01-02 every mode 0..7 gives 1 |
| Weeks.FirstDayBC1Overrides | fe/fe-core/src/main/java/org/apache/doris/nereids/trees/expressions/functions/executable/DateTimeExtractAndTransform.java:788-800 | the table is not redundant: 0000-01-01 is a Saturday, and WeekFields gives week 0 in mode 0 where the table says 1 (mode 1 agrees) |
| Weeks.WeekIsWeekFields | fe/fe-core/src/main/java/org/apache/doris/nereids/trees/expressions/functions/executable/DateTimeExtractAndTransform.java:797-827 | away from 0000-01-01/02, week is the mode's WeekFields week (of the year or of the week-based year) |
| Weeks.WeekDefault | fe/fe-core/src/main/java/org/apache/doris/nereids/trees/expressions/functions/executable/DateTimeExtractAndTransform.java:754-781 | the one-argument overloads use mode 0, never fail, and away from 0000-01-01/02 give the Sunday-first, 7-day week of the year |
| Weeks.YearWeek | fe/fe-core/src/main/java/org/apache/doris/nereids/trees/expressions/functions/executable/DateTimeExtractAndTransform.java:877-932 | year 0 gives week(date, mode); otherwise an error exactly for modes outside 0..7, with the message "unknown mode N in yearweek function" |
| Weeks.YearAndWeek | fe/fe-core/src/main/java/org/apache/doris/nereids/trees/expressions/functions/executable/DateTimeExtractAndTransform.java:881-926 | year * 100 + week splits back into the week-based year (by / 100) and the week 1..53 (by % 100) |
| Weeks.YearWeekSplits | fe/fe-core/src/main/java/org/apache/doris/nereids/trees/expressions/functions/executable/DateTimeExtractAndTransform.java:877-926 | outside year 0 a known mode gives a value whose / 100 is the week-based year (the date's year or one next to it) and whose % 100 is the week 1..53 |
| Weeks.YearWeekDefault | fe/fe-core/src/main/java/org/apache/doris/nereids/trees/expressions/functions/executable/DateTimeExtractAndTransform.java:859-872 | the one-argument overloads use mode 0 and never fail |
| WeekOfYear.WeekOfYearLiteral | fe/fe-core/src/main/java/org/apache/doris/nereids/trees/expressions/functions/executable/DateTimeExtractAndTransform.java:937-947 | weekofyear lies in 1..54, and in 1..53 outside year 0 |
| WeekOfYear.WeekOfYearIsMode3 | fe/fe-core/src/main/java/org/apache/doris/nereids/trees/expressions/functions/executable/DateTimeExtractAndTransform.java:937-975 | outside year 0 weekofyear is week in mode 3, whatever the literal's reading of the early days |
| WeekOfYear.WeekOfYearIsIsoWeek | fe/fe-core/src/main/java/org/apache/doris/nereids/trees/expressions/functions/executable/DateTimeExtractAndTransform.java:937-975 | where the literal's getDayOfWeek is its ISO weekday, weekofyear is the ISO week of the week-based year, plus one on a Monday of year 0 |
| WeekOfYear.SecondDayOfYearZero | fe/fe-core/src/main/java/org/apache/doris/nereids/trees/expressions/functions/executable/DateTimeExtractAndTransform.java:939-941 | at 0000-01-02 java.time's weekday is 7 (Sunday), so the 0000-01-02 branch is not taken and the ISO week is returned; under the dialect's day count it is 1 (Monday), the branch is taken and weekofyear is 1 |
| MonthsBetween.DayFraction | fe/fe-core/src/main/java/org/apache/doris/nereids/trees/expressions/functions/executable/DateTimeExtractAndTransform.java:1235-1240 | the fraction lies within ±30/31; it is 0 exactly when the days are equal or both dates end their month, and positive exactly when the first day is later and not both end their month |
| MonthsBetween.MonthsBetweenExact | fe/fe-core/src/main/java/org/apache/doris/nereids/trees/expressions/functions/executable/DateTimeExtractAndTransform.java:1231-1241 | the unrounded result lies within 30/31 of the whole-month difference |
| MonthsBetween.RoundHalfUp8 | fe/fe-core/src/main/java/org/apache/doris/nereids/trees/expressions/functions/executable/DateTimeExtractAndTransform.java:1243-1245 | setScale(8, HALF_UP) gives a multiple of 10^-8 within half a unit; ties go away from zero |
| MonthsBetween.RoundWhole | fe/fe-core/src/main/java/org/apache/doris/nereids/trees/expressions/functions/executable/DateTimeExtractAndTransform.java:1243-1245 | rounding leaves a whole number unchanged |
| MonthsBetween.RoundOdd | fe/fe-core/src/main/java/org/apache/doris/nereids/trees/expressions/functions/executable/DateTimeExtractAndTransform.java:1243-1245 | rounding is symmetric about zero |
| MonthsBetween.MonthsBetween | fe/fe-core/src/main/java/org/apache/doris/nereids/trees/expressions/functions/executable/DateTimeExtractAndTransform.java:1229-1246 | without round_off the result is the exact value; with it, the exact value rounded half-up to 8 places |
| MonthsBetween.LastDaysGiveWholeMonths | fe/fe-core/src/main/java/org/apache/doris/nereids/trees/expressions/functions/executable/DateTimeExtractAndTransform.java:1236-1237 | when both dates are the last day of their month, the result is the whole number of months, rounded or not |
| MonthsBetween.SameDayGivesWholeMonths | fe/fe-core/src/main/java/org/apache/doris/nereids/trees/expressions/functions/executable/DateTimeExtractAndTransform.java:1238-1241 | the same day of the month also gives a whole number of months |
| MonthsBetween.MonthsBetweenAntisymmetric | fe/fe-core/src/main/java/org/apache/doris/nereids/trees/expressions/functions/executable/DateTimeExtractAndTransform.java:1229-1246 | swapping the dates negates the result, rounded or not |
| MonthsBetween.MonthsBetweenSign | fe/fe-core/src/main/java/org/apache/doris/nereids/trees/expressions/functions/executable/DateTimeExtractAndTransform.java:1229-1241 | the unrounded result is positive exactly when the first date is later, and 0 exactly on the same date |
| MonthsBetween.MonthsBetweenAdditive | fe/fe-core/src/main/java/org/apache/doris/nereids/trees/expressions/functions/executable/DateTimeExtractAndTransform.java:1229-1241 | without rounding, results add up along three dates none of which ends its month |

## Left out

- `date_format`, `str_to_date`, `unix_timestamp(string, format)` and the format
  argument of `from_unixtime`: these are driven by `SupportJavaDateFormatter` and
  `java.time.DateTimeFormatter`, which are not part of this model.
  `UnixTime.FromUnixTime` returns the datetime before it is formatted.
- `convert_tz` and zone rules in general: they need the IANA time-zone
  database. The session time zone is a fixed UTC offset, so daylight-saving
  transitions are not modelled.
- `dayname` and `monthname`: locale-dependent display names.
- `years_diff` .. `microseconds_diff`: these are `ChronoUnit.between` of
  `java.time`, outside the modelled core.
- `MonthsBetween.MonthsBetween`: computed on exact reals. The `double`
  arithmetic (`/ 31.0`, the sum) and `new BigDecimal(double)` before
  `setScale` are not modelled, so binary rounding of the double is not captured.
- `DateLiteral`, `DateTimeLiteral` and their v2 forms are not part of this
  model. A literal is valid when its year lies in 0..9999. Building one outside
  that range is modelled as an evaluation error with the fixed text
  `RANGE_ERROR`; the literal classes' own outcome there (the exception's type
  and message, or a typed NULL) is not captured.
- `Literals.LiteralDayOfWeek`: the literal classes' `getDayOfWeek()` is a
  `WeekdayReading` parameter. It is the java.time weekday from 0000-03-01 on;
  for the 60 days before it the model proves each property either for every
  reading, or only for the java.time reading (`JAVA_WEEKDAYS`), and shows what
  the dialect's day count (`DIALECT_WEEKDAYS`) changes at 0000-01-02.
- `Extract.DayOfYearOf`: the literal classes' `getDayOfYear()` is read as
  java.time's day of the year. In year 0 from March on the dialect's count,
  which has no February 29th, may be one lower; that reading is not modelled.
- The datetime-v2 scale (0..6 fractional digits) is not modelled: every
  datetime-v2 literal carries whole microseconds. `DateTimeV2Type.MAX`,
  `SYSTEM_DEFAULT` and the scale passed to `fromJavaDateType` are not told apart.
- `UnixTime.ValidOffset`: the session offset is limited to -18:00 .. +18:00, the
  range java.time's `ZoneOffset` allows.
- `Extract.DayOfWeek`, `Extract.Weekday`, `Extract.Quarter`, `Extract.DayOfYearOf`,
  `Extract.DayOfMonth`, `Weeks.Week`: the `(byte)`/`(short)` casts of the
  results are not written out. For valid literals every result fits its
  cast type (at most 54 for a byte, 366 for a short), so the casts change nothing.
- `Weeks.YearWeek`: `weekBasedYear * 100 + week` is computed on unbounded
  integers. The `int` product cannot overflow for years 0..9999.
- `UnixTime.UnixTimestampV2`: the decimal scale of the result type is not
  modelled, only its value.
- `Text.ToLower`, `Text.ToUpper`: case mapping of ASCII letters only.
  `String.toLowerCase`/`toUpperCase` map more of Unicode.
- `UnixTime.FromUnixTime`, `UnixTime.FromMicroSecond`: the call to
  `DateUtils.getTimeZone()` is replaced by the `offset` parameter.

## Findings

| source | as written | input that shows it | evidently intended | confidence | as-written member | corrected member |
|---|---|---|---|---|---|---|
| fe/fe-core/src/main/java/org/apache/doris/nereids/trees/expressions/functions/executable/DateTimeExtractAndTransform.java:620-624 | the microseconds after the dot are printed without zero padding: `getSeconds() + "." + getNano() / 1000` | 1970-01-01 00:00:01.000005 UTC prints "1.5", read as 1.5 s by `new BigDecimal`, so unix_timestamp of that datetime-v2 is 1.5 | the fraction padded to six digits ("1.000005") | not executed | UnixTime.GetTimestampAsWrittenOverstates | UnixTime.GetTimestamp, UnixTime.UnixTimestampV2 |
| fe/fe-core/src/main/java/org/apache/doris/nereids/trees/expressions/functions/executable/DateTimeExtractAndTransform.java:1014-1022 | from_second and from_millisecond multiply by 10^6 / 10^3 in 64-bit `long` before the range check, so large inputs wrap into the accepted range | from_second(2^58 + 1) and from_millisecond(2^61 + 1) return a date instead of NULL | NULL for every second > 253402271999 and millisecond > 253402271999999 | not executed | UnixTime.FromSecondWraps | UnixTime.FromSecond |
