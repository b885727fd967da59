# Tri-calendar date conversions in Dafny

This project models the date arithmetic of the `TriCalendar` class of a
three-calendar web page (Gregorian, Bengali, Hijri), and proves what it
computes.

- **`gregorianToBangla`** is modelled by the method `Bengali.GregorianToBangla`.
  - The Bengali New Year falls on April 14, or on April 15 in a Gregorian leap year.
  - The Bengali year is the Gregorian year less 593 from New Year on, and less 594 before it.
  - The method counts the days since the latest New Year and walks a table of five 31-day and seven 30-day months.
  - A zero remainder is moved back to the last day of the month before.
  - The method is proved equal to the specification function `Bengali.BanglaOf`.
  - The lemmas about `BanglaOf` state what the conversion does around New Year:
    - New Year's day itself reads as Choitro 30.
    - In Gregorian leap years, April 13 and 14 run off the table.
    - Between New Years, consecutive days give consecutive table days.
- **`gregorianToHijri`** is modelled by the method `Hijri.GregorianToHijri`.
  - It computes the integer Julian Day Number of the date.
  - It estimates the year from the mean year of 10631/30 days, and places the year's start by the same mean.
  - It builds the 30/29 month table and lengthens the last month in place in a long year.
  - It then walks the table.
  - The method is proved equal to `Hijri.HijriFromJdn`, and the lemmas characterise every reading of the walk.
- **`TabularHijri`** is the corrected tabular Islamic calendar that the converter's leap rule belongs to.
  - Days and dates are proved to be in one-to-one correspondence.
- **The helpers** are modelled as follows:
  - `isSameDay`, `getDayOfYear` and `getWeekNumber` are in `DateHelpers`, on a `Moment`: a date plus the milliseconds since its midnight.
  - `toBengaliNumber` is in `Numerals`.
- **`Gregorian`** holds the shared calendar arithmetic:
  - the leap rule and the month tables;
  - the Julian Day Number as a day count;
  - the proof that the converter's formula computes it.

Dates are `Date(year, month, day)` with the 0-based month that `getMonth`
reports. A difference of two JavaScript Dates at midnight is a difference of
Julian Day Numbers times 86400000 milliseconds.

## Model

| member | source | states |
|---|---|---|
| `Bengali.GregorianToBangla` | calender/js/script.js:75-151 | The result is `BanglaOf(date)`. The year is decided by the month/day test, the day count comes from the New Year anchor, and the table walk and roll-back give the month and day. |
| `Bengali.DaysSinceNewYear` | calender/js/script.js:96-113 | The anchor Date is moved back a year in place when the date precedes this year's New Year. The date minus the anchor is the count of days since the latest New Year. |
| `Bengali.BeforeNewYear` | calender/js/script.js:87-104 | The month/day test of line 87 holds exactly when the date compares below this year's New Year Date, as line 104 tests, in both directions. |
| `Bengali.BanglaYearRule` | calender/js/script.js:81-89 | The Bengali year is the Gregorian year less 594 before that year's New Year (April 14, or April 15 in a leap year) and less 593 from it on. |
| `Bengali.BanglaYear` | calender/js/script.js:84-89 | The Bengali year is the Gregorian year of the latest New Year less 593. |
| `Bengali.LatestNewYear` | calender/js/script.js:96-110 | The anchor is April 15 in a leap year and April 14 otherwise, with the leap status of the anchor's own year. It is in this year, or in the previous year when the date precedes this year's New Year. |
| `Bengali.LatestNewYearBrackets` | calender/js/script.js:96-110 | The anchor is on or before the date, and the New Year after the anchor is after the date. |
| `Bengali.ElapsedDays` | calender/js/script.js:113 | The count of days since the latest New Year lies in 0..366. |
| `Bengali.ElapsedDaysIsDateDifference` | calender/js/script.js:97-113 | The day count equals the JDN of the date minus the JDN of the latest New Year. That New Year is in the previous Gregorian year, with that year's own leap status, when the date precedes this year's. |
| `Bengali.ElapsedDaysRange` | calender/js/script.js:97-113 | The count lies in 0..366. It is 0 exactly on New Year's day. It is 365 or 366 exactly on April 13 or 14 of a Gregorian leap year. |
| `Bengali.MonthTableTotal` | calender/js/script.js:116 | The month table has twelve entries, five 31s then seven 30s, and they total 365. |
| `Bengali.DaysBeforeIsTableSum` | calender/js/script.js:116-128 | The days before month m are the running total of the table's first m entries. |
| `Bengali.SeasonTable` | calender/js/script.js:22-25 | Each season covers two consecutive months. Months 0-1 are Grishmo and months 8-9 are Sheet. |
| `Bengali.BanglaOf` | calender/js/script.js:116-149 | The month is in 0..11 and the day in 1..its table length, so the name and season lookups are in bounds. The table position of (month, day) is congruent to the day count modulo 365, and the year is the Bengali year. |
| `Bengali.BanglaOfCharacterised` | calender/js/script.js:119-142 | Any table pair whose position is congruent to the day count modulo 365 is the reported month and day. |
| `Bengali.RolledBackReading` | calender/js/script.js:119-142 | Where the walk stops, with or without a break, and after the zero-remainder roll-back, the reading is the table day at position (n + 364) mod 365 + 1. |
| `Bengali.NewYearDayReading` | calender/js/script.js:134-142 | New Year's day reads as month 11, day 30 (Choitro 30) of the new Bengali year. |
| `Bengali.LeapYearAprilFallThrough` | calender/js/script.js:119-142 | In a Gregorian leap year the walk runs off the table. April 13 reads as Choitro 30 and April 14 as Boishakh 1, both of the old Bengali year. |
| `Bengali.NewYear2024` | calender/js/script.js:81-151 | 2024-04-13 reads as 1430 Choitro 30, 2024-04-14 as 1430 Boishakh 1, and 2024-04-15 as 1431 Choitro 30. |
| `Bengali.BanglaNextDay` | calender/js/script.js:75-151 | When the next day is not New Year, the year is unchanged. The month and day move to the next table day, and Choitro 30 wraps to Boishakh 1. |
| `Bengali.BanglaYearTurns` | calender/js/script.js:84-89 | On New Year's day the Bengali year goes up by one. |
| `Bengali.PositionDeterminesMonthDay` | calender/js/script.js:116 | Two table pairs whose positions in the year are congruent modulo 365 are the same pair. |
| `Hijri.GregorianToHijri` | calender/js/script.js:154-213 | The result is `HijriFromJdn` of the date's Julian Day Number. It is computed with the month table built in an array and lengthened in place, then walked. |
| `Hijri.JulianDay` | calender/js/script.js:158-169 | The a/y/m formula on the 1-based month gives the date's Julian Day Number. |
| `Hijri.TruncRem` | calender/js/script.js:190 | JavaScript's remainder equals the Euclidean one on non-negative dividends. On negative ones it lies in (-b, 0]. In both cases the dividend minus the remainder is a multiple of the divisor. |
| `Hijri.HasLongLastMonth` | calender/js/script.js:190 | From year -1 on, the last month is long exactly when (11 y + 14) mod 30 < 11. Below that, the negative JavaScript remainder makes every year long. |
| `Hijri.TableLength` | calender/js/script.js:187-192 | The table holds 354 days, or 355 exactly when the last month is long. |
| `Hijri.YearOf` | calender/js/script.js:175-178 | The estimated year y satisfies 10631 (y - 1) <= 30 (jdn - epoch) < 10631 y. |
| `Hijri.YearStartOf` | calender/js/script.js:180-181 | The year start is the mean-year start 10631 (y - 1) / 30 rounded down, so it lies within 29/30 of a day before it. |
| `Hijri.YearOffset` | calender/js/script.js:183-184 | The offset into the computed year is always in 0..355. |
| `Hijri.MonthTable` | calender/js/script.js:186-192 | The table has twelve entries. Entries 0..10 are the gaps between consecutive month starts, and entry 11 brings the total to the year's table length. |
| `Hijri.MonthTableShape` | calender/js/script.js:186-192 | The table alternates 30 and 29. Only entry 11 depends on the year, and it is 30 exactly when (11 Y + 14) % 30 < 11. The table totals 354 or 355. |
| `Hijri.MonthTableSums` | calender/js/script.js:186-192 | The month starts are the running totals of the table. |
| `Hijri.Walk` | calender/js/script.js:194-204 | The loop as a recursion from month i: the month it reports is 0 or one of months i..11. |
| `Hijri.WalkStops` | calender/js/script.js:194-204 | The walk stops at the first month k whose length is at least what is left after the months before it, and reports that rest as the day. When no month holds the rest, it reports month 0 with what is left after the whole table. |
| `Hijri.HijriFromJdn` | calender/js/script.js:178-211 | The year is the estimate, and the month is in 0..11 with the matching name. |
| `Hijri.HijriReading` | calender/js/script.js:194-204 | Offset 0 reads as month 0 day 0. An offset inside the table reads as the month containing it and the day within it. An offset past the table falls through to month 0 with the excess as the day. |
| `Hijri.HijriReadingInTable` | calender/js/script.js:194-211 | Inside the table the day is between 1 and the month's length, and month start plus day is the offset. |
| `Hijri.HijriDayBounds` | calender/js/script.js:194-211 | The day is between 0 and the month's length. It is 0 exactly at offset 0, and then the month is Muharram. |
| `Hijri.HijriYearFromEpoch` | calender/js/script.js:178 | The year is at least 1 for every day from the epoch on. |
| `Hijri.HijriYearMonotone` | calender/js/script.js:178 | The year never decreases as the Julian Day Number grows. |
| `Hijri.HijriDayZeroIff` | calender/js/script.js:175-204 | The reported day is 0 exactly when the days since the epoch are a multiple of 10631, both directions. |
| `Hijri.HijriCycleStart` | calender/js/script.js:175-204 | The first day of every 30-year cycle reads as day 0 of Muharram of year 30k + 1. |
| `Hijri.HijriFallThrough` | calender/js/script.js:194-204 | At offset 355 in a year with a 354-day table, the walk ends without a break and reads as Muharram 1 of that year. |
| `Hijri.ExampleDates` | calender/js/script.js:158-169 | The Julian Day Numbers of 2019-08-31 to 2019-09-02 and 2025-06-27 to 2025-06-28. |
| `Hijri.HijriDayZeroExample` | calender/js/script.js:175-211 | 2019-09-01 reads as 1441 Muharram 0. It sits between 1440 Dhu al-Hijjah 29 and 1441 Muharram 1. |
| `Hijri.HijriYearThreeFallThrough` | calender/js/script.js:175-211 | JDN 1949503 and 1949504 both read as Muharram 1, of years 3 and 4. |
| `Hijri.HijriMuharramTwiceExample` | calender/js/script.js:175-211 | 2025-06-27 reads as 1446 Muharram 1 and 2025-06-28 as 1447 Muharram 1. |
| `TabularHijri.YearStartStep` | calender/js/script.js:181-192 | The corrected year start advances by 355 days after a long year and by 354 otherwise. The long years are those of the Euclidean rule (11 y + 14) mod 30 < 11. |
| `TabularHijri.LongYearRuleAgrees` | calender/js/script.js:190 | From year -1 on, the corrected calendar's long years are exactly those the converter's test lengthens. Below that, the converter lengthens every year. |
| `TabularHijri.YearOfJdn` | calender/js/script.js:178-181 | The corrected year estimate always names the year whose start and end bracket the day. |
| `TabularHijri.TabularFromJdn` | calender/js/script.js:154-213 | Every day reads as a valid date: month 0..11, day between 1 and the month's length (never 0), and the matching name. |
| `TabularHijri.TabularRoundTrip` | calender/js/script.js:175-204 | Reading a day as a date and back gives the same day. |
| `TabularHijri.TabularRoundTripDate` | calender/js/script.js:175-204 | Every valid date is the reading of its own day, so no date is skipped or repeated. |
| `TabularHijri.NextTabularJdn` | calender/js/script.js:194-204 | The next date, after the month's last day or the year's last month, falls on the next day. |
| `TabularHijri.TabularNextDay` | calender/js/script.js:194-204 | Consecutive days read as consecutive dates. |
| `TabularHijri.TabularEpoch` | calender/js/script.js:171-172 | The epoch reads as 1 Muharram 1. |
| `TabularHijri.TabularNewYear` | calender/js/script.js:181-204 | The start of year y reads as 1 Muharram y, and the day after as 2 Muharram y. |
| `TabularHijri.TabularNewYear1441` | calender/js/script.js:175-211 | 2019-09-01 (JDN 2458728) reads as 1 Muharram 1441. |
| `TabularHijri.TabularNewYear1447` | calender/js/script.js:175-211 | 2025-06-27 (JDN 2460854) reads as 1 Muharram 1447. |
| `TabularHijri.TabularSecondOfMuharram1447` | calender/js/script.js:175-211 | 2025-06-28 (JDN 2460855) reads as 2 Muharram 1447. |
| `Gregorian.IsLeapYear` | calender/js/script.js:81 | A year not divisible by 4 is common, and one divisible by 4 but not by 100 is a leap year. A century year is a leap year exactly when 400 divides it. |
| `Gregorian.JdnFormula` | calender/js/script.js:163-169 | The a/y/m formula on the 1-based month, with January and February shifted to months 10-11 of the year before, equals the day count from 1 January of year 1 plus 1721425, for every date. |
| `Gregorian.JdnNext` | calender/js/script.js:163-169 | Consecutive calendar dates have Julian Day Numbers one apart. |
| `Gregorian.JdnOfMillennium` | calender/js/script.js:163-169 | 2000-01-01 is JDN 2451545, a Saturday. |
| `Gregorian.JdnOrderWithinYear` | calender/js/script.js:104 | Within a year, comparing Dates orders them as (month, day) does, in both directions. |
| `Gregorian.LeapDaysStep` | calender/js/script.js:167-169 | The y/4 - y/100 + y/400 term goes up by one exactly at a leap year, under the rule of line 81. |
| `Gregorian.WeekdayNext` | calender/js/script.js:218 | The weekday (getDay, Sunday = 0) advances by one modulo 7 from day to day. |
| `DateHelpers.IsSameDay` | calender/js/script.js:228-232 | True exactly when the two calendar dates are equal, whatever the times of day. |
| `DateHelpers.IsSameDayEquivalence` | calender/js/script.js:228-232 | isSameDay is reflexive, symmetric and transitive. |
| `DateHelpers.CeilDiv` | calender/js/script.js:218 | Math.ceil of a quotient q satisfies b (q - 1) < a <= b q. |
| `DateHelpers.MillisSince` | calender/js/script.js:217 | The difference of a Date and an earlier midnight splits into whole days, the difference of their day numbers, and the time of day as the remainder. |
| `DateHelpers.DayOfYear` | calender/js/script.js:221-226 | The day of the year is the days before the month plus the day, between 1 and the year's length, whatever the time of day. |
| `DateHelpers.DayOfYearEnds` | calender/js/script.js:221-226 | January 1 is day 1, and December 31 is day 365 or 366 with the leap rule. |
| `DateHelpers.WeekNumber` | calender/js/script.js:215-219 | On whole days the week number is (day of year - 1 + weekday of January 1) / 7 + 1, in 1..54. |
| `DateHelpers.WeekNumberAt` | calender/js/script.js:215-219 | As written, with a time of day: the whole-day week number, plus one on a Saturday after midnight. |
| `DateHelpers.WeekNumberFirstDay` | calender/js/script.js:215-219 | January 1 is in week 1. |
| `DateHelpers.WeekNumberNext` | calender/js/script.js:215-219 | Within a year, the whole-day week number goes up by one from one day to the next exactly when the new day is a Sunday. |
| `DateHelpers.WeekNumberAtNoonOfSaturdayNewYear` | calender/js/script.js:215-219 | At noon on Saturday 2000-01-01 the as-written week number is 2, and the whole-day one is 1. |
| `Numerals.ToBengaliChar` | calender/js/script.js:27-70 | A decimal digit becomes the Bengali digit of the same value. Any other character, whose table lookup gives undefined, is kept. |
| `Numerals.ToBengaliDigits` | calender/js/script.js:70 | The split/map/join keeps the length and maps each character by itself. |
| `Numerals.Digits` | calender/js/script.js:70 | The decimal digits of a natural number: at least one ASCII digit, and no leading zero. `DigitsValueOfDigits` shows they read back as the number. |
| `Numerals.DecimalString` | calender/js/script.js:70 | String(num) of an integer is its digits with no leading zero, preceded by '-' for a negative number. |
| `Numerals.DecimalRoundTrip` | calender/js/script.js:70 | Parsing the decimal text of n gives n back. |
| `Numerals.BengaliDigitsRoundTrip` | calender/js/script.js:70 | On text without Bengali digits, the reverse digit map undoes the replacement. |
| `Numerals.ToBengaliNumber` | calender/js/script.js:69-71 | The result is as long as the decimal text. It starts with '-' exactly for a negative number, and every other character is a Bengali digit. |
| `Numerals.ToBengaliNumberRoundTrip` | calender/js/script.js:69-71 | Mapping the Bengali digits back gives the decimal text, and parsing it gives the number. |
| `Numerals.ToBengaliNumberInjective` | calender/js/script.js:69-71 | Different numbers are written differently. |
| `Numerals.ToBengaliNumberExample` | calender/js/script.js:69-71 | 1431 is written with the Bengali digits one, four, three, one. |
| `Numerals.ToBengaliNumberNegativeExample` | calender/js/script.js:69-71 | -7 is written as '-' followed by the Bengali seven. |

## Left out

- The rendering functions, the view and month switching, the timers, the event handlers and every DOM write. They only display what the converters return.
- The wall clock (`new Date()`): "today" is a parameter, the date passed in.
- Time zones and daylight saving. Every difference of two local midnights is taken as a whole number of 86400000-millisecond days.
- `Bengali.GregorianToBangla`: requires a year below 0 or from 100 on. The `new Date(year, month, day)` it builds reads years 0-99 as 1900-1999, which is not modelled.
- `Bengali.DaysSinceNewYear`: requires a year below 0 or from 100 on, for the same reason.
- `DateHelpers.DayOfYear`: requires a year below 0 or from 100 on, because its `new Date(y, 0, 0)` reads years 0-99 the same way.
- `DateHelpers.WeekNumber`: requires a year below 0 or from 100 on, because of `new Date(y, 0, 1)`.
- `DateHelpers.WeekNumberAt`: requires a year below 0 or from 100 on, because of `new Date(y, 0, 1)`.
- Years are unbounded integers. Outside the JavaScript Date range of 100,000,000 days either side of 1970, the source gets an invalid Date, which is not modelled.
- Name tables are modelled as enumerations, not as display strings.
  - The Bengali month and season tables are `Bengali.Month` and `Bengali.Season`.
  - The Arabic and Bengali-script Hijri month tables are one `Hijri.HijriMonth`. Both tables are indexed by the same month, so `monthNameBangla` is the same value as `monthName`.
- The weekday name tables, the English month table and the English season table are not modelled. Only rendering and the info panel read them.
- `Numerals.ToBengaliNumber`: takes an integer. `String()` of a fraction, and the exponent form of numbers from 10^21 up, are not modelled. The callers pass years, days and week numbers.

## Findings

| source | as written | input that shows it | evidently intended | confidence | as-written member | corrected member |
|---|---|---|---|---|---|---|
| calender/js/script.js:181 | The year start is the mean-year start floor(10631 (Y - 1) / 30), while line 190 lengthens years by the tabular leap rule. Offsets then run 0..355 against a 354- or 355-day table, and the `<=` walk gives day 0 or falls off the table. | 2019-09-01 (JDN 2458728) gives 1441 Muharram 0. 2025-06-27 and 2025-06-28 give 1446 Muharram 1 and 1447 Muharram 1. | Each day is exactly one date with day >= 1. That holds when year y starts 354 (y - 1) + floor((3 + 11 y) / 30) days after the epoch, which is consistent with the leap rule. | high that the output is wrong; not executed | `Hijri.HijriDayZeroExample`, `Hijri.HijriMuharramTwiceExample` | `TabularHijri.TabularRoundTripDate`, `TabularHijri.TabularNewYear1441`, `TabularHijri.TabularNewYear1447` |
| calender/js/script.js:217-218 | For a Date with a time of day, the past days are fractional, and Math.ceil rounds a Saturday after midnight up into the next week. | 2000-01-01 12:00, a Saturday, gives week 2. | Week 1, as at midnight: the week number changes only on Sundays. | medium; not executed | `DateHelpers.WeekNumberAtNoonOfSaturdayNewYear` | `DateHelpers.WeekNumberNext` |
