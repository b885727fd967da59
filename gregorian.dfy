/** Proleptic Gregorian calendar arithmetic shared by the converters: civil
    dates with 0-based months (January = 0, as JavaScript's getMonth reports
    them), the leap-year rule, and the integer Julian Day Number formula that
    the Hijri converter computes inline. */
module Gregorian {

  /** A civil date. `month` is 0..11, `day` is 1-based. */
  datatype Date = Date(year: int, month: int, day: int)

  /** The Gregorian leap rule: every fourth year, except the century years
      that 400 does not divide. (JavaScript's `%` and Dafny's agree on
      whether the remainder is zero, whatever the sign of the year.) */
  predicate IsLeapYear(y: int): (r: bool)
    ensures y % 4 != 0 ==> !r
    ensures y % 4 == 0 && y % 100 != 0 ==> r
    ensures y % 100 == 0 ==> (r <==> y % 400 == 0)
  {
    (y % 4 == 0 && y % 100 != 0) || y % 400 == 0
  }

  /** Years that `new Date(y, m, d)` takes as given: it reads 0..99 as
      1900..1999. */
  predicate ConstructorYear(y: int) {
    y < 0 || y >= 100
  }

  function YearLength(y: int): (n: int)
    ensures n == 365 || n == 366
    ensures n == 366 <==> IsLeapYear(y)
  {
    if IsLeapYear(y) then 366 else 365
  }

  function DaysInMonth(y: int, m: int): (n: int)
    requires 0 <= m < 12
    ensures 28 <= n <= 31
    ensures m == 1 ==> (n == 29 <==> IsLeapYear(y))
  {
    if m == 1 then (if IsLeapYear(y) then 29 else 28)
    else if m == 3 || m == 5 || m == 8 || m == 10 then 30
    else 31
  }

  /** What a JavaScript Date's getFullYear/getMonth/getDate can report. */
  predicate Valid(d: Date) {
    0 <= d.month < 12 && 1 <= d.day <= DaysInMonth(d.year, d.month)
  }

  /** Number of days of year `y` that lie before the first of month `m`
      (m == 12 gives the whole year). */
  function DaysBeforeMonth(y: int, m: int): (n: int)
    requires 0 <= m <= 12
    ensures 0 <= n <= 366
  {
    [0, 31, 59, 90, 120, 151, 181, 212, 243, 273, 304, 334, 365][m]
      + (if m >= 2 && IsLeapYear(y) then 1 else 0)
  }

  /** The calendar day after `d`. */
  function Next(d: Date): (e: Date)
    requires Valid(d)
    ensures Valid(e)
  {
    if d.day < DaysInMonth(d.year, d.month) then Date(d.year, d.month, d.day + 1)
    else if d.month < 11 then Date(d.year, d.month + 1, 1)
    else Date(d.year + 1, 0, 1)
  }

  /** Leap years among 1..y (for y >= 0; the count runs on below 0). */
  function LeapDaysThrough(y: int): int {
    y / 4 - y / 100 + y / 400
  }

  /** Days of the proleptic Gregorian years 1..y-1. */
  function DaysBeforeYear(y: int): int {
    365 * (y - 1) + LeapDaysThrough(y - 1)
  }

  /** Julian Day Number of a date: its day count from 1 January of year 1,
      which is JDN 1721426. The formula the Hijri converter computes is
      JdnFormula below, whose contract is that the two are equal. */
  function JulianDayNumber(d: Date): int
    requires 0 <= d.month < 12
  {
    DaysBeforeYear(d.year) + DaysBeforeMonth(d.year, d.month) + d.day + 1721425
  }

  /** Day of the week as JavaScript's getDay reports it: Sunday = 0. */
  function Weekday(d: Date): (w: int)
    requires 0 <= d.month < 12
    ensures 0 <= w < 7
  {
    (JulianDayNumber(d) + 1) % 7
  }

  // ---------------------------------------------------------------------
  // Properties of the tables

  lemma DaysBeforeMonthStep(y: int, m: int)
    requires 0 <= m < 12
    ensures DaysBeforeMonth(y, m + 1) == DaysBeforeMonth(y, m) + DaysInMonth(y, m)
  {
  }

  lemma DaysBeforeMonthWhole(y: int)
    ensures DaysBeforeMonth(y, 12) == YearLength(y)
  {
  }

  /** Earlier months start earlier: a day of month m1 precedes every day of a
      later month m2. */
  lemma DaysBeforeMonthOrder(y: int, m1: int, m2: int)
    requires 0 <= m1 < m2 < 12
    ensures DaysBeforeMonth(y, m1) + DaysInMonth(y, m1) <= DaysBeforeMonth(y, m2)
  {
  }

  // ---------------------------------------------------------------------
  // The integer JDN formula

  /** Julian Day Number by the integer Gregorian formula (Fliegel and Van
      Flandern, Communications of the ACM 11(10), 1968, in its a/y/m form),
      for a 1-based month: March is month 0 of the shifted year, January
      and February are months 10 and 11 of the previous one, so the leap
      day ends the shifted year. */
  function JdnFormula(year: int, month: int, day: int): (jdn: int)
    requires 1 <= month <= 12
    ensures jdn == JulianDayNumber(Date(year, month - 1, day))
  {
    var a := (14 - month) / 12;
    var y := year + 4800 - a;
    var m := month + 12 * a - 3;
    assert a == (if month >= 3 then 0 else 1);
    ShiftedYearCount(Date(year, month - 1, day));
    day + (153 * m + 2) / 5 + 365 * y + y / 4 - y / 100 + y / 400 - 32045
  }

  /** Going from y - 1 to y, y / k goes up by one exactly when k divides y. */
  lemma DivStep(y: int, k: int)
    requires k == 4 || k == 100 || k == 400
    ensures y / k - (y - 1) / k == if y % k == 0 then 1 else 0
  {
    var q, r := (y - 1) / k, (y - 1) % k;
    assert y - 1 == k * q + r && 0 <= r < k;
    if r == k - 1 {
      assert y == k * (q + 1);
    } else {
      assert y == k * q + (r + 1);
    }
  }

  lemma CenturyOf400(y: int)
    requires y % 400 == 0
    ensures y % 100 == 0
  {
    assert y == 100 * (4 * (y / 400));
  }

  lemma FourOfCentury(y: int)
    requires y % 100 == 0
    ensures y % 4 == 0
  {
    assert y == 4 * (25 * (y / 100));
  }

  lemma LeapDaysStep(y: int)
    ensures LeapDaysThrough(y) - LeapDaysThrough(y - 1) == if IsLeapYear(y) then 1 else 0
  {
    DivStep(y, 4);
    DivStep(y, 100);
    DivStep(y, 400);
    if y % 400 == 0 {
      CenturyOf400(y);
    }
    if y % 100 == 0 {
      FourOfCentury(y);
    }
  }

  /** 4800 years are 12 whole 400-year cycles, with 1164 leap days. */
  lemma LeapDaysShift(y: int)
    ensures LeapDaysThrough(y + 4800) == LeapDaysThrough(y) + 1164
  {
    assert (y + 4800) / 4 == y / 4 + 1200;
    assert (y + 4800) / 100 == y / 100 + 48;
    assert (y + 4800) / 400 == y / 400 + 12;
  }

  /** The month term of the formula counts the days from March 1 to the
      first of the month: 59 or 60 days fewer than the table for March to
      December, and 306 days more for January and February, which belong
      to the shifted year before. */
  lemma ShiftedMonthDays(y: int, m: int)
    requires 0 <= m < 12
    ensures m >= 2 ==> (153 * (m - 2) + 2) / 5 + 59 + (if IsLeapYear(y) then 1 else 0)
                       == DaysBeforeMonth(y, m)
    ensures m < 2 ==> (153 * (m + 10) + 2) / 5 == DaysBeforeMonth(y, m) + 306
  {
  }

  /** The day count of the shifted year (March first, a = 1 for January and
      February, 0 otherwise) is the Julian Day Number. */
  lemma ShiftedYearCount(d: Date)
    requires 0 <= d.month < 12
    ensures var a := if d.month >= 2 then 0 else 1;
      d.day + (153 * (d.month + 12 * a - 2) + 2) / 5 + 365 * (d.year + 4800 - a)
        + LeapDaysThrough(d.year + 4800 - a) - 32045 == JulianDayNumber(d)
  {
    if d.month >= 2 {
      ShiftedCountMarchOn(d);
    } else {
      ShiftedCountJanuaryFebruary(d);
    }
  }

  /** March to December: the shifted year is the year itself plus 4800. */
  lemma ShiftedCountMarchOn(d: Date)
    requires 2 <= d.month < 12
    ensures d.day + (153 * (d.month - 2) + 2) / 5 + 365 * (d.year + 4800)
              + LeapDaysThrough(d.year + 4800) - 32045 == JulianDayNumber(d)
  {
    ShiftedMonthDays(d.year, d.month);
    LeapDaysShift(d.year);
    LeapDaysStep(d.year);
  }

  /** January and February: the shifted year is the year before plus 4800. */
  lemma ShiftedCountJanuaryFebruary(d: Date)
    requires 0 <= d.month < 2
    ensures d.day + (153 * (d.month + 10) + 2) / 5 + 365 * (d.year + 4799)
              + LeapDaysThrough(d.year + 4799) - 32045 == JulianDayNumber(d)
  {
    ShiftedMonthDays(d.year, d.month);
    LeapDaysShift(d.year - 1);
  }

  // ---------------------------------------------------------------------
  // The day count along the calendar

  /** January 1 of the next year comes a whole year length later. */
  lemma JdnYearStep(y: int)
    ensures JulianDayNumber(Date(y + 1, 0, 1)) == JulianDayNumber(Date(y, 0, 1)) + YearLength(y)
  {
    LeapDaysStep(y);
  }

  /** Consecutive calendar days have consecutive Julian Day Numbers. */
  lemma JdnNext(d: Date)
    requires Valid(d)
    ensures JulianDayNumber(Next(d)) == JulianDayNumber(d) + 1
  {
    if d.day == DaysInMonth(d.year, d.month) {
      if d.month < 11 {
        DaysBeforeMonthStep(d.year, d.month);
      } else {
        JdnYearStep(d.year);
        DaysBeforeMonthStep(d.year, 11);
        DaysBeforeMonthWhole(d.year);
      }
    }
  }

  /** Within one year the JDN orders dates as (month, day) does. */
  lemma JdnOrderWithinYear(d1: Date, d2: Date)
    requires Valid(d1) && Valid(d2) && d1.year == d2.year
    ensures JulianDayNumber(d1) < JulianDayNumber(d2)
        <==> d1.month < d2.month || (d1.month == d2.month && d1.day < d2.day)
  {
    if d1.month < d2.month {
      DaysBeforeMonthOrder(d1.year, d1.month, d2.month);
    } else if d2.month < d1.month {
      DaysBeforeMonthOrder(d1.year, d2.month, d1.month);
    }
  }

  /** Reference point of the formula: 1 January 2000 is JDN 2451545. */
  lemma JdnOfMillennium()
    ensures JulianDayNumber(Date(2000, 0, 1)) == 2451545
    ensures Weekday(Date(2000, 0, 1)) == 6
  {
  }

  /** The weekday advances by one, modulo 7, from one day to the next. */
  lemma WeekdayNext(d: Date)
    requires Valid(d)
    ensures Weekday(Next(d)) == (Weekday(d) + 1) % 7
  {
    JdnNext(d);
    ModSevenShift(JulianDayNumber(d) + 1, 1);
  }

  lemma ModSevenShift(j: int, p: int)
    ensures (j % 7 + p) % 7 == (j + p) % 7
  {
    assert j == 7 * (j / 7) + j % 7;
  }
}
