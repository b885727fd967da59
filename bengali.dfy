/** Gregorian to Bengali dates by a fixed-rule form of the revised (1987)
    Bengali calendar: the Bengali New Year is Gregorian April 15 in Gregorian
    leap years and April 14 otherwise, the Bengali year is the Gregorian year
    less 593 from New Year on, and the year is divided by a constant table of
    five 31-day months followed by seven 30-day months. */
module Bengali {
  import opened Gregorian
  import opened Tables

  datatype Month = Boishakh | Joishtho | Asharh | Srabon | Bhadro | Ashwin
                 | Kartik | Ogrohayon | Poush | Magh | Falgun | Choitro

  datatype Season = Grishmo | Borsha | Shorot | Hemonto | Sheet | Boshonto

  /** The month-name table, indexed by month 0..11. */
  const MonthNames: seq<Month> :=
    [Boishakh, Joishtho, Asharh, Srabon, Bhadro, Ashwin,
     Kartik, Ogrohayon, Poush, Magh, Falgun, Choitro]

  /** The season table: two months to each season. */
  const Seasons: seq<Season> :=
    [Grishmo, Grishmo, Borsha, Borsha, Shorot, Shorot,
     Hemonto, Hemonto, Sheet, Sheet, Boshonto, Boshonto]

  const MonthLengths: seq<int> := [31, 31, 31, 31, 31, 30, 30, 30, 30, 30, 30, 30]

  /** Bengali year = Gregorian year - EraOffset from New Year on. */
  const EraOffset := 593

  datatype BengaliDate = BengaliDate(year: int, month: int, day: int, monthName: Month, season: Season)

  // ---------------------------------------------------------------------
  // The month table

  /** Days of the Bengali year before month m (m == 12: the whole year):
      five 31-day months, then 30-day months. */
  function DaysBefore(m: int): (n: int)
    requires 0 <= m <= 12
    ensures 0 <= n <= 365
  {
    if m <= 5 then 31 * m else 155 + 30 * (m - 5)
  }

  /** DaysBefore is the running total of the month-length table. */
  lemma {:induction false} DaysBeforeIsTableSum(m: int)
    requires 0 <= m <= 12
    ensures DaysBefore(m) == Total(MonthLengths[..m])
  {
    if m > 0 {
      DaysBeforeIsTableSum(m - 1);
      assert MonthLengths[..m][..m - 1] == MonthLengths[..m - 1];
    }
  }

  /** The table has twelve months of 30 or 31 days and totals 365 days. */
  lemma MonthTableTotal()
    ensures |MonthLengths| == 12
    ensures forall m :: 0 <= m < 12 ==> MonthLengths[m] == (if m < 5 then 31 else 30)
    ensures Total(MonthLengths) == 365
  {
    DaysBeforeIsTableSum(12);
    assert MonthLengths[..12] == MonthLengths;
  }

  /** Seasons change every two months: Grishmo for months 0-1, Sheet for 8-9. */
  lemma SeasonTable(m: int)
    requires 0 <= m < 12
    ensures Seasons[m] == [Grishmo, Borsha, Shorot, Hemonto, Sheet, Boshonto][m / 2]
    ensures m <= 1 ==> Seasons[m] == Grishmo
    ensures 8 <= m <= 9 ==> Seasons[m] == Sheet
  {
  }

  /** The month containing day p (1..365) of the Bengali year. */
  function MonthAt(p: int): (m: int)
    requires 1 <= p <= 365
    ensures 0 <= m < 12
    ensures DaysBefore(m) < p <= DaysBefore(m + 1)
  {
    var m := if p <= 155 then (p - 1) / 31 else 5 + (p - 156) / 30;
    m
  }

  /** A month whose span contains day p is the month MonthAt finds. */
  lemma MonthAtUnique(p: int, i: int)
    requires 1 <= p <= 365 && 0 <= i < 12
    requires DaysBefore(i) < p <= DaysBefore(i + 1)
    ensures MonthAt(p) == i
  {
    var m := MonthAt(p);
  }

  /** Day of the year of a (month, day) pair of the table. */
  lemma PositionBounds(m: int, d: int)
    requires 0 <= m < 12 && 1 <= d <= MonthLengths[m]
    ensures DaysBefore(m) < DaysBefore(m) + d <= DaysBefore(m + 1) <= 365
  {
  }

  lemma CongruentDaysOfYear(p1: int, p2: int)
    requires 1 <= p1 <= 365 && 1 <= p2 <= 365
    requires (p1 - p2) % 365 == 0
    ensures p1 == p2
  {
    var x := p1 - p2;
    assert x == 365 * (x / 365);
  }

  /** Distinct (month, day) pairs of the table lie on distinct days of the
      year. */
  lemma PositionInjective(m1: int, d1: int, m2: int, d2: int)
    requires 0 <= m1 < 12 && 1 <= d1 <= MonthLengths[m1]
    requires 0 <= m2 < 12 && 1 <= d2 <= MonthLengths[m2]
    requires DaysBefore(m1) + d1 == DaysBefore(m2) + d2
    ensures m1 == m2 && d1 == d2
  {
    var p := DaysBefore(m1) + d1;
    PositionBounds(m1, d1);
    PositionBounds(m2, d2);
    MonthAtUnique(p, m1);
    MonthAtUnique(p, m2);
  }

  /** A (month, day) pair of the table is fixed by its day of the year
      modulo 365. */
  lemma PositionDeterminesMonthDay(m1: int, d1: int, m2: int, d2: int)
    requires 0 <= m1 < 12 && 1 <= d1 <= MonthLengths[m1]
    requires 0 <= m2 < 12 && 1 <= d2 <= MonthLengths[m2]
    requires (DaysBefore(m1) + d1 - (DaysBefore(m2) + d2)) % 365 == 0
    ensures m1 == m2 && d1 == d2
  {
    var p1, p2 := DaysBefore(m1) + d1, DaysBefore(m2) + d2;
    PositionBounds(m1, d1);
    PositionBounds(m2, d2);
    CongruentDaysOfYear(p1, p2);
    PositionInjective(m1, d1, m2, d2);
  }

  // ---------------------------------------------------------------------
  // New Year and the days elapsed since it

  /** April day of the Bengali New Year in Gregorian year y. */
  function NewYearDay(y: int): (day: int)
    ensures day == 14 || day == 15
    ensures day == 15 <==> IsLeapYear(y)
  {
    if IsLeapYear(y) then 15 else 14
  }

  predicate IsNewYearDay(d: Date) {
    d.month == 3 && d.day == NewYearDay(d.year)
  }

  /** The month/day test that decides whether the year counts from the
      previous Gregorian year's New Year. It selects exactly the dates that
      compare below this year's New Year Date. */
  predicate BeforeNewYear(d: Date): (r: bool)
    requires Valid(d)
    ensures r <==> JulianDayNumber(d) < JulianDayNumber(Date(d.year, 3, NewYearDay(d.year)))
  {
    JdnOrderWithinYear(d, Date(d.year, 3, NewYearDay(d.year)));
    d.month < 3 || (d.month == 3 && d.day < NewYearDay(d.year))
  }

  /** The latest Bengali New Year on or before d. */
  function LatestNewYear(d: Date): (ny: Date)
    requires Valid(d)
    ensures ny.month == 3 && ny.day == NewYearDay(ny.year)
    ensures ny.year == if BeforeNewYear(d) then d.year - 1 else d.year
  {
    if BeforeNewYear(d) then Date(d.year - 1, 3, NewYearDay(d.year - 1))
    else Date(d.year, 3, NewYearDay(d.year))
  }

  /** Days from the latest New Year to d, counted on the Gregorian month
      tables: the rest of the previous year after its New Year, if any, and
      the days of this year up to d. */
  function ElapsedDays(d: Date): (n: int)
    requires Valid(d)
    ensures 0 <= n <= 366
  {
    var y := d.year;
    NoConsecutiveLeapYears(y);
    DayOfYearAroundApril(d);
    if BeforeNewYear(d)
    then YearLength(y - 1) - DaysBeforeMonth(y - 1, 3) - NewYearDay(y - 1)
         + DaysBeforeMonth(y, d.month) + d.day
    else DaysBeforeMonth(y, d.month) + d.day - DaysBeforeMonth(y, 3) - NewYearDay(y)
  }

  /** The day of the year of a date lies in 1..365 or 366, before April for
      months 0..2 and after April for months 4..11. */
  lemma DayOfYearAroundApril(d: Date)
    requires Valid(d)
    ensures 1 <= DaysBeforeMonth(d.year, d.month) + d.day <= YearLength(d.year)
    ensures d.month < 3 ==> DaysBeforeMonth(d.year, d.month) + d.day <= DaysBeforeMonth(d.year, 3)
    ensures d.month > 3 ==> DaysBeforeMonth(d.year, d.month) > DaysBeforeMonth(d.year, 3) + 29
  {
    var y, m := d.year, d.month;
    DaysBeforeMonthStep(y, m);
    DaysBeforeMonthWhole(y);
    if m < 3 {
      DaysBeforeMonthOrder(y, m, 3);
    } else if m > 3 {
      DaysBeforeMonthOrder(y, 3, m);
    }
    if m < 11 {
      DaysBeforeMonthOrder(y, m, 11);
      DaysBeforeMonthStep(y, 11);
    }
  }

  /** The Bengali year counts from the latest New Year. */
  function BanglaYear(d: Date): (y: int)
    requires Valid(d)
    ensures y == LatestNewYear(d).year - EraOffset
  {
    d.year - EraOffset - (if BeforeNewYear(d) then 1 else 0)
  }

  lemma NoConsecutiveLeapYears(y: int)
    ensures !(IsLeapYear(y) && IsLeapYear(y - 1))
  {
    if y % 4 == 0 {
      assert (y - 1) % 4 == 3;
      assert (y - 1) % 100 != 0 && (y - 1) % 400 != 0;
    }
  }

  /** The table count is the difference of Julian Day Numbers, that is, of
      the two dates. */
  lemma ElapsedDaysIsDateDifference(d: Date)
    requires Valid(d)
    ensures ElapsedDays(d) == JulianDayNumber(d) - JulianDayNumber(LatestNewYear(d))
  {
    if BeforeNewYear(d) {
      JdnYearStep(d.year - 1);
    }
  }

  /** The count of days since New Year lies in 0..366. It is 0 exactly on
      New Year's day, and it passes 364 only on April 13 (365) and April 14
      (366) of a Gregorian leap year, which lie before that year's April 15
      New Year and after the previous year's April 14 one. */
  lemma ElapsedDaysRange(d: Date)
    requires Valid(d)
    ensures 0 <= ElapsedDays(d) <= 366
    ensures ElapsedDays(d) == 0 <==> IsNewYearDay(d)
    ensures ElapsedDays(d) == 365 <==> IsLeapYear(d.year) && d.month == 3 && d.day == 13
    ensures ElapsedDays(d) == 366 <==> IsLeapYear(d.year) && d.month == 3 && d.day == 14
  {
    var y, m := d.year, d.month;
    var n := ElapsedDays(d);
    if BeforeNewYear(d) {
      NoConsecutiveLeapYears(y);
      assert n == 261 - (if IsLeapYear(y - 1) then 1 else 0) + DaysBeforeMonth(y, m) + d.day;
      if m < 3 {
        DaysBeforeMonthOrder(y, m, 3);
      }
    } else {
      assert n == DaysBeforeMonth(y, m) + d.day - DaysBeforeMonth(y, 3) - NewYearDay(y);
      if m > 3 {
        DaysBeforeMonthOrder(y, 3, m);
        DaysBeforeMonthStep(y, m);
        DaysBeforeMonthWhole(y);
        if m < 11 {
          DaysBeforeMonthOrder(y, m, 11);
          DaysBeforeMonthStep(y, 11);
        }
      }
    }
  }

  /** The latest New Year is on or before d, and the New Year after it is
      after d. */
  lemma LatestNewYearBrackets(d: Date)
    requires Valid(d)
    ensures var ny := LatestNewYear(d);
      JulianDayNumber(ny) <= JulianDayNumber(d)
      < JulianDayNumber(Date(ny.year + 1, 3, NewYearDay(ny.year + 1)))
  {
    ElapsedDaysIsDateDifference(d);
    var y := d.year;
    if !BeforeNewYear(d) {
      var last := Date(y, 11, 31);
      if d != last {
        JdnOrderWithinYear(d, last);
      }
      JdnNext(last);
      JdnOrderWithinYear(Date(y + 1, 0, 1), Date(y + 1, 3, NewYearDay(y + 1)));
    }
  }

  // ---------------------------------------------------------------------
  // The conversion

  /** Day of the Bengali year (1..365) reached by counting `n` days on from
      New Year's day taken as day 365 of the year before. */
  function YearPosition(n: int): (p: int)
    ensures 1 <= p <= 365
    ensures (p - n) % 365 == 0
  {
    (n + 364) % 365 + 1
  }

  lemma YearPositionValues(n: int)
    requires 0 <= n <= 366
    ensures YearPosition(n) == if n == 0 || n == 365 then 365 else if n == 366 then 1 else n
  {
  }

  /** The Bengali date of a Gregorian date, as gregorianToBangla computes it:
      the month and day are those of the day of the year congruent, modulo
      365, to the days elapsed since the latest New Year. */
  function BanglaOf(d: Date): (r: BengaliDate)
    requires Valid(d)
    ensures 0 <= r.month < 12 && 1 <= r.day <= MonthLengths[r.month]
    ensures DaysBefore(r.month) + r.day == YearPosition(ElapsedDays(d))
    ensures (DaysBefore(r.month) + r.day - ElapsedDays(d)) % 365 == 0
    ensures r.year == BanglaYear(d)
    ensures r.monthName == MonthNames[r.month] && r.season == Seasons[r.month]
  {
    var p := YearPosition(ElapsedDays(d));
    var m := MonthAt(p);
    BengaliDate(BanglaYear(d), m, p - DaysBefore(m), MonthNames[m], Seasons[m])
  }

  lemma CongruentToSame(p: int, q: int, n: int)
    requires (p - n) % 365 == 0 && (q - n) % 365 == 0
    ensures (p - q) % 365 == 0
  {
    var a, b := (p - n) / 365, (q - n) / 365;
    assert p - n == 365 * a;
    assert q - n == 365 * b;
    assert p - q == 365 * (a - b);
  }

  /** Two readings of the month table that both agree with n modulo 365 are
      the same reading. */
  lemma ReadingCharacterised(n: int, m1: int, d1: int, m2: int, d2: int)
    requires 0 <= m1 < 12 && 1 <= d1 <= MonthLengths[m1]
    requires 0 <= m2 < 12 && 1 <= d2 <= MonthLengths[m2]
    requires (DaysBefore(m1) + d1 - n) % 365 == 0 && (DaysBefore(m2) + d2 - n) % 365 == 0
    ensures m1 == m2 && d1 == d2
  {
    CongruentToSame(DaysBefore(m1) + d1, DaysBefore(m2) + d2, n);
    PositionDeterminesMonthDay(m1, d1, m2, d2);
  }

  /** BanglaOf is the only reading of the month table that agrees with the
      elapsed days modulo 365. */
  lemma BanglaOfCharacterised(d: Date, m: int, day: int)
    requires Valid(d) && 0 <= m < 12 && 1 <= day <= MonthLengths[m]
    requires (DaysBefore(m) + day - ElapsedDays(d)) % 365 == 0
    ensures BanglaOf(d).month == m && BanglaOf(d).day == day
  {
    var b := BanglaOf(d);
    ReadingCharacterised(ElapsedDays(d), b.month, b.day, m, day);
  }

  /** Where the table walk stops for `n` days, and the roll-back of a zero
      remainder, land on the day of the year that YearPosition gives. */
  lemma RolledBackReading(n: int, month: int, rem: int, finalMonth: int, finalDay: int)
    requires 0 <= n <= 366
    requires (month == 0 && 0 <= rem == n - 365)
          || (0 <= month < 12 && 0 <= rem < MonthLengths[month] && rem == n - DaysBefore(month))
    requires rem > 0 ==> finalMonth == month && finalDay == rem
    requires rem <= 0 ==>
      finalMonth == (if month == 0 then 11 else month - 1) && finalDay == MonthLengths[finalMonth]
    ensures 0 <= finalMonth < 12
    ensures finalMonth == MonthAt(YearPosition(n))
    ensures finalDay == YearPosition(n) - DaysBefore(finalMonth)
  {
    MonthTableTotal();
    YearPositionValues(n);
    assert DaysBefore(finalMonth) < YearPosition(n) <= DaysBefore(finalMonth + 1);
    MonthAtUnique(YearPosition(n), finalMonth);
  }

  lemma BanglaOfReading(d: Date, n: int, year: int, month: int, day: int)
    requires Valid(d) && n == ElapsedDays(d) && year == BanglaYear(d)
    requires 0 <= month < 12 && month == MonthAt(YearPosition(n))
    requires day == YearPosition(n) - DaysBefore(month)
    ensures BanglaOf(d) == BengaliDate(year, month, day, MonthNames[month], Seasons[month])
  {
  }

  /** The New Year anchor and the date difference of gregorianToBangla: the
      New Year Date of this Gregorian year, moved back a year in place when
      the date precedes it, subtracted from the date at midnight. */
  method DaysSinceNewYear(year: int, month: int, day: int) returns (daysSinceNewYear: int)
    requires Valid(Date(year, month, day)) && ConstructorYear(year)
    ensures daysSinceNewYear == ElapsedDays(Date(year, month, day))
  {
    var isLeapYear := IsLeapYear(year);
    var bengaliNewYearDate := if isLeapYear then 15 else 14;
    var bengaliNewYear := Date(year, 3, bengaliNewYearDate);
    var targetDate := Date(year, month, day);
    if JulianDayNumber(targetDate) < JulianDayNumber(bengaliNewYear) {
      var prevYearIsLeap := IsLeapYear(year - 1);
      var prevNewYearDate := if prevYearIsLeap then 15 else 14;
      bengaliNewYear := bengaliNewYear.(year := year - 1);
      bengaliNewYear := bengaliNewYear.(day := prevNewYearDate);
    }
    assert bengaliNewYear == LatestNewYear(targetDate);
    daysSinceNewYear := JulianDayNumber(targetDate) - JulianDayNumber(bengaliNewYear);
    ElapsedDaysIsDateDifference(targetDate);
  }

  /** gregorianToBangla: the year from the month/day test, the days since
      the latest New Year as a date difference, a walk down the month table,
      and the roll-back of a zero remainder to the last day of the month
      before. */
  method GregorianToBangla(date: Date) returns (r: BengaliDate)
    requires Valid(date) && ConstructorYear(date.year)
    ensures r == BanglaOf(date)
  {
    var year, month, day := date.year, date.month, date.day;
    var isLeapYear := IsLeapYear(year);

    var bengaliYear := year - EraOffset;
    if month < 3 || (month == 3 && day < (if isLeapYear then 15 else 14)) {
      bengaliYear := bengaliYear - 1;
    }

    var daysSinceNewYear := DaysSinceNewYear(year, month, day);
    ElapsedDaysRange(date);

    var bengaliMonth := 0;
    var remainingDays := daysSinceNewYear;
    for i := 0 to 12
      invariant remainingDays == daysSinceNewYear - DaysBefore(i)
      invariant remainingDays >= 0
      invariant bengaliMonth == 0
    {
      if remainingDays < MonthLengths[i] {
        bengaliMonth := i;
        break;
      }
      remainingDays := remainingDays - MonthLengths[i];
    }
    assert (bengaliMonth == 0 && 0 <= remainingDays == daysSinceNewYear - 365)
        || (0 <= bengaliMonth < 12 && remainingDays < MonthLengths[bengaliMonth]
            && remainingDays == daysSinceNewYear - DaysBefore(bengaliMonth));

    var bengaliDay := remainingDays;
    var finalDay, finalMonth := bengaliDay, bengaliMonth;
    if bengaliDay <= 0 {
      finalMonth := bengaliMonth - 1;
      if finalMonth < 0 {
        finalMonth := 11;
      }
      finalDay := MonthLengths[finalMonth];
    }
    RolledBackReading(daysSinceNewYear, bengaliMonth, remainingDays, finalMonth, finalDay);
    r := BengaliDate(bengaliYear, finalMonth, finalDay, MonthNames[finalMonth], Seasons[finalMonth]);
    BanglaOfReading(date, daysSinceNewYear, bengaliYear, finalMonth, finalDay);
  }

  // ---------------------------------------------------------------------
  // What the conversion does around New Year

  /** From New Year on the Bengali year is the Gregorian year less 593,
      before it the Gregorian year less 594. */
  lemma BanglaYearRule(d: Date)
    requires Valid(d)
    ensures BanglaOf(d).year == d.year - (if JulianDayNumber(d) < JulianDayNumber(Date(d.year, 3, NewYearDay(d.year))) then 594 else 593)
  {
  }

  /** The Bengali date of d is the table pair at d's day of the year. */
  lemma BanglaOfAtPosition(d: Date, m: int, day: int)
    requires Valid(d) && 0 <= m < 12 && 1 <= day <= MonthLengths[m]
    requires DaysBefore(m) + day == YearPosition(ElapsedDays(d))
    ensures BanglaOf(d) == BengaliDate(BanglaYear(d), m, day, MonthNames[m], Seasons[m])
  {
    var b := BanglaOf(d);
    PositionInjective(b.month, b.day, m, day);
  }

  /** New Year's day itself is reported as Choitro 30 of the new year. */
  lemma NewYearDayReading(y: int)
    ensures BanglaOf(Date(y, 3, NewYearDay(y))) == BengaliDate(y - 593, 11, 30, Choitro, Boshonto)
  {
    var d := Date(y, 3, NewYearDay(y));
    ElapsedDaysRange(d);
    YearPositionValues(0);
    BanglaOfAtPosition(d, 11, 30);
  }

  /** In a Gregorian leap year the walk runs off the table on April 13 and
      14 (365 and 366 days after the previous April 14): April 13 is
      Choitro 30 and April 14 Boishakh 1 of the old year, and the next day,
      New Year, is Choitro 30 again. */
  lemma LeapYearAprilFallThrough(y: int)
    requires IsLeapYear(y)
    ensures BanglaOf(Date(y, 3, 13)) == BengaliDate(y - 594, 11, 30, Choitro, Boshonto)
    ensures BanglaOf(Date(y, 3, 14)) == BengaliDate(y - 594, 0, 1, Boishakh, Grishmo)
  {
    var d13, d14 := Date(y, 3, 13), Date(y, 3, 14);
    ElapsedDaysRange(d13);
    ElapsedDaysRange(d14);
    YearPositionValues(365);
    YearPositionValues(366);
    BanglaOfAtPosition(d13, 11, 30);
    BanglaOfAtPosition(d14, 0, 1);
  }

  /** The New Year boundary of 2024, a Gregorian leap year: April 13 and
      14 close 1430 and April 15 opens 1431. */
  lemma NewYear2024()
    ensures BanglaOf(Date(2024, 3, 13)) == BengaliDate(1430, 11, 30, Choitro, Boshonto)
    ensures BanglaOf(Date(2024, 3, 14)) == BengaliDate(1430, 0, 1, Boishakh, Grishmo)
    ensures BanglaOf(Date(2024, 3, 15)) == BengaliDate(1431, 11, 30, Choitro, Boshonto)
  {
    assert IsLeapYear(2024);
    LeapYearAprilFallThrough(2024);
    NewYearDayReading(2024);
  }

  /** Between New Years the count of elapsed days goes up by one from one
      Gregorian day to the next, and the Bengali year stays. */
  lemma ElapsedDaysNext(d: Date)
    requires Valid(d) && !IsNewYearDay(Next(d))
    ensures ElapsedDays(Next(d)) == ElapsedDays(d) + 1
    ensures BanglaYear(Next(d)) == BanglaYear(d)
  {
    var e := Next(d);
    if e.month != d.month {
      DaysBeforeMonthStep(d.year, d.month);
      if e.year != d.year {
        DaysBeforeMonthWhole(d.year);
      }
    }
  }

  /** The (month, day) after (m, d) in the table, Choitro 30 wrapping to
      Boishakh 1, is one day of the year further on, modulo 365. */
  function TableNext(m: int, d: int): (r: (int, int))
    requires 0 <= m < 12 && 1 <= d <= MonthLengths[m]
    ensures 0 <= r.0 < 12 && 1 <= r.1 <= MonthLengths[r.0]
    ensures DaysBefore(r.0) + r.1 == (if m == 11 && d == 30 then 1 else DaysBefore(m) + d + 1)
  {
    if d < MonthLengths[m] then (m, d + 1) else ((m + 1) % 12, 1)
  }

  /** One more elapsed day is the next day of the year, 365 wrapping to 1. */
  lemma YearPositionNext(n: int)
    ensures YearPosition(n + 1) == if YearPosition(n) == 365 then 1 else YearPosition(n) + 1
  {
    var x := n + 364;
    assert x == 365 * (x / 365) + x % 365;
    if x % 365 == 364 {
      assert x + 1 == 365 * (x / 365 + 1);
    } else {
      assert x + 1 == 365 * (x / 365) + (x % 365 + 1);
    }
  }

  /** The table successor of the day at position YearPosition(n) is the day
      at position YearPosition(n + 1). */
  lemma TableSuccessor(n: int, m1: int, d1: int, m2: int, d2: int)
    requires 0 <= m1 < 12 && 1 <= d1 <= MonthLengths[m1]
    requires 0 <= m2 < 12 && 1 <= d2 <= MonthLengths[m2]
    requires DaysBefore(m1) + d1 == YearPosition(n)
    requires DaysBefore(m2) + d2 == YearPosition(n + 1)
    ensures (m2, d2) == TableNext(m1, d1)
  {
    YearPositionNext(n);
    var (m, d) := TableNext(m1, d1);
    PositionInjective(m2, d2, m, d);
  }

  /** Between New Years, consecutive Gregorian days give consecutive Bengali
      days: the day goes up by one, or, after a month's last day, the next
      month begins (Choitro wraps to Boishakh), and the year is unchanged. */
  lemma BanglaNextDay(d: Date)
    requires Valid(d) && !IsNewYearDay(Next(d))
    ensures BanglaOf(Next(d)).year == BanglaOf(d).year
    ensures var b, c := BanglaOf(d), BanglaOf(Next(d));
      (c.month, c.day) == TableNext(b.month, b.day)
  {
    var b, c := BanglaOf(d), BanglaOf(Next(d));
    ElapsedDaysNext(d);
    TableSuccessor(ElapsedDays(d), b.month, b.day, c.month, c.day);
  }

  /** On New Year's day the Bengali year goes up by one. */
  lemma BanglaYearTurns(d: Date)
    requires Valid(d) && IsNewYearDay(Next(d))
    ensures BanglaOf(Next(d)).year == BanglaOf(d).year + 1
  {
  }
}
