/** The tabular Islamic calendar that gregorianToHijri's leap rule belongs
    to: years of 354 days, 355 when (11 y + 14) mod 30 < 11, so that year y
    starts 354 (y - 1) + floor((3 + 11 y) / 30) days after the epoch, and
    months of 30 and 29 days in turn, the last lengthened in long years.
    Every day has exactly one date, and no date has day 0. */
module TabularHijri {
  import opened Hijri

  /** The leap rule of the tabular calendar, on the Euclidean remainder. */
  predicate IsLongYear(y: int) {
    (11 * y + 14) % 30 < 11
  }

  /** From year -1 on, the converter's leap test with JavaScript's `%`
      is this rule; below that every year tests long there. */
  lemma LongYearRuleAgrees(y: int)
    ensures y >= -1 ==> (IsLongYear(y) <==> HasLongLastMonth(y))
    ensures y <= -2 ==> HasLongLastMonth(y)
  {
  }

  function DaysInYear(y: int): (n: int)
    ensures n == 354 || n == 355
    ensures n == 355 <==> IsLongYear(y)
  {
    if IsLongYear(y) then 355 else 354
  }

  /** Julian Day Number of 1 Muharram of year y. */
  function YearStart(y: int): int {
    IslamicEpoch + 354 * (y - 1) + (3 + 11 * y) / 30
  }

  function MonthLength(y: int, m: int): (n: int)
    requires 0 <= m < 12
    ensures n == 29 || n == 30
  {
    if m == 11 && IsLongYear(y) then 30 else if m % 2 == 0 then 30 else 29
  }

  predicate ValidTabular(h: HijriDate) {
    0 <= h.month < 12 && 1 <= h.day <= MonthLength(h.year, h.month)
    && h.monthName == MonthNames[h.month]
  }

  /** Adding 11 to a carries into the next multiple of 30 exactly when a's
      remainder is 19 or more. */
  lemma AddElevenByThirty(a: int)
    ensures (a + 11) / 30 == a / 30 + (if a % 30 >= 19 then 1 else 0)
    ensures (a + 11) % 30 < 11 <==> a % 30 >= 19
  {
    var q, r := a / 30, a % 30;
    assert a == 30 * q + r && 0 <= r < 30;
    if r >= 19 {
      assert a + 11 == 30 * (q + 1) + (r - 19);
    } else {
      assert a + 11 == 30 * q + (r + 11);
    }
  }

  /** Each year is as long as its leap rule says. */
  lemma YearStartStep(y: int)
    ensures YearStart(y + 1) == YearStart(y) + DaysInYear(y)
  {
    var a := 3 + 11 * y;
    AddElevenByThirty(a);
    assert 3 + 11 * (y + 1) == a + 11 == 11 * y + 14;
  }

  lemma YearStartIncreasing(y1: int, y2: int)
    requires y1 < y2
    ensures YearStart(y1 + 1) <= YearStart(y2)
  {
    assert (3 + 11 * (y1 + 1)) / 30 <= (3 + 11 * y2) / 30;
  }

  /** The year holding a Julian Day Number: whole mean years of 10631/30
      days, counted so that the estimate is never off. */
  function YearOfJdn(jdn: int): (y: int)
    ensures YearStart(y) <= jdn < YearStart(y + 1)
  {
    var y := (30 * (jdn - IslamicEpoch) + 10646) / 10631;
    assert 10631 * y <= 30 * (jdn - IslamicEpoch) + 10646 < 10631 * (y + 1);
    assert 30 * (YearStart(y) - IslamicEpoch) <= 10631 * y - 10617;
    assert 30 * (YearStart(y + 1) - IslamicEpoch) >= 10631 * (y + 1) - 10646;
    y
  }

  /** A day lies in one year only. */
  lemma YearOfJdnUnique(jdn: int, y: int)
    requires YearStart(y) <= jdn < YearStart(y + 1)
    ensures YearOfJdn(jdn) == y
  {
    var z := YearOfJdn(jdn);
    if z < y {
      YearStartIncreasing(z, y);
    } else if y < z {
      YearStartIncreasing(y, z);
    }
  }

  /** The tabular date of a Julian Day Number. */
  function TabularFromJdn(jdn: int): (h: HijriDate)
    ensures ValidTabular(h)
    ensures h.year == YearOfJdn(jdn)
  {
    var y := YearOfJdn(jdn);
    YearStartStep(y);
    var o := jdn - YearStart(y);
    var m := MonthOfOffset(o + 1);
    HijriDate(y, m, o + 1 - MonthStart(m), MonthNames[m])
  }

  /** Julian Day Number of a tabular date. */
  function JdnOfTabular(h: HijriDate): int
    requires 0 <= h.month < 12
  {
    YearStart(h.year) + MonthStart(h.month) + h.day - 1
  }

  /** Reading a day as a date and back gives the same day. */
  lemma TabularRoundTrip(jdn: int)
    ensures JdnOfTabular(TabularFromJdn(jdn)) == jdn
  {
  }

  /** The offset of a valid date into its year lies within the year and
      within the month's span of offsets. */
  lemma OffsetOfValidDate(h: HijriDate)
    requires ValidTabular(h)
    ensures 0 <= MonthStart(h.month) + h.day - 1 < DaysInYear(h.year)
    ensures h.month < 11 ==> MonthStart(h.month) + h.day <= MonthStart(h.month + 1)
  {
  }

  /** Every valid date is the date of its own day: dates and days are in
      one-to-one correspondence, so no date is skipped or repeated. */
  lemma TabularRoundTripDate(h: HijriDate)
    requires ValidTabular(h)
    ensures TabularFromJdn(JdnOfTabular(h)) == h
  {
    var jdn := JdnOfTabular(h);
    var o := MonthStart(h.month) + h.day - 1;
    OffsetOfValidDate(h);
    YearStartStep(h.year);
    YearOfJdnUnique(jdn, h.year);
    MonthOfOffsetUnique(o + 1, h.month);
    assert jdn - YearStart(h.year) == o;
  }

  /** Month m + 1 starts a month length after month m; the year ends a
      month length after month 11 starts. */
  lemma MonthStartStep(y: int, m: int)
    requires 0 <= m < 12
    ensures m < 11 ==> MonthStart(m + 1) == MonthStart(m) + MonthLength(y, m)
    ensures m == 11 ==> DaysInYear(y) == MonthStart(11) + MonthLength(y, 11)
  {
  }

  /** The calendar date after h. */
  function NextTabular(h: HijriDate): (r: HijriDate)
    requires ValidTabular(h)
    ensures ValidTabular(r)
  {
    if h.day < MonthLength(h.year, h.month) then h.(day := h.day + 1)
    else if h.month < 11 then HijriDate(h.year, h.month + 1, 1, MonthNames[h.month + 1])
    else HijriDate(h.year + 1, 0, 1, Muharram)
  }

  /** The date after h falls on the day after h's. */
  lemma NextTabularJdn(h: HijriDate)
    requires ValidTabular(h)
    ensures JdnOfTabular(NextTabular(h)) == JdnOfTabular(h) + 1
  {
    if h.day == MonthLength(h.year, h.month) {
      MonthStartStep(h.year, h.month);
      if h.month == 11 {
        YearStartStep(h.year);
      }
    }
  }

  /** Consecutive days give consecutive dates. */
  lemma TabularNextDay(jdn: int)
    ensures TabularFromJdn(jdn + 1) == NextTabular(TabularFromJdn(jdn))
  {
    var h := TabularFromJdn(jdn);
    TabularRoundTrip(jdn);
    NextTabularJdn(h);
    TabularRoundTripDate(NextTabular(h));
  }

  /** The epoch is 1 Muharram 1. */
  lemma TabularEpoch()
    ensures TabularFromJdn(IslamicEpoch) == HijriDate(1, 0, 1, Muharram)
  {
    var h := HijriDate(1, 0, 1, Muharram);
    assert JdnOfTabular(h) == IslamicEpoch;
    TabularRoundTripDate(h);
  }

  /** 1 Muharram of year y is the day its year starts, and 2 Muharram the
      day after. */
  lemma TabularNewYear(y: int)
    ensures TabularFromJdn(YearStart(y)) == HijriDate(y, 0, 1, Muharram)
    ensures TabularFromJdn(YearStart(y) + 1) == HijriDate(y, 0, 2, Muharram)
  {
    TabularRoundTripDate(HijriDate(y, 0, 1, Muharram));
    TabularRoundTripDate(HijriDate(y, 0, 2, Muharram));
  }

  /** 1 September 2019 (JDN 2458728), which gregorianToHijri reads as day 0,
      is 1 Muharram 1441. */
  lemma TabularNewYear1441()
    ensures TabularFromJdn(2458728) == HijriDate(1441, 0, 1, Muharram)
  {
    assert YearStart(1441) == 2458728;
    TabularNewYear(1441);
  }

  /** 27 June 2025 (JDN 2460854), which gregorianToHijri reads as 1 Muharram
      1446, is 1 Muharram 1447. */
  lemma TabularNewYear1447()
    ensures TabularFromJdn(2460854) == HijriDate(1447, 0, 1, Muharram)
  {
    assert YearStart(1447) == 2460854;
    TabularNewYear(1447);
  }

  /** 28 June 2025 (JDN 2460855), which gregorianToHijri reads as 1 Muharram
      1447 for the second day running, is 2 Muharram 1447. */
  lemma TabularSecondOfMuharram1447()
    ensures TabularFromJdn(2460855) == HijriDate(1447, 0, 2, Muharram)
  {
    assert YearStart(1447) + 1 == 2460855;
    TabularNewYear(1447);
  }
}
