/** gregorianToHijri as written: the Julian Day Number of the date, a year
    estimated from the mean Hijri year of 10631/30 days, the start of that
    year by the same mean, and a walk down a table of alternating 30- and
    29-day months whose last month has 30 days in a long year. */
module Hijri {
  import opened Gregorian
  import opened Tables

  /** Julian Day Number of 1 Muharram 1 AH. */
  const IslamicEpoch := 1948440

  datatype HijriMonth =
    | Muharram | Safar | RabiAlAwwal | RabiAlThani | JumadaAlUla | JumadaAlAkhirah
    | Rajab | Shaban | Ramadan | Shawwal | DhuAlQadah | DhuAlHijjah

  /** The month-name table (kept twice in the calendar, in Arabic and in
      Bengali script, both indexed by the month). */
  const MonthNames: seq<HijriMonth> :=
    [Muharram, Safar, RabiAlAwwal, RabiAlThani, JumadaAlUla, JumadaAlAkhirah,
     Rajab, Shaban, Ramadan, Shawwal, DhuAlQadah, DhuAlHijjah]

  /** `month` is 0-based. */
  datatype HijriDate = HijriDate(year: int, month: int, day: int, monthName: HijriMonth)

  /** JavaScript's `%`: the remainder takes the sign of the dividend, so it
      agrees with the Euclidean one only on non-negative dividends. */
  function TruncRem(a: int, b: int): (r: int)
    requires b > 0
    ensures a >= 0 ==> r == a % b
    ensures a < 0 ==> -b < r <= 0
    ensures (a - r) % b == 0
  {
    MultipleMod(b, if a >= 0 then a / b else -((-a) / b));
    if a >= 0 then a % b else -((-a) % b)
  }

  /** A multiple of b leaves no remainder. */
  lemma MultipleMod(b: int, k: int)
    requires b > 0
    ensures (b * k) % b == 0
  {
    var q, m := (b * k) / b, (b * k) % b;
    assert m == b * (k - q);
    // m lies in 0..b-1, which no multiple b (k - q) other than 0 does
    if k - q >= 1 {
      assert false;
    } else if k - q <= -1 {
      assert false;
    }
  }

  /** The estimated year: whole mean years since the epoch, plus one. */
  function YearOf(jdn: int): (y: int)
    ensures 10631 * (y - 1) <= 30 * (jdn - IslamicEpoch) < 10631 * y
  {
    (jdn - IslamicEpoch) * 30 / 10631 + 1
  }

  /** The start of year y by the mean year, rounded down. */
  function YearStartOf(y: int): (s: int)
    ensures 10631 * (y - 1) - 29 <= 30 * (s - IslamicEpoch) <= 10631 * (y - 1)
  {
    (y - 1) * 10631 / 30 + IslamicEpoch
  }

  /** Days from the computed year start to the date (dayOfYear). */
  function YearOffset(jdn: int): (o: int)
    ensures 0 <= o <= 355
  {
    jdn - YearStartOf(YearOf(jdn))
  }

  /** The leap test on the year, with JavaScript's remainder. */
  predicate HasLongLastMonth(y: int): (r: bool)
    ensures y >= -1 ==> (r <==> (11 * y + 14) % 30 < 11)
    ensures y <= -2 ==> r
  {
    TruncRem(y * 11 + 14, 30) < 11
  }

  /** Days in the month table of year y: 354, or 355 with a long last month. */
  function TableLength(y: int): (n: int)
    ensures n == 354 || n == 355
    ensures n == 355 <==> HasLongLastMonth(y)
  {
    if HasLongLastMonth(y) then 355 else 354
  }

  /** Days of the table before month m (0..11): 30 and 29 alternate. */
  function MonthStart(m: int): (n: int)
    requires 0 <= m < 12
    ensures 0 <= n <= 325
  {
    29 * m + (m + 1) / 2
  }

  /** monthLengths after the leap adjustment. */
  function MonthTable(y: int): (t: seq<int>)
    ensures |t| == 12
    ensures forall i :: 0 <= i < 11 ==> t[i] == MonthStart(i + 1) - MonthStart(i)
    ensures t[11] == TableLength(y) - MonthStart(11)
  {
    [30, 29, 30, 29, 30, 29, 30, 29, 30, 29, 30, if HasLongLastMonth(y) then 30 else 29]
  }

  /** Days of the table before month i, the whole table for i == 12. */
  function Cum(y: int, i: int): int
    requires 0 <= i <= 12
  {
    if i == 12 then TableLength(y) else MonthStart(i)
  }

  /** The table alternates 30 and 29 days and only its last entry depends
      on the year; Cum is its running total, so it sums to 354 or 355. */
  lemma {:induction false} MonthTableSums(y: int, m: int)
    requires 0 <= m <= 12
    ensures Cum(y, m) == Total(MonthTable(y)[..m])
  {
    if m > 0 {
      MonthTableSums(y, m - 1);
      assert MonthTable(y)[..m][..m - 1] == MonthTable(y)[..m - 1];
    }
  }

  lemma MonthTableShape(y: int)
    ensures forall i :: 0 <= i < 11 ==> MonthTable(y)[i] == (if i % 2 == 0 then 30 else 29)
    ensures MonthTable(y)[11] == (if HasLongLastMonth(y) then 30 else 29)
    ensures Total(MonthTable(y)) == TableLength(y)
  {
    MonthTableSums(y, 12);
    assert MonthTable(y)[..12] == MonthTable(y);
  }

  /** The month walk from month i with `day` days left: it stops at the
      first month k whose length is at least what is left after the months
      i..k-1 and reports (k, what is left); when no month holds the rest it
      reports month 0 with what is left after the whole table. */
  function Walk(day: int, t: seq<int>, i: int): (r: (int, int))
    requires 0 <= i <= |t|
    ensures r.0 == 0 || i <= r.0 < |t|
    decreases |t| - i
  {
    if i == |t| then (0, day)
    else if day <= t[i] then (i, day)
    else Walk(day - t[i], t, i + 1)
  }

  /** The walk stops at the first month k from i on whose length is at
      least what is left of `day` after the months i..k-1, and reports that
      rest as the day; when no month holds it, the walk runs through the
      whole table and reports month 0 with what is left after it. Sums of
      the months before are prefix totals of the table. */
  lemma {:induction false} WalkStops(day: int, t: seq<int>, i: int)
    requires 0 <= i <= |t|
    ensures var r, left := Walk(day, t, i), day + Total(t[..i]);
      || (i <= r.0 < |t| && r.1 == left - Total(t[..r.0]) && r.1 <= t[r.0]
          && forall j :: i <= j < r.0 ==> left - Total(t[..j]) > t[j])
      || (r == (0, left - Total(t))
          && forall j :: i <= j < |t| ==> left - Total(t[..j]) > t[j])
    decreases |t| - i
  {
    if i == |t| {
      assert t[..i] == t;
    } else if day > t[i] {
      assert Walk(day, t, i) == Walk(day - t[i], t, i + 1);
      assert t[..i + 1][..i] == t[..i];
      assert day - t[i] + Total(t[..i + 1]) == day + Total(t[..i]);
      WalkStops(day - t[i], t, i + 1);
    }
  }

  /** The month holding table day o (1..355): the last month whose start
      lies before o. */
  function MonthOfOffset(o: int): (m: int)
    requires 1 <= o <= 355
    ensures 0 <= m < 12
    ensures MonthStart(m) < o
    ensures m < 11 ==> o <= MonthStart(m + 1)
  {
    var m := 2 * (o - 1) / 59;
    if m > 11 then 11 else m
  }

  /** The Hijri date gregorianToHijri reports for a Julian Day Number. */
  function HijriFromJdn(jdn: int): (h: HijriDate)
    ensures h.year == YearOf(jdn)
    ensures 0 <= h.month < 12 && h.monthName == MonthNames[h.month]
  {
    var y := YearOf(jdn);
    var (month, day) := Walk(YearOffset(jdn), MonthTable(y), 0);
    HijriDate(y, month, day, MonthNames[month])
  }

  // ---------------------------------------------------------------------
  // What the walk reads

  /** The walk's reading of offset o: day 0 of month 0 for offset 0, the
      table month and day for 1..TableLength, and month 0 with the excess
      past the table beyond it. */
  function ExpectedWalk(y: int, o: int): (r: (int, int))
    requires 0 <= o <= 355
  {
    if o == 0 then (0, 0)
    else if o <= TableLength(y) then (MonthOfOffset(o), o - MonthStart(MonthOfOffset(o)))
    else (0, o - TableLength(y))
  }

  lemma MonthOfOffsetUnique(o: int, i: int)
    requires 1 <= o <= 355 && 0 <= i < 12
    requires MonthStart(i) < o && (i < 11 ==> o <= MonthStart(i + 1))
    ensures MonthOfOffset(o) == i
  {
  }

  lemma {:induction false} WalkFrom(y: int, o: int, i: int)
    requires 0 <= i <= 12 && 0 <= o <= 355
    requires i > 0 ==> o > Cum(y, i)
    ensures Walk(o - Cum(y, i), MonthTable(y), i) == ExpectedWalk(y, o)
    decreases 12 - i
  {
    var t := MonthTable(y);
    if i < 12 {
      if o - Cum(y, i) <= t[i] {
        if o > 0 {
          MonthOfOffsetUnique(o, i);
        }
      } else {
        WalkFrom(y, o, i + 1);
      }
    }
  }

  /** What gregorianToHijri reports at each offset into the computed year. */
  lemma HijriReading(jdn: int)
    ensures var h, o, y := HijriFromJdn(jdn), YearOffset(jdn), YearOf(jdn);
      (h.month, h.day) == ExpectedWalk(y, o)
  {
    WalkFrom(YearOf(jdn), YearOffset(jdn), 0);
  }

  /** Inside the table the reading is a month of the table and a day within
      its length, and month start plus day is the offset. */
  lemma HijriReadingInTable(jdn: int)
    requires 1 <= YearOffset(jdn) <= TableLength(YearOf(jdn))
    ensures var h := HijriFromJdn(jdn);
      1 <= h.day <= MonthTable(h.year)[h.month] && MonthStart(h.month) + h.day == YearOffset(jdn)
  {
    HijriReading(jdn);
  }

  /** The reported day lies within the reported month's length; it is 0
      only at offset 0, and then the month is Muharram. */
  lemma HijriDayBounds(jdn: int)
    ensures var h := HijriFromJdn(jdn);
      0 <= h.day <= MonthTable(h.year)[h.month]
    ensures HijriFromJdn(jdn).day == 0 <==> YearOffset(jdn) == 0
    ensures HijriFromJdn(jdn).day == 0 ==> HijriFromJdn(jdn).month == 0
  {
    HijriReading(jdn);
  }

  /** The estimated year is at least 1 from the epoch on. */
  lemma HijriYearFromEpoch(jdn: int)
    requires jdn >= IslamicEpoch
    ensures HijriFromJdn(jdn).year >= 1
  {
  }

  /** The estimated year never decreases as the date advances. */
  lemma HijriYearMonotone(j1: int, j2: int)
    requires j1 <= j2
    ensures HijriFromJdn(j1).year <= HijriFromJdn(j2).year
  {
    var y1, y2 := YearOf(j1), YearOf(j2);
    assert 10631 * (y1 - 1) < 10631 * y2;
  }

  // ---------------------------------------------------------------------
  // Day 0 and the fall-through

  /** Offset 0 needs the mean-year multiple 10631 (y - 1) to be divisible
      by 30, and 30 is invertible modulo 10631 (30 * 6733 = 19 * 10631 + 1). */
  lemma OffsetZeroAtCycleStart(jdn: int)
    requires YearOffset(jdn) == 0
    ensures (jdn - IslamicEpoch) % 10631 == 0
  {
    var d, y := jdn - IslamicEpoch, YearOf(jdn);
    assert jdn == YearStartOf(y);
    assert 30 * d == 10631 * (y - 1);
    var k := 6733 * (y - 1) - 19 * d;
    assert d == 10631 * k;
    MultipleOfCycle(d, k);
  }

  lemma MultipleOfCycle(d: int, k: int)
    requires d == 10631 * k
    ensures d % 10631 == 0
  {
  }

  lemma CycleStartOffsetZero(jdn: int)
    requires (jdn - IslamicEpoch) % 10631 == 0
    ensures YearOf(jdn) == 30 * ((jdn - IslamicEpoch) / 10631) + 1
    ensures YearOffset(jdn) == 0
  {
    var k := (jdn - IslamicEpoch) / 10631;
    assert jdn - IslamicEpoch == 10631 * k;
    assert YearOf(jdn) == 30 * k + 1;
    assert YearStartOf(30 * k + 1) == 10631 * k + IslamicEpoch;
  }

  /** The year estimate and the year start are consistent only every 30
      years: the reported day is 0 exactly on the first day of each 30-year
      cycle of 10631 days from the epoch. */
  lemma HijriDayZeroIff(jdn: int)
    ensures HijriFromJdn(jdn).day == 0 <==> (jdn - IslamicEpoch) % 10631 == 0
  {
    HijriReading(jdn);
    if YearOffset(jdn) == 0 {
      OffsetZeroAtCycleStart(jdn);
    }
    if (jdn - IslamicEpoch) % 10631 == 0 {
      CycleStartOffsetZero(jdn);
    }
  }

  /** Every cycle start reads as day 0 of Muharram of year 30k + 1. */
  lemma HijriCycleStart(k: int)
    ensures HijriFromJdn(IslamicEpoch + 10631 * k) == HijriDate(30 * k + 1, 0, 0, Muharram)
  {
    var jdn := IslamicEpoch + 10631 * k;
    assert (jdn - IslamicEpoch) / 10631 == k;
    CycleStartOffsetZero(jdn);
    HijriReading(jdn);
  }

  /** The last day of a year whose table is one day short of the computed
      year runs off the table and reads as Muharram 1 of that year. */
  lemma HijriFallThrough(jdn: int)
    requires YearOffset(jdn) == 355 && !HasLongLastMonth(YearOf(jdn))
    ensures HijriFromJdn(jdn) == HijriDate(YearOf(jdn), 0, 1, Muharram)
  {
    HijriReading(jdn);
  }

  /** Julian Day Numbers of the example dates. */
  lemma ExampleDates()
    ensures JulianDayNumber(Date(2019, 7, 31)) == 2458727
    ensures JulianDayNumber(Date(2019, 8, 1)) == 2458728
    ensures JulianDayNumber(Date(2019, 8, 2)) == 2458729
    ensures JulianDayNumber(Date(2025, 5, 27)) == 2460854
    ensures JulianDayNumber(Date(2025, 5, 28)) == 2460855
  {
  }

  /** 1 September 2019 reads as day 0 of Muharram 1441, between 31 August
      (Dhu al-Hijjah 29, 1440) and 2 September (Muharram 1, 1441). */
  lemma HijriDayZeroExample()
    ensures HijriFromJdn(JulianDayNumber(Date(2019, 7, 31))) == HijriDate(1440, 11, 29, DhuAlHijjah)
    ensures HijriFromJdn(JulianDayNumber(Date(2019, 8, 1))) == HijriDate(1441, 0, 0, Muharram)
    ensures HijriFromJdn(JulianDayNumber(Date(2019, 8, 2))) == HijriDate(1441, 0, 1, Muharram)
  {
    ExampleDates();
    HijriCycleStart(48);
    HijriEndOfYearExample();
    assert YearOf(2458729) == 1441 && YearOffset(2458729) == 1;
    HijriReading(2458729);
  }

  lemma HijriEndOfYearExample()
    ensures HijriFromJdn(2458727) == HijriDate(1440, 11, 29, DhuAlHijjah)
  {
    assert YearOf(2458727) == 1440 && YearOffset(2458727) == 354;
    assert TableLength(1440) == 354 && MonthOfOffset(354) == 11;
    HijriReading(2458727);
  }

  /** Year 3 is the first whose last computed day runs off its table. */
  lemma HijriYearThreeFallThrough()
    ensures HijriFromJdn(1949503) == HijriDate(3, 0, 1, Muharram)
    ensures HijriFromJdn(1949504) == HijriDate(4, 0, 1, Muharram)
  {
    assert YearOf(1949503) == 3 && YearOffset(1949503) == 355;
    assert TableLength(3) == 354;
    HijriFallThrough(1949503);
    assert YearOf(1949504) == 4 && YearOffset(1949504) == 1;
    HijriReading(1949504);
  }

  /** 27 and 28 June 2025 both read as Muharram 1, of 1446 and of 1447. */
  lemma HijriMuharramTwiceExample()
    ensures HijriFromJdn(JulianDayNumber(Date(2025, 5, 27))) == HijriDate(1446, 0, 1, Muharram)
    ensures HijriFromJdn(JulianDayNumber(Date(2025, 5, 28))) == HijriDate(1447, 0, 1, Muharram)
  {
    ExampleDates();
    assert YearOf(2460854) == 1446 && YearOffset(2460854) == 355;
    assert TableLength(1446) == 354;
    HijriFallThrough(2460854);
    assert YearOf(2460855) == 1447 && YearOffset(2460855) == 1;
    HijriReading(2460855);
  }

  // ---------------------------------------------------------------------
  // The conversion

  /** The Julian Day Number step of gregorianToHijri, on the 1-based month
      (Math.floor is Dafny's division by a positive divisor). */
  method JulianDay(year: int, month: int, day: int) returns (jdn: int)
    requires 1 <= month <= 12
    ensures jdn == JulianDayNumber(Date(year, month - 1, day))
  {
    var a := (14 - month) / 12;
    var y := year + 4800 - a;
    var m := month + 12 * a - 3;
    jdn := day + (153 * m + 2) / 5 + 365 * y + y / 4 - y / 100 + y / 400 - 32045;
    assert jdn == JdnFormula(year, month, day);
  }

  /** gregorianToHijri: the JDN of the date on the 1-based month, the year
      estimate and year start, the month table with its last month
      lengthened in place, and the walk. */
  method GregorianToHijri(date: Date) returns (h: HijriDate)
    requires Valid(date)
    ensures h == HijriFromJdn(JulianDayNumber(date))
  {
    var year := date.year;
    var month := date.month + 1;
    var day := date.day;

    var jdn := JulianDay(year, month, day);

    var islamicEpoch := IslamicEpoch;
    var islamicDaysSinceEpoch := jdn - islamicEpoch;
    var islamicYear := islamicDaysSinceEpoch * 30 / 10631 + 1;
    var yearStart := (islamicYear - 1) * 10631 / 30 + islamicEpoch;
    var dayOfYear := jdn - yearStart;
    assert islamicYear == YearOf(jdn) && dayOfYear == YearOffset(jdn);

    var monthLengths := new int[12] [30, 29, 30, 29, 30, 29, 30, 29, 30, 29, 30, 29];
    if TruncRem(islamicYear * 11 + 14, 30) < 11 {
      monthLengths[11] := 30;
    }
    ghost var t := MonthTable(islamicYear);
    assert forall k :: 0 <= k < 12 ==> monthLengths[k] == t[k];

    var islamicMonth := 0;
    var islamicDay := dayOfYear;
    for i := 0 to 12
      invariant islamicMonth == 0
      invariant Walk(islamicDay, t, i) == Walk(dayOfYear, t, 0)
      modifies {}
    {
      if islamicDay <= monthLengths[i] {
        islamicMonth := i;
        break;
      }
      islamicDay := islamicDay - monthLengths[i];
    }
    assert (islamicMonth, islamicDay) == Walk(dayOfYear, t, 0);

    h := HijriDate(islamicYear, islamicMonth, islamicDay, MonthNames[islamicMonth]);
  }
}
