/** The small date helpers of the calendar: same-day comparison, day of the
    year and week number. They take a JavaScript Date, which carries a time
    of day besides the calendar date; it is modelled as a Moment. */
module DateHelpers {
  import opened Gregorian

  const MillisPerDay := 86400000

  /** A calendar date and the milliseconds elapsed since its local midnight. */
  datatype Moment = Moment(date: Date, millis: int)

  predicate ValidMoment(t: Moment) {
    Valid(t.date) && 0 <= t.millis < MillisPerDay
  }

  /** isSameDay: the year, month and day agree; the time of day is ignored. */
  function IsSameDay(a: Moment, b: Moment): (r: bool)
    ensures r <==> a.date == b.date
  {
    a.date.year == b.date.year && a.date.month == b.date.month && a.date.day == b.date.day
  }

  /** isSameDay is an equivalence relation. */
  lemma IsSameDayEquivalence(a: Moment, b: Moment, c: Moment)
    ensures IsSameDay(a, a)
    ensures IsSameDay(a, b) == IsSameDay(b, a)
    ensures IsSameDay(a, b) && IsSameDay(b, c) ==> IsSameDay(a, c)
  {
  }

  /** Subtracting a Date at local midnight from a Date: the difference in
      milliseconds (no daylight-saving shifts). */
  function MillisSince(t: Moment, from: Date): (ms: int)
    requires ValidMoment(t) && 0 <= from.month < 12
    ensures ms / MillisPerDay == JulianDayNumber(t.date) - JulianDayNumber(from)
    ensures ms % MillisPerDay == t.millis
  {
    (JulianDayNumber(t.date) - JulianDayNumber(from)) * MillisPerDay + t.millis
  }

  /** Math.ceil(a / b) for a positive divisor. */
  function CeilDiv(a: int, b: int): (q: int)
    requires b > 0
    ensures b * (q - 1) < a <= b * q
  {
    -((-a) / b)
  }

  /** The first of January of `y` is one day after the last of December of
      `y - 1`, and every date of `y` lies its day-of-year less one after it. */
  lemma YearAnchors(d: Date)
    requires Valid(d)
    ensures JulianDayNumber(Date(d.year, 0, 1)) == JulianDayNumber(Date(d.year - 1, 11, 31)) + 1
    ensures JulianDayNumber(d)
         == JulianDayNumber(Date(d.year, 0, 1)) + DaysBeforeMonth(d.year, d.month) + d.day - 1
    ensures 1 <= DaysBeforeMonth(d.year, d.month) + d.day <= YearLength(d.year)
  {
    JdnNext(Date(d.year - 1, 11, 31));
    DaysBeforeMonthStep(d.year, d.month);
    DaysBeforeMonthWhole(d.year);
    if d.month < 11 {
      DaysBeforeMonthOrder(d.year, d.month, 11);
      DaysBeforeMonthStep(d.year, 11);
    }
  }

  /** getDayOfYear: whole days since the day before January 1 (`new Date(y, 0, 0)`),
      rounded down, so that January 1 is day 1 whatever the time of day. */
  function DayOfYear(t: Moment): (n: int)
    requires ValidMoment(t) && ConstructorYear(t.date.year)
    ensures n == DaysBeforeMonth(t.date.year, t.date.month) + t.date.day
    ensures 1 <= n <= YearLength(t.date.year)
  {
    YearAnchors(t.date);
    var start := Date(t.date.year - 1, 11, 31);
    MillisSince(t, start) / MillisPerDay
  }

  /** January 1 is day 1 and December 31 is day 365 or 366. */
  lemma DayOfYearEnds(y: int, millis: int)
    requires ConstructorYear(y) && 0 <= millis < MillisPerDay
    ensures DayOfYear(Moment(Date(y, 0, 1), millis)) == 1
    ensures DayOfYear(Moment(Date(y, 11, 31), millis)) == YearLength(y)
  {
    DaysBeforeMonthWhole(y);
  }

  /** getWeekNumber on whole days: the days past January 1 plus the weekday of
      January 1 plus one, divided by 7 and rounded up. */
  function WeekNumber(d: Date): (w: int)
    requires Valid(d) && ConstructorYear(d.year)
    ensures 1 <= w <= 54
    ensures w == (DaysBeforeMonth(d.year, d.month) + d.day - 1 + Weekday(Date(d.year, 0, 1))) / 7 + 1
  {
    YearAnchors(d);
    var firstDayOfYear := Date(d.year, 0, 1);
    var pastDaysOfYear := JulianDayNumber(d) - JulianDayNumber(firstDayOfYear);
    CeilDiv(pastDaysOfYear + Weekday(firstDayOfYear) + 1, 7)
  }

  /** getWeekNumber as written: the past days are a fraction when the Date
      carries a time of day, and Math.ceil then rounds a Saturday after
      midnight up into the next week. */
  function WeekNumberAt(t: Moment): (w: int)
    requires ValidMoment(t) && ConstructorYear(t.date.year)
    ensures w == WeekNumber(t.date) + (if t.millis > 0 && Weekday(t.date) == 6 then 1 else 0)
  {
    YearAnchors(t.date);
    var firstDayOfYear := Date(t.date.year, 0, 1);
    var pastMillis := MillisSince(t, firstDayOfYear);
    // ceil((pastMillis / MillisPerDay + getDay() + 1) / 7), in exact arithmetic
    var w := CeilDiv(pastMillis + (Weekday(firstDayOfYear) + 1) * MillisPerDay, 7 * MillisPerDay);
    WeekNumberAtSteps(t, w);
    w
  }

  /** ceil(x / 7) for x = n + ms / MillisPerDay: a fraction of a day past a
      multiple of 7 rounds up into the next week. */
  lemma CeilOfFractionalDays(n: int, ms: int, w: int)
    requires 0 <= ms < MillisPerDay
    requires 7 * MillisPerDay * (w - 1) < n * MillisPerDay + ms <= 7 * MillisPerDay * w
    ensures w == (n - 1) / 7 + 1 + (if ms > 0 && (n - 1) % 7 == 6 then 1 else 0)
  {
    var q, r := n / 7, n % 7;
    assert n * MillisPerDay + ms == 7 * MillisPerDay * q + r * MillisPerDay + ms;
    if r == 0 && ms == 0 {
      assert w == q;
    } else {
      assert 7 * MillisPerDay * q < n * MillisPerDay + ms <= 7 * MillisPerDay * (q + 1);
      assert w == q + 1;
    }
  }

  /** The milliseconds of k whole days and ms more, with j days added, are
      n = k + j whole days and ms more. */
  lemma FractionalDays(a: int, k: int, j: int, ms: int, w: int)
    requires a == k * MillisPerDay + ms && 0 <= ms < MillisPerDay
    requires 7 * MillisPerDay * (w - 1) < a + j * MillisPerDay <= 7 * MillisPerDay * w
    ensures w == (k + j - 1) / 7 + 1 + (if ms > 0 && (k + j - 1) % 7 == 6 then 1 else 0)
  {
    assert a + j * MillisPerDay == (k + j) * MillisPerDay + ms;
    CeilOfFractionalDays(k + j, ms, w);
  }

  /** The whole-day week number and the weekday, in terms of the days k past
      January 1 and the weekday of January 1. */
  lemma WeekByDays(d: Date)
    requires Valid(d) && ConstructorYear(d.year)
    ensures
      var first := Date(d.year, 0, 1);
      var k := JulianDayNumber(d) - JulianDayNumber(first);
      WeekNumber(d) == (k + Weekday(first)) / 7 + 1 && Weekday(d) == (k + Weekday(first)) % 7
  {
    YearAnchors(d);
    WeekdayInYear(d);
  }

  lemma WeekNumberAtSteps(t: Moment, w: int)
    requires ValidMoment(t) && ConstructorYear(t.date.year)
    requires
      var first := Date(t.date.year, 0, 1);
      var a := MillisSince(t, first) + (Weekday(first) + 1) * MillisPerDay;
      7 * MillisPerDay * (w - 1) < a <= 7 * MillisPerDay * w
    ensures w == WeekNumber(t.date) + (if t.millis > 0 && Weekday(t.date) == 6 then 1 else 0)
  {
    var first := Date(t.date.year, 0, 1);
    var k := JulianDayNumber(t.date) - JulianDayNumber(first);
    WeekByDays(t.date);
    FractionalDays(MillisSince(t, first), k, Weekday(first) + 1, t.millis, w);
  }

  /** January 1 is in week 1. */
  lemma WeekNumberFirstDay(y: int)
    requires ConstructorYear(y)
    ensures WeekNumber(Date(y, 0, 1)) == 1
  {
  }

  /** The weekday of a date is that of January 1 moved on by the days past
      it. */
  lemma WeekdayInYear(d: Date)
    requires Valid(d)
    ensures Weekday(d)
         == (DaysBeforeMonth(d.year, d.month) + d.day - 1 + Weekday(Date(d.year, 0, 1))) % 7
  {
    var first := Date(d.year, 0, 1);
    ModSevenShift(JulianDayNumber(first) + 1, DaysBeforeMonth(d.year, d.month) + d.day - 1);
  }

  lemma DivSevenStep(n: int)
    ensures (n + 1) / 7 == n / 7 + (if (n + 1) % 7 == 0 then 1 else 0)
  {
  }

  /** From one day to the next in the same year, the week number goes up by
      one exactly when the new day is a Sunday. */
  lemma WeekNumberNext(d: Date)
    requires Valid(d) && ConstructorYear(d.year) && Next(d).year == d.year
    ensures WeekNumber(Next(d)) == WeekNumber(d) + (if Weekday(Next(d)) == 0 then 1 else 0)
  {
    var e := Next(d);
    var w0 := Weekday(Date(d.year, 0, 1));
    var n := DaysBeforeMonth(d.year, d.month) + d.day - 1 + w0;
    if e.month != d.month {
      DaysBeforeMonthStep(d.year, d.month);
    }
    assert DaysBeforeMonth(e.year, e.month) + e.day - 1 + w0 == n + 1;
    WeekdayInYear(e);
    DivSevenStep(n);
  }

  /** The rounding defect, on an input: 1 January 2000 was a Saturday, and at
      noon the as-written week number is 2 while the whole-day one is 1. */
  lemma WeekNumberAtNoonOfSaturdayNewYear()
    ensures WeekNumberAt(Moment(Date(2000, 0, 1), 43200000)) == 2
    ensures WeekNumber(Date(2000, 0, 1)) == 1
  {
    JdnOfMillennium();
  }
}
