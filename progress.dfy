/**
 * Year progress, computed identically by both handlers: the day-of-year of
 * today, the number of days of the year, the days left and the rounded
 * percentage of the year gone by.
 */
module Progress {
  import opened Calendar

  datatype YearProgress = YearProgress(dayOfYear: int, totalDays: int, daysLeft: int, percentage: int)

  /** `Math.round(d / t * 100)`: 100 d / t rounded half up. */
  function Percentage(d: int, t: int): (p: int)
    requires t > 0
    ensures 0 <= d <= t ==> 0 <= p <= 100
  {
    var p := (200 * d + t) / (2 * t);
    PercentageBounds(d, t, p);
    p
  }

  lemma PercentageBounds(d: int, t: int, p: int)
    requires t > 0 && p == (200 * d + t) / (2 * t)
    ensures 2 * t * p <= 200 * d + t < 2 * t * (p + 1)
    ensures 0 <= d <= t ==> 0 <= p <= 100
  {
    DivBracket(200 * d + t, 2 * t);
    assert 2 * t * (p + 1) == 2 * t * p + 2 * t;
    if 0 <= d <= t {
      FactorPositive(2 * t, p + 1);
      assert 2 * t * 101 == 202 * t;
      FactorLess(2 * t, p, 101);
    }
  }

  lemma DivBracket(n: int, q: int)
    requires q > 0
    ensures q * (n / q) <= n < q * (n / q) + q
  {
  }

  lemma FactorPositive(q: int, a: int)
    requires q > 0 && q * a > 0
    ensures a > 0
  {
  }

  lemma FactorLess(q: int, a: int, b: int)
    requires q > 0 && q * a < q * b
    ensures a < b
  {
    assert q * b - q * a == q * (b - a);
    FactorPositive(q, b - a);
  }

  /** The percentage is the integer nearest to 100 d / t, halves going up:
      p <= 100 d / t + 1/2 < p + 1. */
  lemma PercentageRoundsHalfUp(d: int, t: int)
    requires t > 0
    ensures 2 * t * Percentage(d, t) <= 200 * d + t < 2 * t * (Percentage(d, t) + 1)
  {
    PercentageBounds(d, t, Percentage(d, t));
  }

  /** Whole days from the first of January to `now`, plus one, and the same for
      the thirty-first of December; both instants taken at local midnight. */
  function ComputeProgress(now: Date): (p: YearProgress)
    requires ValidDate(now)
    ensures p.dayOfYear == DayOfYear(now)
    ensures p.totalDays == DaysBeforeMonth(now.year, 12)
    ensures p.totalDays == (if IsLeapYear(now.year) then 366 else 365)
    ensures 1 <= p.dayOfYear <= p.totalDays
    ensures p.dayOfYear + p.daysLeft == p.totalDays
    ensures p.percentage == Percentage(p.dayOfYear, p.totalDays)
    ensures 0 <= p.percentage <= 100
  {
    var startOfYear := Date(now.year, 0, 1);
    var endOfYear := Date(now.year, 11, 31);
    var dayOfYear := DayNumber(now) - DayNumber(startOfYear) + 1;
    var totalDays := DayNumber(endOfYear) - DayNumber(startOfYear) + 1;
    DaysBeforeMonthIsCumulative(now.year, now.month);
    DaysBeforeMonthMonotone(now.year, now.month, 12);
    YearLength(now.year);
    YearProgress(dayOfYear, totalDays, totalDays - dayOfYear, Percentage(dayOfYear, totalDays))
  }

  // ---- The elapsed-time day count, as the handlers compute it ----

  const MinutesPerDay := 1440

  /** An instant in minutes: local midnight of d plus minuteOfDay, taken back
      to absolute time with the zone's UTC offset in force (minutes east of UTC). */
  function Instant(d: Date, minuteOfDay: int, utcOffset: int): int
    requires ValidDate(d)
  {
    DayNumber(d) * MinutesPerDay + minuteOfDay - utcOffset
  }

  /** `Math.floor((now - startOfYear) / 86400000) + 1`: whole days of absolute
      time since local midnight of 1 January, plus one, where the offsets in
      force at the two instants may differ. */
  function ElapsedDayOfYear(now: Date, minuteOfDay: int, nowOffset: int, janOffset: int): int
    requires ValidDate(now)
  {
    (Instant(now, minuteOfDay, nowOffset) - Instant(Date(now.year, 0, 1), 0, janOffset)) / MinutesPerDay + 1
  }

  lemma DivOfMultiplePlus(k: int, r: int, q: int)
    requires q > 0 && 0 <= r < q
    ensures (k * q + r) / q == k
  {
    var j := (k * q + r) / q;
    DivBracket(k * q + r, q);
    assert q * (k + 1) == k * q + q && q * (j + 1) == q * j + q && q * k == k * q;
    FactorLess(q, j, k + 1);
    FactorLess(q, k, j + 1);
  }

  /** Elapsed days since local midnight of 1 January: the day of the year minus one. */
  lemma ElapsedSinceNewYear(now: Date, minuteOfDay: int, nowOffset: int, janOffset: int)
    requires ValidDate(now)
    ensures Instant(now, minuteOfDay, nowOffset) - Instant(Date(now.year, 0, 1), 0, janOffset)
         == (DayOfYear(now) - 1) * MinutesPerDay + minuteOfDay - (nowOffset - janOffset)
  {
    assert DayNumber(now) - DayNumber(Date(now.year, 0, 1)) == DayOfYear(now) - 1;
  }

  /** Where the offset has not changed since 1 January, the elapsed-time count is
      the calendar day of the year, whatever the time of day. */
  lemma ElapsedAgreesWithoutOffsetChange(now: Date, minuteOfDay: int, offset: int)
    requires ValidDate(now) && 0 <= minuteOfDay < MinutesPerDay
    ensures ElapsedDayOfYear(now, minuteOfDay, offset, offset) == DayOfYear(now)
  {
    ElapsedSinceNewYear(now, minuteOfDay, offset, offset);
    DivOfMultiplePlus(DayOfYear(now) - 1, minuteOfDay, MinutesPerDay);
  }

  /** Once the clocks have gone forward by `shift` minutes, the elapsed-time count
      falls one day short during the first `shift` minutes after midnight. */
  lemma DaylightSavingDrift(now: Date, minuteOfDay: int, nowOffset: int, janOffset: int)
    requires ValidDate(now) && 0 <= minuteOfDay < nowOffset - janOffset <= MinutesPerDay
    ensures ElapsedDayOfYear(now, minuteOfDay, nowOffset, janOffset) == DayOfYear(now) - 1
  {
    ElapsedSinceNewYear(now, minuteOfDay, nowOffset, janOffset);
    var r := MinutesPerDay + minuteOfDay - (nowOffset - janOffset);
    assert (DayOfYear(now) - 1) * MinutesPerDay + minuteOfDay - (nowOffset - janOffset)
        == (DayOfYear(now) - 2) * MinutesPerDay + r;
    DivOfMultiplePlus(DayOfYear(now) - 2, r, MinutesPerDay);
  }

  /** Once the clocks have gone back by `shift` minutes, the elapsed-time count
      runs one day ahead during the last `shift` minutes before midnight. */
  lemma DaylightSavingEndDrift(now: Date, minuteOfDay: int, nowOffset: int, janOffset: int)
    requires ValidDate(now) && 0 < janOffset - nowOffset <= MinutesPerDay
    requires MinutesPerDay - (janOffset - nowOffset) <= minuteOfDay < MinutesPerDay
    ensures ElapsedDayOfYear(now, minuteOfDay, nowOffset, janOffset) == DayOfYear(now) + 1
  {
    ElapsedSinceNewYear(now, minuteOfDay, nowOffset, janOffset);
    var r := minuteOfDay + (janOffset - nowOffset) - MinutesPerDay;
    assert (DayOfYear(now) - 1) * MinutesPerDay + minuteOfDay - (nowOffset - janOffset)
        == DayOfYear(now) * MinutesPerDay + r;
    DivOfMultiplePlus(DayOfYear(now), r, MinutesPerDay);
  }

  /** 23:30 on 10 June 2025 in a zone that moved from UTC+11 to UTC+10 in April:
      day 161 of the year, counted as day 162. */
  lemma FallBackExample()
    ensures DayOfYear(Date(2025, 5, 10)) == 161
    ensures ElapsedDayOfYear(Date(2025, 5, 10), 1410, 600, 660) == 162
  {
    DaylightSavingEndDrift(Date(2025, 5, 10), 1410, 600, 660);
  }

  /** 00:30 on 10 March 2025 in a zone that moved from UTC-5 to UTC-4 the day
      before: day 69 of the year, counted as day 68. */
  lemma SpringForwardExample()
    ensures DayOfYear(Date(2025, 2, 10)) == 69
    ensures ElapsedDayOfYear(Date(2025, 2, 10), 30, -240, -300) == 68
  {
    DaylightSavingDrift(Date(2025, 2, 10), 30, -240, -300);
  }

  /** 15 March 2024, a leap year: day 75 of 366, 291 days left, 20 %. */
  lemma MidMarchOfLeapYear()
    ensures ComputeProgress(Date(2024, 2, 15)) == YearProgress(75, 366, 291, 20)
    ensures Weekday(Date(2024, 2, 1)) == 5
  {
  }
}
