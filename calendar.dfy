/**
 * Proleptic Gregorian calendar arithmetic: the primitives the handlers obtain
 * from JavaScript's Date (days in a month, weekday of the first of a month)
 * and an absolute day number that stands for a local-midnight instant.
 * Months are 0-based (0 = January), as in JavaScript.
 */
module Calendar {

  datatype Date = Date(year: int, month: int, day: int)

  predicate IsLeapYear(y: int) {
    y % 4 == 0 && (y % 100 != 0 || y % 400 == 0)
  }

  /** The length of month m (0-based) of year y. */
  function DaysInMonth(y: int, m: int): (n: int)
    requires 0 <= m < 12
    ensures 28 <= n <= 31
    ensures n == 29 <==> m == 1 && IsLeapYear(y)
  {
    if m == 1 then (if IsLeapYear(y) then 29 else 28)
    else if m == 3 || m == 5 || m == 8 || m == 10 then 30
    else 31
  }

  predicate ValidDate(d: Date) {
    0 <= d.month < 12 && 1 <= d.day <= DaysInMonth(d.year, d.month)
  }

  /** Number of days of year y that precede month m, as a table of running totals. */
  function DaysBeforeMonth(y: int, m: int): int
    requires 0 <= m <= 12
  {
    var common := [0, 31, 59, 90, 120, 151, 181, 212, 243, 273, 304, 334, 365][m];
    if m >= 2 && IsLeapYear(y) then common + 1 else common
  }

  /** Reference definition: the lengths of the months before m, added one by one. */
  function SumOfMonthLengths(y: int, m: int): int
    requires 0 <= m <= 12
  {
    if m == 0 then 0 else SumOfMonthLengths(y, m - 1) + DaysInMonth(y, m - 1)
  }

  /** The running-total table agrees with adding up the month lengths. */
  lemma {:induction false} DaysBeforeMonthIsCumulative(y: int, m: int)
    requires 0 <= m <= 12
    ensures DaysBeforeMonth(y, m) == SumOfMonthLengths(y, m)
    ensures m < 12 ==> DaysBeforeMonth(y, m + 1) == DaysBeforeMonth(y, m) + DaysInMonth(y, m)
  {
    if m > 0 {
      DaysBeforeMonthIsCumulative(y, m - 1);
    }
  }

  /** Earlier months end no later than later months begin. */
  lemma DaysBeforeMonthMonotone(y: int, a: int, b: int)
    requires 0 <= a < b <= 12
    ensures DaysBeforeMonth(y, a) + DaysInMonth(y, a) <= DaysBeforeMonth(y, b)
  {
  }

  /** 1-based ordinal of d within its year: the lengths of the earlier months plus the day. */
  function DayOfYear(d: Date): int
    requires 0 <= d.month < 12
  {
    DaysBeforeMonth(d.year, d.month) + d.day
  }

  /** Days of years 1 .. y-1 of the proleptic Gregorian calendar (negative before year 1). */
  function DaysBeforeYear(y: int): int {
    365 * (y - 1) + (y - 1) / 4 - (y - 1) / 100 + (y - 1) / 400
  }

  /** Days elapsed since 1 January of year 1 (a Monday) at local midnight of d. */
  function DayNumber(d: Date): int
    requires ValidDate(d)
  {
    DaysBeforeYear(d.year) + DaysBeforeMonth(d.year, d.month) + d.day - 1
  }

  /** Day of the week of d: 0 = Sunday .. 6 = Saturday, as Date.getDay() gives it. */
  function Weekday(d: Date): (w: int)
    requires ValidDate(d)
    ensures 0 <= w < 7
  {
    (DayNumber(d) + 1) % 7
  }

  /** The first day of the month after month m of year y: the day that follows
      the DaysInMonth(y, m) days of month m. */
  function FirstOfNextMonth(y: int, m: int): (d: Date)
    requires 0 <= m < 12
    ensures ValidDate(d) && d.day == 1
    ensures DayNumber(d) == DayNumber(Date(y, m, 1)) + DaysInMonth(y, m)
  {
    DaysBeforeMonthIsCumulative(y, m);
    if m == 11 then
      YearLength(y);
      Date(y + 1, 0, 1)
    else
      Date(y, m + 1, 1)
  }

  lemma DivStep(a: int)
    ensures (a + 1) / 4 - a / 4 == (if (a + 1) % 4 == 0 then 1 else 0)
    ensures (a + 1) / 100 - a / 100 == (if (a + 1) % 100 == 0 then 1 else 0)
    ensures (a + 1) / 400 - a / 400 == (if (a + 1) % 400 == 0 then 1 else 0)
  {
  }

  lemma MultiplesNest(y: int)
    ensures y % 400 == 0 ==> y % 100 == 0
    ensures y % 100 == 0 ==> y % 4 == 0
  {
    var k, m := y / 400, y / 100;
    assert y == 400 * k + y % 400 && y == 100 * m + y % 100;
    if y % 400 == 0 {
      assert y == 100 * (4 * k);
      assert y % 100 == (100 * (4 * k)) % 100 == 0;
    }
    if y % 100 == 0 {
      assert y == 4 * (25 * m);
      assert y % 4 == (4 * (25 * m)) % 4 == 0;
    }
  }

  /** A year has 366 days exactly when it is a leap year: the day-number formula
      agrees with the month table. */
  lemma YearLength(y: int)
    ensures DaysBeforeYear(y + 1) - DaysBeforeYear(y) == DaysBeforeMonth(y, 12)
    ensures DaysBeforeMonth(y, 12) == (if IsLeapYear(y) then 366 else 365)
  {
    DivStep(y - 1);
    MultiplesNest(y);
  }

  lemma ModAdd7(a: int, b: int)
    ensures (a % 7 + b) % 7 == (a + b) % 7
  {
    var q := a / 7;
    assert a == 7 * q + a % 7;
    assert a + b == (a % 7 + b) + 7 * q;
  }

  /** `new Date(y, m + 1, 0)` is the last day of month m: the day after day
      DaysInMonth(y, m) is the first of the next month, and the weekday of that
      first follows from the weekday of this month's first. */
  lemma LastDayOfMonth(y: int, m: int)
    requires 0 <= m < 12
    ensures ValidDate(Date(y, m, DaysInMonth(y, m)))
    ensures DayNumber(Date(y, m, DaysInMonth(y, m))) + 1 == DayNumber(FirstOfNextMonth(y, m))
    ensures Weekday(FirstOfNextMonth(y, m)) == (Weekday(Date(y, m, 1)) + DaysInMonth(y, m)) % 7
  {
    var first, next := Date(y, m, 1), FirstOfNextMonth(y, m);
    ModAdd7(DayNumber(first) + 1, DaysInMonth(y, m));
  }
}
