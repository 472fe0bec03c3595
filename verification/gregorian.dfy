/** Proleptic Gregorian calendar arithmetic: leap years, month lengths, day
    numbers counted from 1970-01-01, the inverse mapping from day numbers back
    to dates, and weekdays. Every date-valued getter of the client's `Date`
    objects is defined in terms of this module. */
module Gregorian {

  /** A calendar date. `month` runs 1..12 (January is 1), unlike the 0-based
      month index of the host `Date` API, which only appears in `JsDate`. */
  datatype Date = Date(year: int, month: int, day: int)

  /** The Gregorian leap-year rule (RFC 3339, Appendix C). */
  predicate IsLeapYear(y: int) {
    y % 4 == 0 && (y % 100 != 0 || y % 400 == 0)
  }

  /** Length of month `m` (1..12) of year `y`. */
  function DaysInMonth(y: int, m: int): int {
    if m == 2 then (if IsLeapYear(y) then 29 else 28)
    else if m == 4 || m == 6 || m == 9 || m == 11 then 30
    else 31
  }

  function DaysInYear(y: int): int {
    if IsLeapYear(y) then 366 else 365
  }

  predicate ValidDate(d: Date) {
    1 <= d.month <= 12 && 1 <= d.day <= DaysInMonth(d.year, d.month)
  }

  /** Strict chronological order on dates: by year, then month, then day. */
  predicate Before(a: Date, b: Date) {
    a.year < b.year
    || (a.year == b.year && (a.month < b.month || (a.month == b.month && a.day < b.day)))
  }

  /** Days from 1970-01-01 to January 1 of year `y` (negative before 1970). */
  function DaysBeforeYear(y: int): int
    decreases if y < 1970 then 1970 - y else y - 1970
  {
    if y == 1970 then 0
    else if y > 1970 then DaysBeforeYear(y - 1) + DaysInYear(y - 1)
    else DaysBeforeYear(y + 1) - DaysInYear(y)
  }

  /** Days from January 1 to the first of month `m` in year `y`; month 13
      stands for the end of the year. Out-of-range months are clamped. */
  function DaysBeforeMonth(y: int, m: int): int {
    var cumulative := [0, 31, 59, 90, 120, 151, 181, 212, 243, 273, 304, 334, 365];
    var k := if m < 1 then 1 else if m > 13 then 13 else m;
    cumulative[k - 1] + (if k > 2 && IsLeapYear(y) then 1 else 0)
  }

  /** Days since 1970-01-01 (the host's epoch day) of a date. */
  function DayNumber(d: Date): int {
    DaysBeforeYear(d.year) + DaysBeforeMonth(d.year, d.month) + d.day - 1
  }

  /** Day of the week, 0 = Sunday .. 6 = Saturday; 1970-01-01 was a Thursday. */
  function Weekday(d: Date): (w: int)
    ensures 0 <= w < 7
  {
    (DayNumber(d) + 4) % 7
  }

  lemma DaysBeforeNextYear(y: int)
    ensures DaysBeforeYear(y + 1) == DaysBeforeYear(y) + DaysInYear(y)
  {
  }

  /** Every whole year before `b` fits before January 1 of `b`. */
  lemma {:induction false} DaysBeforeYearMonotone(a: int, b: int)
    requires a < b
    ensures DaysBeforeYear(a) + DaysInYear(a) <= DaysBeforeYear(b)
    decreases b - a
  {
    DaysBeforeNextYear(a);
    if a + 1 < b {
      DaysBeforeYearMonotone(a + 1, b);
    }
  }

  lemma DaysBeforeNextMonth(y: int, m: int)
    requires 1 <= m <= 12
    ensures DaysBeforeMonth(y, m + 1) == DaysBeforeMonth(y, m) + DaysInMonth(y, m)
  {
  }

  /** A valid date lies inside its year. */
  lemma DayOfYearInRange(d: Date)
    requires ValidDate(d)
    ensures 0 <= DayNumber(d) - DaysBeforeYear(d.year) < DaysInYear(d.year)
  {
    DaysBeforeNextMonth(d.year, d.month);
  }

  /** The day number is strictly increasing in chronological order. */
  lemma DayNumberMonotone(a: Date, b: Date)
    requires ValidDate(a) && ValidDate(b)
    requires Before(a, b)
    ensures DayNumber(a) < DayNumber(b)
  {
    DayOfYearInRange(a);
    DayOfYearInRange(b);
    if a.year < b.year {
      DaysBeforeYearMonotone(a.year, b.year);
    } else if a.month < b.month {
      DaysBeforeNextMonth(a.year, a.month);
      assert DaysBeforeMonth(a.year, a.month + 1) <= DaysBeforeMonth(b.year, b.month);
    }
  }

  /** Chronological order and day-number order agree on valid dates. */
  lemma DayNumberOrder(a: Date, b: Date)
    requires ValidDate(a) && ValidDate(b)
    ensures Before(a, b) <==> DayNumber(a) < DayNumber(b)
    ensures a == b <==> DayNumber(a) == DayNumber(b)
  {
    if Before(a, b) {
      DayNumberMonotone(a, b);
    } else if Before(b, a) {
      DayNumberMonotone(b, a);
    }
  }

  /** The date of epoch day `n`, searching year by year from `y`. */
  function DateFromYear(n: int, y: int): (d: Date)
    ensures ValidDate(d)
    ensures DayNumber(d) == n
    decreases (if n < DaysBeforeYear(y) then DaysBeforeYear(y) - n else 0),
              (if n >= DaysBeforeYear(y + 1) then n - DaysBeforeYear(y) else 0)
  {
    DaysBeforeNextYear(y - 1);
    DaysBeforeNextYear(y);
    DaysBeforeNextYear(y + 1);
    if n < DaysBeforeYear(y) then DateFromYear(n, y - 1)
    else if n >= DaysBeforeYear(y + 1) then DateFromYear(n, y + 1)
    else
      var doy := n - DaysBeforeYear(y);
      var m := MonthSearch(y, doy, 1);
      DaysBeforeNextMonth(y, m);
      Date(y, m, doy - DaysBeforeMonth(y, m) + 1)
  }

  /** The month of year `y` holding day-of-year `doy`, searched upward from `m`. */
  function MonthSearch(y: int, doy: int, m: int): (r: int)
    requires 1 <= m <= 12
    requires DaysBeforeMonth(y, m) <= doy < DaysInYear(y)
    ensures m <= r <= 12
    ensures DaysBeforeMonth(y, r) <= doy < DaysBeforeMonth(y, r + 1)
    decreases 12 - m
  {
    if doy < DaysBeforeMonth(y, m + 1) then m else MonthSearch(y, doy, m + 1)
  }

  /** The date of epoch day `n`: a valid date whose day number is `n`. */
  function DateOfDay(n: int): (d: Date)
    ensures ValidDate(d)
    ensures DayNumber(d) == n
  {
    DateFromYear(n, 1970)
  }

  /** Round trip the other way: a valid date is recovered from its day number. */
  lemma DateOfDayNumber(d: Date)
    requires ValidDate(d)
    ensures DateOfDay(DayNumber(d)) == d
  {
    DayNumberOrder(d, DateOfDay(DayNumber(d)));
  }

  /** The first day of the month after (y, m), with December wrapping. */
  function MonthAfter(y: int, m: int): (d: Date)
    requires 1 <= m <= 12
    ensures ValidDate(d) && d.day == 1
    ensures DayNumber(d) == DayNumber(Date(y, m, 1)) + DaysInMonth(y, m)
  {
    DaysBeforeNextMonth(y, m);
    DaysBeforeNextYear(y);
    if m == 12 then Date(y + 1, 1, 1) else Date(y, m + 1, 1)
  }

  /** The first day of the month before (y, m), with January wrapping. */
  function MonthBefore(y: int, m: int): (d: Date)
    requires 1 <= m <= 12
    ensures ValidDate(d) && d.day == 1
    ensures DayNumber(d) + DaysInMonth(d.year, d.month) == DayNumber(Date(y, m, 1))
  {
    var p := if m == 1 then Date(y - 1, 12, 1) else Date(y, m - 1, 1);
    DaysBeforeNextMonth(p.year, p.month);
    DaysBeforeNextYear(p.year);
    p
  }

  /** A valid date belongs to month (y, m) exactly when its day number falls
      in that month's span of day numbers. */
  lemma InMonthIffInSpan(d: Date, y: int, m: int)
    requires ValidDate(d) && 1 <= m <= 12
    ensures (d.year == y && d.month == m)
        <==> DayNumber(Date(y, m, 1)) <= DayNumber(d) < DayNumber(Date(y, m, 1)) + DaysInMonth(y, m)
  {
    var first := Date(y, m, 1);
    var next := MonthAfter(y, m);
    if Before(d, first) {
      DayNumberMonotone(d, first);
    } else if Before(d, next) {
      assert d.year == y && d.month == m;
    } else {
      DayNumberOrder(next, d);
    }
  }
}
