/** `SpaceDetailComponent`: the hourly occupancy check and the one-week
    window of reservations it requests. The clock read by `new Date()` is
    the parameter `now`. */
module SpaceDetail {
  import opened Gregorian
  import opened Text
  import opened JsDate
  import opened Models
  import opened Seqs

  /** `checkDate` in `isReserved(date, hour)`: the date's day at `hour:00:00.000`. */
  function Probe(date: int, hour: int): int {
    SetHours(date, hour)
  }

  /** A reservation occupies an instant from its start (inclusive) to its
      end (exclusive). */
  predicate Occupies(r: Reservation, probe: int) {
    r.start <= probe < r.end
  }

  function OccupiesTest(probe: int): Reservation -> bool {
    r => Occupies(r, probe)
  }

  /** `isReserved(date, hour)`. */
  predicate IsReserved(rs: seq<Reservation>, date: int, hour: int) {
    AnyMatch(rs, OccupiesTest(Probe(date, hour)))
  }

  /** For an hour of the day, the probe lies on the same calendar day at
      exactly `hour:00:00.000`. */
  lemma ProbeIsOnTheHour(date: int, hour: int)
    requires 0 <= hour < 24
    ensures DateOf(Probe(date, hour)) == DateOf(date)
    ensures HoursOf(Probe(date, hour)) == hour
    ensures MinutesOf(Probe(date, hour)) == 0
    ensures SecondsOf(Probe(date, hour)) == 0 && MillisOf(Probe(date, hour)) == 0
  {
    SetHoursFields(date, hour);
  }

  /** An hour is reserved iff some reservation's half-open span holds the probe. */
  lemma IsReservedIff(rs: seq<Reservation>, date: int, hour: int)
    ensures IsReserved(rs, date, hour)
            <==> exists i :: 0 <= i < |rs| && rs[i].start <= Probe(date, hour) < rs[i].end
  {
    AnyMatchIff(rs, OccupiesTest(Probe(date, hour)));
  }

  /** Without reservations no hour is reserved. */
  lemma NothingReservedWhenEmpty(date: int, hour: int)
    ensures !IsReserved([], date, hour)
  {
  }

  /** Reservations whose end is not after their start never reserve an hour. */
  lemma InvertedNeverReserve(rs: seq<Reservation>, date: int, hour: int)
    requires forall i :: 0 <= i < |rs| ==> rs[i].end <= rs[i].start
    ensures !IsReserved(rs, date, hour)
  {
    IsReservedIff(rs, date, hour);
  }

  /** Adding reservations, anywhere in the list, never frees a reserved hour. */
  lemma IsReservedMonotone(rs: seq<Reservation>, more: seq<Reservation>, date: int, hour: int)
    requires multiset(rs) <= multiset(more)
    requires IsReserved(rs, date, hour)
    ensures IsReserved(more, date, hour)
  {
    IsReservedIff(rs, date, hour);
    IsReservedIff(more, date, hour);
    var i :| 0 <= i < |rs| && rs[i].start <= Probe(date, hour) < rs[i].end;
    assert rs[i] in multiset(rs);
    assert rs[i] in more;
    var j :| 0 <= j < |more| && more[j] == rs[i];
  }

  /** A booking ending exactly at `hour:00` leaves that hour free, and one
      starting exactly then occupies it. */
  lemma HourBoundaries(r: Reservation, date: int, hour: int)
    ensures r.end == Probe(date, hour) ==> !IsReserved([r], date, hour)
    ensures r.start == Probe(date, hour) < r.end ==> IsReserved([r], date, hour)
  {
    IsReservedIff([r], date, hour);
    assert [r][0] == r;
  }

  /** `nextWeek` in `loadReservations`: `now` with its day of the month
      advanced by seven. */
  function NextWeek(now: int): int {
    SetDate(now, DateOf(now).day + 7)
  }

  /** The `(startDate, endDate)` pair sent to the calendar query: the ISO
      date keys of today and of `nextWeek`. */
  function QueryWindow(now: int): (string, string) {
    (IsoDateKey(now), IsoDateKey(NextWeek(now)))
  }

  /** `nextWeek` is exactly seven days later, at the same time of day. */
  lemma NextWeekIsSevenDaysLater(now: int)
    ensures NextWeek(now) == now + 7 * 86400000
    ensures DayOf(NextWeek(now)) == DayOf(now) + 7
    ensures TimeWithinDay(NextWeek(now)) == TimeWithinDay(now)
  {
    SetDateShifts(now, DateOf(now).day + 7);
    InstantSplit(DayOf(now) + 7, TimeWithinDay(now));
  }

  /** The window ends on the date seven days after today's. */
  lemma QueryWindowDates(now: int)
    ensures QueryWindow(now).0 == DateKey(DateOf(now))
    ensures QueryWindow(now).1 == DateKey(DateOf(NextWeek(now)))
    ensures DayNumber(DateOf(NextWeek(now))) == DayNumber(DateOf(now)) + 7
  {
    IsoDateKeyIsDateKey(now);
    IsoDateKeyIsDateKey(NextWeek(now));
    NextWeekIsSevenDaysLater(now);
  }

  /** Within the month: the end date is today's day plus seven. */
  lemma QueryWindowSameMonth(now: int)
    requires DateOf(now).day + 7 <= DaysInMonth(DateOf(now).year, DateOf(now).month)
    ensures DateOf(NextWeek(now)) == Date(DateOf(now).year, DateOf(now).month, DateOf(now).day + 7)
  {
    var d := DateOf(now);
    var c := Date(d.year, d.month, d.day + 7);
    QueryWindowDates(now);
    assert DayNumber(c) == DayNumber(d) + 7;
    DateOfDayNumber(c);
    DateOfDayNumber(DateOf(NextWeek(now)));
  }

  /** Across a month end the end date rolls into the next month (and, from
      December, into January of the next year). */
  lemma QueryWindowRollsOver(now: int)
    requires DateOf(now).day + 7 > DaysInMonth(DateOf(now).year, DateOf(now).month)
    ensures var d := DateOf(now);
            var next := MonthAfter(d.year, d.month);
            DateOf(NextWeek(now)) == Date(next.year, next.month, d.day + 7 - DaysInMonth(d.year, d.month))
  {
    NextWeekIsSevenDaysLater(now);
    assert DateOf(NextWeek(now)) == DateOfDay(DayNumber(DateOf(now)) + 7);
    RollIntoNextMonth(DateOf(now), 7);
  }

  /** Adding `k` days (at most 28) past the end of a date's month lands on
      day `day + k - DaysInMonth` of the following month. */
  lemma RollIntoNextMonth(d: Date, k: int)
    requires ValidDate(d) && 0 < k <= 28 && d.day + k > DaysInMonth(d.year, d.month)
    ensures var next := MonthAfter(d.year, d.month);
            DateOfDay(DayNumber(d) + k) == Date(next.year, next.month, d.day + k - DaysInMonth(d.year, d.month))
  {
    var next := MonthAfter(d.year, d.month);
    var c := Date(next.year, next.month, d.day + k - DaysInMonth(d.year, d.month));
    assert ValidDate(c);
    assert DayNumber(c) == DayNumber(next) + c.day - 1;
    DateOfDayNumber(c);
  }

  /** From December 25 on, the window ends in January of the next year. */
  lemma QueryWindowNewYear(now: int)
    requires DateOf(now).month == 12 && DateOf(now).day >= 25
    ensures DateOf(NextWeek(now)) == Date(DateOf(now).year + 1, 1, DateOf(now).day - 24)
  {
    QueryWindowRollsOver(now);
  }

  /** For four-digit years the window's start key sorts strictly before its
      end key, so the window is never empty or reversed. */
  lemma QueryWindowOrdered(now: int)
    requires 0 <= DateOf(now).year && DateOf(NextWeek(now)).year <= 9999
    ensures LexLess(QueryWindow(now).0, QueryWindow(now).1)
  {
    QueryWindowDates(now);
    var a, b := DateOf(now), DateOf(NextWeek(now));
    DayNumberOrder(a, b);
    assert a.year <= b.year;
    DateKeyDayOrder(a, b);
  }
}
