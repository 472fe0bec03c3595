/** The month calendar of `CalendarViewComponent`: the 6x7 grid of days
    shown for the displayed month, the reservations attached to each day,
    the `isToday` marker and month navigation. The displayed month comes
    from the instant `currentDate`; the wall clock is the parameter `today`. */
module CalendarView {
  import opened Gregorian
  import opened Text
  import opened JsDate
  import opened Models
  import opened Seqs

  /** One grid cell. `date` stands for local midnight of that calendar day. */
  datatype CalendarDay = CalendarDay(
    date: Date,
    isCurrentMonth: bool,
    isToday: bool,
    reservations: seq<Reservation>)

  /** `isToday(date)`: day, month and year agree with the wall clock. */
  predicate IsToday(date: Date, today: int) {
    var now := DateOf(today);
    date.day == now.day && date.month == now.month && date.year == now.year
  }

  /** A date is "today" exactly when it is the wall clock's epoch day. */
  lemma IsTodayIff(date: Date, today: int)
    requires ValidDate(date)
    ensures IsToday(date, today) <==> DayNumber(date) == DayOf(today)
  {
    DayNumberOrder(date, DateOf(today));
  }

  /** The filter test of `getReservationsForDate`: `dateStr >= startDate &&
      dateStr <= endDate` on `YYYY-MM-DD` keys, where `a >= b` on strings is
      `!(a < b)`. */
  predicate CoversKey(r: Reservation, key: string) {
    !LexLess(key, IsoDateKey(r.start)) && !LexLess(IsoDateKey(r.end), key)
  }

  function CoversKeyTest(key: string): Reservation -> bool {
    r => CoversKey(r, key)
  }

  /** The day key of a grid date: `date.toISOString().split('T')[0]`. */
  function DayKey(date: Date): string {
    IsoDateKey(StartOfDay(date))
  }

  /** `getReservationsForDate(date)`. */
  function ReservationsForDate(date: Date, rs: seq<Reservation>): seq<Reservation> {
    Filter(rs, CoversKeyTest(DayKey(date)))
  }

  /** All instants involved have four-digit years, so their day keys are
      plain `YYYY-MM-DD` strings. */
  predicate FourDigitDays(date: Date, r: Reservation) {
    0 <= date.year <= 9999 && 0 <= DateOf(r.start).year <= 9999 && 0 <= DateOf(r.end).year <= 9999
  }

  /** The string comparison is the inclusive day-span test: a reservation
      covers a date iff its start day <= that date <= its end day. */
  lemma CoversKeyIff(date: Date, r: Reservation)
    requires ValidDate(date) && FourDigitDays(date, r)
    ensures CoversKey(r, DayKey(date)) <==> DayOf(r.start) <= DayNumber(date) <= DayOf(r.end)
  {
    StartOfDayFields(date);
    IsoDateKeyIsDateKey(StartOfDay(date));
    IsoDateKeyIsDateKey(r.start);
    IsoDateKeyIsDateKey(r.end);
    DateKeyDayOrder(date, DateOf(r.start));
    DateKeyDayOrder(DateOf(r.end), date);
  }

  /** `getReservationsForDate` keeps exactly the reservations whose inclusive
      day span contains the date. */
  lemma ReservationsForDateMembers(date: Date, rs: seq<Reservation>, r: Reservation)
    requires ValidDate(date) && FourDigitDays(date, r)
    ensures r in ReservationsForDate(date, rs)
            <==> r in rs && DayOf(r.start) <= DayNumber(date) <= DayOf(r.end)
  {
    FilterMembers(rs, CoversKeyTest(DayKey(date)), r);
    CoversKeyIff(date, r);
  }

  /** The result keeps the input's order and every occurrence of a covering
      reservation. */
  lemma ReservationsForDateOrder(date: Date, rs: seq<Reservation>, r: Reservation)
    ensures IsSubsequence(ReservationsForDate(date, rs), rs)
    ensures multiset(ReservationsForDate(date, rs))[r]
            == if CoversKey(r, DayKey(date)) then multiset(rs)[r] else 0
  {
    FilterSubsequence(rs, CoversKeyTest(DayKey(date)));
    FilterCount(rs, CoversKeyTest(DayKey(date)), r);
  }

  /** A reservation that starts and ends on the same day shows on that day only. */
  lemma SingleDayReservation(date: Date, r: Reservation)
    requires ValidDate(date) && FourDigitDays(date, r)
    requires DayOf(r.start) == DayOf(r.end)
    ensures CoversKey(r, DayKey(date)) <==> DayNumber(date) == DayOf(r.start)
  {
    CoversKeyIff(date, r);
  }

  /** A reservation whose end day precedes its start day shows on no day. */
  lemma InvertedReservation(date: Date, r: Reservation)
    requires ValidDate(date) && FourDigitDays(date, r)
    requires DayOf(r.end) < DayOf(r.start)
    ensures !CoversKey(r, DayKey(date))
  {
    CoversKeyIff(date, r);
  }

  /* The day arithmetic behind the `new Date(year, month + k, day)` calls,
     for the 1-based month `m` (0-based index `m - 1`). */

  /** Month index `m - 2` starts on the first of the previous month. */
  lemma PrevMonthStart(y: int, m: int)
    requires 1 <= m <= 12
    ensures MakeDay(y, m - 2, 1) == DayNumber(MonthBefore(y, m))
  {
    assert Date(y + (m - 2) / 12, (m - 2) % 12 + 1, 1) == MonthBefore(y, m);
  }

  /** Month index `m - 1` starts on the first of month `m`. */
  lemma ThisMonthStart(y: int, m: int)
    requires 1 <= m <= 12
    ensures MakeDay(y, m - 1, 1) == DayNumber(Date(y, m, 1))
  {
  }

  /** Month index `m` starts on the first of the next month. */
  lemma NextMonthStart(y: int, m: int)
    requires 1 <= m <= 12
    ensures MakeDay(y, m, 1) == DayNumber(MonthAfter(y, m))
  {
    assert Date(y + m / 12, m % 12 + 1, 1) == MonthAfter(y, m);
  }

  /** `new Date(y, m - 1, 1)` is the first of month `m`. */
  lemma FirstOfIndex(y: int, m: int)
    requires 1 <= m <= 12
    ensures MakeDate(y, m - 1, 1) == Date(y, m, 1)
  {
    ThisMonthStart(y, m);
    DateOfDayNumber(Date(y, m, 1));
  }

  /** `new Date(y, m - 2, 1)` is the first of the previous month. */
  lemma FirstOfPrevIndex(y: int, m: int)
    requires 1 <= m <= 12
    ensures MakeDate(y, m - 2, 1) == MonthBefore(y, m)
  {
    PrevMonthStart(y, m);
    DateOfDayNumber(MonthBefore(y, m));
  }

  /** `new Date(y, m, 1)` is the first of the next month. */
  lemma FirstOfNextIndex(y: int, m: int)
    requires 1 <= m <= 12
    ensures MakeDate(y, m, 1) == MonthAfter(y, m)
  {
    NextMonthStart(y, m);
    DateOfDayNumber(MonthAfter(y, m));
  }

  /** Day 0 of month index `m` is the last day of month `m`. */
  lemma LastDayOfIndex(y: int, m: int)
    requires 1 <= m <= 12
    ensures MakeDate(y, m, 0) == Date(y, m, DaysInMonth(y, m))
  {
    NextMonthStart(y, m);
    DateOfDayNumber(Date(y, m, DaysInMonth(y, m)));
  }

  /** Day 0 of month index `m - 1` is the last day of the previous month. */
  lemma LastDayOfPrevIndex(y: int, m: int)
    requires 1 <= m <= 12
    ensures MakeDate(y, m - 1, 0) == Date(MonthBefore(y, m).year, MonthBefore(y, m).month,
                                          DaysInMonth(MonthBefore(y, m).year, MonthBefore(y, m).month))
  {
    ThisMonthStart(y, m);
    var p := MonthBefore(y, m);
    DateOfDayNumber(Date(p.year, p.month, DaysInMonth(p.year, p.month)));
  }

  /** Month lengths: 28 to 31 days, and February has 29 exactly in leap years. */
  lemma DaysInMonthRange(y: int, m: int)
    ensures 28 <= DaysInMonth(y, m) <= 31
    ensures m == 2 ==> (DaysInMonth(y, m) == 29 <==> IsLeapYear(y))
  {
  }

  /** `getFirstDayOfMonth(date)`, through the host constructor. */
  function FirstDayOfMonth(t: int): Date {
    var d := DateOf(t);
    ConstructDate(d.year, d.month - 1, 1)
  }

  /** `getLastDayOfMonth(date)`: day 0 of the next month index, through the
      host constructor. */
  function LastDayOfMonth(t: int): Date {
    var d := DateOf(t);
    ConstructDate(d.year, d.month, 0)
  }

  /** The first of the month keeps the month and sets day 1, in the year the
      constructor reads: the date's own year, except that years 0..99 come
      out 1900 years later. */
  lemma FirstDayOfMonthIs(t: int)
    ensures FirstDayOfMonth(t) == Date(ConstructorYear(DateOf(t).year), DateOf(t).month, 1)
    ensures !(0 <= DateOf(t).year <= 99) ==> FirstDayOfMonth(t) == Date(DateOf(t).year, DateOf(t).month, 1)
    ensures 0 <= DateOf(t).year <= 99 ==> FirstDayOfMonth(t).year == DateOf(t).year + 1900
  {
    var d := DateOf(t);
    FirstOfIndex(ConstructorYear(d.year), d.month);
    assert FirstDayOfMonth(t) == MakeDate(ConstructorYear(d.year), d.month - 1, 1);
  }

  /** The last of the month is day 28..31 of the same month, in the year the
      constructor reads, and it is February 29 exactly when that year is a
      leap year (so February of year 0 ends on the 28th, as 1900 does). */
  lemma LastDayOfMonthIs(t: int)
    ensures var y := ConstructorYear(DateOf(t).year);
            LastDayOfMonth(t) == Date(y, DateOf(t).month, DaysInMonth(y, DateOf(t).month))
    ensures !(0 <= DateOf(t).year <= 99)
            ==> LastDayOfMonth(t) == Date(DateOf(t).year, DateOf(t).month, DaysInMonth(DateOf(t).year, DateOf(t).month))
    ensures 28 <= LastDayOfMonth(t).day <= 31
    ensures DateOf(t).month == 2
            ==> (LastDayOfMonth(t).day == 29 <==> IsLeapYear(ConstructorYear(DateOf(t).year)))
  {
    var y := ConstructorYear(DateOf(t).year);
    LastDayOfIndex(y, DateOf(t).month);
    DaysInMonthRange(y, DateOf(t).month);
  }

  /** `previousMonth()`: midnight of the first day of the month before. */
  function PreviousMonth(t: int): int {
    var d := DateOf(t);
    StartOfDay(MakeDate(d.year, d.month - 2, 1))
  }

  /** `nextMonth()`: midnight of the first day of the month after. */
  function NextMonth(t: int): int {
    var d := DateOf(t);
    StartOfDay(MakeDate(d.year, d.month, 1))
  }

  /** Stepping back lands on day 1 of the previous month, wrapping January
      to December of the year before. */
  lemma PreviousMonthIs(t: int)
    ensures DateOf(PreviousMonth(t))
            == if DateOf(t).month == 1 then Date(DateOf(t).year - 1, 12, 1)
               else Date(DateOf(t).year, DateOf(t).month - 1, 1)
    ensures TimeWithinDay(PreviousMonth(t)) == 0
  {
    FirstOfPrevIndex(DateOf(t).year, DateOf(t).month);
    StartOfDayFields(MonthBefore(DateOf(t).year, DateOf(t).month));
  }

  /** Stepping forward lands on day 1 of the next month, wrapping December
      to January of the year after. */
  lemma NextMonthIs(t: int)
    ensures DateOf(NextMonth(t))
            == if DateOf(t).month == 12 then Date(DateOf(t).year + 1, 1, 1)
               else Date(DateOf(t).year, DateOf(t).month + 1, 1)
    ensures TimeWithinDay(NextMonth(t)) == 0
  {
    FirstOfNextIndex(DateOf(t).year, DateOf(t).month);
    StartOfDayFields(MonthAfter(DateOf(t).year, DateOf(t).month));
  }

  /** The two steps undo each other, up to resetting the day to the first. */
  lemma MonthStepsInverse(t: int)
    ensures NextMonth(PreviousMonth(t)) == StartOfDay(Date(DateOf(t).year, DateOf(t).month, 1))
    ensures PreviousMonth(NextMonth(t)) == StartOfDay(Date(DateOf(t).year, DateOf(t).month, 1))
  {
    PreviousMonthIs(t);
    NextMonthIs(PreviousMonth(t));
    NextMonthIs(t);
    PreviousMonthIs(NextMonth(t));
  }

  /** `previousMonth()` exactly as written: the host constructor reads a year
      argument 0..99 as 1900..1999. */
  function PreviousMonthAsWritten(t: int): int {
    var d := DateOf(t);
    StartOfDay(ConstructDate(d.year, d.month - 2, 1))
  }

  /** `nextMonth()` exactly as written, through the host constructor. */
  function NextMonthAsWritten(t: int): int {
    var d := DateOf(t);
    StartOfDay(ConstructDate(d.year, d.month, 1))
  }

  /** As written, stepping back lands on day 1 of the month before, counted
      from the year the constructor reads; outside years 0..99 that is the
      corrected step. */
  lemma PreviousMonthAsWrittenIs(t: int)
    ensures DateOf(PreviousMonthAsWritten(t)) == MonthBefore(ConstructorYear(DateOf(t).year), DateOf(t).month)
    ensures TimeWithinDay(PreviousMonthAsWritten(t)) == 0
    ensures !(0 <= DateOf(t).year <= 99) ==> PreviousMonthAsWritten(t) == PreviousMonth(t)
  {
    var y, m := ConstructorYear(DateOf(t).year), DateOf(t).month;
    FirstOfPrevIndex(y, m);
    StartOfDayFields(MonthBefore(y, m));
  }

  /** As written, stepping forward lands on day 1 of the month after, counted
      from the year the constructor reads; outside years 0..99 that is the
      corrected step. */
  lemma NextMonthAsWrittenIs(t: int)
    ensures DateOf(NextMonthAsWritten(t)) == MonthAfter(ConstructorYear(DateOf(t).year), DateOf(t).month)
    ensures TimeWithinDay(NextMonthAsWritten(t)) == 0
    ensures !(0 <= DateOf(t).year <= 99) ==> NextMonthAsWritten(t) == NextMonth(t)
  {
    var y, m := ConstructorYear(DateOf(t).year), DateOf(t).month;
    FirstOfNextIndex(y, m);
    StartOfDayFields(MonthAfter(y, m));
  }

  /** A constructor call one month back with a year argument in 0..99 builds
      the first of the month before month `m` of year `y + 1900`. */
  lemma ConstructDateTwoDigitYear(y: int, m: int)
    requires 0 <= y <= 99 && 1 <= m <= 12
    ensures ConstructDate(y, m - 2, 1) == MonthBefore(y + 1900, m)
    ensures m >= 2 ==> ConstructDate(y, m - 2, 1) == Date(y + 1900, m - 1, 1)
    ensures m == 1 ==> ConstructDate(y, m - 2, 1) == Date(y + 1899, 12, 1)
  {
    FirstOfPrevIndex(y + 1900, m);
  }

  /** In years 0..99 the as-written step lands in the month before the same
      month 1900 years later (so in year + 1899 from January), never where
      the corrected step lands. */
  lemma PreviousMonthAsWrittenTwoDigitYear(t: int)
    requires 0 <= DateOf(t).year <= 99
    ensures DateOf(PreviousMonthAsWritten(t)) == MonthBefore(DateOf(t).year + 1900, DateOf(t).month)
    ensures DateOf(PreviousMonthAsWritten(t)) != DateOf(PreviousMonth(t))
  {
    var y, m := DateOf(t).year, DateOf(t).month;
    ConstructDateTwoDigitYear(y, m);
    StartOfDayFields(MonthBefore(y + 1900, m));
    PreviousMonthIs(t);
  }

  /** The concrete case: from December of year 99, the as-written step shows
      November 1999 instead of November 99. */
  lemma PreviousMonthFromDecember99()
    ensures DateOf(PreviousMonthAsWritten(StartOfDay(Date(99, 12, 1)))) == Date(1999, 11, 1)
    ensures DateOf(PreviousMonth(StartOfDay(Date(99, 12, 1)))) == Date(99, 11, 1)
  {
    StartOfDayFields(Date(99, 12, 1));
    PreviousMonthAsWrittenTwoDigitYear(StartOfDay(Date(99, 12, 1)));
    PreviousMonthIs(StartOfDay(Date(99, 12, 1)));
  }

  /** The concrete case forward: from January of year 50, the as-written
      step shows February 1950 instead of February 50. */
  lemma NextMonthFromJanuary50()
    ensures DateOf(NextMonthAsWritten(StartOfDay(Date(50, 1, 1)))) == Date(1950, 2, 1)
    ensures DateOf(NextMonth(StartOfDay(Date(50, 1, 1)))) == Date(50, 2, 1)
  {
    StartOfDayFields(Date(50, 1, 1));
    NextMonthAsWrittenIs(StartOfDay(Date(50, 1, 1)));
    NextMonthIs(StartOfDay(Date(50, 1, 1)));
  }

  /** As written the two steps do not undo each other: from January of year
      100, back then forward ends in January 2000, because the step back
      lands in year 99. */
  lemma MonthStepsAsWrittenFromJanuary100()
    ensures DateOf(PreviousMonthAsWritten(StartOfDay(Date(100, 1, 1)))) == Date(99, 12, 1)
    ensures DateOf(NextMonthAsWritten(PreviousMonthAsWritten(StartOfDay(Date(100, 1, 1))))) == Date(2000, 1, 1)
  {
    var t := StartOfDay(Date(100, 1, 1));
    StartOfDayFields(Date(100, 1, 1));
    PreviousMonthAsWrittenIs(t);
    NextMonthAsWrittenIs(PreviousMonthAsWritten(t));
  }

  /** Epoch day of the first grid cell: the Sunday on or before the first of
      month (y, m). */
  function GridStart(y: int, m: int): int {
    DayNumber(Date(y, m, 1)) - Weekday(Date(y, m, 1))
  }

  /** The cell the builder pushes for a date. */
  function DayCell(date: Date, isCurrentMonth: bool, today: int, rs: seq<Reservation>): CalendarDay {
    CalendarDay(date, isCurrentMonth, IsToday(date, today), ReservationsForDate(date, rs))
  }

  /** Cell `i` of the reference grid: the `i`-th day from the grid start,
      flagged by whether it belongs to month (y, m). */
  function GridCell(y: int, m: int, i: int, today: int, rs: seq<Reservation>): CalendarDay {
    var d := DateOfDay(GridStart(y, m) + i);
    DayCell(d, d.year == y && d.month == m, today, rs)
  }

  /** Reference definition of the month grid: 42 consecutive days. */
  function MonthGrid(y: int, m: int, today: int, rs: seq<Reservation>): seq<CalendarDay> {
    seq(42, i requires 0 <= i < 42 => GridCell(y, m, i, today, rs))
  }

  /** A cell built from epoch day `n` at position `i` is the reference cell
      when `n` is the `i`-th grid day and the flag says whether `n` is in
      the month. */
  lemma GridCellAt(y: int, m: int, i: int, n: int, current: bool, today: int, rs: seq<Reservation>)
    requires 1 <= m <= 12
    requires n == GridStart(y, m) + i
    requires current <==> DayNumber(Date(y, m, 1)) <= n < DayNumber(Date(y, m, 1)) + DaysInMonth(y, m)
    ensures DayCell(DateOfDay(n), current, today, rs) == GridCell(y, m, i, today, rs)
  {
    InMonthIffInSpan(DateOfDay(n), y, m);
  }

  /** Cell `i` of the grid is the reference cell `i`. */
  lemma GridAt(y: int, m: int, today: int, rs: seq<Reservation>, i: int)
    requires 0 <= i < 42
    ensures |MonthGrid(y, m, today, rs)| == 42
    ensures MonthGrid(y, m, today, rs)[i] == GridCell(y, m, i, today, rs)
  {
  }

  /** Pushing the cell of the next grid day onto a prefix of the grid gives
      the next prefix. */
  lemma GridStep(y: int, m: int, today: int, rs: seq<Reservation>, days: seq<CalendarDay>, n: int, current: bool)
    requires 1 <= m <= 12
    requires |days| < 42 && days == MonthGrid(y, m, today, rs)[..|days|]
    requires n == GridStart(y, m) + |days|
    requires current <==> DayNumber(Date(y, m, 1)) <= n < DayNumber(Date(y, m, 1)) + DaysInMonth(y, m)
    ensures days + [DayCell(DateOfDay(n), current, today, rs)] == MonthGrid(y, m, today, rs)[..|days| + 1]
  {
    GridCellAt(y, m, |days|, n, current, today, rs);
    GridAt(y, m, today, rs, |days|);
    PrefixStep(MonthGrid(y, m, today, rs), days, DayCell(DateOfDay(n), current, today, rs));
  }

  /** The leading loop's step: day `daysInPrevMonth - i` of the month before
      month index `month` is the next grid cell. */
  lemma LeadingStep(year: int, month: int, today: int, rs: seq<Reservation>, days: seq<CalendarDay>,
                    daysInPrevMonth: int, i: int)
    requires 0 <= month <= 11 && 0 <= i
    requires MakeDay(year, month - 1, 1) + daysInPrevMonth == DayNumber(Date(year, month + 1, 1))
    requires |days| == Weekday(Date(year, month + 1, 1)) - 1 - i
    requires days == MonthGrid(year, month + 1, today, rs)[..|days|]
    ensures days + [DayCell(MakeDate(year, month - 1, daysInPrevMonth - i), false, today, rs)]
            == MonthGrid(year, month + 1, today, rs)[..|days| + 1]
  {
    GridStep(year, month + 1, today, rs, days, MakeDay(year, month - 1, daysInPrevMonth - i), false);
  }

  /** The month loop's step: day `day` of month index `month` is the next
      grid cell once the leading days are in place. */
  lemma MonthStep(year: int, month: int, today: int, rs: seq<Reservation>, days: seq<CalendarDay>, day: int)
    requires 0 <= month <= 11 && 1 <= day <= DaysInMonth(year, month + 1)
    requires |days| == Weekday(Date(year, month + 1, 1)) + day - 1
    requires days == MonthGrid(year, month + 1, today, rs)[..|days|]
    ensures days + [DayCell(MakeDate(year, month, day), true, today, rs)]
            == MonthGrid(year, month + 1, today, rs)[..|days| + 1]
  {
    ThisMonthStart(year, month + 1);
    DaysInMonthRange(year, month + 1);
    GridStep(year, month + 1, today, rs, days, MakeDay(year, month, day), true);
  }

  /** The trailing loop's step: day `day` of the month after month index
      `month` is the next grid cell once the month itself is in place. */
  lemma TrailingStep(year: int, month: int, today: int, rs: seq<Reservation>, days: seq<CalendarDay>, day: int)
    requires 0 <= month <= 11 && day >= 1
    requires |days| == Weekday(Date(year, month + 1, 1)) + DaysInMonth(year, month + 1) + day - 1 < 42
    requires days == MonthGrid(year, month + 1, today, rs)[..|days|]
    ensures days + [DayCell(MakeDate(year, month + 1, day), false, today, rs)]
            == MonthGrid(year, month + 1, today, rs)[..|days| + 1]
  {
    NextMonthStart(year, month + 1);
    GridStep(year, month + 1, today, rs, days, MakeDay(year, month + 1, day), false);
  }

  /** The quantities `generateCalendar` reads before its loops. */
  lemma GridInputs(y: int, m: int)
    requires 1 <= m <= 12
    ensures Weekday(MakeDate(y, m - 1, 1)) == Weekday(Date(y, m, 1))
    ensures MakeDate(y, m, 0).day == DaysInMonth(y, m)
    ensures MakeDate(y, m - 1, 0).day + MakeDay(y, m - 2, 1) == DayNumber(Date(y, m, 1))
    ensures MakeDay(y, m - 1, 1) == DayNumber(Date(y, m, 1))
    ensures MakeDay(y, m, 1) == DayNumber(Date(y, m, 1)) + DaysInMonth(y, m)
  {
    FirstOfIndex(y, m);
    LastDayOfIndex(y, m);
    LastDayOfPrevIndex(y, m);
    PrevMonthStart(y, m);
    ThisMonthStart(y, m);
    NextMonthStart(y, m);
  }

  /** The first loop of `generateCalendar()`: the last `firstDayOfWeek` days
      of the month before month index `month`, oldest first. */
  method PushLeadingDays(year: int, month: int, today: int, rs: seq<Reservation>,
                         firstDayOfWeek: int, daysInPrevMonth: int) returns (days: seq<CalendarDay>)
    requires 0 <= month <= 11
    requires firstDayOfWeek == Weekday(Date(year, month + 1, 1))
    requires MakeDay(year, month - 1, 1) + daysInPrevMonth == DayNumber(Date(year, month + 1, 1))
    ensures days == MonthGrid(year, month + 1, today, rs)[..firstDayOfWeek]
  {
    days := [];
    var i := firstDayOfWeek - 1;
    while i >= 0
      invariant -1 <= i < firstDayOfWeek
      invariant |days| == firstDayOfWeek - 1 - i
      invariant days == MonthGrid(year, month + 1, today, rs)[..|days|]
    {
      LeadingStep(year, month, today, rs, days, daysInPrevMonth, i);
      var date := MakeDate(year, month - 1, daysInPrevMonth - i);
      days := days + [DayCell(date, false, today, rs)];
      i := i - 1;
    }
  }

  /** The second loop: days 1..`daysInMonth` of month index `month`. */
  method PushMonthDays(year: int, month: int, today: int, rs: seq<Reservation>, days0: seq<CalendarDay>,
                       firstDayOfWeek: int, daysInMonth: int) returns (days: seq<CalendarDay>)
    requires 0 <= month <= 11
    requires firstDayOfWeek == Weekday(Date(year, month + 1, 1))
    requires daysInMonth == DaysInMonth(year, month + 1)
    requires days0 == MonthGrid(year, month + 1, today, rs)[..firstDayOfWeek]
    ensures days == MonthGrid(year, month + 1, today, rs)[..firstDayOfWeek + daysInMonth]
  {
    days := days0;
    var day := 1;
    while day <= daysInMonth
      invariant 1 <= day <= daysInMonth + 1
      invariant |days| == firstDayOfWeek + day - 1
      invariant days == MonthGrid(year, month + 1, today, rs)[..|days|]
    {
      MonthStep(year, month, today, rs, days, day);
      var date := MakeDate(year, month, day);
      days := days + [DayCell(date, true, today, rs)];
      day := day + 1;
    }
  }

  /** The third loop: days 1, 2, ... of the month after month index `month`
      until the grid holds 42 cells. */
  method PushTrailingDays(year: int, month: int, today: int, rs: seq<Reservation>, days0: seq<CalendarDay>)
                         returns (days: seq<CalendarDay>)
    requires 0 <= month <= 11
    requires Weekday(Date(year, month + 1, 1)) + DaysInMonth(year, month + 1) <= 42
    requires days0 == MonthGrid(year, month + 1, today, rs)[..Weekday(Date(year, month + 1, 1)) + DaysInMonth(year, month + 1)]
    ensures days == MonthGrid(year, month + 1, today, rs)
  {
    ghost var w, dim := Weekday(Date(year, month + 1, 1)), DaysInMonth(year, month + 1);
    days := days0;
    var remainingDays := 42 - |days|;
    var day := 1;
    while day <= remainingDays
      invariant 1 <= day <= remainingDays + 1
      invariant |days| == w + dim + day - 1
      invariant days == MonthGrid(year, month + 1, today, rs)[..|days|]
    {
      TrailingStep(year, month, today, rs, days, day);
      var date := MakeDate(year, month + 1, day);
      days := days + [DayCell(date, false, today, rs)];
      day := day + 1;
    }
    GridAt(year, month + 1, today, rs, 0);
    assert MonthGrid(year, month + 1, today, rs)[..42] == MonthGrid(year, month + 1, today, rs);
  }

  /** `generateCalendar()` once every `new Date(year, …)` call has read its
      year argument as the calendar year `year`: the tail of the previous
      month, month index `month`, then the head of the next month, 42 cells
      in all. */
  method FillGrid(year: int, month: int, today: int, rs: seq<Reservation>) returns (days: seq<CalendarDay>)
    requires 0 <= month <= 11
    ensures |days| == 42
    ensures days == MonthGrid(year, month + 1, today, rs)
  {
    GridInputs(year, month + 1);
    var firstDay := MakeDate(year, month, 1);
    var lastDay := MakeDate(year, month + 1, 0);
    var firstDayOfWeek := Weekday(firstDay);
    var daysInMonth := lastDay.day;

    var prevMonth := MakeDate(year, month, 0);
    var daysInPrevMonth := prevMonth.day;
    DaysInMonthRange(year, month + 1);

    days := PushLeadingDays(year, month, today, rs, firstDayOfWeek, daysInPrevMonth);
    days := PushMonthDays(year, month, today, rs, days, firstDayOfWeek, daysInMonth);
    days := PushTrailingDays(year, month, today, rs, days);
  }

  /** `generateCalendar()` exactly as written: each constructor call reads
      the year of `currentDate` through `ConstructorYear`, so in years 0..99
      the grid shown is that of the same month 1900 years later. */
  method GenerateCalendarAsWritten(currentDate: int, today: int, rs: seq<Reservation>) returns (days: seq<CalendarDay>)
    ensures |days| == 42
    ensures days == MonthGrid(ConstructorYear(DateOf(currentDate).year), DateOf(currentDate).month, today, rs)
    ensures !(0 <= DateOf(currentDate).year <= 99)
            ==> days == MonthGrid(DateOf(currentDate).year, DateOf(currentDate).month, today, rs)
    ensures 0 <= DateOf(currentDate).year <= 99
            ==> days != MonthGrid(DateOf(currentDate).year, DateOf(currentDate).month, today, rs)
  {
    var year := DateOf(currentDate).year;
    var month := DateOf(currentDate).month - 1;
    if 0 <= year <= 99 {
      GridsCenturiesApartDiffer(year, month + 1, today, rs);
    }
    days := FillGrid(ConstructorYear(year), month, today, rs);
  }

  /** `generateCalendar()` as evidently intended: the grid of the month of
      `currentDate`, in its own year. */
  method GenerateCalendar(currentDate: int, today: int, rs: seq<Reservation>) returns (days: seq<CalendarDay>)
    ensures |days| == 42
    ensures days == MonthGrid(DateOf(currentDate).year, DateOf(currentDate).month, today, rs)
  {
    var year := DateOf(currentDate).year;
    var month := DateOf(currentDate).month - 1;
    days := FillGrid(year, month, today, rs);
  }

  /** The grids of the same month 1900 years apart differ: their first cells
      are different days. */
  lemma GridsCenturiesApartDiffer(y: int, m: int, today: int, rs: seq<Reservation>)
    requires 1 <= m <= 12
    ensures MonthGrid(y + 1900, m, today, rs) != MonthGrid(y, m, today, rs)
  {
    var a, b := Date(y, m, 8), Date(y + 1900, m, 1);
    assert DayNumber(a) == DayNumber(Date(y, m, 1)) + 7;
    DayNumberMonotone(a, b);
    GridDate(y, m, today, rs, 0);
    GridDate(y + 1900, m, today, rs, 0);
    assert DayNumber(MonthGrid(y, m, today, rs)[0].date) == GridStart(y, m);
    assert DayNumber(MonthGrid(y + 1900, m, today, rs)[0].date) == GridStart(y + 1900, m);
  }

  /** Cell `i` of the grid holds the `i`-th day after the grid start. */
  lemma GridDate(y: int, m: int, today: int, rs: seq<Reservation>, i: int)
    requires 0 <= i < 42
    ensures MonthGrid(y, m, today, rs)[i].date == DateOfDay(GridStart(y, m) + i)
    ensures MonthGrid(y, m, today, rs)[i].isCurrentMonth
            <==> DateOfDay(GridStart(y, m) + i).year == y && DateOfDay(GridStart(y, m) + i).month == m
  {
  }

  /** The Sunday on or before a day is a Sunday. */
  lemma SundayOnOrBefore(y: int, m: int)
    ensures Weekday(DateOfDay(GridStart(y, m))) == 0
  {
    var n := GridStart(y, m);
    BackToSunday(DayNumber(Date(y, m, 1)));
    assert DayNumber(DateOfDay(n)) == n;
  }

  /** Stepping back from day `d` by its weekday reaches a Sunday. */
  lemma BackToSunday(d: int)
    ensures (d - (d + 4) % 7 + 4) % 7 == 0
  {
    var q := (d + 4) / 7;
    assert d - (d + 4) % 7 + 4 == 7 * q;
  }

  /** The grid starts on a Sunday. */
  lemma GridStartsOnSunday(y: int, m: int, today: int, rs: seq<Reservation>)
    ensures Weekday(MonthGrid(y, m, today, rs)[0].date) == 0
  {
    GridDate(y, m, today, rs, 0);
    SundayOnOrBefore(y, m);
  }

  /** Adjacent cells are consecutive calendar days. */
  lemma GridContiguous(y: int, m: int, today: int, rs: seq<Reservation>, i: int)
    requires 0 <= i < 41
    ensures DayNumber(MonthGrid(y, m, today, rs)[i + 1].date) == DayNumber(MonthGrid(y, m, today, rs)[i].date) + 1
  {
    GridDate(y, m, today, rs, i);
    GridDate(y, m, today, rs, i + 1);
  }

  /** The cells flagged as the current month are exactly positions
      `Weekday(first)` .. `Weekday(first) + DaysInMonth - 1`, holding days
      1..DaysInMonth in order. */
  lemma GridCurrentMonth(y: int, m: int, today: int, rs: seq<Reservation>, i: int)
    requires 1 <= m <= 12 && 0 <= i < 42
    ensures var w := Weekday(Date(y, m, 1));
            MonthGrid(y, m, today, rs)[i].isCurrentMonth <==> w <= i < w + DaysInMonth(y, m)
    ensures var w := Weekday(Date(y, m, 1));
            w <= i < w + DaysInMonth(y, m) ==> MonthGrid(y, m, today, rs)[i].date == Date(y, m, i - w + 1)
  {
    var w := Weekday(Date(y, m, 1));
    GridDate(y, m, today, rs, i);
    InMonthIffInSpan(DateOfDay(GridStart(y, m) + i), y, m);
    if w <= i < w + DaysInMonth(y, m) {
      DateOfDayNumber(Date(y, m, i - w + 1));
    }
  }

  /** Grid day `i` before the first of the month is in the previous month. */
  lemma LeadingDate(y: int, m: int, i: int)
    requires 1 <= m <= 12 && 0 <= i < Weekday(Date(y, m, 1))
    ensures var p := MonthBefore(y, m);
            DateOfDay(GridStart(y, m) + i)
            == Date(p.year, p.month, DaysInMonth(p.year, p.month) - Weekday(Date(y, m, 1)) + 1 + i)
  {
    var p := MonthBefore(y, m);
    DaysInMonthRange(p.year, p.month);
    var d := Date(p.year, p.month, DaysInMonth(p.year, p.month) - Weekday(Date(y, m, 1)) + 1 + i);
    assert ValidDate(d);
    assert DayNumber(d) == DayNumber(p) + DaysInMonth(p.year, p.month) - Weekday(Date(y, m, 1)) + i;
    DateOfDayNumber(d);
  }

  /** The leading cells are the last `Weekday(first)` days of the previous
      month, in ascending order and ending at its last day. */
  lemma GridLeadingCells(y: int, m: int, today: int, rs: seq<Reservation>, i: int)
    requires 1 <= m <= 12 && 0 <= i < Weekday(Date(y, m, 1))
    ensures var p := MonthBefore(y, m);
            MonthGrid(y, m, today, rs)[i].date
            == Date(p.year, p.month, DaysInMonth(p.year, p.month) - Weekday(Date(y, m, 1)) + 1 + i)
    ensures !MonthGrid(y, m, today, rs)[i].isCurrentMonth
  {
    LeadingDate(y, m, i);
    GridDate(y, m, today, rs, i);
    GridCurrentMonth(y, m, today, rs, i);
  }

  /** The trailing cells are days 1, 2, ... of the next month, and there are
      always at least five of them. */
  lemma GridTrailingCells(y: int, m: int, today: int, rs: seq<Reservation>, i: int)
    requires 1 <= m <= 12 && Weekday(Date(y, m, 1)) + DaysInMonth(y, m) <= i < 42
    ensures 42 - Weekday(Date(y, m, 1)) - DaysInMonth(y, m) >= 5
    ensures var n := MonthAfter(y, m);
            MonthGrid(y, m, today, rs)[i].date == Date(n.year, n.month, i - Weekday(Date(y, m, 1)) - DaysInMonth(y, m) + 1)
    ensures !MonthGrid(y, m, today, rs)[i].isCurrentMonth
  {
    DaysInMonthRange(y, m);
    TrailingDate(y, m, i);
    GridDate(y, m, today, rs, i);
    GridCurrentMonth(y, m, today, rs, i);
  }

  /** Grid day `i` after the last of the month is in the next month. */
  lemma TrailingDate(y: int, m: int, i: int)
    requires 1 <= m <= 12 && Weekday(Date(y, m, 1)) + DaysInMonth(y, m) <= i < 42
    ensures var n := MonthAfter(y, m);
            DateOfDay(GridStart(y, m) + i) == Date(n.year, n.month, i - Weekday(Date(y, m, 1)) - DaysInMonth(y, m) + 1)
  {
    var n := MonthAfter(y, m);
    var k := i - Weekday(Date(y, m, 1)) - DaysInMonth(y, m);
    DaysInMonthRange(y, m);
    DaysInMonthRange(n.year, n.month);
    var d := Date(n.year, n.month, k + 1);
    assert ValidDate(d);
    assert DayNumber(d) == DayNumber(n) + k;
    DateOfDayNumber(d);
  }

  /** A cell is marked today iff it is the wall clock's day. */
  lemma GridTodayCell(y: int, m: int, today: int, rs: seq<Reservation>, i: int)
    requires 0 <= i < 42
    ensures MonthGrid(y, m, today, rs)[i].isToday <==> GridStart(y, m) + i == DayOf(today)
  {
    IsTodayIff(DateOfDay(GridStart(y, m) + i), today);
  }

  /** Exactly one cell is marked today when today lies in the 42-day window,
      and none otherwise. */
  lemma GridTodayUnique(y: int, m: int, today: int, rs: seq<Reservation>)
    ensures (exists i :: 0 <= i < 42 && MonthGrid(y, m, today, rs)[i].isToday)
            <==> GridStart(y, m) <= DayOf(today) < GridStart(y, m) + 42
    ensures forall i, j :: (0 <= i < 42 && 0 <= j < 42 && MonthGrid(y, m, today, rs)[i].isToday
              && MonthGrid(y, m, today, rs)[j].isToday) ==> i == j
  {
    var g := MonthGrid(y, m, today, rs);
    forall i | 0 <= i < 42
      ensures g[i].isToday <==> GridStart(y, m) + i == DayOf(today)
    {
      GridTodayCell(y, m, today, rs, i);
    }
    if GridStart(y, m) <= DayOf(today) < GridStart(y, m) + 42 {
      assert g[DayOf(today) - GridStart(y, m)].isToday;
    }
  }
}
