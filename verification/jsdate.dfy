/** The host `Date` semantics the client depends on, with a single time zone
    (UTC offset 0), so local getters and UTC getters coincide. An instant is
    an integer count of milliseconds since 1970-01-01T00:00:00Z, as the
    host's time value is. */
module JsDate {
  import opened Gregorian
  import opened Text

  /** Epoch day of an instant (floor division, so instants before 1970 work too). */
  function DayOf(t: int): int {
    t / 86400000
  }

  function TimeWithinDay(t: int): (r: int)
    ensures 0 <= r < 86400000
    ensures DayOf(t) * 86400000 + r == t
  {
    t % 86400000
  }

  /** `getFullYear()`, `getMonth() + 1` and `getDate()` of an instant. */
  function DateOf(t: int): (d: Date)
    ensures ValidDate(d) && DayNumber(d) == DayOf(t)
  {
    DateOfDay(DayOf(t))
  }

  function HoursOf(t: int): (h: int)
    ensures 0 <= h < 24
  {
    TimeWithinDay(t) / 3600000
  }

  function MinutesOf(t: int): (m: int)
    ensures 0 <= m < 60
  {
    (TimeWithinDay(t) / 60000) % 60
  }

  function SecondsOf(t: int): (s: int)
    ensures 0 <= s < 60
  {
    (TimeWithinDay(t) / 1000) % 60
  }

  function MillisOf(t: int): (ms: int)
    ensures 0 <= ms < 1000
  {
    TimeWithinDay(t) % 1000
  }

  /** The clock fields of an instant reassemble its time within the day. */
  lemma ClockFields(t: int)
    ensures HoursOf(t) * 3600000 + MinutesOf(t) * 60000 + SecondsOf(t) * 1000 + MillisOf(t)
            == TimeWithinDay(t)
  {
    var w := TimeWithinDay(t);
    var totalSeconds := w / 1000;
    var totalMinutes := totalSeconds / 60;
    assert w == totalSeconds * 1000 + w % 1000;
    assert totalSeconds == totalMinutes * 60 + totalSeconds % 60;
    assert totalMinutes == w / 60000;
    assert totalMinutes / 60 == w / 3600000;
    assert totalMinutes == (totalMinutes / 60) * 60 + totalMinutes % 60;
  }

  /** An instant splits uniquely into an epoch day and a time within it. */
  lemma InstantSplit(n: int, x: int)
    requires 0 <= x < 86400000
    ensures DayOf(n * 86400000 + x) == n
    ensures TimeWithinDay(n * 86400000 + x) == x
  {
  }

  /** Midnight at the start of a calendar date. */
  function StartOfDay(d: Date): int {
    DayNumber(d) * 86400000
  }

  lemma StartOfDayFields(d: Date)
    requires ValidDate(d)
    ensures DateOf(StartOfDay(d)) == d
    ensures TimeWithinDay(StartOfDay(d)) == 0
  {
    DateOfDayNumber(d);
    InstantSplit(DayNumber(d), 0);
  }

  /** ECMAScript MakeDay: the epoch day of `date` counted from the first of
      month index `monthIndex` (0-based, any integer) of `year`; a month
      index outside 0..11 carries into the year and a day outside the month
      runs into its neighbours. */
  function MakeDay(year: int, monthIndex: int, date: int): int {
    DayNumber(Date(year + monthIndex / 12, monthIndex % 12 + 1, 1)) + date - 1
  }

  /** The calendar date `new Date(year, monthIndex, date)` denotes, for a
      year outside 0..99 (see `ConstructDate`). */
  function MakeDate(year: int, monthIndex: int, date: int): Date {
    DateOfDay(MakeDay(year, monthIndex, date))
  }

  /** The year the host constructor actually uses for a year argument:
      0..99 is read as 1900..1999, any other year as itself. */
  function ConstructorYear(year: int): int {
    if 0 <= year <= 99 then 1900 + year else year
  }

  /** `new Date(year, monthIndex, date)` exactly as the host constructor
      behaves: the year argument goes through `ConstructorYear` first. */
  function ConstructDate(year: int, monthIndex: int, date: int): Date {
    MakeDate(ConstructorYear(year), monthIndex, date)
  }

  /** `t.setDate(date)`: same month, year and clock time, day-of-month
      replaced and normalised through MakeDay. */
  function SetDate(t: int, date: int): int {
    var d := DateOf(t);
    MakeDay(d.year, d.month - 1, date) * 86400000 + TimeWithinDay(t)
  }

  /** MakeDay on a date's own year and month index counts days from that
      date's first of the month. */
  lemma MakeDayInOwnMonth(d: Date, date: int)
    requires ValidDate(d)
    ensures MakeDay(d.year, d.month - 1, date) == DayNumber(d) - d.day + date
  {
    assert (d.month - 1) / 12 == 0 && (d.month - 1) % 12 + 1 == d.month;
  }

  /** `setDate` moves an instant by whole days: `date - getDate()` of them,
      across month and year ends when the new day falls outside the month. */
  lemma SetDateShifts(t: int, date: int)
    ensures SetDate(t, date) == t + (date - DateOf(t).day) * 86400000
  {
    var d := DateOf(t);
    var n := MakeDay(d.year, d.month - 1, date);
    MakeDayInOwnMonth(d, date);
    assert n == DayOf(t) + (date - d.day);
    assert n * 86400000 == DayOf(t) * 86400000 + (date - d.day) * 86400000;
  }

  /** `t.setHours(hour, 0, 0, 0)`: same date, clock set to `hour`:00:00.000
      (an hour outside 0..23 runs into the neighbouring days). */
  function SetHours(t: int, hour: int): int {
    DayOf(t) * 86400000 + hour * 3600000
  }

  lemma SetHoursFields(t: int, hour: int)
    requires 0 <= hour < 24
    ensures DayOf(SetHours(t, hour)) == DayOf(t)
    ensures TimeWithinDay(SetHours(t, hour)) == hour * 3600000
  {
    InstantSplit(DayOf(t), hour * 3600000);
  }

  /** The year field of `toISOString()`: four digits for 0..9999, otherwise
      a sign and six digits. */
  function IsoYear(y: int): string {
    if 0 <= y <= 9999 then ZeroPad(y, 4)
    else if y < 0 then "-" + ZeroPad(-y, 6)
    else "+" + ZeroPad(y, 6)
  }

  /** The `YYYY-MM-DD` date part of `toISOString()`. */
  function DateKey(d: Date): string
    requires ValidDate(d)
  {
    IsoYear(d.year) + "-" + ZeroPad(d.month, 2) + "-" + ZeroPad(d.day, 2)
  }

  /** A date key holds digits, signs and dashes only: never a `T` or a space. */
  lemma DateKeyChars(d: Date, c: char)
    requires ValidDate(d)
    requires c == 'T' || c == ' '
    ensures c !in DateKey(d)
  {
    var y := d.year;
    ZeroPadDigits(if y < 0 then -y else y, if 0 <= y <= 9999 then 4 else 6);
    DigitsExclude(ZeroPad(if y < 0 then -y else y, if 0 <= y <= 9999 then 4 else 6), c);
    ZeroPadDigits(d.month, 2);
    DigitsExclude(ZeroPad(d.month, 2), c);
    ZeroPadDigits(d.day, 2);
    DigitsExclude(ZeroPad(d.day, 2), c);
  }

  /** The `HH:MM:SS` wall-clock part of `toISOString()`. */
  function WallClock(t: int): string {
    ZeroPad(HoursOf(t), 2) + ":" + ZeroPad(MinutesOf(t), 2) + ":" + ZeroPad(SecondsOf(t), 2)
  }

  /** `t.toISOString()`: date key, `T`, then the time part. */
  function IsoString(t: int): string {
    DateKey(DateOf(t)) + "T" + IsoTime(t)
  }

  /** The part of `toISOString()` after the `T`: wall clock, milliseconds, `Z`. */
  function IsoTime(t: int): string {
    WallClock(t) + "." + ZeroPad(MillisOf(t), 3) + "Z"
  }

  /** `t.toISOString().split('T')[0]`. */
  function IsoDateKey(t: int): string {
    TakeUntil(IsoString(t), 'T')
  }

  /** The text before the first `T` of the ISO string is the date key of the
      instant's day. */
  lemma IsoDateKeyIsDateKey(t: int)
    ensures IsoDateKey(t) == DateKey(DateOf(t))
  {
    DateKeyChars(DateOf(t), 'T');
    TakeUntilPrefix(DateKey(DateOf(t)), 'T', IsoTime(t));
  }

  /** `t.toISOString().slice(0, 19).replace('T', ' ')`, the form the backend
      expects for reservation start and end times. */
  function BackendTimestamp(t: int): string {
    var iso := IsoString(t);
    ReplaceFirst(iso[..if |iso| < 19 then |iso| else 19], 'T', ' ')
  }

  /** A four-digit-year date key is three fixed-width digit fields. */
  lemma DateKeyFields(d: Date)
    requires ValidDate(d) && 0 <= d.year <= 9999
    ensures DateKey(d) == FixedDigits(d.year, 4) + "-" + FixedDigits(d.month, 2) + "-" + FixedDigits(d.day, 2)
    ensures |DateKey(d)| == 10
  {
    ZeroPadIsFixed(d.year, 4);
    ZeroPadIsFixed(d.month, 2);
    ZeroPadIsFixed(d.day, 2);
  }

  /** The fixed-width fields of two four-digit-year dates compare like the dates. */
  lemma DateFieldsOrder(a: Date, b: Date)
    requires ValidDate(a) && ValidDate(b)
    requires 0 <= a.year <= 9999 && 0 <= b.year <= 9999
    ensures var ka := FixedDigits(a.year, 4) + "-" + FixedDigits(a.month, 2) + "-" + FixedDigits(a.day, 2);
            var kb := FixedDigits(b.year, 4) + "-" + FixedDigits(b.month, 2) + "-" + FixedDigits(b.day, 2);
            (LexLess(ka, kb) <==> Before(a, b)) && (ka == kb <==> a == b)
  {
    FixedDigitsOrder(a.year, b.year, 4);
    FixedDigitsOrder(a.month, b.month, 2);
    FixedDigitsOrder(a.day, b.day, 2);
    DashedFieldsOrder(FixedDigits(a.year, 4), FixedDigits(a.month, 2), FixedDigits(a.day, 2),
                      FixedDigits(b.year, 4), FixedDigits(b.month, 2), FixedDigits(b.day, 2));
  }

  /** RFC 3339 section 5.1: for four-digit years, `YYYY-MM-DD` strings sort
      lexicographically in chronological order, and equal strings name equal
      dates. */
  lemma DateKeyOrder(a: Date, b: Date)
    requires ValidDate(a) && ValidDate(b)
    requires 0 <= a.year <= 9999 && 0 <= b.year <= 9999
    ensures LexLess(DateKey(a), DateKey(b)) <==> Before(a, b)
    ensures DateKey(a) == DateKey(b) <==> a == b
  {
    DateKeyFields(a);
    DateKeyFields(b);
    DateFieldsOrder(a, b);
  }

  /** The same order stated on epoch days: string comparison of day keys is
      day-number comparison. */
  lemma DateKeyDayOrder(a: Date, b: Date)
    requires ValidDate(a) && ValidDate(b)
    requires 0 <= a.year <= 9999 && 0 <= b.year <= 9999
    ensures LexLess(DateKey(a), DateKey(b)) <==> DayNumber(a) < DayNumber(b)
  {
    DateKeyOrder(a, b);
    DayNumberOrder(a, b);
  }

  /** The wall clock is three two-digit fields: eight characters, no `T`. */
  lemma WallClockFields(t: int)
    ensures WallClock(t) == FixedDigits(HoursOf(t), 2) + ":" + FixedDigits(MinutesOf(t), 2) + ":" + FixedDigits(SecondsOf(t), 2)
    ensures |WallClock(t)| == 8
    ensures 'T' !in WallClock(t)
  {
    ZeroPadIsFixed(HoursOf(t), 2);
    ZeroPadIsFixed(MinutesOf(t), 2);
    ZeroPadIsFixed(SecondsOf(t), 2);
    ZeroPadDigits(HoursOf(t), 2);
    ZeroPadDigits(MinutesOf(t), 2);
    ZeroPadDigits(SecondsOf(t), 2);
    DigitsExclude(ZeroPad(HoursOf(t), 2), 'T');
    DigitsExclude(ZeroPad(MinutesOf(t), 2), 'T');
    DigitsExclude(ZeroPad(SecondsOf(t), 2), 'T');
  }

  /** For a four-digit year the backend timestamp is `YYYY-MM-DD HH:MM:SS`:
      nineteen characters, a space at index 10 and no `T` left. */
  lemma BackendTimestampShape(t: int)
    requires 0 <= DateOf(t).year <= 9999
    ensures BackendTimestamp(t) == DateKey(DateOf(t)) + " " + WallClock(t)
    ensures |BackendTimestamp(t)| == 19
    ensures BackendTimestamp(t)[10] == ' '
    ensures 'T' !in BackendTimestamp(t)
  {
    var key, clock := DateKey(DateOf(t)), WallClock(t);
    DateKeyFields(DateOf(t));
    WallClockFields(t);
    DateKeyChars(DateOf(t), 'T');
    IsoStringPrefix(t);
    ReplaceFirstAt(key, 'T', ' ', clock);
  }

  /** The first nineteen characters of the ISO string, for a four-digit year. */
  lemma IsoStringPrefix(t: int)
    requires 0 <= DateOf(t).year <= 9999
    ensures |IsoString(t)| >= 19
    ensures IsoString(t)[..19] == DateKey(DateOf(t)) + ['T'] + WallClock(t)
  {
    var key, clock := DateKey(DateOf(t)), WallClock(t);
    DateKeyFields(DateOf(t));
    WallClockFields(t);
    var tail := "." + ZeroPad(MillisOf(t), 3) + "Z";
    assert IsoTime(t) == clock + tail;
    assert IsoString(t) == key + ['T'] + clock + tail;
  }

  /** Reads a `YYYY-MM-DD HH:MM:SS` timestamp back into an instant. */
  function ReadBackendTimestamp(s: string): int
    requires |s| >= 19
  {
    DayNumber(Date(DigitsValue(s[0..4]), DigitsValue(s[5..7]), DigitsValue(s[8..10]))) * 86400000
    + DigitsValue(s[11..13]) * 3600000 + DigitsValue(s[14..16]) * 60000 + DigitsValue(s[17..19]) * 1000
  }

  /** The fields of a four-digit-year date key read back as the date. */
  lemma DateKeyValues(d: Date)
    requires ValidDate(d) && 0 <= d.year <= 9999
    ensures |DateKey(d)| == 10
    ensures DigitsValue(DateKey(d)[0..4]) == d.year
    ensures DigitsValue(DateKey(d)[5..7]) == d.month
    ensures DigitsValue(DateKey(d)[8..10]) == d.day
  {
    DateKeyFields(d);
    var k := DateKey(d);
    assert k[0..4] == FixedDigits(d.year, 4);
    assert k[5..7] == FixedDigits(d.month, 2);
    assert k[8..10] == FixedDigits(d.day, 2);
    FixedDigitsValue(d.year, 4);
    FixedDigitsValue(d.month, 2);
    FixedDigitsValue(d.day, 2);
  }

  /** The fields of the wall clock read back as the clock fields. */
  lemma WallClockValues(t: int)
    ensures |WallClock(t)| == 8
    ensures DigitsValue(WallClock(t)[0..2]) == HoursOf(t)
    ensures DigitsValue(WallClock(t)[3..5]) == MinutesOf(t)
    ensures DigitsValue(WallClock(t)[6..8]) == SecondsOf(t)
  {
    WallClockFields(t);
    var c := WallClock(t);
    assert c[0..2] == FixedDigits(HoursOf(t), 2);
    assert c[3..5] == FixedDigits(MinutesOf(t), 2);
    assert c[6..8] == FixedDigits(SecondsOf(t), 2);
    FixedDigitsValue(HoursOf(t), 2);
    FixedDigitsValue(MinutesOf(t), 2);
    FixedDigitsValue(SecondsOf(t), 2);
  }

  /** Each numeric field of the backend timestamp reads back as the
      corresponding field of the instant. */
  lemma BackendTimestampFieldValues(t: int)
    requires 0 <= DateOf(t).year <= 9999
    ensures |BackendTimestamp(t)| == 19
    ensures DigitsValue(BackendTimestamp(t)[0..4]) == DateOf(t).year
    ensures DigitsValue(BackendTimestamp(t)[5..7]) == DateOf(t).month
    ensures DigitsValue(BackendTimestamp(t)[8..10]) == DateOf(t).day
    ensures DigitsValue(BackendTimestamp(t)[11..13]) == HoursOf(t)
    ensures DigitsValue(BackendTimestamp(t)[14..16]) == MinutesOf(t)
    ensures DigitsValue(BackendTimestamp(t)[17..19]) == SecondsOf(t)
  {
    BackendTimestampShape(t);
    var k, c := DateKey(DateOf(t)), WallClock(t);
    DateKeyValues(DateOf(t));
    WallClockValues(t);
    SpaceJoinedSlices(k, c);
  }

  lemma SpaceJoinedSlices(k: string, c: string)
    requires |k| == 10 && |c| == 8
    ensures var s := k + " " + c;
            s[0..4] == k[0..4] && s[5..7] == k[5..7] && s[8..10] == k[8..10]
            && s[11..13] == c[0..2] && s[14..16] == c[3..5] && s[17..19] == c[6..8]
  {
  }

  /** Round trip: the backend timestamp denotes the instant, truncated to
      the whole second. */
  lemma BackendTimestampRoundTrip(t: int)
    requires 0 <= DateOf(t).year <= 9999
    ensures |BackendTimestamp(t)| == 19
    ensures ReadBackendTimestamp(BackendTimestamp(t)) == t - MillisOf(t)
  {
    BackendTimestampFieldValues(t);
    ClockFields(t);
    assert Date(DigitsValue(BackendTimestamp(t)[0..4]), DigitsValue(BackendTimestamp(t)[5..7]),
                DigitsValue(BackendTimestamp(t)[8..10])) == DateOf(t);
  }

}
