/** `ReservationsListComponent`: the status filter, the status label and CSS
    class helpers, the value shown in a `datetime-local` input, and the
    update request built when an edited reservation is saved. */
module ReservationsList {
  import opened Gregorian
  import opened Text
  import opened JsDate
  import opened Models
  import opened Seqs

  /** The callback of `applyFilters`: an empty filter value lets every
      reservation through, any other value only those whose status has that
      wire name. */
  predicate StatusMatches(statusFilter: string, r: Reservation) {
    !(statusFilter != [] && StatusName(r.status) != statusFilter)
  }

  function StatusTest(statusFilter: string): Reservation -> bool {
    r => StatusMatches(statusFilter, r)
  }

  /** `applyFilters()`: the new `filteredReservations`. */
  function FilterByStatus(rs: seq<Reservation>, statusFilter: string): seq<Reservation> {
    Filter(rs, StatusTest(statusFilter))
  }

  /** With no status selected the whole list is shown. */
  lemma EmptyStatusFilterKeepsAll(rs: seq<Reservation>)
    ensures FilterByStatus(rs, "") == rs
  {
    forall i | 0 <= i < |rs|
      ensures StatusTest("")(rs[i])
    {
    }
    FilterAll(rs, StatusTest(""));
  }

  /** With a status selected, a reservation is shown iff it is in the list
      and has that status. */
  lemma StatusFilterMembers(rs: seq<Reservation>, statusFilter: string, r: Reservation)
    requires statusFilter != []
    ensures r in FilterByStatus(rs, statusFilter) <==> r in rs && StatusName(r.status) == statusFilter
  {
    FilterMembers(rs, StatusTest(statusFilter), r);
  }

  /** The shown reservations keep the list's order, and every occurrence of
      a matching reservation is kept. */
  lemma StatusFilterOrder(rs: seq<Reservation>, statusFilter: string, r: Reservation)
    requires statusFilter != []
    ensures IsSubsequence(FilterByStatus(rs, statusFilter), rs)
    ensures multiset(FilterByStatus(rs, statusFilter))[r]
            == if StatusName(r.status) == statusFilter then multiset(rs)[r] else 0
  {
    FilterSubsequence(rs, StatusTest(statusFilter));
    FilterCount(rs, StatusTest(statusFilter), r);
  }

  /** A filter value that names no status shows nothing. */
  lemma UnknownStatusShowsNothing(rs: seq<Reservation>, statusFilter: string)
    requires statusFilter != []
    requires statusFilter != "pending" && statusFilter != "confirmed" && statusFilter != "cancelled"
    ensures FilterByStatus(rs, statusFilter) == []
  {
    forall i | 0 <= i < |rs|
      ensures !StatusTest(statusFilter)(rs[i])
    {
    }
    FilterNone(rs, StatusTest(statusFilter));
  }

  /** `getStatusClass(status)`. */
  function StatusClass(status: string): string {
    "status-" + status
  }

  /** The class is the status behind a fixed seven-character prefix, so the
      status can be read back and distinct statuses get distinct classes. */
  lemma StatusClassStrip(a: string, b: string)
    ensures |StatusClass(a)| == |a| + 7
    ensures "status-" <= StatusClass(a)
    ensures StatusClass(a)[7..] == a
    ensures StatusClass(a) == StatusClass(b) <==> a == b
  {
    if StatusClass(a) == StatusClass(b) {
      assert a == StatusClass(a)[7..];
    }
  }

  /** The Spanish label of a status. */
  function Label(s: Status): string {
    match s
    case Pending => "Pendiente"
    case Confirmed => "Confirmada"
    case Cancelled => "Cancelada"
  }

  /** `getStatusLabel(status)` as evidently intended: a status wire name is
      translated, any other string is returned unchanged. */
  function StatusLabel(status: string): string {
    if status == "pending" then "Pendiente"
    else if status == "confirmed" then "Confirmada"
    else if status == "cancelled" then "Cancelada"
    else status
  }

  /** Every status is shown with its label, and different statuses with
      different labels. */
  lemma StatusLabelTranslates(a: Status, b: Status)
    ensures StatusLabel(StatusName(a)) == Label(a)
    ensures StatusLabel(StatusName(a)) == StatusLabel(StatusName(b)) <==> a == b
  {
  }

  /** Any string that is not a status wire name is shown as it is. */
  lemma StatusLabelPassThrough(status: string)
    requires forall s: Status :: StatusName(s) != status
    ensures StatusLabel(status) == status
  {
    assert StatusName(Pending) != status;
    assert StatusName(Confirmed) != status;
    assert StatusName(Cancelled) != status;
  }

  /** The names a plain object literal inherits from `Object.prototype`
      (section 20.1.3 of ECMA-262 and its Annex B accessors). */
  const ObjectPrototypeMembers: set<string> := {
    "constructor", "hasOwnProperty", "isPrototypeOf", "propertyIsEnumerable",
    "toLocaleString", "toString", "valueOf", "__proto__",
    "__defineGetter__", "__defineSetter__", "__lookupGetter__", "__lookupSetter__"
  }

  /** What `labels[status] || status` evaluates to: a string, or the
      inherited `Object.prototype` member (a function, or the prototype
      object itself for `__proto__`) named by `status`. */
  datatype LabelValue = LabelText(text: string) | PrototypeMember(name: string)

  /** `labels[status]` on the object literal: an own property, an inherited
      member, or `undefined`. */
  function LabelLookup(status: string): Option<LabelValue> {
    if status == "pending" then Some(LabelText("Pendiente"))
    else if status == "confirmed" then Some(LabelText("Confirmada"))
    else if status == "cancelled" then Some(LabelText("Cancelada"))
    else if status in ObjectPrototypeMembers then Some(PrototypeMember(status))
    else None
  }

  /** `getStatusLabel(status)` as written: every value the lookup can yield
      is truthy, so `|| status` applies exactly when it yields `undefined`. */
  function StatusLabelAsWritten(status: string): LabelValue {
    match LabelLookup(status)
    case Some(v) => v
    case None => LabelText(status)
  }

  /** Away from the inherited names, the code as written agrees with the
      intended label. */
  lemma StatusLabelAsWrittenAgrees(status: string)
    requires status !in ObjectPrototypeMembers
    ensures StatusLabelAsWritten(status) == LabelText(StatusLabel(status))
  {
  }

  /** On an inherited name the code as written returns the inherited member
      instead of the string, although the intended label passes the string
      through. */
  lemma StatusLabelAsWrittenLeaks(status: string)
    requires status in ObjectPrototypeMembers
    ensures StatusLabelAsWritten(status) == PrototypeMember(status)
    ensures StatusLabelAsWritten(status) != LabelText(StatusLabel(status))
    ensures StatusLabel(status) == status
  {
  }

  /** The concrete case: `getStatusLabel('toString')` yields the function
      `Object.prototype.toString`, not the text `toString`. */
  lemma StatusLabelOfToString()
    ensures StatusLabelAsWritten("toString") != LabelText("toString")
    ensures StatusLabel("toString") == "toString"
  {
    StatusLabelAsWrittenLeaks("toString");
  }

  /** `formatDateTimeForInput(dateString)`: empty for an empty string; for an
      Invalid Date every field prints as `NaN` (padding never shortens it);
      otherwise `year-MM-DDTHH:MM` with the year printed as by `String`. */
  function FormatDateTimeForInput(f: DateField): (r: string)
    ensures |r| == 0 <==> f.Blank?
  {
    match f
    case Blank => ""
    case Unparseable => "NaN-NaN-NaNTNaN:NaN"
    case At(t) =>
      var d := DateOf(t);
      IntToString(d.year) + "-" + ZeroPad(d.month, 2) + "-" + ZeroPad(d.day, 2)
      + "T" + ZeroPad(HoursOf(t), 2) + ":" + ZeroPad(MinutesOf(t), 2)
  }

  /** Reads a `YYYY-MM-DDTHH:MM` input value back into an instant. */
  function ReadInputValue(s: string): int
    requires |s| >= 16
  {
    DayNumber(Date(DigitsValue(s[0..4]), DigitsValue(s[5..7]), DigitsValue(s[8..10]))) * 86400000
    + DigitsValue(s[11..13]) * 3600000 + DigitsValue(s[14..16]) * 60000
  }

  /** For a year of four significant digits, `String(year)` is the year
      field of the ISO date key. */
  lemma FourDigitYearText(y: int)
    requires 1000 <= y <= 9999
    ensures IntToString(y) == IsoYear(y)
  {
    assert Pow10(3) == 1000 && Pow10(4) == 10000 by {
      assert Pow10(1) == 10 && Pow10(2) == 100;
    }
    DecimalDigitsFixed(y, 4);
    ZeroPadIsFixed(y, 4);
  }

  /** For years 1000..9999 the input value is the ISO date key, `T`, and
      the hours and minutes of the wall clock: the first sixteen characters
      of `toISOString()`. */
  lemma InputValueShape(t: int)
    requires 1000 <= DateOf(t).year <= 9999
    ensures FormatDateTimeForInput(At(t)) == DateKey(DateOf(t)) + "T" + WallClock(t)[..5]
    ensures |FormatDateTimeForInput(At(t))| == 16
    ensures FormatDateTimeForInput(At(t))[10] == 'T'
  {
    var d := DateOf(t);
    FourDigitYearText(d.year);
    DateKeyFields(d);
    WallClockFields(t);
    ZeroPadIsFixed(HoursOf(t), 2);
    ZeroPadIsFixed(MinutesOf(t), 2);
    assert WallClock(t)[..5] == ZeroPad(HoursOf(t), 2) + ":" + ZeroPad(MinutesOf(t), 2);
  }

  lemma InputValueSlices(k: string, c: string)
    requires |k| == 10 && |c| == 8
    ensures var s := k + "T" + c[..5];
            s[0..4] == k[0..4] && s[5..7] == k[5..7] && s[8..10] == k[8..10]
            && s[11..13] == c[0..2] && s[14..16] == c[3..5]
  {
  }

  /** Round trip: for years 1000..9999 the input value denotes the instant
      truncated to the whole minute. */
  lemma InputValueRoundTrip(t: int)
    requires 1000 <= DateOf(t).year <= 9999
    ensures |FormatDateTimeForInput(At(t))| == 16
    ensures ReadInputValue(FormatDateTimeForInput(At(t))) == t - SecondsOf(t) * 1000 - MillisOf(t)
  {
    var d := DateOf(t);
    InputValueShape(t);
    DateKeyValues(d);
    WallClockValues(t);
    InputValueSlices(DateKey(d), WallClock(t));
    ClockFields(t);
    var v := FormatDateTimeForInput(At(t));
    assert Date(DigitsValue(v[0..4]), DigitsValue(v[5..7]), DigitsValue(v[8..10])) == d;
  }

  /** The reservation being edited: the copy made by `editReservation`,
      with the start and end strings as edited. */
  datatype EditDraft = EditDraft(
    id: int,
    title: string,
    description: Option<string>,
    start: DateField,
    end: DateField,
    status: Status)

  /** The body of the update request. */
  datatype UpdatePayload = UpdatePayload(
    title: string,
    description: Option<string>,
    startTime: string,
    endTime: string,
    status: Status)

  /** What `saveReservation` does: nothing when no reservation is being
      edited; a `RangeError` from `toISOString` when a time is not a date;
      otherwise an update request for the reservation's id. */
  datatype SaveOutcome = NothingToSave | SaveThrows | SendUpdate(id: int, payload: UpdatePayload)

  function SaveReservation(editing: Option<EditDraft>): SaveOutcome {
    match editing
    case None => NothingToSave
    case Some(e) =>
      if !e.start.At? || !e.end.At? then SaveThrows
      else SendUpdate(e.id, UpdatePayload(e.title, e.description,
                                          BackendTimestamp(e.start.t), BackendTimestamp(e.end.t), e.status))
  }

  /** A save with two valid times sends the draft's id, title, description
      and status unchanged, and both times as `YYYY-MM-DD HH:MM:SS`
      timestamps that read back as the instants truncated to the second. */
  lemma SaveSendsDraft(e: EditDraft, s: int, t: int)
    requires e.start == At(s) && e.end == At(t)
    requires 0 <= DateOf(s).year <= 9999 && 0 <= DateOf(t).year <= 9999
    ensures SaveReservation(Some(e)).SendUpdate?
    ensures var o := SaveReservation(Some(e));
            o.id == e.id && o.payload.title == e.title && o.payload.description == e.description
            && o.payload.status == e.status
            && |o.payload.startTime| == 19 && |o.payload.endTime| == 19
            && o.payload.startTime[10] == ' ' && o.payload.endTime[10] == ' '
            && ReadBackendTimestamp(o.payload.startTime) == s - MillisOf(s)
            && ReadBackendTimestamp(o.payload.endTime) == t - MillisOf(t)
  {
    BackendTimestampShape(s);
    BackendTimestampShape(t);
    BackendTimestampRoundTrip(s);
    BackendTimestampRoundTrip(t);
  }

  /** A request is sent exactly when a reservation is being edited and both
      of its times are dates. */
  lemma SaveSendsIff(editing: Option<EditDraft>)
    ensures SaveReservation(editing).SendUpdate?
            <==> editing.Some? && editing.value.start.At? && editing.value.end.At?
    ensures SaveReservation(editing).NothingToSave? <==> editing.None?
  {
  }
}
