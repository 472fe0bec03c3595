/** `ReservationFormComponent`: the cross-field time validator and the
    create request built by `onSubmit`. The clock read by `new Date()` in
    the validator is the parameter `now`. */
module ReservationForm {
  import opened Gregorian
  import opened JsDate
  import opened Text
  import opened Models

  /** The two errors the group validator reports. */
  datatype TimeError = InvalidTime | PastDate

  /** `timeValidator(form)`: nothing to check until both fields are filled;
      then an end not after the start is `invalidTime`, and otherwise a
      start before `now` is `pastDate`. An Invalid Date compares false with
      everything, so it triggers neither error. */
  function TimeValidator(start: DateField, end: DateField, now: int): Option<TimeError> {
    if start.Blank? || end.Blank? then None
    else if start.At? && end.At? && end.t <= start.t then Some(InvalidTime)
    else if start.At? && start.t < now then Some(PastDate)
    else None
  }

  /** With both fields holding instants, the validator passes exactly when
      the start is not in the past and the end is after the start. */
  lemma TimeValidatorAccepts(s: int, e: int, now: int)
    ensures TimeValidator(At(s), At(e), now).None? <==> now <= s < e
  {
  }

  /** `invalidTime` is reported whenever the end is not after the start, even
      for a start in the past; `pastDate` only for a proper interval that
      starts before `now`. */
  lemma TimeValidatorErrors(s: int, e: int, now: int)
    ensures TimeValidator(At(s), At(e), now) == Some(InvalidTime) <==> e <= s
    ensures TimeValidator(At(s), At(e), now) == Some(PastDate) <==> s < e && s < now
  {
  }

  /** An empty field silences the validator; the `required` validators of
      the fields report it instead. */
  lemma TimeValidatorBlank(start: DateField, end: DateField, now: int)
    requires start.Blank? || end.Blank?
    ensures TimeValidator(start, end, now).None?
  {
  }

  /** An unparseable start is never rejected by the validator. */
  lemma TimeValidatorUnparseableStart(end: DateField, now: int)
    ensures TimeValidator(Unparseable, end, now).None?
  {
  }

  /** The values of the form controls. `description` is `None` when the
      control holds `null`. */
  datatype FormValue = FormValue(
    title: string,
    description: Option<string>,
    start: DateField,
    end: DateField)

  /** `reservationForm.valid`: the title is required with at least three
      UTF-16 code units (`minLength` reads `.length`), both times are required, and the group validator passes.
      The status is computed when a value last changed, not when it is
      read, so the validator's clock is `validatedAt`, the time of that
      change. */
  predicate FormValid(f: FormValue, validatedAt: int) {
    Utf16Length(f.title) >= 3 && !f.start.Blank? && !f.end.Blank? && TimeValidator(f.start, f.end, validatedAt).None?
  }

  /** The body of the create request. */
  datatype CreateRequest = CreateRequest(
    spaceId: int,
    title: string,
    description: string,
    startTime: string,
    endTime: string)

  /** What `onSubmit` does: a warning for an invalid form or a missing
      space; a `RangeError` from `toISOString` for a time that is not a
      date; otherwise a create request. */
  datatype SubmitOutcome = WarnInvalid | SubmitThrows | Create(request: CreateRequest)

  /** `formValue.description || ''`. */
  function DescriptionOrEmpty(d: Option<string>): (r: string)
    ensures d.Some? ==> r == d.value
    ensures d.None? ==> r == []
  {
    match d
    case None => ""
    case Some(s) => s
  }

  /** `onSubmit()`: it reads the cached `valid` status and does not consult
      the clock itself. */
  function Submit(f: FormValue, space: Option<Space>, validatedAt: int): SubmitOutcome {
    if !(FormValid(f, validatedAt) && space.Some?) then WarnInvalid
    else if !f.start.At? || !f.end.At? then SubmitThrows
    else Create(CreateRequest(space.value.id, f.title, DescriptionOrEmpty(f.description),
                              BackendTimestamp(f.start.t), BackendTimestamp(f.end.t)))
  }

  /** The warning is shown exactly when the form is invalid or no space is
      loaded. */
  lemma SubmitWarnsIff(f: FormValue, space: Option<Space>, validatedAt: int)
    ensures Submit(f, space, validatedAt).WarnInvalid? <==> !FormValid(f, validatedAt) || space.None?
  {
  }

  /** Whatever is sent describes a proper interval that did not start
      before the form was last edited, for the loaded space, under a title
      of three or more UTF-16 code units. */
  lemma SubmitSendsValidInterval(f: FormValue, space: Option<Space>, validatedAt: int)
    requires Submit(f, space, validatedAt).Create?
    ensures f.start.At? && f.end.At? && validatedAt <= f.start.t < f.end.t
    ensures space.Some? && Submit(f, space, validatedAt).request.spaceId == space.value.id
    ensures Utf16Length(Submit(f, space, validatedAt).request.title) >= 3
  {
  }

  /** The title's length is counted in UTF-16 code units: two characters
      outside the Basic Multilingual Plane already make a valid title. */
  lemma SubmitCountsUtf16Units(space: Space, validatedAt: int)
    ensures |"\U{1F600}\U{1F600}"| == 2
    ensures Submit(FormValue("\U{1F600}\U{1F600}", None, At(validatedAt + 10), At(validatedAt + 20)),
                   Some(space), validatedAt).Create?
  {
    assert Utf16Length("\U{1F600}") == 2;
    assert "\U{1F600}\U{1F600}"[..1] == "\U{1F600}";
  }

  /** A form last edited at `validatedAt` and submitted later is sent with a
      start that is already past at submit time: the check is not repeated. */
  lemma SubmitAfterStartPassed(space: Space, validatedAt: int, submittedAt: int)
    requires validatedAt < submittedAt
    ensures var f := FormValue("Team", None, At(validatedAt), At(submittedAt + 1));
            Submit(f, Some(space), validatedAt).Create? && f.start.t < submittedAt
  {
    Utf16LengthBounds("Team");
  }

  /** For four-digit years the sent times are `YYYY-MM-DD HH:MM:SS`
      timestamps (nineteen characters, a space at index 10) that read back
      as the entered instants truncated to the second. */
  lemma SubmitTimestamps(f: FormValue, space: Option<Space>, validatedAt: int)
    requires Submit(f, space, validatedAt).Create?
    requires 0 <= DateOf(f.start.t).year <= 9999 && 0 <= DateOf(f.end.t).year <= 9999
    ensures var req := Submit(f, space, validatedAt).request;
            |req.startTime| == 19 && |req.endTime| == 19
            && req.startTime[10] == ' ' && req.endTime[10] == ' '
            && ReadBackendTimestamp(req.startTime) == f.start.t - MillisOf(f.start.t)
            && ReadBackendTimestamp(req.endTime) == f.end.t - MillisOf(f.end.t)
  {
    SubmitSendsValidInterval(f, space, validatedAt);
    BackendTimestampShape(f.start.t);
    BackendTimestampShape(f.end.t);
    BackendTimestampRoundTrip(f.start.t);
    BackendTimestampRoundTrip(f.end.t);
  }

  /** A missing or empty description is sent as the empty string. */
  lemma SubmitDescription(f: FormValue, space: Option<Space>, validatedAt: int)
    requires Submit(f, space, validatedAt).Create?
    requires f.description.None? || f.description == Some("")
    ensures Submit(f, space, validatedAt).request.description == ""
  {
  }

  /** An unparseable start passes every validator, so a filled-in form
      with one reaches `toISOString` and throws. */
  lemma SubmitUnparseableStartThrows(title: string, d: Option<string>, end: DateField, space: Space, validatedAt: int)
    requires Utf16Length(title) >= 3 && !end.Blank?
    ensures Submit(FormValue(title, d, Unparseable, end), Some(space), validatedAt) == SubmitThrows
  {
  }
}
