# Room reservation client: calendar, filters and time checks

A Dafny model of the local logic in the Angular client of a room reservation
system. The model covers five components:

- **Calendar view.** Builds the 6x7 month grid, attaches to each day the
  reservations whose inclusive day span covers it, marks today, and steps
  the displayed month back and forth.
- **Spaces list.** Filters the loaded spaces by a search text and a capacity
  range, and resets the filter.
- **Reservations list.** Filters by status, derives the status label and CSS
  class, formats an instant for a `datetime-local` input, and builds the
  update request when an edited reservation is saved.
- **Reservation form.** The cross-field time validator, and the create
  request sent on submit.
- **Space detail.** Checks whether an hour is occupied, and computes the
  one-week window of reservations it asks for.

Modules:

| module | file | contents |
|---|---|---|
| `Gregorian` | `gregorian.dfy` | `(year, month, day)` dates, the leap-year rule, month lengths, epoch day numbers and their inverse, the weekday |
| `JsDate` | `jsdate.dfy` | the host `Date` operations the components use: instants as milliseconds since the epoch, the `new Date(y, m, d)` normalisation, `setDate`, `setHours`, `toISOString`, and the backend `YYYY-MM-DD HH:MM:SS` timestamp |
| `Text` | `text.dfy` | decimal printing, zero padding, lexicographic string order, ASCII lower-casing, substring search |
| `Seqs` | `seqs.dfy` | `Array.prototype.filter` and `some` over sequences, with soundness, completeness, order and monotonicity lemmas |
| `Models` | `models.dfy` | the `Space` and `Reservation` records, the reservation status, and `DateField` (a date string as `new Date` reads it) |
| `CalendarView`, `SpacesList`, `ReservationsList`, `ReservationForm`, `SpaceDetail` | one file each | the components |

Conventions:

- The wall clock (`new Date()`) is a parameter: `today` or `now`.
- All dates live in one time zone with UTC offset 0. Local getters and UTC
  getters therefore agree.
- A date string received from the backend or typed in a form is represented
  by the instant it denotes. A form value is a `DateField`: blank,
  unparseable (an Invalid Date), or an instant.
- `saveReservation` and `onSubmit` call `toISOString` on whatever
  `new Date` returned for a form value, and that throws a `RangeError` for
  an Invalid Date. The model has the outcomes `SaveThrows` and
  `SubmitThrows` for this. Reservation times received from the backend are
  taken to parse (see "Left out").
- `generateCalendar` is modelled by `FillGrid`, the source's three loops
  split into one method each. It is proved equal to `MonthGrid`, a
  reference definition: 42 consecutive days starting on the Sunday on or
  before the first of the month.
- The host constructor `new Date(y, m, d)` reads a year argument 0..99 as
  1900..1999 (`JsDate.ConstructorYear`). The members that model the
  calendar's constructor calls as written go through it; the corrected
  members beside them do not (see "Findings").
- `isToday` reads the clock once per cell. The model reads it once per
  grid, so "at most one cell is marked today" assumes the clock does not
  pass midnight while one grid is built.

## Model

| member | source | states |
|---|---|---|
| `CalendarView.GenerateCalendarAsWritten` | src/app/components/calendar-view/calendar-view.component.ts:99-146 | as written, the grid always has exactly 42 cells and is, cell by cell, the reference grid of the displayed month in the year the constructor reads: the displayed year itself outside 0..99, and a different grid, 1900 years later, inside |
| `CalendarView.GenerateCalendar` | src/app/components/calendar-view/calendar-view.component.ts:99-146 | corrected builder (see "Findings"): exactly 42 cells, equal cell by cell to the reference grid of 42 consecutive days from the Sunday on or before the first of the displayed month, for every year and month |
| `CalendarView.FillGrid` | src/app/components/calendar-view/calendar-view.component.ts:100-145 | once the constructor calls have read their year as `year`, the three loops produce exactly the 42-cell reference grid of month index `month` of `year` |
| `CalendarView.GridsCenturiesApartDiffer` | src/app/components/calendar-view/calendar-view.component.ts:103 | the grid of a month and the grid of the same month 1900 years later differ, so the constructor's year shift changes what is shown |
| `CalendarView.GridLeadingCells` | src/app/components/calendar-view/calendar-view.component.ts:111-122 | the first `firstDayOfWeek` cells are the last days of the previous month in ascending order, ending at its last day, with December of the year before for January; none is flagged current-month |
| `CalendarView.GridCurrentMonth` | src/app/components/calendar-view/calendar-view.component.ts:124-133 | a cell is flagged current-month iff its position is in `firstDayOfWeek .. firstDayOfWeek + daysInMonth - 1`, and that cell holds day `position - firstDayOfWeek + 1` of the month |
| `CalendarView.GridTrailingCells` | src/app/components/calendar-view/calendar-view.component.ts:135-145 | the trailing cells are days 1, 2, ... of the next month (January of the next year after December); there are always at least 5; none is flagged current-month |
| `CalendarView.GridStartsOnSunday` | src/app/components/calendar-view/calendar-view.component.ts:103-105 | the first cell of every grid falls on a Sunday |
| `CalendarView.GridContiguous` | src/app/components/calendar-view/calendar-view.component.ts:114-145 | adjacent cells are consecutive calendar days |
| `CalendarView.GridInputs` | src/app/components/calendar-view/calendar-view.component.ts:103-112 | in the year `y` the constructor reads, `firstDay` has the weekday of the first of the month, `lastDay.getDate()` is the month length, and `daysInPrevMonth` ends the previous month exactly one day before the first |
| `CalendarView.GridTodayCell` | src/app/components/calendar-view/calendar-view.component.ts:119-142 | a cell's `isToday` flag holds iff the cell is the wall clock's day |
| `CalendarView.GridTodayUnique` | src/app/components/calendar-view/calendar-view.component.ts:114-145 | some cell is marked today iff today lies in the grid's 42-day window, and at most one cell is ever marked |
| `CalendarView.IsTodayIff` | src/app/components/calendar-view/calendar-view.component.ts:157-162 | matching day, month and year is the same as being the wall clock's epoch day |
| `CalendarView.CoversKeyIff` | src/app/components/calendar-view/calendar-view.component.ts:148-155 | the `YYYY-MM-DD` string comparison holds iff start day <= date <= end day, inclusive at both ends |
| `CalendarView.ReservationsForDateMembers` | src/app/components/calendar-view/calendar-view.component.ts:148-155 | a reservation is returned for a date iff it is in the list and its inclusive day span contains the date |
| `CalendarView.ReservationsForDateOrder` | src/app/components/calendar-view/calendar-view.component.ts:150-154 | the result is an order-preserving subsequence of the reservations that keeps every occurrence of a covering reservation and no other |
| `CalendarView.SingleDayReservation` | src/app/components/calendar-view/calendar-view.component.ts:149-153 | a reservation within a single day is returned for that day only |
| `CalendarView.InvertedReservation` | src/app/components/calendar-view/calendar-view.component.ts:149-153 | a reservation whose end day precedes its start day is returned for no day |
| `JsDate.DateKeyOrder` | src/app/components/calendar-view/calendar-view.component.ts:149-153 | for four-digit years, `YYYY-MM-DD` keys compare lexicographically as the dates compare chronologically, and equal keys name equal dates (section 5.1 of RFC 3339) |
| `JsDate.IsoDateKeyIsDateKey` | src/app/components/calendar-view/calendar-view.component.ts:149-152 | `toISOString().split('T')[0]` is the date key of the instant's day |
| `CalendarView.DaysInMonthRange` | src/app/components/calendar-view/calendar-view.component.ts:104-106 | a month has 28 to 31 days, and February has 29 exactly in Gregorian leap years (Appendix C of RFC 3339) |
| `CalendarView.FirstDayOfMonthIs` | src/app/components/calendar-view/calendar-view.component.ts:164-166 | `getFirstDayOfMonth` keeps the month and sets day 1, in the date's own year outside years 0..99 and 1900 years later inside |
| `CalendarView.LastDayOfMonthIs` | src/app/components/calendar-view/calendar-view.component.ts:168-170 | `getLastDayOfMonth` is the month's last day, 28 to 31, in the year the constructor reads (the date's own year outside 0..99), and February 29 exactly when that year is a leap year |
| `CalendarView.PreviousMonthAsWrittenIs` | src/app/components/calendar-view/calendar-view.component.ts:172-175 | as written, stepping back lands at midnight of day 1 of the month before, counted from the year the constructor reads; outside years 0..99 it equals the corrected step |
| `CalendarView.NextMonthAsWrittenIs` | src/app/components/calendar-view/calendar-view.component.ts:177-180 | as written, stepping forward lands at midnight of day 1 of the month after, counted from the year the constructor reads; outside years 0..99 it equals the corrected step |
| `CalendarView.PreviousMonthIs` | src/app/components/calendar-view/calendar-view.component.ts:172-175 | corrected step (see "Findings"): midnight of day 1 of the previous month, January wrapping to December of the year before |
| `CalendarView.NextMonthIs` | src/app/components/calendar-view/calendar-view.component.ts:177-180 | corrected step (see "Findings"): midnight of day 1 of the next month, December wrapping to January of the year after |
| `CalendarView.MonthStepsInverse` | src/app/components/calendar-view/calendar-view.component.ts:172-180 | with the corrected steps, either step followed by the other returns to the first of the starting month |
| `CalendarView.MonthStepsAsWrittenFromJanuary100` | src/app/components/calendar-view/calendar-view.component.ts:172-180 | as written, back then forward from January of year 100 passes December 99 and ends in January 2000 |
| `CalendarView.NextMonthFromJanuary50` | src/app/components/calendar-view/calendar-view.component.ts:177-180 | from January of year 50 the as-written step shows February 1950; the corrected step shows February 50 |
| `CalendarView.ConstructDateTwoDigitYear` | src/app/components/calendar-view/calendar-view.component.ts:173 | the host constructor called one month back with a year argument 0..99 builds the first of the month before the same month 1900 years later: year + 1900 from February to December, December of year + 1899 from January |
| `CalendarView.PreviousMonthAsWrittenTwoDigitYear` | src/app/components/calendar-view/calendar-view.component.ts:172-175 | as written, stepping back from any month of a year 0..99 lands on the first of the month before that month of year + 1900 (year + 1899 from January), never where the corrected step lands |
| `CalendarView.PreviousMonthFromDecember99` | src/app/components/calendar-view/calendar-view.component.ts:172-175 | from December of year 99 the as-written step shows November 1999; the corrected step shows November 99 |
| `SpacesList.KeepIff` | src/app/components/spaces-list/spaces-list.component.ts:58-76 | the filter callback is the conjunction of the search clause and the two capacity clauses |
| `SpacesList.SearchWithoutDescription` | src/app/components/spaces-list/spaces-list.component.ts:60-63 | with a non-empty term, a space without a description passes the search iff its lower-cased name contains the lower-cased term |
| `SpacesList.ApplyFiltersMembers` | src/app/components/spaces-list/spaces-list.component.ts:57-76 | a space is shown iff it is loaded, passes the search, has capacity >= `minCapacity` whenever that is set (0 included) and <= `maxCapacity` whenever that is set |
| `SpacesList.ApplyFiltersOrder` | src/app/components/spaces-list/spaces-list.component.ts:58-76 | `filteredSpaces` is an order-preserving subsequence of `spaces` keeping every occurrence of a passing space |
| `SpacesList.ClearedShowsAll` | src/app/components/spaces-list/spaces-list.component.ts:95-102 | after `clearFilters` every loaded space is shown, in order |
| `SpacesList.CrossedBoundsEmpty` | src/app/components/spaces-list/spaces-list.component.ts:66-73 | a minimum above the maximum shows nothing |
| `SpacesList.ApplyFiltersIdempotent` | src/app/components/spaces-list/spaces-list.component.ts:58-76 | re-filtering the filtered list with the same settings returns it unchanged |
| `SpacesList.TighteningNeverAdds` | src/app/components/spaces-list/spaces-list.component.ts:58-76 | raising the minimum or lowering the maximum yields a subsequence of the previous result |
| `ReservationsList.EmptyStatusFilterKeepsAll` | src/app/components/reservations-list/reservations-list.component.ts:51-58 | an empty status filter shows every reservation, in order |
| `ReservationsList.StatusFilterMembers` | src/app/components/reservations-list/reservations-list.component.ts:52-57 | a non-empty filter shows a reservation iff it is loaded and its status has that name |
| `ReservationsList.StatusFilterOrder` | src/app/components/reservations-list/reservations-list.component.ts:52-57 | the filtered list keeps the original order and drops no occurrence of a matching reservation |
| `ReservationsList.UnknownStatusShowsNothing` | src/app/components/reservations-list/reservations-list.component.ts:53-55 | a filter value naming no status shows nothing |
| `ReservationsList.StatusClassStrip` | src/app/components/reservations-list/reservations-list.component.ts:137-139 | the class is `status-` followed by the status: dropping seven characters recovers it, and distinct statuses get distinct classes |
| `ReservationsList.StatusLabelTranslates` | src/app/components/reservations-list/reservations-list.component.ts:141-148 | pending, confirmed and cancelled show as Pendiente, Confirmada and Cancelada, which are pairwise distinct |
| `ReservationsList.StatusLabelPassThrough` | src/app/components/reservations-list/reservations-list.component.ts:141-148 | any string that is not a status name is shown unchanged |
| `ReservationsList.StatusLabelAsWrittenAgrees` | src/app/components/reservations-list/reservations-list.component.ts:141-148 | away from the names inherited from `Object.prototype`, the code as written gives the intended label |
| `ReservationsList.StatusLabelAsWrittenLeaks` | src/app/components/reservations-list/reservations-list.component.ts:147 | on an inherited name the code as written returns the inherited member, not the text |
| `ReservationsList.StatusLabelOfToString` | src/app/components/reservations-list/reservations-list.component.ts:141-148 | `getStatusLabel('toString')` as written is not the text `toString`, which the intended label returns |
| `ReservationsList.FormatDateTimeForInput` | src/app/components/reservations-list/reservations-list.component.ts:151-158 | the input value is empty exactly for an empty string |
| `ReservationsList.InputValueShape` | src/app/components/reservations-list/reservations-list.component.ts:152-158 | for years 1000..9999 the value is `YYYY-MM-DDTHH:MM`, 16 characters with `T` at index 10, the first 16 characters of the ISO string |
| `ReservationsList.InputValueRoundTrip` | src/app/components/reservations-list/reservations-list.component.ts:150-159 | for years 1000..9999 the value reads back as the instant truncated to the minute |
| `ReservationsList.SaveSendsIff` | src/app/components/reservations-list/reservations-list.component.ts:74-80 | nothing happens without an edited reservation; a request is sent iff both times are dates |
| `ReservationsList.SaveSendsDraft` | src/app/components/reservations-list/reservations-list.component.ts:74-85 | the update carries the draft's id, title, description and status, and both times as 19-character timestamps with a space at index 10 that read back as the instants truncated to the second |
| `JsDate.BackendTimestampShape` | src/app/components/reservations-list/reservations-list.component.ts:77-78 | for four-digit years the backend timestamp is the date key, a space and `HH:MM:SS`: 19 characters, a space at index 10 and no `T` left |
| `JsDate.BackendTimestampRoundTrip` | src/app/components/reservations-list/reservations-list.component.ts:77-78 | the backend timestamp reads back as the instant truncated to the second |
| `ReservationForm.TimeValidatorAccepts` | src/app/components/reservation-form/reservation-form.component.ts:52-72 | with both times present the validator passes iff `now <= start < end` |
| `ReservationForm.TimeValidatorErrors` | src/app/components/reservation-form/reservation-form.component.ts:60-68 | `invalidTime` iff `end <= start`, whether or not the start is past; `pastDate` iff `start < end` and `start < now` |
| `ReservationForm.TimeValidatorBlank` | src/app/components/reservation-form/reservation-form.component.ts:56-71 | an empty start or end makes the validator return null |
| `ReservationForm.TimeValidatorUnparseableStart` | src/app/components/reservation-form/reservation-form.component.ts:57-68 | an Invalid Date start is never rejected, because every comparison with it is false |
| `Text.Utf16LengthBounds` | src/app/components/reservation-form/reservation-form.component.ts:34 | the `.length` that `minLength(3)` reads is between the number of characters and twice it, and equals it when every character is in the Basic Multilingual Plane |
| `ReservationForm.SubmitCountsUtf16Units` | src/app/components/reservation-form/reservation-form.component.ts:34 | a title of two characters outside the Basic Multilingual Plane (four code units) passes `minLength(3)` and is sent |
| `ReservationForm.SubmitWarnsIff` | src/app/components/reservation-form/reservation-form.component.ts:95-130 | the warning is shown iff the form, as last validated, is invalid or no space is loaded |
| `ReservationForm.SubmitSendsValidInterval` | src/app/components/reservation-form/reservation-form.component.ts:95-108 | a sent request is for the loaded space, has a title of at least three UTF-16 code units, as `minLength` counts `.length`, and its times satisfy `validatedAt <= start < end`, where `validatedAt` is the clock at the last value change |
| `ReservationForm.SubmitAfterStartPassed` | src/app/components/reservation-form/reservation-form.component.ts:95-96 | a form validated earlier is sent even when its start has passed by submit time, because `onSubmit` reads the cached status |
| `ReservationForm.SubmitTimestamps` | src/app/components/reservation-form/reservation-form.component.ts:100-108 | for four-digit years the sent times are 19-character timestamps with a space at index 10 that read back as the entered instants truncated to the second |
| `ReservationForm.SubmitDescription` | src/app/components/reservation-form/reservation-form.component.ts:106 | a missing or empty description is sent as the empty string |
| `ReservationForm.SubmitUnparseableStartThrows` | src/app/components/reservation-form/reservation-form.component.ts:95-101 | a filled-in form whose start is not a date passes validation and throws in `toISOString` |
| `SpaceDetail.ProbeIsOnTheHour` | src/app/components/space-detail/space-detail.component.ts:87-88 | for an hour 0..23 the probe is on the same calendar day at exactly `hour:00:00.000` |
| `JsDate.SetHoursFields` | src/app/components/space-detail/space-detail.component.ts:88 | `setHours(hour, 0, 0, 0)` keeps the day and sets the time of day to `hour` hours |
| `SpaceDetail.IsReservedIff` | src/app/components/space-detail/space-detail.component.ts:86-95 | an hour is reserved iff some reservation has `start <= probe < end` |
| `SpaceDetail.NothingReservedWhenEmpty` | src/app/components/space-detail/space-detail.component.ts:90-94 | with no reservations no hour is reserved |
| `SpaceDetail.InvertedNeverReserve` | src/app/components/space-detail/space-detail.component.ts:90-94 | reservations with `end <= start` never reserve an hour |
| `SpaceDetail.IsReservedMonotone` | src/app/components/space-detail/space-detail.component.ts:90-94 | adding reservations anywhere in the list never frees a reserved hour |
| `SpaceDetail.HourBoundaries` | src/app/components/space-detail/space-detail.component.ts:93 | a booking ending exactly at `hour:00` leaves that hour free; one starting then occupies it |
| `JsDate.SetDateShifts` | src/app/components/space-detail/space-detail.component.ts:58-59 | `setDate(n)` moves the instant by `n - getDate()` whole days |
| `SpaceDetail.NextWeekIsSevenDaysLater` | src/app/components/space-detail/space-detail.component.ts:57-59 | `nextWeek` is exactly seven days after today at the same time of day |
| `SpaceDetail.QueryWindowDates` | src/app/components/space-detail/space-detail.component.ts:57-63 | the window runs from today's date key to the date key of the day seven days later |
| `SpaceDetail.QueryWindowSameMonth` | src/app/components/space-detail/space-detail.component.ts:58-59 | within a month the window ends on today's day of the month plus seven |
| `SpaceDetail.QueryWindowRollsOver` | src/app/components/space-detail/space-detail.component.ts:58-59 | past a month end the window ends on day `day + 7 - monthLength` of the next month, December rolling into January |
| `SpaceDetail.QueryWindowNewYear` | src/app/components/space-detail/space-detail.component.ts:58-59 | from December 25 on, the window ends in January of the next year |
| `SpaceDetail.QueryWindowOrdered` | src/app/components/space-detail/space-detail.component.ts:61-63 | for four-digit years the start key sorts strictly before the end key |

## Left out

- HTTP services, `subscribe` callbacks and `loading` flags are not modelled. Neither are notifications, routing, authentication, confirm dialogs, `console.error`, the month and weekday display names, and `getReservationTime`. These are I/O and display glue around the logic above.
- Time zones are not modelled. Every instant is read in one zone with UTC offset 0. In the source the grid uses local-time dates while day keys use UTC `toISOString`. With a non-zero offset the two can disagree by a day.
- Host date-string parsing is not modelled. A string is represented by the instant it denotes, or by `Unparseable` when `new Date` yields an Invalid Date.
- The `RangeError` thrown by `toISOString` for instants beyond 8.64e15 ms from the epoch is not modelled. Instants are unbounded integers.
- Case folding is ASCII only. `toLowerCase` folds all of Unicode.
- The reservation form's `timeValidator` calls `setErrors` on the individual controls. Those control-level errors are not modelled. Form validity is taken as the field validators plus the group validator.
- `CalendarView.CoversKeyIff`, `CalendarView.ReservationsForDateMembers`, `CalendarView.SingleDayReservation` and `CalendarView.InvertedReservation` hold for dates and reservation instants in years 0..9999 only. Outside that range `toISOString` prints a signed six-digit year, and string order no longer follows date order.
- `JsDate.DateKeyOrder` is stated for years 0..9999 only, for the same reason.
- `JsDate.BackendTimestampShape`, `JsDate.BackendTimestampRoundTrip`, `ReservationsList.SaveSendsDraft` and `ReservationForm.SubmitTimestamps` are stated for years 0..9999 only. A six-digit year makes the 19-character slice cut the time short.
- `ReservationsList.InputValueShape` and `ReservationsList.InputValueRoundTrip` are stated for years 1000..9999 only. `String(year)` does not pad shorter years, so the value is not `YYYY-MM-DDTHH:MM` for them.
- `SpaceDetail.QueryWindowOrdered` is stated for years 0..9999 only, for the same reason as the key-order lemma.
- `CalendarView.GenerateCalendarAsWritten`, `CalendarView.ReservationsForDateMembers` and `SpaceDetail.IsReservedIff` take every backend reservation time to parse, because `Reservation` holds instants. For a time that does not parse, `getReservationsForDate` throws a `RangeError` in `toISOString` and `generateCalendar` stops with `calendarDays` left empty, while `isReserved` silently skips that reservation.
- `ReservationForm.SubmitWarnsIff` takes validity as the field validators plus the group validator on the current values. The error that `timeValidator` puts on `end_time` with `setErrors({ invalidTime: true })` stays until `end_time` itself changes. So after an end before the start, correcting only the start leaves the form invalid and `onSubmit` warns, where the model sends the request.
- `ReservationForm.SubmitSendsValidInterval` promises `validatedAt <= start`, with `validatedAt` the clock at the form's last value change. It does not promise that the start is still in the future when the request is sent (`ReservationForm.SubmitAfterStartPassed`).
- `CalendarView.GridTodayUnique` reads the clock once for the whole grid. The source reads it once per cell, so a build that crosses midnight could mark two cells.

## Findings

| source | as written | input that shows it | evidently intended | confidence | as-written member | corrected member |
|---|---|---|---|---|---|---|
| src/app/components/calendar-view/calendar-view.component.ts:172-175 | `new Date(year, month - 1, 1)` goes through the host constructor, which reads a year argument 0..99 as 1900..1999 | the displayed month is December of year 99, reached by `previousMonth()` from January 100: `previousMonth()` shows November 1999 | one month back in the same proleptic calendar: November 99 | not executed; reachable only by navigating to years 0..99 | `CalendarView.PreviousMonthFromDecember99` | `CalendarView.PreviousMonthIs` |
| src/app/components/calendar-view/calendar-view.component.ts:177-180 | `new Date(year, month + 1, 1)` goes through the same constructor | the displayed month is January of year 50: `nextMonth()` shows February 1950; from January 100, back then forward ends in January 2000 | one month forward in the same calendar: February 50, and back then forward returns to January 100 | not executed; reachable only by navigating to years 0..99 | `CalendarView.NextMonthFromJanuary50` | `CalendarView.MonthStepsInverse` |
| src/app/components/calendar-view/calendar-view.component.ts:99-146 | every `new Date(year, …)` call in `generateCalendar` (and in `getFirstDayOfMonth` and `getLastDayOfMonth`) goes through the same constructor | the displayed month is December of year 99: the grid shown is that of December 1999 | the grid of December 99 | not executed; reachable only by navigating to years 0..99 | `CalendarView.GenerateCalendarAsWritten` | `CalendarView.GenerateCalendar` |
| src/app/components/reservations-list/reservations-list.component.ts:141-148 | the lookup `labels[status]` also finds the members every object literal inherits from `Object.prototype`, and a found member is truthy, so the fallback to `status` is skipped | `getStatusLabel('toString')` returns the function `Object.prototype.toString`, not the text `toString` | unknown strings are returned unchanged, which an own-property lookup gives | not executed; the backend sends only the three status names, so this shows only for other inputs | `ReservationsList.StatusLabelAsWrittenLeaks` | `ReservationsList.StatusLabelPassThrough` |
