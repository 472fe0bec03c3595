/** The records the client receives from the backend: spaces and
    reservations. Optional JSON fields become `Option`; the `start_time` and
    `end_time` strings are represented by the instants they denote. */
module Models {

  datatype Option<T> = None | Some(value: T)

  /** A bookable space. */
  datatype Space = Space(
    id: int,
    name: string,
    description: Option<string>,
    capacity: int,
    location: Option<string>,
    isActive: bool)

  /** The three reservation states the backend uses. */
  datatype Status = Pending | Confirmed | Cancelled

  /** The wire name of a status, as it appears in JSON and in filter values. */
  function StatusName(s: Status): string {
    match s
    case Pending => "pending"
    case Confirmed => "confirmed"
    case Cancelled => "cancelled"
  }

  /** A reservation; `start` and `end` are instants in milliseconds. */
  datatype Reservation = Reservation(
    id: int,
    userId: int,
    spaceId: int,
    title: string,
    description: Option<string>,
    start: int,
    end: int,
    status: Status)

  /** A date/time string as `new Date(value)` reads it: the empty string, a
      string that is not a date (an Invalid Date), or a string denoting an
      instant. */
  datatype DateField = Blank | Unparseable | At(t: int)
}
