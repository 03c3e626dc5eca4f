/**
 * The attendance record of the back end's TimeLog schema.
 *
 * Calendar dates are ISO strings "YYYY-MM-DD" in the source; they are modelled as
 * UTC day numbers (milliseconds since the epoch divided by the length of a day),
 * which order the same way the strings do. Instants are milliseconds since the epoch.
 * Durations are kept in hundredths of an hour, the precision the controller rounds to.
 */
module TimeLogModel {
  import opened Common

  type LogId = nat

  /** Milliseconds in one UTC day. */
  const DayMs: nat := 86_400_000
  /** Milliseconds in one hour. */
  const HourMs: nat := 3_600_000

  /**
   * One attendance entry. `user`, `date` and `timeIn` are required by the schema;
   * `timeOut` is optional and its absence marks the entry as open; `totalHours`
   * (in hundredths of an hour) defaults to 0.
   */
  datatype Entry = Entry(
    id: LogId,
    user: UserId,
    date: nat,
    timeIn: nat,
    timeOut: Option<nat>,
    totalHours: int)
  {
    predicate IsOpen() { timeOut.None? }
  }

  /** The UTC calendar day containing the instant `now`. */
  function DayKey(now: nat): (r: nat)
    ensures DayMs * r <= now < DayMs * (r + 1)
  {
    now / DayMs
  }

  /** A freshly created entry: the required fields given, every other field at its schema default. */
  function NewEntry(id: LogId, user: UserId, date: nat, timeIn: nat): (r: Entry)
    ensures r.IsOpen() && r.totalHours == 0
    ensures r.id == id && r.user == user && r.date == date && r.timeIn == timeIn
  {
    Entry(id, user, date, timeIn, None, 0)
  }
}
