/** The persisted `Assignment` record and the transient `CalendarEvent`. */
module Models {
  import opened Wrappers

  /** A record identity; UUIDs are compared only for equality. */
  type Uuid = nat

  /** A submission instant; only its ordering is used. */
  type Timestamp = int

  /** One assignment. `id` is `None` only for a record not yet saved. */
  datatype Assignment = Assignment(
    id: Option<Uuid>,
    agent: string,
    address: string,
    submittedOn: Timestamp,
    scheduled: bool,
    hidden: bool)

  /** An event pushed by the calendar system. Expected statuses are
      "confirmed", "tentative" and "cancelled", but any string may arrive. */
  datatype CalendarEvent = CalendarEvent(status: string, address: string)

  /** The `assignments` table, rows in insertion order. */
  type Store = seq<Assignment>

  /** Every persisted row has an id and no two rows share one. */
  ghost predicate ValidStore(s: Store) {
    && (forall i :: 0 <= i < |s| ==> s[i].id.Some?)
    && (forall i, j :: 0 <= i < j < |s| ==> s[i].id != s[j].id)
  }
}
