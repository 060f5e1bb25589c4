// The three persisted entities as plain values, the two interval tests the
// queries use, and the invariants the tables keep. Times are whole minutes;
// ids are the numbers the store's IDENTITY columns hand out.
module Entities {

  datatype Employee = Employee(id: int, name: string, email: string)

  /** A booked meeting; `participants` are employee ids, admin included. */
  datatype Meeting = Meeting(id: int, topic: string, participants: seq<int>, start: int, end: int)

  /** One employee's time range, booked (`isAvailable == false`) or free. */
  datatype CalendarSlot = CalendarSlot(id: int, owner: int, start: int, end: int, isAvailable: bool)

  /**
   * Half-open overlap used by every JPQL meeting query and by the free-slot
   * finder: ranges that only touch do not overlap.
   */
  predicate Overlaps(start: int, end: int, otherStart: int, otherEnd: int)
  {
    start < otherEnd && end > otherStart
  }

  /**
   * Closed overlap of the derived slot query `StartTimeLessThanEqual` /
   * `EndTimeGreaterThanEqual`: ranges that only touch count as overlapping.
   */
  predicate OverlapsInclusive(start: int, end: int, otherStart: int, otherEnd: int)
  {
    start <= otherEnd && end >= otherStart
  }

  function EmployeeIds(es: seq<Employee>): (r: seq<int>)
    ensures |r| == |es|
    ensures forall i :: 0 <= i < |es| ==> r[i] == es[i].id
  {
    seq(|es|, i requires 0 <= i < |es| => es[i].id)
  }

  /** No two stored employees share an email (the rule `createEmployee` enforces). */
  predicate UniqueEmails(es: seq<Employee>)
  {
    forall i, j :: 0 <= i < j < |es| ==> es[i].email != es[j].email
  }

  /**
   * Every participant of every meeting owns a slot with exactly that
   * meeting's range, as the booking writes them.
   */
  predicate SlotsCoverMeetings(meetings: seq<Meeting>, slots: seq<CalendarSlot>)
  {
    forall m, p :: m in meetings && p in m.participants ==>
      exists s :: s in slots && s.owner == p && s.start == m.start && s.end == m.end
  }

  /** No two stored meetings that share a participant overlap half-open. */
  predicate NoDoubleBooking(meetings: seq<Meeting>)
  {
    forall i, j, p :: 0 <= i < j < |meetings| && p in meetings[i].participants && p in meetings[j].participants ==>
      !Overlaps(meetings[i].start, meetings[i].end, meetings[j].start, meetings[j].end)
  }

  /**
   * The schedule the bookings build: each meeting's participants hold a
   * slot with its range, and no participant is in two overlapping meetings.
   */
  predicate ConsistentSchedule(meetings: seq<Meeting>, slots: seq<CalendarSlot>)
  {
    SlotsCoverMeetings(meetings, slots) && NoDoubleBooking(meetings)
  }

  /** No two stored employees share an id. */
  predicate UniqueEmployeeIds(es: seq<Employee>)
  {
    forall i, j :: 0 <= i < j < |es| ==> es[i].id != es[j].id
  }
}
