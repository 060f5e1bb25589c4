// The relational store behind the repositories: one table per entity, kept
// in insertion order, and the counters of their IDENTITY id columns.
module Store {
  import opened Entities

  class Store {
    var employees: seq<Employee>
    var meetings: seq<Meeting>
    var slots: seq<CalendarSlot>
    var nextEmployeeId: int
    var nextMeetingId: int
    var nextSlotId: int

    /**
     * Ids are unique and below their counters, emails are unique, every slot
     * and every meeting participant refers to a stored employee, and every
     * booked range has start <= end.
     */
    ghost predicate Valid()
      reads this
    {
      UniqueEmails(employees) && UniqueEmployeeIds(employees) &&
      (forall i :: 0 <= i < |employees| ==> employees[i].id < nextEmployeeId) &&
      (forall i, j :: 0 <= i < j < |meetings| ==> meetings[i].id != meetings[j].id) &&
      (forall i :: 0 <= i < |meetings| ==> meetings[i].id < nextMeetingId) &&
      (forall i, j :: 0 <= i < j < |slots| ==> slots[i].id != slots[j].id) &&
      (forall i :: 0 <= i < |slots| ==> slots[i].id < nextSlotId) &&
      (forall i :: 0 <= i < |slots| ==> slots[i].owner in EmployeeIds(employees)) &&
      (forall i :: 0 <= i < |slots| ==> slots[i].start <= slots[i].end) &&
      (forall i, p :: 0 <= i < |meetings| && p in meetings[i].participants ==> p in EmployeeIds(employees)) &&
      (forall i :: 0 <= i < |meetings| ==> meetings[i].start <= meetings[i].end)
    }

    constructor ()
      ensures Valid() && ConsistentSchedule(meetings, slots)
      ensures employees == [] && meetings == [] && slots == []
      ensures nextEmployeeId == 1 && nextMeetingId == 1 && nextSlotId == 1
    {
      employees, meetings, slots := [], [], [];
      nextEmployeeId, nextMeetingId, nextSlotId := 1, 1, 1;
    }
  }
}
