// The calendar-slot queries as filters over the slot table. Queries by an
// Employee entity compare the employee's id, so they take the owner id.
module CalendarSlotRepository {
  import opened Seqs
  import opened Entities

  /** `findByEmployee` and the JPQL `findByEmployeeId`: every slot of one owner, in table order. */
  function FindByEmployee(slots: seq<CalendarSlot>, owner: int): (r: seq<CalendarSlot>)
    ensures forall s :: s in r <==> s in slots && s.owner == owner
    ensures forall s :: multiset(r)[s] == if s.owner == owner then multiset(slots)[s] else 0
  {
    Filter(slots, (s: CalendarSlot) => s.owner == owner)
  }

  /** `findByEmployeeAndIsAvailableTrue`: the owner's slots whose flag is set. */
  function FindAvailableByEmployee(slots: seq<CalendarSlot>, owner: int): (r: seq<CalendarSlot>)
    ensures forall s :: s in r <==> s in slots && s.owner == owner && s.isAvailable
    ensures forall s :: multiset(r)[s] == if s.owner == owner && s.isAvailable then multiset(slots)[s] else 0
  {
    Filter(slots, (s: CalendarSlot) => s.owner == owner && s.isAvailable)
  }

  /**
   * `existsByEmployeeAndStartTimeLessThanEqualAndEndTimeGreaterThanEqual(
   * employee, endTime, startTime)`: the derived query binds its arguments by
   * position, so it asks for a slot of the owner with start <= endTime and
   * end >= startTime. Both bounds are inclusive and the availability flag is
   * not consulted.
   */
  function ExistsOverlappingInclusive(slots: seq<CalendarSlot>, owner: int, endTime: int, startTime: int): (b: bool)
    ensures b <==> exists s :: s in slots && s.owner == owner && s.start <= endTime && s.end >= startTime
  {
    |Filter(slots, (s: CalendarSlot) => s.owner == owner && OverlapsInclusive(s.start, s.end, startTime, endTime))| > 0
  }
}
