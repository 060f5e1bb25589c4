// The JPQL meeting queries as filters over the meeting table. A JOIN on
// the participants is read as "the meeting lists this employee".
module MeetingRepository {
  import opened Seqs
  import opened Entities

  /** `findMeetingsInTimeRange`: meetings with start < end of window and end > start of window. */
  function FindMeetingsInTimeRange(ms: seq<Meeting>, requestedStart: int, requestedEnd: int): (r: seq<Meeting>)
    ensures forall m :: m in r <==> m in ms && m.start < requestedEnd && m.end > requestedStart
    ensures forall m :: multiset(r)[m] == (if Overlaps(m.start, m.end, requestedStart, requestedEnd) then multiset(ms)[m] else 0)
  {
    Filter(ms, (m: Meeting) => Overlaps(m.start, m.end, requestedStart, requestedEnd))
  }

  /** `findByEmployeeId`: the meetings listing the employee, in table order. */
  function FindByEmployeeId(ms: seq<Meeting>, employeeId: int): (r: seq<Meeting>)
    ensures forall m :: m in r <==> m in ms && employeeId in m.participants
    ensures forall m :: multiset(r)[m] == if employeeId in m.participants then multiset(ms)[m] else 0
  {
    Filter(ms, (m: Meeting) => employeeId in m.participants)
  }

  /**
   * `existsByEmployeeIdAndTimeRange`: COUNT > 0 over the employee's meetings
   * that overlap the window half-open.
   */
  function ExistsByEmployeeIdAndTimeRange(ms: seq<Meeting>, employeeId: int, requestedStart: int, requestedEnd: int): (b: bool)
    ensures b <==> exists m :: m in ms && employeeId in m.participants &&
                              m.start < requestedEnd && m.end > requestedStart
  {
    |Filter(FindByEmployeeId(ms, employeeId), (m: Meeting) => Overlaps(m.start, m.end, requestedStart, requestedEnd))| > 0
  }

  /** `findByEmployeeIds`: meetings listing at least one of the given employees. */
  function FindByEmployeeIds(ms: seq<Meeting>, employeeIds: seq<int>): (r: seq<Meeting>)
    ensures forall m :: m in r <==> m in ms && exists p :: p in m.participants && p in employeeIds
  {
    Filter(ms, (m: Meeting) => exists p :: p in m.participants && p in employeeIds)
  }

  predicate SortedByStart(ms: seq<Meeting>)
  {
    forall i, j :: 0 <= i < j < |ms| ==> ms[i].start <= ms[j].start
  }

  /** Inserts `m` into a start-sorted sequence, after every meeting starting no later. */
  function InsertByStart(m: Meeting, sorted: seq<Meeting>): (r: seq<Meeting>)
    requires SortedByStart(sorted)
    ensures SortedByStart(r)
    ensures multiset(r) == multiset(sorted) + multiset{m}
    ensures forall x :: x in r ==> x == m || x in sorted
  {
    if sorted == [] then [m]
    else if m.start < sorted[0].start then [m] + sorted
    else
      var rest := InsertByStart(m, sorted[1..]);
      assert sorted == [sorted[0]] + sorted[1..];
      assert forall x :: x in rest ==> sorted[0].start <= x.start;
      ConsSorted(sorted[0], rest);
      [sorted[0]] + rest
  }

  lemma ConsSorted(first: Meeting, rest: seq<Meeting>)
    requires SortedByStart(rest)
    requires forall x :: x in rest ==> first.start <= x.start
    ensures SortedByStart([first] + rest)
  {
    forall i, j | 0 <= i < j < |[first] + rest| ensures ([first] + rest)[i].start <= ([first] + rest)[j].start {
      if i == 0 {
        assert ([first] + rest)[j] in rest;
      }
    }
  }

  function SortByStart(ms: seq<Meeting>): (r: seq<Meeting>)
    ensures SortedByStart(r)
    ensures multiset(r) == multiset(ms)
  {
    if ms == [] then []
    else
      assert ms == ms[..|ms| - 1] + [ms[|ms| - 1]];
      InsertByStart(ms[|ms| - 1], SortByStart(ms[..|ms| - 1]))
  }

  /**
   * `findByEmployeeOrderByStartTime`: the employee's meetings, every one of
   * them exactly as often as the table holds it, by non-decreasing start.
   */
  function FindByEmployeeOrderByStartTime(ms: seq<Meeting>, employeeId: int): (r: seq<Meeting>)
    ensures SortedByStart(r)
    ensures multiset(r) == multiset(FindByEmployeeId(ms, employeeId))
  {
    SortByStart(FindByEmployeeId(ms, employeeId))
  }
}
