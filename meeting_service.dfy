// The scheduling service: booking a meeting (a fail-fast validation chain,
// an inclusive slot-conflict scan, then the writes), the diagnostic list of
// employees whose meetings overlap a window, and the free-slot finder.
// Each operation is an imperative method over the store, proved against a
// function of the store's tables.
module MeetingService {
  import opened Seqs
  import opened Entities
  import opened Store
  import opened EmployeeService
  import opened MeetingRepository
  import opened CalendarSlotRepository

  datatype BookingRequest = BookingRequest(
    adminId: int, topic: string, participantIds: seq<int>, start: int, end: int)

  /** The failures of `bookMeeting`, in the order they are checked. */
  datatype BookingError =
    | AdminNotFound                         // EntityNotFoundException("Admin not found.")
    | EmployeesNotFound(ids: seq<int>)      // EntityNotFoundException listing the unknown ids
    | NoParticipants                        // IllegalArgumentException
    | StartAfterEnd                         // IllegalArgumentException
    | ParticipantsNotFound                  // ResourceNotFoundException: fewer rows than ids
    | SchedulingConflict(participant: Employee)  // ConflictException naming the participant

  /** One participant of a booked meeting with every slot it owns after the writes. */
  datatype ParticipantView = ParticipantView(employee: Employee, calendarSlots: seq<CalendarSlot>)

  datatype MeetingResponse = MeetingResponse(meeting: Meeting, participants: seq<ParticipantView>)

  /**
   * `findAllById`: the stored employees whose id is requested. An IN query
   * has no ORDER BY, so table order is used, and a repeated id matches its
   * row only once.
   */
  function FindAllById(es: seq<Employee>, ids: seq<int>): (r: seq<Employee>)
    ensures forall e :: e in r <==> e in es && e.id in ids
  {
    Filter(es, (e: Employee) => e.id in ids)
  }

  /** The requested ids no stored employee carries, in request order. */
  function UnknownIds(es: seq<Employee>, ids: seq<int>): (r: seq<int>)
    ensures forall id :: id in r <==> id in ids && !EmployeeExists(es, id)
  {
    Filter(ids, (id: int) => !EmployeeExists(es, id))
  }

  /** The booking-time conflict test of one participant: a slot meeting [start, end] with closed bounds. */
  predicate HasSlotConflict(slots: seq<CalendarSlot>, p: Employee, start: int, end: int)
  {
    ExistsOverlappingInclusive(slots, p.id, end, start)
  }

  /** Position of the first participant with a slot conflict, or |ps| when there is none. */
  function FirstConflict(slots: seq<CalendarSlot>, ps: seq<Employee>, start: int, end: int): (i: nat)
    ensures i <= |ps|
    ensures forall j :: 0 <= j < i ==> !HasSlotConflict(slots, ps[j], start, end)
    ensures i < |ps| ==> HasSlotConflict(slots, ps[i], start, end)
  {
    FirstConflictFrom(slots, ps, start, end, 0)
  }

  /** Position of the first participant from `from` on with a slot conflict, or |ps| when there is none. */
  function FirstConflictFrom(slots: seq<CalendarSlot>, ps: seq<Employee>, start: int, end: int, from: nat): (i: nat)
    requires from <= |ps|
    ensures from <= i <= |ps|
    ensures forall j :: from <= j < i ==> !HasSlotConflict(slots, ps[j], start, end)
    ensures i < |ps| ==> HasSlotConflict(slots, ps[i], start, end)
    decreases |ps| - from
  {
    if from == |ps| then from
    else if HasSlotConflict(slots, ps[from], start, end) then from
    else FirstConflictFrom(slots, ps, start, end, from + 1)
  }

  /**
   * What `bookMeeting` decides from the employee and slot tables: the first
   * failing check, or the participants to book (the resolved employees in
   * table order, then the admin, who is appended even when already listed).
   */
  function ValidateBooking(es: seq<Employee>, slots: seq<CalendarSlot>, req: BookingRequest): (r: Result<seq<Employee>, BookingError>)
    ensures r.Ok? ==> |r.value| == |req.participantIds| + 1 && req.start <= req.end
    ensures r.Ok? ==> r.value[|req.participantIds|].id == req.adminId
    ensures r.Ok? ==> forall i :: 0 <= i < |req.participantIds| ==> r.value[i].id in req.participantIds
    ensures r.Ok? ==> forall p :: p in r.value ==> p in es && !HasSlotConflict(slots, p, req.start, req.end)
    ensures r.Err? && r.error.SchedulingConflict? ==>
      r.error.participant in es && HasSlotConflict(slots, r.error.participant, req.start, req.end)
  {
    if !EmployeeExists(es, req.adminId) then Err(AdminNotFound)
    else if UnknownIds(es, req.participantIds) != [] then Err(EmployeesNotFound(UnknownIds(es, req.participantIds)))
    else if req.participantIds == [] then Err(NoParticipants)
    else if req.start > req.end then Err(StartAfterEnd)
    else if |FindAllById(es, req.participantIds)| != |req.participantIds| then Err(ParticipantsNotFound)
    else ConflictStage(es, slots, req)
  }

  /**
   * The last stage of `ValidateBooking`, reached once every id is resolved:
   * the conflict loop over the resolved employees followed by the admin.
   */
  function ConflictStage(es: seq<Employee>, slots: seq<CalendarSlot>, req: BookingRequest): (r: Result<seq<Employee>, BookingError>)
    requires EmployeeExists(es, req.adminId)
    requires |FindAllById(es, req.participantIds)| == |req.participantIds|
    ensures r.Ok? ==> |r.value| == |req.participantIds| + 1
    ensures r.Ok? ==> r.value[|req.participantIds|].id == req.adminId
    ensures r.Ok? ==> forall i :: 0 <= i < |req.participantIds| ==> r.value[i].id in req.participantIds
    ensures r.Ok? ==> forall p :: p in r.value ==> p in es && !HasSlotConflict(slots, p, req.start, req.end)
    ensures r.Err? ==> (r.error.SchedulingConflict? &&
      r.error.participant in es && HasSlotConflict(slots, r.error.participant, req.start, req.end))
  {
    var found := FindAllById(es, req.participantIds);
    var participants := found + [GetEmployeeById(es, req.adminId).value];
    assert forall i :: 0 <= i < |found| ==> participants[i] in found;
    var checked := CheckConflicts(slots, participants, req.start, req.end);
    assert checked.Ok? ==> checked.value == participants;
    checked
  }

  /**
   * The conflict loop of `bookMeeting`: the participants pass when none
   * has a slot conflict; otherwise the first one that has is reported.
   */
  function CheckConflicts(slots: seq<CalendarSlot>, participants: seq<Employee>, start: int, end: int): (r: Result<seq<Employee>, BookingError>)
    ensures r.Ok? <==> forall j :: 0 <= j < |participants| ==> !HasSlotConflict(slots, participants[j], start, end)
    ensures r.Ok? ==> r.value == participants
    ensures r.Ok? ==> forall p :: p in participants ==> !HasSlotConflict(slots, p, start, end)
    ensures r.Err? ==> (r.error.SchedulingConflict? && r.error.participant in participants &&
      HasSlotConflict(slots, r.error.participant, start, end))
    ensures r.Err? ==> exists i :: (0 <= i < |participants| && r.error == SchedulingConflict(participants[i]) &&
      HasSlotConflict(slots, participants[i], start, end) &&
      forall j :: 0 <= j < i ==> !HasSlotConflict(slots, participants[j], start, end))
  {
    var i := FirstConflict(slots, participants, start, end);
    if i < |participants| then Err(SchedulingConflict(participants[i])) else Ok(participants)
  }

  /** The booked slot written for each participant, under consecutive ids from `firstId`. */
  function BookedSlots(ps: seq<Employee>, firstId: int, start: int, end: int): (r: seq<CalendarSlot>)
    ensures |r| == |ps|
    ensures forall k :: 0 <= k < |ps| ==> r[k] == CalendarSlot(firstId + k, ps[k].id, start, end, false)
  {
    seq(|ps|, k requires 0 <= k < |ps| => CalendarSlot(firstId + k, ps[k].id, start, end, false))
  }

  /** Every participant with the full slot list it owns in `slots`. */
  function SlotHistory(ps: seq<Employee>, slots: seq<CalendarSlot>): (r: seq<ParticipantView>)
    ensures |r| == |ps|
    ensures forall k :: 0 <= k < |ps| ==> r[k] == ParticipantView(ps[k], FindByEmployee(slots, ps[k].id))
  {
    seq(|ps|, k requires 0 <= k < |ps| => ParticipantView(ps[k], FindByEmployee(slots, ps[k].id)))
  }

  /**
   * A participant of a validated booking holds no slot meeting its range, so
   * no meeting covered by one of that participant's slots overlaps it.
   */
  lemma BookedParticipantFree(es: seq<Employee>, slots: seq<CalendarSlot>, req: BookingRequest, ps: seq<Employee>, other: Meeting, p: int)
    requires ValidateBooking(es, slots, req) == Ok(ps)
    requires p in EmployeeIds(ps)
    requires exists s :: s in slots && s.owner == p && s.start == other.start && s.end == other.end
    ensures !Overlaps(other.start, other.end, req.start, req.end)
  {
    var k :| 0 <= k < |ps| && EmployeeIds(ps)[k] == p;
    assert ps[k] in ps;
    assert !HasSlotConflict(slots, ps[k], req.start, req.end);
    var s :| s in slots && s.owner == p && s.start == other.start && s.end == other.end;
    assert !OverlapsInclusive(s.start, s.end, req.start, req.end);
  }

  /** Every participant of the booked meeting owns one of the booked slots. */
  lemma BookedSlotsCoverMeeting(ps: seq<Employee>, firstId: int, start: int, end: int, p: int)
    requires p in EmployeeIds(ps)
    ensures exists s :: s in BookedSlots(ps, firstId, start, end) && s.owner == p && s.start == start && s.end == end
  {
    var k :| 0 <= k < |ps| && EmployeeIds(ps)[k] == p;
    assert BookedSlots(ps, firstId, start, end)[k] in BookedSlots(ps, firstId, start, end);
  }

  /** After a booking's writes, the stored slots still cover every stored meeting. */
  lemma BookingKeepsCover(slots: seq<CalendarSlot>, ms: seq<Meeting>, req: BookingRequest, ps: seq<Employee>, mid: int, firstId: int)
    requires SlotsCoverMeetings(ms, slots)
    ensures SlotsCoverMeetings(ms + [Meeting(mid, req.topic, EmployeeIds(ps), req.start, req.end)],
                               slots + BookedSlots(ps, firstId, req.start, req.end))
  {
    var ms' := ms + [Meeting(mid, req.topic, EmployeeIds(ps), req.start, req.end)];
    var booked := BookedSlots(ps, firstId, req.start, req.end);
    var slots' := slots + booked;
    forall m, p | m in ms' && p in m.participants
      ensures exists s :: s in slots' && s.owner == p && s.start == m.start && s.end == m.end
    {
      if m in ms {
        var s :| s in slots && s.owner == p && s.start == m.start && s.end == m.end;
        assert s in slots';
      } else {
        BookedSlotsCoverMeeting(ps, firstId, req.start, req.end, p);
        var s :| s in booked && s.owner == p && s.start == m.start && s.end == m.end;
        assert s in slots';
      }
    }
  }

  /** After a validated booking, no participant is in two overlapping meetings. */
  lemma BookingKeepsNoDoubleBooking(es: seq<Employee>, slots: seq<CalendarSlot>, ms: seq<Meeting>, req: BookingRequest, ps: seq<Employee>, mid: int)
    requires SlotsCoverMeetings(ms, slots) && NoDoubleBooking(ms)
    requires ValidateBooking(es, slots, req) == Ok(ps)
    ensures NoDoubleBooking(ms + [Meeting(mid, req.topic, EmployeeIds(ps), req.start, req.end)])
  {
    var ms' := ms + [Meeting(mid, req.topic, EmployeeIds(ps), req.start, req.end)];
    forall i, j, p | 0 <= i < j < |ms'| && p in ms'[i].participants && p in ms'[j].participants
      ensures !Overlaps(ms'[i].start, ms'[i].end, ms'[j].start, ms'[j].end)
    {
      assert ms'[i] == ms[i];
      if j == |ms| {
        assert ms[i] in ms;
        BookedParticipantFree(es, slots, req, ps, ms[i], p);
      } else {
        assert ms'[j] == ms[j];
      }
    }
  }

  /**
   * `bookMeeting`: any failure leaves the store as it was; success appends
   * one meeting and one unavailable slot per participant, and answers with
   * each participant's slot history read after the writes.
   */
  method BookMeeting(db: Store, req: BookingRequest) returns (r: Result<MeetingResponse, BookingError>)
    requires db.Valid()
    modifies db
    ensures db.Valid()
    ensures ConsistentSchedule(old(db.meetings), old(db.slots)) ==> ConsistentSchedule(db.meetings, db.slots)
    ensures ValidateBooking(old(db.employees), old(db.slots), req).Err? ==>
      r == Err(ValidateBooking(old(db.employees), old(db.slots), req).error) && unchanged(db)
    ensures ValidateBooking(old(db.employees), old(db.slots), req).Ok? ==>
      var ps := ValidateBooking(old(db.employees), old(db.slots), req).value;
      var meeting := Meeting(old(db.nextMeetingId), req.topic, EmployeeIds(ps), req.start, req.end);
      && db.employees == old(db.employees)
      && db.meetings == old(db.meetings) + [meeting]
      && db.slots == old(db.slots) + BookedSlots(ps, old(db.nextSlotId), req.start, req.end)
      && db.nextEmployeeId == old(db.nextEmployeeId)
      && db.nextMeetingId == old(db.nextMeetingId) + 1
      && db.nextSlotId == old(db.nextSlotId) + |ps|
      && r == Ok(MeetingResponse(meeting, SlotHistory(ps, db.slots)))
  {
    if !EmployeeExists(db.employees, req.adminId) {
      return Err(AdminNotFound);
    }
    var invalidIds := UnknownIds(db.employees, req.participantIds);
    if invalidIds != [] {
      return Err(EmployeesNotFound(invalidIds));
    }
    if req.participantIds == [] {
      return Err(NoParticipants);
    }
    if req.start > req.end {
      return Err(StartAfterEnd);
    }
    var participants := FindAllById(db.employees, req.participantIds);
    if |participants| != |req.participantIds| {
      return Err(ParticipantsNotFound);
    }
    var admin := GetEmployeeById(db.employees, req.adminId).value;
    participants := participants + [admin];

    var k := ScanForConflict(db.slots, participants, req.start, req.end);
    if k < |participants| {
      return Err(SchedulingConflict(participants[k]));
    }
    assert ValidateBooking(db.employees, db.slots, req) == Ok(participants);
    r := CommitBooking(db, req, participants);
  }

  /**
   * The write phase of `bookMeeting`, reached with the validated
   * participants: the meeting, then one booked slot per participant, then
   * the response read back from the slot table.
   */
  method CommitBooking(db: Store, req: BookingRequest, participants: seq<Employee>) returns (r: Result<MeetingResponse, BookingError>)
    requires db.Valid()
    requires ValidateBooking(db.employees, db.slots, req) == Ok(participants)
    modifies db
    ensures db.Valid()
    ensures ConsistentSchedule(old(db.meetings), old(db.slots)) ==> ConsistentSchedule(db.meetings, db.slots)
    ensures var meeting := Meeting(old(db.nextMeetingId), req.topic, EmployeeIds(participants), req.start, req.end);
      && db.employees == old(db.employees)
      && db.meetings == old(db.meetings) + [meeting]
      && db.slots == old(db.slots) + BookedSlots(participants, old(db.nextSlotId), req.start, req.end)
      && db.nextEmployeeId == old(db.nextEmployeeId)
      && db.nextMeetingId == old(db.nextMeetingId) + 1
      && db.nextSlotId == old(db.nextSlotId) + |participants|
      && r == Ok(MeetingResponse(meeting, SlotHistory(participants, db.slots)))
  {
    if ConsistentSchedule(db.meetings, db.slots) {
      BookingKeepsCover(db.slots, db.meetings, req, participants, db.nextMeetingId, db.nextSlotId);
      BookingKeepsNoDoubleBooking(db.employees, db.slots, db.meetings, req, participants, db.nextMeetingId);
    }
    var meeting := SaveMeeting(db, req.topic, participants, req.start, req.end);
    SaveBookedSlots(db, participants, req.start, req.end);
    r := Ok(MeetingResponse(meeting, SlotHistory(participants, db.slots)));
  }

  /**
   * The conflict loop of `bookMeeting`: participants are examined in order
   * and the first one with a slot conflict is reported by position.
   */
  method ScanForConflict(slots: seq<CalendarSlot>, participants: seq<Employee>, start: int, end: int) returns (k: nat)
    ensures k == FirstConflict(slots, participants, start, end)
  {
    for i := 0 to |participants|
      invariant forall j :: 0 <= j < i ==> !HasSlotConflict(slots, participants[j], start, end)
    {
      if HasSlotConflict(slots, participants[i], start, end) {
        return i;
      }
    }
    return |participants|;
  }

  /** `meetingRepository.save`: appends the meeting under the next meeting id. */
  method SaveMeeting(db: Store, topic: string, participants: seq<Employee>, start: int, end: int) returns (meeting: Meeting)
    requires db.Valid()
    requires forall p :: p in participants ==> p in db.employees
    requires start <= end
    modifies db
    ensures db.Valid()
    ensures meeting == Meeting(old(db.nextMeetingId), topic, EmployeeIds(participants), start, end)
    ensures db.meetings == old(db.meetings) + [meeting] && db.nextMeetingId == old(db.nextMeetingId) + 1
    ensures db.employees == old(db.employees) && db.slots == old(db.slots)
    ensures db.nextEmployeeId == old(db.nextEmployeeId) && db.nextSlotId == old(db.nextSlotId)
  {
    meeting := Meeting(db.nextMeetingId, topic, EmployeeIds(participants), start, end);
    forall p | p in meeting.participants ensures p in EmployeeIds(db.employees) {
      var i :| 0 <= i < |participants| && EmployeeIds(participants)[i] == p;
      assert participants[i] in db.employees;
    }
    db.meetings := db.meetings + [meeting];
    db.nextMeetingId := db.nextMeetingId + 1;
  }

  /** The slot loop of `bookMeeting`: one unavailable slot per participant, in order. */
  method SaveBookedSlots(db: Store, participants: seq<Employee>, start: int, end: int)
    requires db.Valid()
    requires forall p :: p in participants ==> p in db.employees
    requires start <= end
    modifies db
    ensures db.Valid()
    ensures db.slots == old(db.slots) + BookedSlots(participants, old(db.nextSlotId), start, end)
    ensures db.nextSlotId == old(db.nextSlotId) + |participants|
    ensures db.employees == old(db.employees) && db.meetings == old(db.meetings)
    ensures db.nextEmployeeId == old(db.nextEmployeeId) && db.nextMeetingId == old(db.nextMeetingId)
  {
    for k := 0 to |participants|
      invariant db.Valid()
      invariant db.employees == old(db.employees) && db.meetings == old(db.meetings)
      invariant db.nextEmployeeId == old(db.nextEmployeeId) && db.nextMeetingId == old(db.nextMeetingId)
      invariant db.slots == old(db.slots) + BookedSlots(participants[..k], old(db.nextSlotId), start, end)
      invariant db.nextSlotId == old(db.nextSlotId) + k
    {
      var slot := CalendarSlot(db.nextSlotId, participants[k].id, start, end, false);
      assert participants[k] in db.employees;
      assert BookedSlots(participants[..k + 1], old(db.nextSlotId), start, end)
        == BookedSlots(participants[..k], old(db.nextSlotId), start, end) + [slot];
      db.slots := db.slots + [slot];
      db.nextSlotId := db.nextSlotId + 1;
    }
    assert participants[..|participants|] == participants;
  }

  /** `LocalDateTime.plusMinutes` on whole-minute timestamps. */
  function PlusMinutes(time: int, minutes: int): int
  {
    time + minutes
  }

  /** Participant ids of the meetings, meeting by meeting, repeats kept. */
  function ParticipantIds(ms: seq<Meeting>): seq<int>
  {
    if ms == [] then [] else ParticipantIds(ms[..|ms| - 1]) + ms[|ms| - 1].participants
  }

  lemma ParticipantIdsSnoc(ms: seq<Meeting>, i: int)
    requires 0 <= i < |ms|
    ensures ParticipantIds(ms[..i + 1]) == ParticipantIds(ms[..i]) + ms[i].participants
  {
    assert ms[..i + 1][..i] == ms[..i];
  }

  /** One step of the inner loop of `findConflictedParticipants`. */
  lemma DedupPrefix(seen: seq<int>, ps: seq<int>, j: int)
    requires 0 <= j < |ps|
    ensures Dedup(seen + ps[..j + 1]) ==
      if ps[j] in Dedup(seen + ps[..j]) then Dedup(seen + ps[..j]) else Dedup(seen + ps[..j]) + [ps[j]]
  {
    assert seen + ps[..j + 1] == seen + ps[..j] + [ps[j]];
    DedupSnoc(seen + ps[..j], ps[j]);
  }

  /** An id is listed exactly when some of the meetings has it as participant. */
  lemma {:induction false} ParticipantIdsMembership(ms: seq<Meeting>, id: int)
    ensures id in ParticipantIds(ms) <==> exists m :: m in ms && id in m.participants
  {
    if ms != [] {
      var ms' := ms[..|ms| - 1];
      assert ms == ms' + [ms[|ms| - 1]];
      ParticipantIdsMembership(ms', id);
      if id in ParticipantIds(ms') {
        var m :| m in ms' && id in m.participants;
        assert m in ms;
      }
    }
  }

  /**
   * The inner loop of `findConflictedParticipants`: appends every
   * participant not listed yet, in order.
   */
  method AddUnseen(listed: seq<int>, ghost seen: seq<int>, participants: seq<int>) returns (r: seq<int>)
    requires listed == Dedup(seen)
    ensures r == Dedup(seen + participants)
  {
    r := listed;
    assert seen + participants[..0] == seen;
    for j := 0 to |participants|
      invariant r == Dedup(seen + participants[..j])
    {
      DedupPrefix(seen, participants, j);
      if participants[j] !in r {
        r := r + [participants[j]];
      }
    }
    assert participants[..|participants|] == participants;
  }

  /** The ids the conflict finder reports are exactly the participants of overlapping meetings. */
  lemma ConflictedParticipantsMembership(meetings: seq<Meeting>, requestedStart: int, requestedEnd: int)
    ensures forall id :: id in Dedup(ParticipantIds(FindMeetingsInTimeRange(meetings, requestedStart, requestedEnd))) <==>
      exists m :: m in meetings && id in m.participants && m.start < requestedEnd && m.end > requestedStart
  {
    forall id {
      ParticipantIdsMembership(FindMeetingsInTimeRange(meetings, requestedStart, requestedEnd), id);
    }
  }

  /**
   * `findConflictedParticipants`: the participants of every meeting that
   * overlaps the window [requestedStart, requestedStart + durationMinutes) half-open,
   * each once, in order of first appearance over meetings then participants.
   */
  method FindConflictedParticipants(db: Store, requestedStart: int, durationMinutes: int) returns (r: seq<int>)
    ensures r == Dedup(ParticipantIds(FindMeetingsInTimeRange(db.meetings, requestedStart, PlusMinutes(requestedStart, durationMinutes))))
    ensures NoDuplicates(r)
    ensures forall id :: id in r <==>
      exists m :: m in db.meetings && id in m.participants && m.start < PlusMinutes(requestedStart, durationMinutes) && m.end > requestedStart
  {
    var requestedEnd := PlusMinutes(requestedStart, durationMinutes);
    var conflictingMeetings := FindMeetingsInTimeRange(db.meetings, requestedStart, requestedEnd);
    r := [];
    for i := 0 to |conflictingMeetings|
      invariant r == Dedup(ParticipantIds(conflictingMeetings[..i]))
    {
      ghost var seen := ParticipantIds(conflictingMeetings[..i]);
      r := AddUnseen(r, seen, conflictingMeetings[i].participants);
      ParticipantIdsSnoc(conflictingMeetings, i);
    }
    TakeAll(conflictingMeetings);
    ConflictedParticipantsMembership(db.meetings, requestedStart, requestedEnd);
  }

  /**
   * The free-slot window test: the slot starts after both ends of the
   * requested window or ends before both, with strict comparisons.
   */
  predicate OutsideWindow(slot: CalendarSlot, requestedStart: int, requestedEnd: int)
  {
    (slot.start > requestedStart && slot.start > requestedEnd) ||
    (slot.end < requestedStart && slot.end < requestedEnd)
  }

  function MarkAvailable(slots: seq<CalendarSlot>): (r: seq<CalendarSlot>)
    ensures |r| == |slots|
    ensures forall i :: 0 <= i < |slots| ==> r[i] == slots[i].(isAvailable := true)
  {
    seq(|slots|, i requires 0 <= i < |slots| => slots[i].(isAvailable := true))
  }

  /**
   * What `getAvailableSlots` returns for one employee: nothing when one of
   * the employee's meetings overlaps the window, otherwise the employee's
   * slots lying outside the window, marked available.
   */
  function EmployeeFreeSlots(slots: seq<CalendarSlot>, meetings: seq<Meeting>, employeeId: int, requestedStart: int, requestedEnd: int): seq<CalendarSlot>
  {
    if ExistsByEmployeeIdAndTimeRange(meetings, employeeId, requestedStart, requestedEnd) then []
    else MarkAvailable(Filter(FindByEmployee(slots, employeeId), (s: CalendarSlot) => OutsideWindow(s, requestedStart, requestedEnd)))
  }

  /** What `getAvailableSlots` returns: employee by employee, in request order. */
  function AvailableSlots(slots: seq<CalendarSlot>, meetings: seq<Meeting>, employeeIds: seq<int>, requestedStart: int, requestedEnd: int): seq<CalendarSlot>
  {
    ConcatMap(employeeIds, (id: int) => EmployeeFreeSlots(slots, meetings, id, requestedStart, requestedEnd))
  }

  /** The entries reported for one employee, described slot by slot. */
  lemma EmployeeFreeSlotsMembership(slots: seq<CalendarSlot>, meetings: seq<Meeting>, employeeId: int, requestedStart: int, requestedEnd: int, x: CalendarSlot)
    ensures x in EmployeeFreeSlots(slots, meetings, employeeId, requestedStart, requestedEnd) <==>
      exists s :: s in slots && x == s.(isAvailable := true) && s.owner == employeeId &&
        !ExistsByEmployeeIdAndTimeRange(meetings, employeeId, requestedStart, requestedEnd) &&
        OutsideWindow(s, requestedStart, requestedEnd)
  {
    if !ExistsByEmployeeIdAndTimeRange(meetings, employeeId, requestedStart, requestedEnd) {
      var kept := Filter(FindByEmployee(slots, employeeId), (s: CalendarSlot) => OutsideWindow(s, requestedStart, requestedEnd));
      if x in MarkAvailable(kept) {
        var i :| 0 <= i < |kept| && MarkAvailable(kept)[i] == x;
        assert kept[i] in kept;
      }
      if exists s :: s in slots && x == s.(isAvailable := true) && s.owner == employeeId && OutsideWindow(s, requestedStart, requestedEnd) {
        var s :| s in slots && x == s.(isAvailable := true) && s.owner == employeeId && OutsideWindow(s, requestedStart, requestedEnd);
        assert s in kept;
        var i :| 0 <= i < |kept| && kept[i] == s;
        assert MarkAvailable(kept)[i] == x;
      }
    }
  }

  /**
   * What `getAvailableSlots` reports, entry by entry: a slot of a requested
   * employee who has no meeting overlapping the window (half-open), lying
   * outside the window, with its flag set; whatever the slot's own times, a
   * busy employee contributes nothing.
   */
  lemma {:induction false} AvailableSlotsMembership(slots: seq<CalendarSlot>, meetings: seq<Meeting>, employeeIds: seq<int>, requestedStart: int, requestedEnd: int, x: CalendarSlot)
    ensures x in AvailableSlots(slots, meetings, employeeIds, requestedStart, requestedEnd) <==>
      exists s :: s in slots && x == s.(isAvailable := true) && s.owner in employeeIds &&
        !ExistsByEmployeeIdAndTimeRange(meetings, s.owner, requestedStart, requestedEnd) &&
        OutsideWindow(s, requestedStart, requestedEnd)
  {
    if employeeIds != [] {
      var prefix := employeeIds[..|employeeIds| - 1];
      var last := employeeIds[|employeeIds| - 1];
      assert employeeIds == prefix + [last];
      AvailableSlotsMembership(slots, meetings, prefix, requestedStart, requestedEnd, x);
      EmployeeFreeSlotsMembership(slots, meetings, last, requestedStart, requestedEnd, x);
    }
  }

  /**
   * The stored flag is not consulted: a booked slot of a requested employee
   * with no overlapping meeting, lying outside the window, is reported as
   * available.
   */
  lemma BookedSlotReportedAvailable(slots: seq<CalendarSlot>, meetings: seq<Meeting>, employeeIds: seq<int>, requestedStart: int, requestedEnd: int, s: CalendarSlot)
    requires s in slots && !s.isAvailable && s.owner in employeeIds
    requires !ExistsByEmployeeIdAndTimeRange(meetings, s.owner, requestedStart, requestedEnd)
    requires OutsideWindow(s, requestedStart, requestedEnd)
    ensures s.(isAvailable := true) in AvailableSlots(slots, meetings, employeeIds, requestedStart, requestedEnd)
  {
    AvailableSlotsMembership(slots, meetings, employeeIds, requestedStart, requestedEnd, s.(isAvailable := true));
  }

  /** Requests concatenate: output follows request order, and a repeated id repeats its entries. */
  lemma AvailableSlotsAppend(slots: seq<CalendarSlot>, meetings: seq<Meeting>, a: seq<int>, b: seq<int>, requestedStart: int, requestedEnd: int)
    ensures AvailableSlots(slots, meetings, a + b, requestedStart, requestedEnd) ==
      AvailableSlots(slots, meetings, a, requestedStart, requestedEnd) + AvailableSlots(slots, meetings, b, requestedStart, requestedEnd)
  {
    ConcatMapAppend(a, b, (id: int) => EmployeeFreeSlots(slots, meetings, id, requestedStart, requestedEnd));
  }

  lemma FreeSlotsStep(ss: seq<CalendarSlot>, k: int, requestedStart: int, requestedEnd: int)
    requires 0 <= k < |ss|
    ensures MarkAvailable(Filter(ss[..k + 1], (s: CalendarSlot) => OutsideWindow(s, requestedStart, requestedEnd))) ==
      if OutsideWindow(ss[k], requestedStart, requestedEnd)
      then MarkAvailable(Filter(ss[..k], (s: CalendarSlot) => OutsideWindow(s, requestedStart, requestedEnd))) + [ss[k].(isAvailable := true)]
      else MarkAvailable(Filter(ss[..k], (s: CalendarSlot) => OutsideWindow(s, requestedStart, requestedEnd)))
  {
    var p := (s: CalendarSlot) => OutsideWindow(s, requestedStart, requestedEnd);
    assert ss[..k + 1] == ss[..k] + [ss[k]];
    FilterSnoc(ss[..k], ss[k], p);
    if p(ss[k]) {
      assert MarkAvailable(Filter(ss[..k], p) + [ss[k]])
        == MarkAvailable(Filter(ss[..k], p)) + [ss[k].(isAvailable := true)];
    }
  }

  lemma AvailableSlotsStep(slots: seq<CalendarSlot>, meetings: seq<Meeting>, ids: seq<int>, i: int, requestedStart: int, requestedEnd: int)
    requires 0 <= i < |ids|
    ensures AvailableSlots(slots, meetings, ids[..i + 1], requestedStart, requestedEnd) ==
      AvailableSlots(slots, meetings, ids[..i], requestedStart, requestedEnd)
      + EmployeeFreeSlots(slots, meetings, ids[i], requestedStart, requestedEnd)
  {
    ConcatMapSnoc(ids, i, (id: int) => EmployeeFreeSlots(slots, meetings, id, requestedStart, requestedEnd));
  }

  /**
   * The meeting loop of `getAvailableSlots` with its early exit: true when
   * none of the employee's meetings overlaps the window half-open.
   */
  method NoMeetingInWindow(meetings: seq<Meeting>, employeeId: int, requestedStart: int, requestedEnd: int) returns (isAvailable: bool)
    ensures isAvailable == !ExistsByEmployeeIdAndTimeRange(meetings, employeeId, requestedStart, requestedEnd)
  {
    var employeeMeetings := FindByEmployeeId(meetings, employeeId);
    isAvailable := true;
    var j := 0;
    while j < |employeeMeetings|
      invariant 0 <= j <= |employeeMeetings|
      invariant forall t :: 0 <= t < j ==>
        !Overlaps(employeeMeetings[t].start, employeeMeetings[t].end, requestedStart, requestedEnd)
    {
      if employeeMeetings[j].start < requestedEnd && employeeMeetings[j].end > requestedStart {
        isAvailable := false;
        break;
      }
      j := j + 1;
    }
  }

  /**
   * The slot loop of `getAvailableSlots` for one employee: the meeting test
   * is repeated for every slot, and a slot passes when the employee is free
   * and the slot lies outside the window.
   */
  method CollectFreeSlots(db: Store, employeeId: int, requestedStart: int, requestedEnd: int) returns (found: seq<CalendarSlot>)
    ensures found == EmployeeFreeSlots(db.slots, db.meetings, employeeId, requestedStart, requestedEnd)
  {
    var employeeSlots := FindByEmployee(db.slots, employeeId);
    ghost var busy := ExistsByEmployeeIdAndTimeRange(db.meetings, employeeId, requestedStart, requestedEnd);
    found := [];
    for k := 0 to |employeeSlots|
      invariant busy ==> found == []
      invariant !busy ==> found == MarkAvailable(Filter(employeeSlots[..k], (s: CalendarSlot) => OutsideWindow(s, requestedStart, requestedEnd)))
    {
      var slot := employeeSlots[k];
      var isAvailable := NoMeetingInWindow(db.meetings, employeeId, requestedStart, requestedEnd);
      if isAvailable {
        FreeSlotsStep(employeeSlots, k, requestedStart, requestedEnd);
        if (slot.start > requestedStart && slot.start > requestedEnd)
          || (slot.end < requestedStart && slot.end < requestedEnd) {
          found := found + [slot.(isAvailable := true)];
        }
      }
    }
    TakeAll(employeeSlots);
  }

  /**
   * `getAvailableSlots`: the window ends durationMinutes after its start;
   * the free slots are gathered employee by employee, in request order, so a
   * repeated id contributes its slots again.
   */
  method GetAvailableSlots(db: Store, employeeIds: seq<int>, requestedStart: int, durationMinutes: int) returns (r: seq<CalendarSlot>)
    ensures r == AvailableSlots(db.slots, db.meetings, employeeIds, requestedStart, PlusMinutes(requestedStart, durationMinutes))
    ensures forall x :: x in r ==>
      x.isAvailable && x.owner in employeeIds &&
      !ExistsByEmployeeIdAndTimeRange(db.meetings, x.owner, requestedStart, PlusMinutes(requestedStart, durationMinutes)) &&
      OutsideWindow(x, requestedStart, PlusMinutes(requestedStart, durationMinutes))
  {
    var requestedEnd := PlusMinutes(requestedStart, durationMinutes);
    r := [];
    for i := 0 to |employeeIds|
      invariant r == AvailableSlots(db.slots, db.meetings, employeeIds[..i], requestedStart, requestedEnd)
    {
      var found := CollectFreeSlots(db, employeeIds[i], requestedStart, requestedEnd);
      AvailableSlotsStep(db.slots, db.meetings, employeeIds, i, requestedStart, requestedEnd);
      r := r + found;
    }
    TakeAll(employeeIds);
    forall x | x in r
      ensures x.isAvailable && x.owner in employeeIds &&
        !ExistsByEmployeeIdAndTimeRange(db.meetings, x.owner, requestedStart, requestedEnd) &&
        OutsideWindow(x, requestedStart, requestedEnd)
    {
      AvailableSlotsMembership(db.slots, db.meetings, employeeIds, requestedStart, requestedEnd, x);
    }
  }
}
