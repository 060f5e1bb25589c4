// What the validation chain of `bookMeeting` accepts and rejects, stated
// over the request and the tables rather than over the chain's own steps.
module BookingProperties {
  import opened Seqs
  import opened Entities
  import opened EmployeeService
  import opened MeetingService

  /** Some stored slot of an employee the request names meets the requested range with closed bounds. */
  predicate BlockedBySlot(slots: seq<CalendarSlot>, req: BookingRequest)
  {
    exists s :: s in slots && (s.owner in req.participantIds || s.owner == req.adminId) &&
      OverlapsInclusive(s.start, s.end, req.start, req.end)
  }

  /** The ids of the resolved employees are exactly the requested ids that exist. */
  lemma FoundIds(es: seq<Employee>, ids: seq<int>)
    ensures forall id :: id in EmployeeIds(FindAllById(es, ids)) <==> id in ids && EmployeeExists(es, id)
  {
    var found := FindAllById(es, ids);
    forall id | id in ids && EmployeeExists(es, id) ensures id in EmployeeIds(found) {
      var e :| e in es && e.id == id;
      assert e in found;
      var i :| 0 <= i < |found| && found[i] == e;
      assert EmployeeIds(found)[i] == id;
    }
  }

  /** On a table with unique ids the resolved employees carry distinct ids. */
  lemma {:induction false} FoundIdsDistinct(es: seq<Employee>, ids: seq<int>)
    requires UniqueEmployeeIds(es)
    ensures NoDuplicates(EmployeeIds(FindAllById(es, ids)))
  {
    if es != [] {
      var es' := es[..|es| - 1];
      var x := es[|es| - 1];
      assert es == es' + [x];
      FilterSnoc(es', x, (e: Employee) => e.id in ids);
      assert UniqueEmployeeIds(es');
      FoundIdsDistinct(es', ids);
      if x.id in ids {
        var found' := FindAllById(es', ids);
        LastIdFresh(es);
        assert forall e :: e in found' ==> e in es';
        ExtendDistinctIds(found', x);
      }
    }
  }

  /** The last employee of a table with unique ids carries an id no earlier one does. */
  lemma LastIdFresh(es: seq<Employee>)
    requires UniqueEmployeeIds(es) && es != []
    ensures forall e :: e in es[..|es| - 1] ==> e.id != es[|es| - 1].id
  {
    forall e | e in es[..|es| - 1] ensures e.id != es[|es| - 1].id {
      var a :| 0 <= a < |es| - 1 && es[..|es| - 1][a] == e;
    }
  }

  lemma ExtendDistinctIds(found: seq<Employee>, x: Employee)
    requires NoDuplicates(EmployeeIds(found))
    requires forall e :: e in found ==> e.id != x.id
    ensures NoDuplicates(EmployeeIds(found + [x]))
  {
    assert x.id !in EmployeeIds(found) by {
      forall i | 0 <= i < |found| ensures EmployeeIds(found)[i] != x.id {
        assert found[i] in found;
      }
    }
    assert EmployeeIds(found + [x]) == EmployeeIds(found) + [x.id];
  }

  /**
   * With every requested id known, `findAllById` returns as many rows as
   * ids were requested exactly when no id is repeated: a repeated id
   * matches its row once.
   */
  lemma FoundAllIffNoDuplicates(es: seq<Employee>, ids: seq<int>)
    requires UniqueEmployeeIds(es)
    requires forall id :: id in ids ==> EmployeeExists(es, id)
    ensures |FindAllById(es, ids)| == |ids| <==> NoDuplicates(ids)
  {
    FoundIds(es, ids);
    FoundIdsDistinct(es, ids);
    forall x ensures x in EmployeeIds(FindAllById(es, ids)) <==> x in Dedup(ids) {
    }
    SameElementsSameLength(EmployeeIds(FindAllById(es, ids)), Dedup(ids));
    DedupShorterIffDuplicates(ids);
  }

  /**
   * The first four checks, in their order: each failure is reported exactly
   * when the checks before it pass and its own condition holds; the unknown
   * ids are reported all together, in request order.
   */
  lemma ValidationOrder(es: seq<Employee>, slots: seq<CalendarSlot>, req: BookingRequest)
    ensures ValidateBooking(es, slots, req) == Err(AdminNotFound) <==> !EmployeeExists(es, req.adminId)
    ensures ValidateBooking(es, slots, req) == Err(EmployeesNotFound(UnknownIds(es, req.participantIds))) <==>
      EmployeeExists(es, req.adminId) && exists id :: id in req.participantIds && !EmployeeExists(es, id)
    ensures ValidateBooking(es, slots, req) == Err(NoParticipants) <==>
      EmployeeExists(es, req.adminId) && req.participantIds == []
    ensures ValidateBooking(es, slots, req) == Err(StartAfterEnd) <==>
      EmployeeExists(es, req.adminId) && req.participantIds != [] &&
      (forall id :: id in req.participantIds ==> EmployeeExists(es, id)) && req.start > req.end
  {
    var unknown := UnknownIds(es, req.participantIds);
    if unknown != [] {
      assert unknown[0] in unknown;
    }
  }

  /** The fifth check fails, on a table with unique ids, exactly when the request repeats an id. */
  lemma DuplicateIdsRejected(es: seq<Employee>, slots: seq<CalendarSlot>, req: BookingRequest)
    requires UniqueEmployeeIds(es)
    ensures ValidateBooking(es, slots, req) == Err(ParticipantsNotFound) <==>
      EmployeeExists(es, req.adminId) && req.participantIds != [] &&
      (forall id :: id in req.participantIds ==> EmployeeExists(es, id)) && req.start <= req.end &&
      !NoDuplicates(req.participantIds)
  {
    ValidationOrder(es, slots, req);
    if EmployeeExists(es, req.adminId) && forall id :: id in req.participantIds ==> EmployeeExists(es, id) {
      FoundAllIffNoDuplicates(es, req.participantIds);
    }
  }

  /**
   * A booking is accepted exactly when the admin and every participant
   * exist, at least one participant is named, no id repeats, start <= end
   * (so a zero-length meeting passes), and no slot of a named employee
   * meets the range with closed bounds; the participants are then the
   * resolved employees in table order followed by the admin.
   */
  lemma ValidRequestBooks(es: seq<Employee>, slots: seq<CalendarSlot>, req: BookingRequest)
    requires UniqueEmployeeIds(es)
    ensures ValidateBooking(es, slots, req).Ok? <==>
      EmployeeExists(es, req.adminId) && req.participantIds != [] &&
      (forall id :: id in req.participantIds ==> EmployeeExists(es, id)) &&
      NoDuplicates(req.participantIds) && req.start <= req.end && !BlockedBySlot(slots, req)
    ensures ValidateBooking(es, slots, req).Ok? ==>
      ValidateBooking(es, slots, req).value == FindAllById(es, req.participantIds) + [GetEmployeeById(es, req.adminId).value]
  {
    ValidationOrder(es, slots, req);
    DuplicateIdsRejected(es, slots, req);
    if EmployeeExists(es, req.adminId) && req.participantIds != [] &&
      (forall id :: id in req.participantIds ==> EmployeeExists(es, id)) &&
      NoDuplicates(req.participantIds) && req.start <= req.end
    {
      ConflictDecides(es, slots, req);
    }
  }

  /** Once the first five checks pass, the slot conflict test alone decides. */
  lemma ConflictDecides(es: seq<Employee>, slots: seq<CalendarSlot>, req: BookingRequest)
    requires UniqueEmployeeIds(es)
    requires EmployeeExists(es, req.adminId) && req.participantIds != []
    requires forall id :: id in req.participantIds ==> EmployeeExists(es, id)
    requires NoDuplicates(req.participantIds) && req.start <= req.end
    ensures ValidateBooking(es, slots, req).Ok? <==> !BlockedBySlot(slots, req)
    ensures ValidateBooking(es, slots, req).Ok? ==>
      ValidateBooking(es, slots, req).value == FindAllById(es, req.participantIds) + [GetEmployeeById(es, req.adminId).value]
  {
    ReachesConflictCheck(es, slots, req);
    ConflictLoopDecides(es, slots, req, FindAllById(es, req.participantIds) + [GetEmployeeById(es, req.adminId).value]);
  }

  /** The conflict loop over the resolved employees and the admin passes iff no named employee is blocked. */
  lemma ConflictLoopDecides(es: seq<Employee>, slots: seq<CalendarSlot>, req: BookingRequest, ps: seq<Employee>)
    requires EmployeeExists(es, req.adminId)
    requires forall id :: id in req.participantIds ==> EmployeeExists(es, id)
    requires ps == FindAllById(es, req.participantIds) + [GetEmployeeById(es, req.adminId).value]
    ensures CheckConflicts(slots, ps, req.start, req.end).Ok? <==> !BlockedBySlot(slots, req)
  {
    if BlockedBySlot(slots, req) {
      BlockedParticipant(es, slots, req, ps);
    }
    if !CheckConflicts(slots, ps, req.start, req.end).Ok? {
      var j :| 0 <= j < |ps| && HasSlotConflict(slots, ps[j], req.start, req.end);
      if j < |ps| - 1 {
        assert ps[j] in FindAllById(es, req.participantIds);
      }
      ConflictingSlot(slots, ps[j], req);
    }
  }

  /** When the first five checks pass, the outcome is that of the conflict loop over resolved employees and admin. */
  lemma ReachesConflictCheck(es: seq<Employee>, slots: seq<CalendarSlot>, req: BookingRequest)
    requires UniqueEmployeeIds(es)
    requires EmployeeExists(es, req.adminId) && req.participantIds != []
    requires forall id :: id in req.participantIds ==> EmployeeExists(es, id)
    requires NoDuplicates(req.participantIds) && req.start <= req.end
    ensures ValidateBooking(es, slots, req) ==
      CheckConflicts(slots, FindAllById(es, req.participantIds) + [GetEmployeeById(es, req.adminId).value], req.start, req.end)
  {
    FoundAllIffNoDuplicates(es, req.participantIds);
    var unknown := UnknownIds(es, req.participantIds);
    assert forall id :: id !in unknown;
    assert unknown == [];
  }

  /**
   * A slot of a named employee that meets the range gives the participant
   * it belongs to (a resolved employee or the admin) a slot conflict.
   */
  lemma BlockedParticipant(es: seq<Employee>, slots: seq<CalendarSlot>, req: BookingRequest, ps: seq<Employee>)
    requires EmployeeExists(es, req.adminId)
    requires forall id :: id in req.participantIds ==> EmployeeExists(es, id)
    requires ps == FindAllById(es, req.participantIds) + [GetEmployeeById(es, req.adminId).value]
    requires BlockedBySlot(slots, req)
    ensures exists j :: 0 <= j < |ps| && HasSlotConflict(slots, ps[j], req.start, req.end)
  {
    var found := FindAllById(es, req.participantIds);
    var s :| s in slots && (s.owner in req.participantIds || s.owner == req.adminId) &&
      OverlapsInclusive(s.start, s.end, req.start, req.end);
    var j: nat;
    if s.owner == req.adminId {
      j := |found|;
    } else {
      j := ResolvedPosition(es, req.participantIds, s.owner);
    }
    assert ps[j].id == s.owner;
    SlotGivesConflict(slots, ps[j], s, req);
  }

  /** A requested id that exists is resolved at some position. */
  lemma ResolvedPosition(es: seq<Employee>, ids: seq<int>, id: int) returns (k: nat)
    requires id in ids && EmployeeExists(es, id)
    ensures k < |FindAllById(es, ids)| && FindAllById(es, ids)[k].id == id
  {
    FoundIds(es, ids);
    var found := FindAllById(es, ids);
    assert id in EmployeeIds(found);
    k :| 0 <= k < |found| && EmployeeIds(found)[k] == id;
  }

  /** A slot of a participant that meets the range is a slot conflict of that participant. */
  lemma SlotGivesConflict(slots: seq<CalendarSlot>, p: Employee, s: CalendarSlot, req: BookingRequest)
    requires s in slots && s.owner == p.id && OverlapsInclusive(s.start, s.end, req.start, req.end)
    ensures HasSlotConflict(slots, p, req.start, req.end)
  {
  }

  lemma ConflictingSlot(slots: seq<CalendarSlot>, p: Employee, req: BookingRequest)
    requires HasSlotConflict(slots, p, req.start, req.end)
    requires p.id in req.participantIds || p.id == req.adminId
    ensures BlockedBySlot(slots, req)
  {
    var s :| s in slots && s.owner == p.id && s.start <= req.end && s.end >= req.start;
    assert OverlapsInclusive(s.start, s.end, req.start, req.end);
  }

  /**
   * Touching counts: a slot of a named employee that ends exactly when the
   * requested meeting starts does not overlap it half-open, yet the booking
   * fails, and once the earlier checks pass it fails on a scheduling conflict.
   */
  lemma TouchingSlotRejected(es: seq<Employee>, slots: seq<CalendarSlot>, req: BookingRequest, s: CalendarSlot)
    requires UniqueEmployeeIds(es)
    requires s in slots && (s.owner in req.participantIds || s.owner == req.adminId)
    requires s.start <= s.end && s.end == req.start
    ensures !Overlaps(s.start, s.end, req.start, req.end)
    ensures ValidateBooking(es, slots, req).Err?
    ensures (EmployeeExists(es, req.adminId) && req.participantIds != [] &&
      (forall id :: id in req.participantIds ==> EmployeeExists(es, id)) &&
      NoDuplicates(req.participantIds) && req.start <= req.end) ==>
      ValidateBooking(es, slots, req).error.SchedulingConflict?
  {
    ValidRequestBooks(es, slots, req);
    ValidationOrder(es, slots, req);
    DuplicateIdsRejected(es, slots, req);
    if req.start <= req.end {
      assert BlockedBySlot(slots, req);
    }
  }

  /**
   * Once a booking's slots are written, any later request naming one of its
   * participants, as participant or as admin, over a range meeting the
   * booked one with closed bounds is refused.
   */
  lemma RebookingRejected(es: seq<Employee>, slots: seq<CalendarSlot>, req: BookingRequest, ps: seq<Employee>, firstId: int, later: BookingRequest)
    requires UniqueEmployeeIds(es)
    requires ValidateBooking(es, slots, req) == Ok(ps)
    requires exists p :: p in ps && (p.id in later.participantIds || p.id == later.adminId)
    requires OverlapsInclusive(req.start, req.end, later.start, later.end)
    ensures ValidateBooking(es, slots + BookedSlots(ps, firstId, req.start, req.end), later).Err?
  {
    var booked := BookedSlots(ps, firstId, req.start, req.end);
    var p :| p in ps && (p.id in later.participantIds || p.id == later.adminId);
    var k :| 0 <= k < |ps| && ps[k] == p;
    assert booked[k] in slots + booked;
    BlockedRejected(es, slots + booked, later);
  }

  /** A slot of a named employee meeting the requested range always makes the booking fail. */
  lemma BlockedRejected(es: seq<Employee>, slots: seq<CalendarSlot>, req: BookingRequest)
    requires UniqueEmployeeIds(es)
    requires BlockedBySlot(slots, req)
    ensures ValidateBooking(es, slots, req).Err?
  {
    ValidRequestBooks(es, slots, req);
  }
}
