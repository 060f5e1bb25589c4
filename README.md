# Meeting calendar scheduling core, modelled in Dafny

This project models the scheduling core of a meeting-calendar service. Employees are kept in a registry with unique email
addresses. An admin books a meeting with a list of participant ids. The
booking writes one meeting and one unavailable calendar slot per
participant. Two read operations answer "who is busy in this window" and
"which slots of these employees are free around this window".

The model is an in-memory store, `Store.Store`. It holds three tables as sequences, in insertion order:

- employees;
- meetings;
- calendar slots.

It also holds the counters of their generated id columns. Its `Valid()`
predicate states the invariants every operation keeps:

- ids are unique and below their counters;
- emails are unique;
- every slot owner and every meeting participant is a stored employee;
- every stored range has start <= end.

`Entities.ConsistentSchedule` states what the bookings build on top of
that: every participant of every stored meeting owns a slot with that
meeting's range (`SlotsCoverMeetings`), and no two stored meetings that
share a participant overlap half-open (`NoDoubleBooking`). The empty
store has it, registering an employee does not touch it, and a booking
keeps it.

Timestamps are whole minutes (`int`), and `plusMinutes` is addition.

Layout, one module per file:

- `seqs.dfy` (`Seqs`) provides the generic filter that every repository query reduces to. It also holds the first-appearance de-duplication, a concatenation over a sequence, `Result`, and their lemmas.
- `entities.dfy` (`Entities`) holds the three entities as values, the half-open and the closed interval tests, and the table invariants.
- `store.dfy` (`Store`) is the mutable store class.
- `employee_service.dfy` (`EmployeeService`) models the registry: creation, lookup by id, listing and the existence test.
- `meeting_repository.dfy` (`MeetingRepository`) and `calendar_slot_repository.dfy` (`CalendarSlotRepository`) write the JPQL and derived queries as filters over the tables.
- `meeting_service.dfy` (`MeetingService`) writes the three scheduling operations as imperative methods over the store. Each method is proved against a specification function of the tables.
- `booking_properties.dfy` (`BookingProperties`) characterises what the booking validation accepts and rejects, in terms of the request and the tables.

The model follows the code, including four of its quirks:

- **Touching slots conflict.** The booking conflict test is closed on both ends (`slot.start <= end && slot.end >= start`), so a slot that merely touches the requested range blocks the booking. The meeting queries used by the two read operations are half-open.
- **Zero-length meetings are accepted.** Only a start strictly after the end is rejected, so start == end is accepted.
- **The admin is always appended.** The admin is added to the participants even when already listed, and so gets two slots.
- **The free-slot finder ignores the stored flag.** A booked slot (`isAvailable == false`) of a requested employee with no overlapping meeting, lying outside the window, is reported as available (`MeetingService.BookedSlotReportedAvailable`).

A repeated participant id makes `findAllById` return fewer rows than ids
were requested, and the booking then fails with "participants not found".

## Model

| member | source | states |
|---|---|---|
| Entities.Overlaps | src/main/java/com/madeeasy/repository/MeetingRepository.java:23 | definition: half-open overlap, start < other end and end > other start |
| Entities.OverlapsInclusive | src/main/java/com/madeeasy/repository/CalendarSlotRepository.java:15 | definition: closed overlap, start <= other end and end >= other start |
| Entities.EmployeeIds | src/main/java/com/madeeasy/service/impl/MeetingServiceImpl.java:86 | definition: the ids of the employees, position by position (a meeting's participants are stored as ids) |
| Entities.SlotsCoverMeetings | src/main/java/com/madeeasy/service/impl/MeetingServiceImpl.java:84-100 | definition: every participant of every meeting owns a slot with exactly that meeting's start and end, as a booking writes them |
| Entities.NoDoubleBooking | src/main/java/com/madeeasy/service/impl/MeetingServiceImpl.java:75-90 | definition: no two meetings that share a participant overlap half-open |
| Entities.ConsistentSchedule | src/main/java/com/madeeasy/service/impl/MeetingServiceImpl.java:75-100 | definition: both of the above; the constructor establishes it and BookMeeting and CreateEmployee keep it |
| Store.Store.Valid | src/main/java/com/madeeasy/service/impl/EmployeeServiceImpl.java:24-33 | definition: the table invariants (unique ids and emails, ids below their counters, references to stored employees, start <= end); every state-changing method keeps it |
| EmployeeService.EmailTaken | src/main/java/com/madeeasy/service/impl/EmployeeServiceImpl.java:24 | definition: some stored employee has the email, as `existsByEmail` answers |
| EmployeeService.EmployeeExists | src/main/java/com/madeeasy/service/impl/EmployeeServiceImpl.java:67-70 | true iff some stored employee has the id (equivalently, the id is among the table's ids) |
| EmployeeService.GetEmployeeById | src/main/java/com/madeeasy/service/impl/EmployeeServiceImpl.java:43-52 | succeeds iff the id exists, returning a stored record with that id; otherwise fails with NotFound for that id |
| EmployeeService.GetEmployeeByIdIsTheStoredRecord | src/main/java/com/madeeasy/service/impl/EmployeeServiceImpl.java:43-52 | with unique ids, looking up a stored employee's id returns exactly that employee's fields |
| EmployeeService.LookupIgnoresOtherAppends | src/main/java/com/madeeasy/service/impl/EmployeeServiceImpl.java:33-52 | saving one employee does not change the lookup result of any other id |
| EmployeeService.CreatedEmployeeIsFound | src/main/java/com/madeeasy/service/impl/EmployeeServiceImpl.java:28-52 | after a save under a fresh id, that id resolves to the saved record and every other id resolves as before |
| EmployeeService.GetAllEmployees | src/main/java/com/madeeasy/service/impl/EmployeeServiceImpl.java:54-65 | one entry per stored employee, in store order, with the same id, name and email |
| EmployeeService.CreateEmployee | src/main/java/com/madeeasy/service/impl/EmployeeServiceImpl.java:22-40 | a taken email fails with Conflict and changes nothing; otherwise exactly one employee with the given name and email is appended under the next id and returned; unique emails, the other invariants and a consistent schedule are preserved |
| CalendarSlotRepository.FindByEmployee | src/main/java/com/madeeasy/repository/CalendarSlotRepository.java:17-21 | exactly the slots owned by the employee, each as often as stored |
| CalendarSlotRepository.FindAvailableByEmployee | src/main/java/com/madeeasy/repository/CalendarSlotRepository.java:13 | exactly the employee's slots whose availability flag is set, each as often as stored |
| CalendarSlotRepository.ExistsOverlappingInclusive | src/main/java/com/madeeasy/repository/CalendarSlotRepository.java:15 | true iff some slot of the employee has start <= endTime and end >= startTime (arguments bound by position, closed bounds, flag ignored) |
| MeetingRepository.FindMeetingsInTimeRange | src/main/java/com/madeeasy/repository/MeetingRepository.java:23-25 | exactly the meetings with start < window end and end > window start, each as often as stored; touching meetings are excluded |
| MeetingRepository.FindByEmployeeId | src/main/java/com/madeeasy/repository/MeetingRepository.java:27-28 | exactly the meetings whose participants include the id, each as often as stored |
| MeetingRepository.ExistsByEmployeeIdAndTimeRange | src/main/java/com/madeeasy/repository/MeetingRepository.java:30-38 | true iff some meeting listing the employee has start < window end and end > window start |
| MeetingRepository.FindByEmployeeIds | src/main/java/com/madeeasy/repository/MeetingRepository.java:20-21 | exactly the meetings with at least one participant among the ids |
| MeetingRepository.InsertByStart | src/main/java/com/madeeasy/repository/MeetingRepository.java:17 | inserting into a start-sorted list keeps it sorted and adds exactly the one meeting |
| MeetingRepository.SortByStart | src/main/java/com/madeeasy/repository/MeetingRepository.java:17 | the result is sorted by non-decreasing start and is a permutation of the input |
| MeetingRepository.FindByEmployeeOrderByStartTime | src/main/java/com/madeeasy/repository/MeetingRepository.java:17-18 | the employee's meetings, a permutation of the unsorted query's result, by non-decreasing start |
| MeetingService.FindAllById | src/main/java/com/madeeasy/service/impl/MeetingServiceImpl.java:63 | exactly the stored employees whose id is requested |
| MeetingService.UnknownIds | src/main/java/com/madeeasy/service/impl/MeetingServiceImpl.java:46-48 | exactly the requested ids that no stored employee carries |
| MeetingService.FirstConflict | src/main/java/com/madeeasy/service/impl/MeetingServiceImpl.java:75-81 | the position of the first participant with a closed-bound slot conflict: none before it, a conflict at it, or the length when there is none |
| MeetingService.ConflictStage | src/main/java/com/madeeasy/service/impl/MeetingServiceImpl.java:63-81 | once the admin and every id resolve: one participant per requested id plus the admin last, all stored and conflict-free on success; otherwise a stored participant that has a conflict |
| MeetingService.FirstConflictFrom | src/main/java/com/madeeasy/service/impl/MeetingServiceImpl.java:75-81 | the loop resumed at a position: the first participant from there on with a conflict, none in between, or the length when there is none |
| MeetingService.ValidateBooking | src/main/java/com/madeeasy/service/impl/MeetingServiceImpl.java:41-81 | on success: one participant per requested id plus the admin last, all stored, none with a slot conflict, and start <= end; a reported scheduling conflict names a stored participant that has one |
| MeetingService.CheckConflicts | src/main/java/com/madeeasy/service/impl/MeetingServiceImpl.java:75-81 | the participants pass iff none has a slot conflict; otherwise the reported participant is the first one in list order (resolved employees, then the admin) that has a conflict |
| MeetingService.HasSlotConflict | src/main/java/com/madeeasy/service/impl/MeetingServiceImpl.java:76-77 | definition: the per-participant conflict test, the closed-bound slot query with the request's end and start passed by position |
| MeetingService.BookedSlots | src/main/java/com/madeeasy/service/impl/MeetingServiceImpl.java:93-100 | definition: one unavailable slot per participant with the requested range under consecutive ids; its meaning is stated by SaveBookedSlots and BookMeeting |
| MeetingService.SlotHistory | src/main/java/com/madeeasy/service/impl/MeetingServiceImpl.java:108-123 | definition: each participant paired with the slots it owns; its meaning is stated by BookMeeting |
| MeetingService.PlusMinutes | src/main/java/com/madeeasy/service/impl/MeetingServiceImpl.java:137 | definition: the window end, start plus the duration in minutes |
| MeetingService.ParticipantIds | src/main/java/com/madeeasy/service/impl/MeetingServiceImpl.java:143-144 | definition: the participants of the meetings, meeting by meeting, repeats kept; its meaning is stated by ParticipantIdsMembership |
| MeetingService.OutsideWindow | src/main/java/com/madeeasy/service/impl/MeetingServiceImpl.java:188-189 | definition: the slot starts strictly after both window ends or ends strictly before both |
| MeetingService.MarkAvailable | src/main/java/com/madeeasy/service/impl/MeetingServiceImpl.java:190 | definition: the same slots with the flag set; its meaning is stated by GetAvailableSlots |
| MeetingService.EmployeeFreeSlots | src/main/java/com/madeeasy/service/impl/MeetingServiceImpl.java:169-205 | definition: nothing when the employee has an overlapping meeting, otherwise the employee's slots outside the window, flagged; its meaning is stated by EmployeeFreeSlotsMembership |
| MeetingService.AvailableSlots | src/main/java/com/madeeasy/service/impl/MeetingServiceImpl.java:167-206 | definition: the free slots of each requested id, concatenated in request order; its meaning is stated by AvailableSlotsMembership and AvailableSlotsAppend |
| MeetingService.BookedSlotReportedAvailable | src/main/java/com/madeeasy/service/impl/MeetingServiceImpl.java:172-190 | a booked slot of a requested employee with no overlapping meeting, lying outside the window, is reported with its flag set: the stored flag is not consulted |
| MeetingService.BookMeeting | src/main/java/com/madeeasy/service/impl/MeetingServiceImpl.java:37-125 | any failure returns the first failing check and leaves the store unchanged; success appends one meeting (participants then admin) and one unavailable slot per participant, leaves existing rows as they were, and answers with each participant's slots read after the writes; the store invariants are preserved, and so is a consistent schedule |
| MeetingService.CommitBooking | src/main/java/com/madeeasy/service/impl/MeetingServiceImpl.java:84-125 | with validated participants: appends exactly the meeting and the booked slots, answers with the slots read after the writes, and keeps the store invariants and a consistent schedule |
| MeetingService.BookedParticipantFree | src/main/java/com/madeeasy/service/impl/MeetingServiceImpl.java:75-81 | a participant of a validated booking is in no meeting covered by one of its slots that overlaps the requested range |
| MeetingService.BookedSlotsCoverMeeting | src/main/java/com/madeeasy/service/impl/MeetingServiceImpl.java:93-100 | every participant of the booked meeting owns one of the booked slots, with the requested range |
| MeetingService.BookingKeepsCover | src/main/java/com/madeeasy/service/impl/MeetingServiceImpl.java:84-100 | after the meeting and its slots are appended, every stored meeting's participants still own slots with its range |
| MeetingService.BookingKeepsNoDoubleBooking | src/main/java/com/madeeasy/service/impl/MeetingServiceImpl.java:75-90 | after a validated booking is appended, no two stored meetings that share a participant overlap |
| MeetingService.ScanForConflict | src/main/java/com/madeeasy/service/impl/MeetingServiceImpl.java:75-81 | returns the first participant position with a slot conflict, or the length when there is none |
| MeetingService.SaveMeeting | src/main/java/com/madeeasy/service/impl/MeetingServiceImpl.java:84-90 | appends exactly the new meeting under the next id and keeps the store invariants |
| MeetingService.SaveBookedSlots | src/main/java/com/madeeasy/service/impl/MeetingServiceImpl.java:93-100 | appends exactly the booked slots under consecutive ids and keeps the store invariants |
| MeetingService.ParticipantIdsMembership | src/main/java/com/madeeasy/service/impl/MeetingServiceImpl.java:143-144 | an id occurs among the meetings' participants iff some meeting lists it |
| Seqs.DedupFirstAppearance | src/main/java/com/madeeasy/service/impl/MeetingServiceImpl.java:143-150 | the de-duplicated list keeps its elements in the order of their first appearance in the input |
| MeetingService.AddUnseen | src/main/java/com/madeeasy/service/impl/MeetingServiceImpl.java:144-149 | adding one meeting's participants under the contains guard extends the first-appearance de-duplication |
| MeetingService.ConflictedParticipantsMembership | src/main/java/com/madeeasy/service/impl/MeetingServiceImpl.java:135-153 | the de-duplicated participants of the overlapping meetings are exactly those of some meeting overlapping the window half-open |
| MeetingService.FindConflictedParticipants | src/main/java/com/madeeasy/service/impl/MeetingServiceImpl.java:135-153 | the window ends at start + duration; the result has no duplicates, lists an id iff a meeting overlapping the window half-open lists it, in first-appearance order over meetings then participants |
| MeetingService.EmployeeFreeSlotsMembership | src/main/java/com/madeeasy/service/impl/MeetingServiceImpl.java:169-205 | an entry is reported for one employee iff it is one of the employee's slots, flag set, the employee has no meeting overlapping the window, and the slot lies strictly outside the window |
| MeetingService.AvailableSlotsMembership | src/main/java/com/madeeasy/service/impl/MeetingServiceImpl.java:158-208 | an entry is reported iff it is a slot of a requested employee with no meeting overlapping the window (whatever the slot's times), lying strictly outside the window, with its flag set |
| MeetingService.AvailableSlotsAppend | src/main/java/com/madeeasy/service/impl/MeetingServiceImpl.java:167-206 | results follow the order of the requested ids, so a repeated id repeats its entries |
| MeetingService.NoMeetingInWindow | src/main/java/com/madeeasy/service/impl/MeetingServiceImpl.java:173-183 | the flag loop with its early exit yields true iff none of the employee's meetings overlaps the window half-open |
| MeetingService.CollectFreeSlots | src/main/java/com/madeeasy/service/impl/MeetingServiceImpl.java:169-205 | the inner slot loop gathers exactly the employee's free slots |
| MeetingService.GetAvailableSlots | src/main/java/com/madeeasy/service/impl/MeetingServiceImpl.java:158-208 | the result is the employee-by-employee concatenation of free slots; every entry is flagged available, belongs to a requested employee with no overlapping meeting, and lies strictly outside the window |
| BookingProperties.FoundIds | src/main/java/com/madeeasy/service/impl/MeetingServiceImpl.java:63 | the resolved employees' ids are exactly the requested ids that exist |
| BookingProperties.FoundIdsDistinct | src/main/java/com/madeeasy/service/impl/MeetingServiceImpl.java:63 | on a table with unique ids, each id is resolved at most once |
| BookingProperties.FoundAllIffNoDuplicates | src/main/java/com/madeeasy/service/impl/MeetingServiceImpl.java:63-67 | with every id known, as many rows as ids come back iff no id is repeated |
| BookingProperties.ValidationOrder | src/main/java/com/madeeasy/service/impl/MeetingServiceImpl.java:41-60 | unknown admin, unknown participants (listing exactly the unknown ids in request order), empty list, start after end: each is reported iff the earlier checks pass and its own condition holds |
| BookingProperties.DuplicateIdsRejected | src/main/java/com/madeeasy/service/impl/MeetingServiceImpl.java:63-67 | the participants-not-found failure occurs iff the first four checks pass and the request repeats an id |
| BookingProperties.ValidRequestBooks | src/main/java/com/madeeasy/service/impl/MeetingServiceImpl.java:41-81 | a booking is accepted iff admin and participants exist, the list is non-empty and repeat-free, start <= end (so start == end passes), and no slot of a named employee meets the range with closed bounds; the participants are the resolved employees followed by the admin |
| BookingProperties.ConflictDecides | src/main/java/com/madeeasy/service/impl/MeetingServiceImpl.java:69-81 | once the first five checks pass, the booking is accepted iff no named employee has a slot meeting the range |
| BookingProperties.ConflictLoopDecides | src/main/java/com/madeeasy/service/impl/MeetingServiceImpl.java:75-81 | the conflict loop over the resolved employees and the admin passes iff no named employee has a slot meeting the range |
| BookingProperties.ResolvedPosition | src/main/java/com/madeeasy/service/impl/MeetingServiceImpl.java:63 | a requested id that exists is the id of some resolved employee |
| BookingProperties.ReachesConflictCheck | src/main/java/com/madeeasy/service/impl/MeetingServiceImpl.java:41-81 | when the first five checks pass, the outcome is decided by the conflict loop over the resolved employees followed by the admin |
| BookingProperties.BlockedParticipant | src/main/java/com/madeeasy/service/impl/MeetingServiceImpl.java:69-81 | a slot of a named employee meeting the range gives some participant (a resolved employee or the admin) a conflict |
| BookingProperties.ConflictingSlot | src/main/java/com/madeeasy/service/impl/MeetingServiceImpl.java:75-81 | a conflict of a named participant comes from one of its slots meeting the range |
| BookingProperties.TouchingSlotRejected | src/main/java/com/madeeasy/service/impl/MeetingServiceImpl.java:75-81 | a slot ending exactly at the requested start does not overlap half-open, yet the booking fails, with a scheduling conflict once the earlier checks pass |
| BookingProperties.BlockedRejected | src/main/java/com/madeeasy/service/impl/MeetingServiceImpl.java:41-81 | a slot of a named employee meeting the requested range with closed bounds always makes the booking fail |
| BookingProperties.RebookingRejected | src/main/java/com/madeeasy/service/impl/MeetingServiceImpl.java:75-100 | after a booking's slots are written, any request naming one of its participants over a range meeting the booked one with closed bounds is refused |

## Left out

- The HTTP controllers and the exception-to-status mapping are not modelled. Failures are values of `EmployeeError` and `BookingError`.
- The response DTO builders are not modelled. Responses are the entity values, a participant paired with its slots, or the slot with its flag set.
- JPA and Jackson concerns (lazy loading, join tables, back references) are not modelled. Entities are plain values, and a meeting lists its participants by id.
- Transactions, rollback and concurrent bookings are not modelled. The store is single-threaded, and a failing booking changes nothing because every check precedes every write.
- Whether `slot.setAvailable(true)` in the free-slot finder is flushed to the database inside a read-only transaction is ORM behaviour. The model sets the flag only on the returned entries and leaves the slot table untouched.
- `LocalDateTime` calendar arithmetic and time zones are not modelled. Times are integer minutes and `plusMinutes` is addition.
- Null request fields are not modelled: every field is a value. In the source a null participant list fails in the stream before its null check (MeetingServiceImpl.java:46), a null admin id fails in `existsById` (MeetingServiceImpl.java:41), and a null start or end throws in `isAfter` (MeetingServiceImpl.java:58).
- FindAllById, FindMeetingsInTimeRange, FindByEmployee: these queries (`findAllById`, `findMeetingsInTimeRange`, the slot query `findByEmployeeId`) have no `ORDER BY`, and a meeting's participant list comes back in join-table order; the model uses table order (insertion order, participants as saved). A different database order would change the order of participants and so which conflict is reported first, and the output order of `FindConflictedParticipants` and `GetAvailableSlots`.
- FindByEmployeeId, FindByEmployeeIds, FindByEmployeeOrderByStartTime: in the source, `JOIN m.participants` returns a meeting once per matching participant row, so twice for an admin who is also listed as a participant, and once per matching requested id for `findByEmployeeIds`; the model returns each meeting once (as often as it is stored). The existence query and the free-slot finder only test for an overlapping meeting, so their results do not depend on this.
- MeetingService.FindConflictedParticipants returns participant ids rather than employee entities. The `contains` guard compares employees, which within one persistence context is comparison by id.
- The service interface declares `getAvailableSlots` as returning entities, but the implementation returns DTOs. The implementation is followed.
- The derived query `findByParticipantsInAndStartTimeLessThanEqualAndEndTimeGreaterThanEqual` in `MeetingRepository` is not modelled. It is never called, and its parameter names contradict its positional binding.
- The generated ids of employees, meetings and slots are modelled as three counters (`nextEmployeeId`, `nextMeetingId`, `nextSlotId`). The database's actual id sequences (gaps, reuse after rollback) are not modelled.
