// The employee registry: creation guarded by a unique email, lookups by id,
// the full listing and the existence test the booking path relies on.
module EmployeeService {
  import opened Seqs
  import opened Entities
  import opened Store

  datatype EmployeeError =
    | EmailAlreadyExists(email: string)  // ConflictException on creation
    | EmployeeNotFound(id: int)          // EntityNotFoundException on lookup

  /** `employeeExists`: some stored employee has this id. */
  function EmployeeExists(es: seq<Employee>, id: int): (b: bool)
    ensures b <==> exists e :: e in es && e.id == id
    ensures b <==> id in EmployeeIds(es)
  {
    if es == [] then false
    else
      assert es == es[..|es| - 1] + [es[|es| - 1]];
      es[|es| - 1].id == id || EmployeeExists(es[..|es| - 1], id)
  }

  /** The repository's `existsByEmail`. */
  predicate EmailTaken(es: seq<Employee>, email: string)
  {
    exists e :: e in es && e.email == email
  }

  /** `getEmployeeById`: the stored employee with this id, or NotFound. */
  function GetEmployeeById(es: seq<Employee>, id: int): (r: Result<Employee, EmployeeError>)
    ensures r.Ok? <==> EmployeeExists(es, id)
    ensures r.Ok? ==> r.value in es && r.value.id == id
    ensures r.Err? ==> r.error == EmployeeNotFound(id)
  {
    if es == [] then Err(EmployeeNotFound(id))
    else if es[0].id == id then Ok(es[0])
    else
      assert es == [es[0]] + es[1..];
      GetEmployeeById(es[1..], id)
  }

  /** With unique ids the lookup returns exactly the stored record carrying that id. */
  lemma GetEmployeeByIdIsTheStoredRecord(es: seq<Employee>, e: Employee)
    requires UniqueEmployeeIds(es)
    requires e in es
    ensures GetEmployeeById(es, e.id) == Ok(e)
  {
    var r := GetEmployeeById(es, e.id);
    var i :| 0 <= i < |es| && es[i] == r.value;
    var j :| 0 <= j < |es| && es[j] == e;
    assert i == j;
  }

  /** Appending an employee leaves every lookup of another id as it was. */
  lemma {:induction false} LookupIgnoresOtherAppends(es: seq<Employee>, e: Employee, id: int)
    requires id != e.id
    ensures GetEmployeeById(es + [e], id) == GetEmployeeById(es, id)
  {
    if es != [] && es[0].id != id {
      assert (es + [e])[1..] == es[1..] + [e];
      LookupIgnoresOtherAppends(es[1..], e, id);
    }
  }

  /**
   * After a creation under a fresh id, that id resolves to the new record
   * and every other id resolves as before.
   */
  lemma CreatedEmployeeIsFound(es: seq<Employee>, e: Employee)
    requires UniqueEmployeeIds(es)
    requires forall x :: x in es ==> x.id < e.id
    ensures GetEmployeeById(es + [e], e.id) == Ok(e)
    ensures forall id :: id != e.id ==> GetEmployeeById(es + [e], id) == GetEmployeeById(es, id)
  {
    assert UniqueEmployeeIds(es + [e]) by {
      forall i, j | 0 <= i < j < |es + [e]| ensures (es + [e])[i].id != (es + [e])[j].id {
        if j < |es| {
          assert (es + [e])[i] == es[i] && (es + [e])[j] == es[j];
        } else {
          assert (es + [e])[i] in es;
        }
      }
    }
    GetEmployeeByIdIsTheStoredRecord(es + [e], e);
    forall id | id != e.id ensures GetEmployeeById(es + [e], id) == GetEmployeeById(es, id) {
      LookupIgnoresOtherAppends(es, e, id);
    }
  }

  /** `getAllEmployees`: one entry per stored employee, in store order. */
  function GetAllEmployees(es: seq<Employee>): (r: seq<Employee>)
    ensures r == es
  {
    seq(|es|, i requires 0 <= i < |es| => Employee(es[i].id, es[i].name, es[i].email))
  }

  /**
   * `createEmployee`: a taken email is refused and nothing is stored;
   * otherwise one employee is appended under the next generated id.
   */
  method CreateEmployee(db: Store, name: string, email: string) returns (r: Result<Employee, EmployeeError>)
    requires db.Valid()
    modifies db
    ensures db.Valid()
    ensures ConsistentSchedule(old(db.meetings), old(db.slots)) ==> ConsistentSchedule(db.meetings, db.slots)
    ensures old(EmailTaken(db.employees, email)) ==> r == Err(EmailAlreadyExists(email)) && unchanged(db)
    ensures !old(EmailTaken(db.employees, email)) ==>
      r == Ok(Employee(old(db.nextEmployeeId), name, email)) &&
      db.employees == old(db.employees) + [r.value] &&
      db.nextEmployeeId == old(db.nextEmployeeId) + 1 &&
      db.meetings == old(db.meetings) && db.slots == old(db.slots) &&
      db.nextMeetingId == old(db.nextMeetingId) && db.nextSlotId == old(db.nextSlotId)
  {
    if EmailTaken(db.employees, email) {
      return Err(EmailAlreadyExists(email));
    }
    var saved := Employee(db.nextEmployeeId, name, email);
    ghost var before := db.employees;
    db.employees := db.employees + [saved];
    db.nextEmployeeId := db.nextEmployeeId + 1;
    assert EmployeeIds(db.employees) == EmployeeIds(before) + [saved.id];
    r := Ok(saved);
  }
}
