/** `PUT /api/employees/:id` of `server/server.js`: the `employees` table and the update that
    keeps the stored password hash when the request gives no password. */
module ServerEmployees {
  import opened Wrappers
  import opened Seqs
  import opened Entities

  /** A row of the `employees` table, with the stored password hash and the update time. */
  datatype Employee = Employee(
    id: int, employeeId: string, name: string, email: string, password: string,
    phoneNumber: Option<string>, language: Option<string>, groupId: Option<int>, updatedAt: int)

  /** The request body; a field the client left out is `None`. */
  datatype EmployeeUpdate = EmployeeUpdate(
    employeeId: string, name: string, email: string, password: Option<string>,
    phoneNumber: Option<string>, language: Option<string>, groupId: Option<int>)

  /** The failures of the update, with their messages and statuses. */
  datatype EmployeeError = EmployeeNotFound | EmployeeConflict {
    function Message(): string {
      match this
      case EmployeeNotFound => "Employee not found"
      case EmployeeConflict => "Employee ID or email already exists"
    }
    function Status(): int {
      match this
      case EmployeeNotFound => 404
      case EmployeeConflict => 400
    }
  }

  /** `delete employee.password`: what the response carries. */
  function PublicView(e: Employee): EmployeeRow {
    EmployeeRow(e.id, e.employeeId, e.name, e.email, e.phoneNumber, e.language, e.groupId)
  }

  /** `if (password)`: a present, non-empty password. */
  predicate GivesPassword(p: Option<string>) {
    p.Some? && p.value != ""
  }

  function HasId(id: int): Employee -> bool {
    (e: Employee) => e.id == id
  }

  /** The unique constraints on `id`, `employee_id` and `email`. */
  predicate Unique(es: seq<Employee>) {
    forall i, j | 0 <= i < j < |es| ::
      es[i].id != es[j].id && es[i].employeeId != es[j].employeeId && es[i].email != es[j].email
  }

  /** Another row already holds the requested `employee_id` or `email` (error 23505). */
  predicate Clashes(es: seq<Employee>, i: int, req: EmployeeUpdate) {
    exists j | 0 <= j < |es| && j != i :: es[j].employeeId == req.employeeId || es[j].email == req.email
  }

  /** The row after `UPDATE employees SET ...`; `hashed` is the bcrypt hash of the given password,
      used only in the branch that has one. */
  function Revised(e: Employee, req: EmployeeUpdate, hashed: string, now: int): Employee {
    Employee(e.id, req.employeeId, req.name, req.email,
             if GivesPassword(req.password) then hashed else e.password,
             req.phoneNumber, req.language, req.groupId, now)
  }

  /** The table after the update, or the error the handler answers with. */
  function UpdatedEmployees(es: seq<Employee>, id: int, req: EmployeeUpdate, hashed: string, now: int)
    : (r: Result<seq<Employee>, EmployeeError>)
    ensures r == Failure(EmployeeConflict) ==> exists i | 0 <= i < |es| :: es[i].id == id && Clashes(es, i, req)
    ensures r.Success? ==> |r.value| == |es| && forall j | 0 <= j < |es| && es[j].id != id :: r.value[j] == es[j]
    ensures r.Success? ==> exists i | 0 <= i < |es| :: es[i].id == id && r.value[i] == Revised(es[i], req, hashed, now)
  {
    match FindIndex(es, HasId(id))
    case None => Failure(EmployeeNotFound)
    case Some(i) =>
      if Clashes(es, i, req) then Failure(EmployeeConflict)
      else Success(es[i := Revised(es[i], req, hashed, now)])
  }

  /** An unknown id, and only an unknown id, yields "Employee not found". */
  lemma UpdateNotFound(es: seq<Employee>, id: int, req: EmployeeUpdate, hashed: string, now: int)
    ensures UpdatedEmployees(es, id, req, hashed, now) == Failure(EmployeeNotFound) <==>
            forall j | 0 <= j < |es| :: es[j].id != id
  {
  }

  /** For the employee at `i`: the update fails exactly on a clash; otherwise only row `i`
      changes, it takes every requested field, the password hash is replaced when a password is
      given and kept when it is empty or missing, and the update time is `now`. */
  lemma UpdateEffect(es: seq<Employee>, id: int, req: EmployeeUpdate, hashed: string, now: int, i: nat)
    requires Unique(es) && i < |es| && es[i].id == id
    ensures UpdatedEmployees(es, id, req, hashed, now) == Failure(EmployeeConflict) <==> Clashes(es, i, req)
    ensures UpdatedEmployees(es, id, req, hashed, now).Success? ==>
      var after := UpdatedEmployees(es, id, req, hashed, now).value;
      && |after| == |es|
      && (forall j | 0 <= j < |es| && j != i :: after[j] == es[j])
      && PublicView(after[i]) == EmployeeRow(id, req.employeeId, req.name, req.email, req.phoneNumber, req.language, req.groupId)
      && after[i].password == (if GivesPassword(req.password) then hashed else es[i].password)
      && after[i].updatedAt == now
  {
    assert FindIndex(es, HasId(id)) == Some(i) by {
      var k := FindIndex(es, HasId(id));
      assert k.Some?;
    }
  }

  /** A successful update keeps the unique constraints. */
  lemma UpdateKeepsUnique(es: seq<Employee>, id: int, req: EmployeeUpdate, hashed: string, now: int)
    requires Unique(es)
    requires UpdatedEmployees(es, id, req, hashed, now).Success?
    ensures Unique(UpdatedEmployees(es, id, req, hashed, now).value)
  {
    var i := FindIndex(es, HasId(id)).value;
    var after := UpdatedEmployees(es, id, req, hashed, now).value;
    forall a, b | 0 <= a < b < |after|
      ensures after[a].id != after[b].id && after[a].employeeId != after[b].employeeId && after[a].email != after[b].email
    {
      if a == i {
        assert !(es[b].employeeId == req.employeeId || es[b].email == req.email);
      } else if b == i {
        assert !(es[a].employeeId == req.employeeId || es[a].email == req.email);
      }
    }
  }

  class EmployeeStore {
    /** The `employees` table. */
    var employees: seq<Employee>

    ghost predicate Valid()
      reads this
    {
      Unique(employees)
    }

    constructor (es: seq<Employee>)
      requires Unique(es)
      ensures Valid() && employees == es
    {
      employees := es;
    }

    /** The handler: one UPDATE, then the row without its password, or the error. */
    method UpdateEmployee(id: int, req: EmployeeUpdate, hashed: string, now: int)
      returns (r: Result<EmployeeRow, EmployeeError>)
      requires Valid()
      modifies this
      ensures Valid()
      ensures UpdatedEmployees(old(employees), id, req, hashed, now).Failure? ==>
        employees == old(employees) && r == Failure(UpdatedEmployees(old(employees), id, req, hashed, now).error)
      ensures UpdatedEmployees(old(employees), id, req, hashed, now).Success? ==>
        employees == UpdatedEmployees(old(employees), id, req, hashed, now).value &&
        r == Success(EmployeeRow(id, req.employeeId, req.name, req.email, req.phoneNumber, req.language, req.groupId))
    {
      var found := FindIndex(employees, HasId(id));
      if found.None? {
        return Failure(EmployeeNotFound);
      }
      var i := found.value;
      if exists j | 0 <= j < |employees| && j != i :: employees[j].employeeId == req.employeeId || employees[j].email == req.email {
        return Failure(EmployeeConflict);
      }
      var updated := Revised(employees[i], req, hashed, now);
      UpdateKeepsUnique(employees, id, req, hashed, now);
      employees := employees[i := updated];
      return Success(PublicView(updated));
    }
  }
}
