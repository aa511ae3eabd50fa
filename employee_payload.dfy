/** The employee form data shared by `setup/EmployeeForm.jsx` and `AddEmployeeModal.jsx`: the
    `formData` object, how it is loaded from an employee, and the request a submit sends. */
module EmployeePayload {
  import opened Wrappers
  import opened Entities
  import ServerEmployees

  /** The named inputs of the form. */
  datatype Field = EmployeeIdField | NameField | EmailField | PasswordField | PhoneField | LanguageField | GroupField

  /** A form value: what an input holds, or the number `group_id` keeps until its select changes. */
  datatype Value = Str(s: string) | Num(n: int)

  /** `formData`: the value of each field present. */
  type FormData = map<Field, Value>

  const AllFields: set<Field> := {EmployeeIdField, NameField, EmailField, PasswordField, PhoneField, LanguageField, GroupField}

  /** JavaScript truthiness of a form value. */
  predicate Truthy(v: Value) {
    match v
    case Str(s) => s != ""
    case Num(n) => n != 0
  }

  /** `!!payload.password`: a missing key reads as `undefined`. */
  predicate HasPassword(form: FormData) {
    PasswordField in form && Truthy(form[PasswordField])
  }

  /** The empty form of `useState` and `handleClear`: every field `''`. */
  function Blank(): (r: FormData)
    ensures r.Keys == AllFields
    ensures forall f | f in r :: r[f] == Str("")
    ensures !HasPassword(r)
  {
    map f | f in AllFields :: Str("")
  }

  /** `x || ''` on an optional text column. */
  function OrEmpty(s: Option<string>): Value {
    Str(s.GetOr(""))
  }

  /** The form loaded from an employee: the password empty, absent optional fields `''`, and the
      group kept as its number unless it is absent or 0. */
  function Load(e: EmployeeRow): (r: FormData)
    ensures r.Keys == AllFields
    ensures !HasPassword(r)
    ensures r[NameField] == Str(e.name) && r[EmailField] == Str(e.email) && r[EmployeeIdField] == Str(e.employeeId)
    ensures r[PhoneField] == Str(e.phoneNumber.GetOr("")) && r[LanguageField] == Str(e.language.GetOr(""))
    ensures r[GroupField] == if e.groupId.Some? && e.groupId.value != 0 then Num(e.groupId.value) else Str("")
  {
    map[EmployeeIdField := Str(e.employeeId), NameField := Str(e.name), EmailField := Str(e.email),
        PasswordField := Str(""), PhoneField := OrEmpty(e.phoneNumber), LanguageField := OrEmpty(e.language),
        GroupField := if e.groupId.Some? && e.groupId.value != 0 then Num(e.groupId.value) else Str("")]
  }

  /** The request a submit sends: `PUT /api/employees/:id` when editing, `POST /api/employees`
      when creating. */
  datatype Request = Update(id: int, payload: FormData) | Create(payload: FormData)

  /** The submit rules: an edit sends the form without the password key when the password is
      empty; a create without a password is refused with "Password is required for new employees". */
  function SubmitEmployee(editing: Option<int>, form: FormData): (r: Result<Request, string>)
    ensures editing.Some? ==> r.Success? && r.value.Update? && r.value.id == editing.value
    ensures editing.Some? ==> (PasswordField in r.value.payload <==> HasPassword(form))
    ensures editing.Some? ==> forall f | f != PasswordField ::
              (f in r.value.payload <==> f in form) && (f in form ==> r.value.payload[f] == form[f])
    ensures editing.Some? && HasPassword(form) ==> r.value.payload == form
    ensures editing.None? ==> (r.Failure? <==> !HasPassword(form))
    ensures r.Failure? ==> r.error == "Password is required for new employees"
    ensures editing.None? && r.Success? ==> r.value == Create(form)
  {
    if editing.Some? then
      Success(Update(editing.value, if HasPassword(form) then form else form - {PasswordField}))
    else if !HasPassword(form) then Failure("Password is required for new employees")
    else Success(Create(form))
  }

  /** The `password` the server reads from a payload: absent when the key was deleted. */
  function PasswordOf(payload: FormData): Option<string> {
    if PasswordField in payload && payload[PasswordField].Str? then Some(payload[PasswordField].s) else None
  }

  /** Editing an employee without typing a password keeps the stored hash on the server; typing
      one stores its hash. */
  lemma EditPasswordReachesServer(es: seq<ServerEmployees.Employee>, i: nat, form: FormData,
                                  req: ServerEmployees.EmployeeUpdate, hashed: string, now: int)
    requires ServerEmployees.Unique(es) && i < |es|
    requires forall f | f in form :: f == GroupField || form[f].Str?
    requires req.password == PasswordOf(SubmitEmployee(Some(es[i].id), form).value.payload)
    requires ServerEmployees.UpdatedEmployees(es, es[i].id, req, hashed, now).Success?
    ensures ServerEmployees.UpdatedEmployees(es, es[i].id, req, hashed, now).value[i].password ==
            if HasPassword(form) then hashed else es[i].password
  {
    ServerEmployees.UpdateEffect(es, es[i].id, req, hashed, now, i);
  }

  /** Loading an employee and saving at once sends no password. */
  lemma LoadThenSaveSendsNoPassword(e: EmployeeRow)
    ensures PasswordOf(SubmitEmployee(Some(e.id), Load(e)).value.payload) == None
  {
  }
}
