/** The employee form of the User Details tab (`setup/EmployeeForm.jsx`). */
module EmployeeForm {
  import opened Wrappers
  import opened Text
  import opened Entities
  import opened EmployeePayload

  class EmployeeFormPanel {
    /** The `formData` state. */
    var formData: FormData
    /** The `error` state. */
    var error: string
    /** The `employee` prop: the employee being edited, if any. */
    const employee: Option<EmployeeRow>

    /** The initial state followed by the effect that loads the employee being edited. */
    constructor (employee: Option<EmployeeRow>)
      ensures this.employee == employee && error == ""
      ensures employee.None? ==> formData == Blank()
      ensures employee.Some? ==> formData == Load(employee.value)
    {
      this.employee := employee;
      formData := Blank();
      error := "";
      if employee.Some? {
        formData := Load(employee.value);
      }
    }

    /** `handleChange`: the named field takes the input's value; no other field moves. */
    method HandleChange(name: Field, value: string)
      modifies this
      ensures formData == old(formData)[name := Str(value)]
      ensures forall f | f in old(formData) && f != name :: f in formData && formData[f] == old(formData)[f]
      ensures error == old(error)
    {
      formData := formData[name := Str(value)];
    }

    /** `handleClear`: every field `''` and no error. */
    method HandleClear()
      modifies this
      ensures formData == Blank() && error == ""
    {
      formData := Blank();
      error := "";
    }

    /** `handleSubmit` up to the request: the payload is a copy of the form whose password key
        is deleted in place when an edit has no password; a create without one is refused. */
    method HandleSubmit() returns (request: Option<Request>)
      modifies this
      ensures formData == old(formData)
      ensures var editing := if employee.Some? then Some(employee.value.id) else None;
        match SubmitEmployee(editing, formData)
        case Failure(message) => request.None? && error == message
        case Success(req) => request == Some(req) && error == ""
    {
      error := "";
      var payload := formData;
      if employee.Some? {
        if !(PasswordField in payload && Truthy(payload[PasswordField])) {
          payload := payload - {PasswordField};
        }
        return Some(Update(employee.value.id, payload));
      }
      if !(PasswordField in payload && Truthy(payload[PasswordField])) {
        error := "Password is required for new employees";
        return None;
      }
      return Some(Create(payload));
    }

    /** The `catch` after the server refused the request. */
    method ReportFailure(serverError: Option<string>)
      modifies this
      ensures error == FailureMessage(serverError, "Failed to save employee") && formData == old(formData)
    {
      error := FailureMessage(serverError, "Failed to save employee");
    }
  }
}
