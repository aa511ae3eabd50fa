/** The Add/Edit Employee dialog (`AddEmployeeModal.jsx`). */
module AddEmployeeModal {
  import opened Wrappers
  import opened Text
  import opened Entities
  import opened EmployeePayload

  class AddEmployeeDialog {
    /** The `formData` state. */
    var formData: FormData
    /** The `error` state. */
    var error: string
    /** The `editingEmployee` prop: the employee being edited, if any. */
    const editingEmployee: Option<EmployeeRow>

    /** The initial state followed by the effect that loads `editingEmployee`. */
    constructor (editingEmployee: Option<EmployeeRow>)
      ensures this.editingEmployee == editingEmployee && error == ""
      ensures editingEmployee.None? ==> formData == Blank()
      ensures editingEmployee.Some? ==> formData == Load(editingEmployee.value)
    {
      this.editingEmployee := editingEmployee;
      formData := Blank();
      error := "";
      if editingEmployee.Some? {
        formData := Load(editingEmployee.value);
      }
    }

    /** `handleChange`: the named field takes the input's value; no other field moves. */
    method HandleChange(name: Field, value: string)
      modifies this
      ensures formData == old(formData)[name := Str(value)]
      ensures forall f | f in old(formData) && f != name :: f in formData && formData[f] == old(formData)[f]
      ensures error == old(error)
    {
      formData := formData[name := Str(value)];
    }

    /** `handleSubmit` up to the request: the payload is a copy of the form whose password key
        is deleted in place when an edit has no password (`updateData`); a create without one is refused. */
    method HandleSubmit() returns (request: Option<Request>)
      modifies this
      ensures formData == old(formData)
      ensures var editing := if editingEmployee.Some? then Some(editingEmployee.value.id) else None;
        match SubmitEmployee(editing, formData)
        case Failure(message) => request.None? && error == message
        case Success(req) => request == Some(req) && error == ""
    {
      error := "";
      var payload := formData;
      if editingEmployee.Some? {
        if !(PasswordField in payload && Truthy(payload[PasswordField])) {
          payload := payload - {PasswordField};
        }
        return Some(Update(editingEmployee.value.id, payload));
      }
      if !(PasswordField in payload && Truthy(payload[PasswordField])) {
        error := "Password is required for new employees";
        return None;
      }
      return Some(Create(payload));
    }

    /** The `catch` after the server refused the request. */
    method ReportFailure(serverError: Option<string>)
      modifies this
      ensures error == FailureMessage(serverError, "Failed to save employee") && formData == old(formData)
    {
      error := FailureMessage(serverError, "Failed to save employee");
    }
  }
}
