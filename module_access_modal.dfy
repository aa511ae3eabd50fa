/** The Module Access dialog (`ModuleAccessModal.jsx`): the same editor as the tab, a check that a
    group is chosen before saving, and a view that lists only the modules already assigned. */
module ModuleAccessModal {
  import opened Wrappers
  import opened Text
  import opened Seqs
  import opened Entities
  import opened GrantEditor

  /** The PUT the dialog sends: the chosen group (the select's string value) and the rows. */
  datatype PermissionsPut = PermissionsPut(groupId: string, permissions: seq<Grant>)

  /** `handleSubmit`: without a group, the error "Please select a group" and no request;
      otherwise the request with the rows that have a flag set. */
  function SubmitPermissions(selectedGroup: string, ps: seq<Grant>): (r: Result<PermissionsPut, string>)
    ensures r.Failure? <==> selectedGroup == ""
    ensures r.Failure? ==> r.error == "Please select a group"
    ensures r.Success? ==> r.value.groupId == selectedGroup
    ensures r.Success? ==> IsSubsequence(r.value.permissions, ps)
    ensures r.Success? ==> forall g :: g in r.value.permissions <==> g in ps && g.caps.Any()
  {
    if selectedGroup == "" then Failure("Please select a group")
    else Success(PermissionsPut(selectedGroup, ActivePermissions(ps)))
  }

  function Assigned(ps: seq<Grant>, menuId: int): Module -> bool {
    (x: Module) => GetPermission(ps, menuId, x.id).Any()
  }

  /** The modules rendered for the chosen menu: the menu's catalog modules whose permission has
      at least one flag set, in catalog order. */
  function ShownModules(modules: seq<Module>, ps: seq<Grant>, menuId: int): (r: seq<Module>)
    ensures IsSubsequence(r, ModulesOf(modules, menuId))
    ensures forall x :: x in r <==> x in modules && x.menuId == menuId && GetPermission(ps, menuId, x.id).Any()
  {
    Filter(ModulesOf(modules, menuId), Assigned(ps, menuId))
  }

  /** The condition for "No modules assigned to this menu for this group.": no module of the
      menu has a permission with a flag set. */
  predicate NoModulesAssigned(modules: seq<Module>, ps: seq<Grant>, menuId: int) {
    var ms := ModulesOf(modules, menuId);
    !exists i | 0 <= i < |ms| :: GetPermission(ps, menuId, ms[i].id).Any()
  }

  /** The message shows exactly when the list of shown modules is empty. */
  lemma NoModulesMessageIffNoneShown(modules: seq<Module>, ps: seq<Grant>, menuId: int)
    ensures NoModulesAssigned(modules, ps, menuId) <==> ShownModules(modules, ps, menuId) == []
  {
    var ms := ModulesOf(modules, menuId);
    if !NoModulesAssigned(modules, ps, menuId) {
      var i :| 0 <= i < |ms| && GetPermission(ps, menuId, ms[i].id).Any();
      assert ms[i] in ShownModules(modules, ps, menuId);
    } else {
      FilterDropsAll(ms, Assigned(ps, menuId));
    }
  }

  /** A module with no row at all is never shown: a fresh key has no flag set. */
  lemma UnassignedNotShown(modules: seq<Module>, ps: seq<Grant>, menuId: int, x: Module)
    requires forall i | 0 <= i < |ps| :: !ps[i].HasKey(menuId, x.id)
    ensures x !in ShownModules(modules, ps, menuId)
  {
  }

  class ModuleAccessDialog {
    /** The `permissions` state. */
    var permissions: seq<Grant>
    /** The `error` state shown above the form. */
    var error: string

    constructor ()
      ensures permissions == [] && error == ""
    {
      permissions := [];
      error := "";
    }

    /** `fetchGroupPermissions`: the rows the server listed for the chosen group. */
    method LoadPermissions(fetched: seq<Grant>)
      modifies this
      ensures permissions == fetched && error == old(error)
    {
      permissions := fetched;
    }

    /** `updatePermission`: the shared upsert applied to the state. */
    method UpdatePermission(menuId: int, moduleId: int, f: Capability, v: bool)
      modifies this
      ensures permissions == Upserted(old(permissions), menuId, moduleId, f, v)
      ensures error == old(error)
    {
      permissions := Upsert(permissions, menuId, moduleId, f, v);
    }

    /** `handleSubmit`: sets the error and sends nothing without a group; otherwise clears the
        error and returns the request to send. The rows themselves are not changed. */
    method HandleSubmit(selectedGroup: string) returns (request: Option<PermissionsPut>)
      modifies this
      ensures permissions == old(permissions)
      ensures selectedGroup == "" ==> request.None? && error == "Please select a group"
      ensures selectedGroup != "" ==>
        error == "" && request == Some(PermissionsPut(selectedGroup, ActivePermissions(permissions)))
    {
      var r := SubmitPermissions(selectedGroup, permissions);
      if r.Failure? {
        error := r.error;
        return None;
      }
      error := "";
      return Some(r.value);
    }

    /** The `catch` of `handleSubmit`: the server's message, or the default one. */
    method ReportFailure(serverError: Option<string>)
      modifies this
      ensures permissions == old(permissions)
      ensures error == FailureMessage(serverError, "Failed to update permissions")
    {
      error := FailureMessage(serverError, "Failed to update permissions");
    }
  }
}
