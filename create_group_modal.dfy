/** The Create Group dialog (`CreateGroupModal.jsx`): modules are picked one check-box at a time
    and become grants with every capability, under the menu the catalog gives each module. */
module CreateGroupModal {
  import opened Wrappers
  import opened Seqs
  import opened Text
  import opened Entities
  import opened Selection

  /** The body of `POST /api/groups` the dialog sends. */
  datatype CreateRequest = CreateRequest(name: string, permissions: seq<Grant>)

  function HasModuleId(id: int): Module -> bool {
    (x: Module) => x.id == id
  }

  /** The grant for one selected id: `modules.find` for the module, its `menu_id`, all four flags
      true. `None` when the catalog has no such module, where `module.menu_id` throws. */
  function GrantFor(id: int, modules: seq<Module>): (r: Option<Grant>)
    ensures r.None? <==> forall i | 0 <= i < |modules| :: modules[i].id != id
    ensures r.Some? ==> r.value.moduleId == id && r.value.caps == AllCaps
    ensures r.Some? ==> exists i | 0 <= i < |modules| :: modules[i].id == id && modules[i].menuId == r.value.menuId
  {
    match Find(modules, HasModuleId(id))
    case None => None
    case Some(x) => Some(Grant(x.menuId, id, AllCaps))
  }

  /** The `.map` over the selected ids: one grant per id, in the same order, or `None` when any
      id is missing from the catalog. */
  function GrantsFor(ids: seq<int>, modules: seq<Module>): (r: Option<seq<Grant>>)
    ensures r.None? <==> exists i | 0 <= i < |ids| :: forall j | 0 <= j < |modules| :: modules[j].id != ids[i]
    ensures r.Some? ==> |r.value| == |ids|
    ensures r.Some? ==> forall i | 0 <= i < |ids| ::
      && r.value[i].moduleId == ids[i]
      && r.value[i].caps == AllCaps
      && exists j | 0 <= j < |modules| :: modules[j].id == ids[i] && modules[j].menuId == r.value[i].menuId
  {
    if ids == [] then Some([])
    else match GrantFor(ids[0], modules)
      case None => None
      case Some(g) =>
        match GrantsFor(ids[1..], modules)
        case None =>
          var k :| 0 <= k < |ids[1..]| && forall j | 0 <= j < |modules| :: modules[j].id != ids[1..][k];
          assert ids[k + 1] == ids[1..][k];
          None
        case Some(gs) =>
          assert forall i | 1 <= i < |ids| :: ids[i] == ids[1..][i - 1];
          Some([g] + gs)
  }

  /** The `permissions` of `handleSubmit`. */
  function Permissions(selected: map<int, bool>, modules: seq<Module>): Option<seq<Grant>> {
    GrantsFor(SelectedIds(selected), modules)
  }

  /** Each checked module gives exactly one grant and an unchecked one none, in ascending order
      of module id. */
  lemma PermissionsMatchSelection(selected: map<int, bool>, modules: seq<Module>)
    requires Permissions(selected, modules).Some?
    ensures forall id :: (exists i | 0 <= i < |Permissions(selected, modules).value| ::
                            Permissions(selected, modules).value[i].moduleId == id) <==> IsChecked(selected, id)
    ensures forall i, j | 0 <= i < j < |Permissions(selected, modules).value| ::
              Permissions(selected, modules).value[i].moduleId < Permissions(selected, modules).value[j].moduleId
  {
    var ids := SelectedIds(selected);
    var ps := Permissions(selected, modules).value;
    assert forall i | 0 <= i < |ps| :: ps[i].moduleId == ids[i];
    forall id | IsChecked(selected, id)
      ensures exists i | 0 <= i < |ps| :: ps[i].moduleId == id
    {
      var i :| 0 <= i < |ids| && ids[i] == id;
      assert ps[i].moduleId == id;
    }
  }

  /** Every grant has all four capabilities, and the menu of a catalog module with its id. */
  lemma PermissionsCarryCatalogMenu(selected: map<int, bool>, modules: seq<Module>, i: nat)
    requires Permissions(selected, modules).Some?
    requires i < |Permissions(selected, modules).value|
    ensures Permissions(selected, modules).value[i].caps == AllCaps
    ensures exists x | x in modules :: x.id == Permissions(selected, modules).value[i].moduleId &&
                                       x.menuId == Permissions(selected, modules).value[i].menuId
  {
    var ids := SelectedIds(selected);
    var ps := Permissions(selected, modules).value;
    var j :| 0 <= j < |modules| && modules[j].id == ids[i] && modules[j].menuId == ps[i].menuId;
    assert modules[j] in modules;
  }

  /** A selected id missing from the catalog makes the whole submission fail. */
  lemma MissingModuleFails(selected: map<int, bool>, modules: seq<Module>, id: int)
    requires IsChecked(selected, id)
    requires forall j | 0 <= j < |modules| :: modules[j].id != id
    ensures Permissions(selected, modules).None?
  {
    var ids := SelectedIds(selected);
    var i :| 0 <= i < |ids| && ids[i] == id;
  }

  /** `handleSubmit`: "Group name is required" for a blank name; "Failed to create group" when
      the grants cannot be built; otherwise the request with the untrimmed name. */
  function Submit(name: string, selected: map<int, bool>, modules: seq<Module>): (r: Result<CreateRequest, string>)
    ensures IsBlank(name) ==> r == Failure("Group name is required")
    ensures !IsBlank(name) && Permissions(selected, modules).None? ==> r == Failure("Failed to create group")
    ensures r.Success? <==> !IsBlank(name) && Permissions(selected, modules).Some?
    ensures r.Success? ==> r.value.name == name && Some(r.value.permissions) == Permissions(selected, modules)
  {
    if IsBlank(name) then Failure("Group name is required")
    else match Permissions(selected, modules)
      case None => Failure("Failed to create group")
      case Some(ps) => Success(CreateRequest(name, ps))
  }

  /** With no module checked, the group is still sent, with no permissions. */
  lemma EmptySelectionStillSubmits(name: string, selected: map<int, bool>, modules: seq<Module>)
    requires !IsBlank(name)
    requires forall id | id in selected :: !selected[id]
    ensures Submit(name, selected, modules) == Success(CreateRequest(name, []))
  {
  }

  class CreateGroupDialog {
    var groupName: string
    var selectedModules: map<int, bool>
    var error: string

    constructor ()
      ensures groupName == "" && selectedModules == map[] && error == ""
    {
      groupName := "";
      selectedModules := map[];
      error := "";
    }

    /** `toggleModule`: flips one module and no other. */
    method ToggleModule(moduleId: int)
      modifies this
      ensures selectedModules == Toggle(old(selectedModules), moduleId)
      ensures groupName == old(groupName) && error == old(error)
    {
      selectedModules := Toggle(selectedModules, moduleId);
    }

    /** `handleSubmit` up to the request: the error it shows, and the request when there is one. */
    method HandleSubmit(modules: seq<Module>) returns (request: Option<CreateRequest>)
      modifies this
      ensures groupName == old(groupName) && selectedModules == old(selectedModules)
      ensures Submit(groupName, selectedModules, modules).Failure? ==>
        request.None? && error == Submit(groupName, selectedModules, modules).error
      ensures Submit(groupName, selectedModules, modules).Success? ==>
        error == "" && request == Some(Submit(groupName, selectedModules, modules).value)
    {
      var r := Submit(groupName, selectedModules, modules);
      if r.Failure? {
        error := r.error;
        return None;
      }
      error := "";
      return Some(r.value);
    }

    /** The `catch` after the server refused the request. */
    method ReportFailure(serverError: Option<string>)
      modifies this
      ensures error == FailureMessage(serverError, "Failed to create group")
      ensures groupName == old(groupName) && selectedModules == old(selectedModules)
    {
      error := FailureMessage(serverError, "Failed to create group");
    }
  }
}
