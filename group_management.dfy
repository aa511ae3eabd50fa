/** The Groups tab (`setup/GroupManagement.jsx`): the create form, the inline edit form, and the
    checks both run before any request. */
module GroupManagement {
  import opened Wrappers
  import opened Text
  import opened Entities
  import opened Selection

  /** The body of `POST /api/groups` the form sends. */
  datatype CreateRequest = CreateRequest(name: string, permissions: seq<Grant>, menuIds: seq<int>)

  /** What a save-edit sends: the new name of the group, then its menu ids. */
  datatype EditRequest = EditRequest(groupId: int, name: string, menuIds: seq<int>)

  /** The checks of `handleSubmit` and `handleSaveEdit`: the name first, then the menus. On
      success, the ids of the checked menus in `Object.keys` order. */
  function ValidateGroup(name: string, selected: map<int, bool>): (r: Result<seq<int>, string>)
    ensures r == Failure("Group name is required") <==> IsBlank(name)
    ensures r == Failure("Please select at least one menu") <==> !IsBlank(name) && CheckedKeys(selected) == {}
    ensures r.Success? <==> !IsBlank(name) && CheckedKeys(selected) != {}
    ensures r.Success? ==> forall id :: id in r.value <==> id in CheckedKeys(selected)
    ensures r.Success? ==> StrictlyAscending(r.value)
  {
    if IsBlank(name) then Failure("Group name is required")
    else
      var ids := SelectedIds(selected);
      if ids == [] then
        Failure("Please select at least one menu")
      else
        assert ids[0] in CheckedKeys(selected);
        Success(ids)
  }

  function FetchedIds(fetched: Option<seq<Menu>>): set<int> {
    if fetched.None? then {} else MenuIds(fetched.value)
  }

  class GroupForm {
    var groupName: string
    var selectedMenus: map<int, bool>
    var error: string
    var editingGroup: Option<int>
    var editGroupName: string
    var editSelectedMenus: map<int, bool>

    constructor ()
      ensures groupName == "" && selectedMenus == map[] && error == ""
      ensures editingGroup == None && editGroupName == "" && editSelectedMenus == map[]
    {
      groupName := "";
      selectedMenus := map[];
      error := "";
      editingGroup := None;
      editGroupName := "";
      editSelectedMenus := map[];
    }

    /** `handleMenuToggle`: flips one menu of the create form. */
    method HandleMenuToggle(menuId: int)
      modifies this
      ensures selectedMenus == Toggle(old(selectedMenus), menuId)
      ensures groupName == old(groupName) && error == old(error)
      ensures editingGroup == old(editingGroup) && editGroupName == old(editGroupName)
      ensures editSelectedMenus == old(editSelectedMenus)
    {
      selectedMenus := Toggle(selectedMenus, menuId);
    }

    /** `handleSubmit`: the checks, then the request with the untrimmed name, no permissions
        and the checked menu ids. The form keeps its contents until the request succeeds. */
    method HandleSubmit() returns (request: Option<CreateRequest>)
      modifies this
      ensures groupName == old(groupName) && selectedMenus == old(selectedMenus)
      ensures editingGroup == old(editingGroup) && editGroupName == old(editGroupName)
      ensures editSelectedMenus == old(editSelectedMenus)
      ensures ValidateGroup(groupName, selectedMenus).Failure? ==>
        request.None? && error == ValidateGroup(groupName, selectedMenus).error
      ensures ValidateGroup(groupName, selectedMenus).Success? ==>
        error == "" && request == Some(CreateRequest(groupName, [], ValidateGroup(groupName, selectedMenus).value))
    {
      var checked := ValidateGroup(groupName, selectedMenus);
      if checked.Failure? {
        error := checked.error;
        return None;
      }
      error := "";
      return Some(CreateRequest(groupName, [], checked.value));
    }

    /** After the group was created: the form is emptied. */
    method HandleCreated()
      modifies this
      ensures groupName == "" && selectedMenus == map[] && error == old(error)
      ensures editingGroup == old(editingGroup) && editGroupName == old(editGroupName)
      ensures editSelectedMenus == old(editSelectedMenus)
    {
      groupName := "";
      selectedMenus := map[];
    }

    /** The `catch` of a request: the server's message, or the handler's own. */
    method ReportFailure(serverError: Option<string>, fallback: string)
      modifies this
      ensures error == FailureMessage(serverError, fallback)
      ensures groupName == old(groupName) && selectedMenus == old(selectedMenus)
      ensures editingGroup == old(editingGroup) && editGroupName == old(editGroupName)
      ensures editSelectedMenus == old(editSelectedMenus)
    {
      error := FailureMessage(serverError, fallback);
    }

    /** `handleClear`. */
    method HandleClear()
      modifies this
      ensures groupName == "" && selectedMenus == map[] && error == ""
      ensures editingGroup == old(editingGroup) && editGroupName == old(editGroupName)
      ensures editSelectedMenus == old(editSelectedMenus)
    {
      groupName := "";
      selectedMenus := map[];
      error := "";
    }

    /** `handleEditGroup` with `fetchGroupMenusForEdit`: every catalog menu starts unchecked,
        then every menu the server returned for the group is checked. `fetched` is `None` when
        that request fails, and the map then stays all unchecked. */
    method HandleEditGroup(group: GroupRow, menus: seq<Menu>, fetched: Option<seq<Menu>>)
      modifies this
      ensures editingGroup == Some(group.id) && editGroupName == group.name
      ensures editSelectedMenus.Keys == MenuIds(menus) + FetchedIds(fetched)
      ensures forall id | id in editSelectedMenus :: editSelectedMenus[id] <==> id in FetchedIds(fetched)
      ensures CheckedKeys(editSelectedMenus) == FetchedIds(fetched)
      ensures groupName == old(groupName) && selectedMenus == old(selectedMenus) && error == old(error)
    {
      editingGroup := Some(group.id);
      editGroupName := group.name;
      var menuMap: map<int, bool> := map[];
      for i := 0 to |menus|
        invariant menuMap.Keys == MenuIds(menus[..i])
        invariant forall id | id in menuMap :: !menuMap[id]
      {
        menuMap := menuMap[menus[i].id := false];
        assert MenuIds(menus[..i + 1]) == MenuIds(menus[..i]) + {menus[i].id} by {
          assert menus[..i + 1] == menus[..i] + [menus[i]];
        }
      }
      assert menus[..|menus|] == menus;
      if fetched.Some? {
        var got := fetched.value;
        for j := 0 to |got|
          invariant menuMap.Keys == MenuIds(menus) + MenuIds(got[..j])
          invariant forall id | id in menuMap :: menuMap[id] <==> id in MenuIds(got[..j])
        {
          menuMap := menuMap[got[j].id := true];
          assert MenuIds(got[..j + 1]) == MenuIds(got[..j]) + {got[j].id} by {
            assert got[..j + 1] == got[..j] + [got[j]];
          }
        }
        assert got[..|got|] == got;
      }
      editSelectedMenus := menuMap;
    }

    /** The edit form's check-box: sets the menu to the box's new state. */
    method HandleEditMenuChange(menuId: int, checked: bool)
      modifies this
      ensures editSelectedMenus == old(editSelectedMenus)[menuId := checked]
      ensures CheckedKeys(editSelectedMenus) ==
              if checked then CheckedKeys(old(editSelectedMenus)) + {menuId} else CheckedKeys(old(editSelectedMenus)) - {menuId}
      ensures groupName == old(groupName) && selectedMenus == old(selectedMenus) && error == old(error)
      ensures editingGroup == old(editingGroup) && editGroupName == old(editGroupName)
    {
      editSelectedMenus := editSelectedMenus[menuId := checked];
    }

    /** `handleSaveEdit`: the same checks on the edit form, then the requests to send. */
    method HandleSaveEdit(groupId: int) returns (request: Option<EditRequest>)
      modifies this
      ensures groupName == old(groupName) && selectedMenus == old(selectedMenus)
      ensures editingGroup == old(editingGroup) && editGroupName == old(editGroupName)
      ensures editSelectedMenus == old(editSelectedMenus)
      ensures ValidateGroup(editGroupName, editSelectedMenus).Failure? ==>
        request.None? && error == ValidateGroup(editGroupName, editSelectedMenus).error
      ensures ValidateGroup(editGroupName, editSelectedMenus).Success? ==>
        error == old(error) &&
        request == Some(EditRequest(groupId, editGroupName, ValidateGroup(editGroupName, editSelectedMenus).value))
    {
      var checked := ValidateGroup(editGroupName, editSelectedMenus);
      if checked.Failure? {
        error := checked.error;
        return None;
      }
      return Some(EditRequest(groupId, editGroupName, checked.value));
    }

    /** `handleCancelEdit`: leaves edit mode; the edit check-boxes are left as they were. */
    method HandleCancelEdit()
      modifies this
      ensures editingGroup == None && editGroupName == "" && error == ""
      ensures editSelectedMenus == old(editSelectedMenus)
      ensures groupName == old(groupName) && selectedMenus == old(selectedMenus)
    {
      editingGroup := None;
      editGroupName := "";
      error := "";
    }
  }

  /** With no menu checked, neither form can send anything, whatever the name. */
  lemma NothingSentWithoutMenus(name: string, selected: map<int, bool>)
    requires forall id | id in selected :: !selected[id]
    ensures ValidateGroup(name, selected).Failure?
  {
    assert forall k :: k !in CheckedKeys(selected);
  }
}
