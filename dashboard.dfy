/** The dashboard's navigation (`Dashboard.jsx`): who is the administrator, which grant rows the
    signed-in employee gets, and the menus and modules the side bar shows from them. */
module Dashboard {
  import opened Wrappers
  import opened Seqs
  import opened Entities

  /** `email === 'admin@example.com'`, on the email kept at sign-in (absent when none was kept). */
  predicate IsAdmin(email: Option<string>) {
    email == Some("admin@example.com")
  }

  function HasEmail(email: string): EmployeeRow -> bool {
    (e: EmployeeRow) => e.email == email
  }

  /** `response.data.find(emp => emp.email === email)`. */
  function CurrentUser(employees: seq<EmployeeRow>, email: Option<string>): (r: Option<EmployeeRow>)
    ensures r.Some? ==> r.value in employees && email == Some(r.value.email)
    ensures r.None? <==> email.None? || forall i | 0 <= i < |employees| :: employees[i].email != email.value
    ensures r.Some? ==> exists i | 0 <= i < |employees| ::
      employees[i] == r.value && forall j | 0 <= j < i :: employees[j].email != r.value.email
  {
    if email.None? then None else Find(employees, HasEmail(email.value))
  }

  /** `currentUser && currentUser.group_id`: the group whose permissions are fetched, when the
      user is found and has a non-zero group. */
  function UserGroup(employees: seq<EmployeeRow>, email: Option<string>): (r: Option<int>)
    ensures r.Some? <==> CurrentUser(employees, email).Some? && CurrentUser(employees, email).value.groupId.Some?
                         && CurrentUser(employees, email).value.groupId.value != 0
    ensures r.Some? ==> r == CurrentUser(employees, email).value.groupId
  {
    match CurrentUser(employees, email)
    case None => None
    case Some(e) => if e.groupId.Some? && e.groupId.value != 0 then e.groupId else None
  }

  /** `userPermissions` after `fetchUserInfo`: the listing of the user's group, or still `[]`.
      `grantsOf` stands for `GET /api/groups/:id/permissions`. */
  function LoadPermissions(employees: seq<EmployeeRow>, email: Option<string>, grantsOf: int -> seq<Grant>): (r: seq<Grant>)
    ensures UserGroup(employees, email).None? ==> r == []
    ensures UserGroup(employees, email).Some? ==> r == grantsOf(UserGroup(employees, email).value)
  {
    match UserGroup(employees, email)
    case None => []
    case Some(g) => grantsOf(g)
  }

  function HasMenuRow(perms: seq<Grant>): Menu -> bool {
    (m: Menu) => exists i | 0 <= i < |perms| :: perms[i].menuId == m.id
  }

  function HasModuleRow(perms: seq<Grant>, menuId: int): Module -> bool {
    (x: Module) => exists i | 0 <= i < |perms| :: perms[i].HasKey(menuId, x.id)
  }

  /** `getAccessibleMenus`: every menu for the administrator; for anyone else the menus some grant
      row names, in catalog order. No flag of the row is looked at. */
  function AccessibleMenus(isAdmin: bool, menus: seq<Menu>, perms: seq<Grant>): (r: seq<Menu>)
    ensures isAdmin ==> r == menus
    ensures IsSubsequence(r, menus)
    ensures !isAdmin ==> forall m :: m in r <==> m in menus && exists i | 0 <= i < |perms| :: perms[i].menuId == m.id
  {
    if isAdmin then
      assert IsSubsequence(menus, menus) by { SubsequenceOfItself(menus); }
      menus
    else Filter(menus, HasMenuRow(perms))
  }

  /** `getModulesForMenu`: the menu's catalog modules; for anyone but the administrator only those
      with a grant row for exactly that menu and module, in catalog order. */
  function ModulesForMenu(isAdmin: bool, modules: seq<Module>, perms: seq<Grant>, menuId: int): (r: seq<Module>)
    ensures isAdmin ==> r == ModulesOf(modules, menuId)
    ensures IsSubsequence(r, modules)
    ensures !isAdmin ==> forall x :: x in r <==>
      x in modules && x.menuId == menuId && exists i | 0 <= i < |perms| :: perms[i].HasKey(menuId, x.id)
  {
    if isAdmin then ModulesOf(modules, menuId)
    else
      var r := Filter(ModulesOf(modules, menuId), HasModuleRow(perms, menuId));
      SubsequenceTrans(r, ModulesOf(modules, menuId), modules);
      r
  }

  /** A menu that shows a module is itself shown. */
  lemma ModulesImplyMenu(isAdmin: bool, menus: seq<Menu>, modules: seq<Module>, perms: seq<Grant>, m: Menu)
    requires m in menus
    requires ModulesForMenu(isAdmin, modules, perms, m.id) != []
    ensures m in AccessibleMenus(isAdmin, menus, perms)
  {
    if !isAdmin {
      var x := ModulesForMenu(isAdmin, modules, perms, m.id)[0];
      assert x in ModulesForMenu(isAdmin, modules, perms, m.id);
    }
  }

  function SameKeys(ps: seq<Grant>, qs: seq<Grant>): bool {
    |ps| == |qs| && forall i | 0 <= i < |ps| :: ps[i].menuId == qs[i].menuId && ps[i].moduleId == qs[i].moduleId
  }

  /** Navigation depends on the keys of the rows only: rows that differ in their flags alone,
      an all-false row included, give the same menus and modules. */
  lemma FlagsNotConsulted(isAdmin: bool, menus: seq<Menu>, modules: seq<Module>, ps: seq<Grant>, qs: seq<Grant>, menuId: int)
    requires SameKeys(ps, qs)
    ensures AccessibleMenus(isAdmin, menus, ps) == AccessibleMenus(isAdmin, menus, qs)
    ensures ModulesForMenu(isAdmin, modules, ps, menuId) == ModulesForMenu(isAdmin, modules, qs, menuId)
  {
    if !isAdmin {
      FilterAgrees(menus, HasMenuRow(ps), HasMenuRow(qs));
      FilterAgrees(ModulesOf(modules, menuId), HasModuleRow(ps, menuId), HasModuleRow(qs, menuId));
    }
  }

  /** An employee who is not the administrator and has no group sees no menu and no module. */
  lemma NoGroupNoMenus(employees: seq<EmployeeRow>, email: Option<string>, grantsOf: int -> seq<Grant>,
                       menus: seq<Menu>, modules: seq<Module>, menuId: int)
    requires !IsAdmin(email)
    requires UserGroup(employees, email).None?
    ensures AccessibleMenus(IsAdmin(email), menus, LoadPermissions(employees, email, grantsOf)) == []
    ensures ModulesForMenu(IsAdmin(email), modules, LoadPermissions(employees, email, grantsOf), menuId) == []
  {
    FilterDropsAll(menus, HasMenuRow([]));
    FilterDropsAll(ModulesOf(modules, menuId), HasModuleRow([], menuId));
  }

  /** An employee who is not the administrator and whose group is `g` gets the rows of `g` and
      sees the navigation those rows give. */
  lemma GroupMemberSeesGroupMenus(employees: seq<EmployeeRow>, email: Option<string>, grantsOf: int -> seq<Grant>,
                                  menus: seq<Menu>, modules: seq<Module>, menuId: int, g: int)
    requires !IsAdmin(email)
    requires CurrentUser(employees, email).Some? && CurrentUser(employees, email).value.groupId == Some(g) && g != 0
    ensures LoadPermissions(employees, email, grantsOf) == grantsOf(g)
    ensures AccessibleMenus(IsAdmin(email), menus, LoadPermissions(employees, email, grantsOf)) ==
            AccessibleMenus(false, menus, grantsOf(g))
    ensures ModulesForMenu(IsAdmin(email), modules, LoadPermissions(employees, email, grantsOf), menuId) ==
            ModulesForMenu(false, modules, grantsOf(g), menuId)
  {
  }

  /** The administrator is recognised by the stored email alone, and sees every menu and each
      menu's every module, whatever group, if any, the employee table gives that email. */
  lemma AdminSeesEverything(employees: seq<EmployeeRow>, email: Option<string>, grantsOf: int -> seq<Grant>,
                            menus: seq<Menu>, modules: seq<Module>, menuId: int)
    requires email == Some("admin@example.com")
    ensures IsAdmin(email)
    ensures AccessibleMenus(IsAdmin(email), menus, LoadPermissions(employees, email, grantsOf)) == menus
    ensures ModulesForMenu(IsAdmin(email), modules, LoadPermissions(employees, email, grantsOf), menuId) ==
            ModulesOf(modules, menuId)
  {
  }
}
