/** The records the server and the client pass around: catalog menus and modules, groups,
    employees as listed by the server, and permission grants with their four capability flags. */
module Entities {
  import opened Wrappers
  import opened Seqs

  /** The four capabilities a grant can carry; the source names them `can_add`, `can_view`,
      `can_edit` and `can_delete` (and `add`, `view`, `edit`, `delete` for the bulk switches). */
  datatype Capability = Add | View | Edit | Delete

  datatype Caps = Caps(canAdd: bool, canView: bool, canEdit: bool, canDelete: bool) {

    /** The flag `p[field]`. */
    function Get(f: Capability): bool {
      match f
      case Add => canAdd
      case View => canView
      case Edit => canEdit
      case Delete => canDelete
    }

    /** `{ ...p, [field]: value }` on the four flags. */
    function With(f: Capability, v: bool): (r: Caps)
      ensures r.Get(f) == v
      ensures forall g: Capability | g != f :: r.Get(g) == Get(g)
    {
      match f
      case Add => this.(canAdd := v)
      case View => this.(canView := v)
      case Edit => this.(canEdit := v)
      case Delete => this.(canDelete := v)
    }

    /** `p.can_add || p.can_view || p.can_edit || p.can_delete`. */
    predicate Any() {
      canAdd || canView || canEdit || canDelete
    }
  }

  /** Setting the same flag to the same value twice is the same as setting it once. */
  lemma WithTwice(c: Caps, f: Capability, v: bool)
    ensures c.With(f, v).With(f, v) == c.With(f, v)
  {
    match f
    case Add =>
    case View =>
    case Edit =>
    case Delete =>
  }

  /** The record `getPermission` falls back to when no row matches. */
  const NoCaps := Caps(false, false, false, false)

  /** The flags `CreateGroupModal` gives every selected module. */
  const AllCaps := Caps(true, true, true, true)

  /** One permission row as the client holds it: `menu_id`, `module_id` and the four flags. */
  datatype Grant = Grant(menuId: int, moduleId: int, caps: Caps) {
    predicate HasKey(menu: int, mod: int) {
      menuId == menu && moduleId == mod
    }
  }

  /** A row of the `menus` table. */
  datatype Menu = Menu(id: int, name: string)

  /** A row of the `modules` table; every module belongs to one menu. */
  datatype Module = Module(id: int, menuId: int, name: string)

  /** A row of the `groups` table. */
  datatype GroupRow = GroupRow(id: int, name: string)

  /** An employee as `GET /api/employees` lists it (the password is never sent). */
  datatype EmployeeRow = EmployeeRow(
    id: int, employeeId: string, name: string, email: string,
    phoneNumber: Option<string>, language: Option<string>, groupId: Option<int>)

  function InMenu(menuId: int): Module -> bool {
    (m: Module) => m.menuId == menuId
  }

  /** `modules.filter((module) => module.menu_id === menuId)`: the catalog modules of one menu,
      in catalog order. */
  function ModulesOf(modules: seq<Module>, menuId: int): (r: seq<Module>)
    ensures IsSubsequence(r, modules)
    ensures forall x :: x in r <==> x in modules && x.menuId == menuId
  {
    Filter(modules, InMenu(menuId))
  }

  /** The ids of some menus. */
  function MenuIds(menus: seq<Menu>): set<int> {
    set m | m in menus :: m.id
  }
}
