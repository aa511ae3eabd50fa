/** The Module Access tab (`setup/ModuleAccess.jsx`): the permission rows of the chosen group,
    edited one check-box at a time or in bulk with the four "apply to all" switches. */
module ModuleAccess {
  import opened Seqs
  import opened Entities
  import opened GrantEditor

  /** The keys one menu contributes to a bulk update: that menu with each of its modules. */
  function MenuKeys(menuId: int, ms: seq<Module>): (r: seq<Key>)
    ensures |r| == |ms|
    ensures forall i | 0 <= i < |r| :: r[i] == (menuId, ms[i].id)
  {
    seq(|ms|, i requires 0 <= i < |ms| => (menuId, ms[i].id))
  }

  /** The keys `handleAutoPermission` visits, in visiting order: for each catalog menu, each module
      `getModulesForMenu(menu.id)` returns. */
  function AutoKeys(menus: seq<Menu>, modules: seq<Module>): (r: seq<Key>)
    decreases |menus|
  {
    if menus == [] then []
    else
      var last := menus[|menus| - 1];
      AutoKeys(menus[..|menus| - 1], modules) + MenuKeys(last.id, ModulesOf(modules, last.id))
  }

  /** One menu's keys are that menu paired with exactly the modules that belong to it. */
  lemma MenuKeysOfMenu(modules: seq<Module>, id: int, m: int, k: int)
    ensures (m, k) in MenuKeys(id, ModulesOf(modules, id)) <==>
            m == id && exists x | x in modules :: x.menuId == m && x.id == k
  {
    var ms := ModulesOf(modules, id);
    var ks := MenuKeys(id, ms);
    if (m, k) in ks {
      var i :| 0 <= i < |ks| && ks[i] == (m, k);
      assert ms[i] in modules;
    }
    if m == id && exists x | x in modules :: x.menuId == m && x.id == k {
      var x :| x in modules && x.menuId == m && x.id == k;
      assert x in ms;
      var i :| 0 <= i < |ms| && ms[i] == x;
      assert ks[i] == (m, k);
    }
  }

  /** The bulk switches reach every module of every catalog menu and nothing else: a key is
      visited exactly when its menu is in the catalog and its module belongs to that menu. */
  lemma {:induction false} AutoKeysCoverCatalog(menus: seq<Menu>, modules: seq<Module>, m: int, k: int)
    ensures (m, k) in AutoKeys(menus, modules) <==>
            m in MenuIds(menus) && exists x | x in modules :: x.menuId == m && x.id == k
    decreases |menus|
  {
    if menus != [] {
      var init := menus[..|menus| - 1];
      var last := menus[|menus| - 1];
      AutoKeysCoverCatalog(init, modules, m, k);
      MenuKeysOfMenu(modules, last.id, m, k);
      assert menus == init + [last];
      assert MenuIds(menus) == MenuIds(init) + {last.id};
    }
  }

  /** Running the upserts of a key list and then those of a second list is the bulk update over the
      two lists joined. */
  lemma {:induction false} ApplyToKeysSnoc(ps: seq<Grant>, keys: seq<Key>, x: Key, f: Capability, v: bool)
    ensures ApplyToKeys(ps, keys + [x], f, v) == Upserted(ApplyToKeys(ps, keys, f, v), x.0, x.1, f, v)
  {
    assert (keys + [x])[..|keys|] == keys;
  }

  lemma AutoKeysSnoc(menus: seq<Menu>, i: nat, modules: seq<Module>)
    requires i < |menus|
    ensures AutoKeys(menus[..i + 1], modules) ==
            AutoKeys(menus[..i], modules) + MenuKeys(menus[i].id, ModulesOf(modules, menus[i].id))
  {
    assert menus[..i + 1][..i] == menus[..i];
  }

  class ModuleAccessScreen {
    /** The `permissions` state: the rows being edited. */
    var permissions: seq<Grant>
    /** The `autoPermissions` state: the four "apply to all" switches. */
    var autoPermissions: Caps

    constructor ()
      ensures permissions == [] && autoPermissions == NoCaps
    {
      permissions := [];
      autoPermissions := NoCaps;
    }

    /** `fetchGroupPermissions`: the rows become the group's listing from the server. */
    method LoadPermissions(fetched: seq<Grant>)
      modifies this
      ensures permissions == fetched && autoPermissions == old(autoPermissions)
    {
      permissions := fetched;
    }

    /** `updatePermission`: the shared upsert applied to the state. */
    method UpdatePermission(menuId: int, moduleId: int, f: Capability, v: bool)
      modifies this
      ensures permissions == Upserted(old(permissions), menuId, moduleId, f, v)
      ensures autoPermissions == old(autoPermissions)
    {
      permissions := Upsert(permissions, menuId, moduleId, f, v);
    }

    /** `handleAutoPermission(t)`: flips switch `t`, then sets flag `t` to the switch's new value for
        every module of every catalog menu, one `updatePermission` at a time. */
    method HandleAutoPermission(menus: seq<Menu>, modules: seq<Module>, t: Capability)
      modifies this
      ensures autoPermissions == old(autoPermissions).With(t, !old(autoPermissions).Get(t))
      ensures permissions == ApplyToKeys(old(permissions), AutoKeys(menus, modules), t, autoPermissions.Get(t))
    {
      var newValue := !autoPermissions.Get(t);
      autoPermissions := autoPermissions.With(t, newValue);
      ghost var start := permissions;
      for i := 0 to |menus|
        invariant autoPermissions == old(autoPermissions).With(t, newValue)
        invariant permissions == ApplyToKeys(start, AutoKeys(menus[..i], modules), t, newValue)
      {
        var menu := menus[i];
        ApplyToMenuModules(menu.id, ModulesOf(modules, menu.id), t, newValue, start, AutoKeys(menus[..i], modules));
        AutoKeysSnoc(menus, i, modules);
      }
      assert menus[..|menus|] == menus;
    }

    /** `handleSave`: the rows sent as `permissions`, only those with a flag set, in state order.
        Unlike the dialog, the tab sends without checking that a group is chosen. */
    method HandleSave() returns (sent: seq<Grant>)
      ensures sent == ActivePermissions(permissions)
      ensures forall i | 0 <= i < |sent| :: sent[i].caps.Any()
    {
      sent := ActivePermissions(permissions);
    }

    /** The inner `forEach` of `handleAutoPermission`: one menu's modules, one upsert each. */
    method ApplyToMenuModules(menuId: int, ms: seq<Module>, t: Capability, v: bool,
                              ghost start: seq<Grant>, ghost done: seq<Key>)
      requires permissions == ApplyToKeys(start, done, t, v)
      modifies this
      ensures permissions == ApplyToKeys(start, done + MenuKeys(menuId, ms), t, v)
      ensures autoPermissions == old(autoPermissions)
    {
      assert done + MenuKeys(menuId, ms[..0]) == done;
      for j := 0 to |ms|
        invariant autoPermissions == old(autoPermissions)
        invariant permissions == ApplyToKeys(start, done + MenuKeys(menuId, ms[..j]), t, v)
      {
        ghost var keys := done + MenuKeys(menuId, ms[..j]);
        ApplyToKeysSnoc(start, keys, (menuId, ms[j].id), t, v);
        UpdatePermission(menuId, ms[j].id, t, v);
        assert done + MenuKeys(menuId, ms[..j + 1]) == keys + [(menuId, ms[j].id)];
      }
      assert ms[..|ms|] == ms;
    }
  }

  /** After a bulk switch, every module of every catalog menu reads with flag `t` equal to the
      switch, its other flags untouched; every other key reads as before. */
  lemma AutoPermissionEffect(ps: seq<Grant>, menus: seq<Menu>, modules: seq<Module>, t: Capability, v: bool, m: int, k: int)
    ensures GetPermission(ApplyToKeys(ps, AutoKeys(menus, modules), t, v), m, k) ==
            if m in MenuIds(menus) && exists x | x in modules :: x.menuId == m && x.id == k
            then GetPermission(ps, m, k).With(t, v)
            else GetPermission(ps, m, k)
  {
    ApplyToKeysEffect(ps, AutoKeys(menus, modules), t, v, m, k);
    AutoKeysCoverCatalog(menus, modules, m, k);
  }
}
