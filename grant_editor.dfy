/** The permission editor shared by the Module Access tab and the Module Access dialog: reading a
    grant with an all-false fallback, the upsert keyed by (menu id, module id), bulk application of
    one flag over many keys, and the filter that drops all-false rows before saving. */
module GrantEditor {
  import opened Wrappers
  import opened Seqs
  import opened Entities

  type Key = (int, int)

  function KeyIs(menuId: int, moduleId: int): Grant -> bool {
    (g: Grant) => g.HasKey(menuId, moduleId)
  }

  /** No two rows share a (menu id, module id) key. */
  predicate UniqueKeys(ps: seq<Grant>) {
    forall i, j | 0 <= i < j < |ps| :: !ps[i].HasKey(ps[j].menuId, ps[j].moduleId)
  }

  /** `getPermission`: the flags of the first row with this key, or all four false. */
  function GetPermission(ps: seq<Grant>, menuId: int, moduleId: int): (r: Caps)
    ensures (forall i | 0 <= i < |ps| :: !ps[i].HasKey(menuId, moduleId)) ==> r == NoCaps
    ensures forall i | 0 <= i < |ps| && ps[i].HasKey(menuId, moduleId) ::
              (forall j | 0 <= j < i :: !ps[j].HasKey(menuId, moduleId)) ==> r == ps[i].caps
  {
    match FindIndex(ps, KeyIs(menuId, moduleId))
    case Some(i) => ps[i].caps
    case None => NoCaps
  }

  /** The `{ ...p, [field]: value }` step of `updatePermission` applied to one row. */
  function Revise(g: Grant, menuId: int, moduleId: int, f: Capability, v: bool): Grant {
    if g.HasKey(menuId, moduleId) then g.(caps := g.caps.With(f, v)) else g
  }

  /** `updatePermission(menuId, moduleId, field, value)`: when a row with the key exists, every
      row with the key gets `field` set; otherwise a new row with only `field` set is appended. */
  function Upserted(ps: seq<Grant>, menuId: int, moduleId: int, f: Capability, v: bool): (r: seq<Grant>)
    ensures |r| == |ps| || r == ps + [Grant(menuId, moduleId, NoCaps.With(f, v))]
    ensures forall i | 0 <= i < |ps| && !ps[i].HasKey(menuId, moduleId) :: r[i] == ps[i]
  {
    if FindIndex(ps, KeyIs(menuId, moduleId)).Some? then
      seq(|ps|, i requires 0 <= i < |ps| => Revise(ps[i], menuId, moduleId, f, v))
    else
      ps + [Grant(menuId, moduleId, NoCaps.With(f, v))]
  }

  /** The upsert as the component runs it: one pass that both looks for the key and maps the rows. */
  method Upsert(ps: seq<Grant>, menuId: int, moduleId: int, f: Capability, v: bool) returns (r: seq<Grant>)
    ensures r == Upserted(ps, menuId, moduleId, f, v)
  {
    var found := false;
    var mapped: seq<Grant> := [];
    for i := 0 to |ps|
      invariant |mapped| == i
      invariant forall j | 0 <= j < i :: mapped[j] == Revise(ps[j], menuId, moduleId, f, v)
      invariant found <==> exists j | 0 <= j < i :: ps[j].HasKey(menuId, moduleId)
    {
      if ps[i].HasKey(menuId, moduleId) {
        found := true;
      }
      mapped := mapped + [Revise(ps[i], menuId, moduleId, f, v)];
    }
    if found {
      r := mapped;
    } else {
      r := ps + [Grant(menuId, moduleId, NoCaps.With(f, v))];
    }
  }

  /** On an existing key the upsert keeps the length and every key, sets `f` on the rows with the
      key, and changes no other flag of any row. */
  lemma UpsertExistingChangesOnlyField(ps: seq<Grant>, menuId: int, moduleId: int, f: Capability, v: bool, k: nat)
    requires exists i | 0 <= i < |ps| :: ps[i].HasKey(menuId, moduleId)
    requires k < |ps|
    ensures |Upserted(ps, menuId, moduleId, f, v)| == |ps|
    ensures Upserted(ps, menuId, moduleId, f, v)[k].menuId == ps[k].menuId
    ensures Upserted(ps, menuId, moduleId, f, v)[k].moduleId == ps[k].moduleId
    ensures Upserted(ps, menuId, moduleId, f, v)[k].caps.Get(f) ==
            if ps[k].HasKey(menuId, moduleId) then v else ps[k].caps.Get(f)
    ensures forall g: Capability | g != f :: Upserted(ps, menuId, moduleId, f, v)[k].caps.Get(g) == ps[k].caps.Get(g)
  {
  }

  /** On a missing key the upsert appends exactly one row, with `f` set to `v` and the other three
      flags false, and keeps every earlier row. */
  lemma UpsertMissingAppendsOne(ps: seq<Grant>, menuId: int, moduleId: int, f: Capability, v: bool)
    requires forall i | 0 <= i < |ps| :: !ps[i].HasKey(menuId, moduleId)
    ensures var r := Upserted(ps, menuId, moduleId, f, v);
      && |r| == |ps| + 1 && r[..|ps|] == ps
      && r[|ps|].HasKey(menuId, moduleId)
      && r[|ps|].caps.Get(f) == v
      && forall g: Capability | g != f :: !r[|ps|].caps.Get(g)
  {
    var r := Upserted(ps, menuId, moduleId, f, v);
    assert r == ps + [Grant(menuId, moduleId, NoCaps.With(f, v))];
    assert r[..|ps|] == ps;
  }

  /** What `getPermission` reads after `updatePermission`: the updated key shows its old flags with
      `f` set to `v`; every other key reads as before. */
  lemma GetAfterUpsert(ps: seq<Grant>, menuId: int, moduleId: int, f: Capability, v: bool, m: int, k: int)
    ensures GetPermission(Upserted(ps, menuId, moduleId, f, v), m, k) ==
            if m == menuId && k == moduleId then GetPermission(ps, m, k).With(f, v)
            else GetPermission(ps, m, k)
  {
    var r := Upserted(ps, menuId, moduleId, f, v);
    var found := FindIndex(ps, KeyIs(menuId, moduleId));
    if found.Some? {
      assert |r| == |ps|;
      assert forall i | 0 <= i < |ps| :: r[i].HasKey(m, k) == ps[i].HasKey(m, k);
      match FindIndex(ps, KeyIs(m, k))
      case None =>
      case Some(i) =>
        assert r[i].HasKey(m, k);
        assert forall j | 0 <= j < i :: !r[j].HasKey(m, k);
    } else {
      assert r == ps + [Grant(menuId, moduleId, NoCaps.With(f, v))];
      match FindIndex(ps, KeyIs(m, k))
      case None =>
        if m == menuId && k == moduleId {
          assert r[|ps|].HasKey(m, k);
        } else {
          assert forall i | 0 <= i < |r| :: !r[i].HasKey(m, k);
        }
      case Some(i) =>
        assert r[i] == ps[i];
    }
  }

  /** The upsert never creates a second row for a key, so unique keys stay unique. */
  lemma UpsertKeepsKeysUnique(ps: seq<Grant>, menuId: int, moduleId: int, f: Capability, v: bool)
    requires UniqueKeys(ps)
    ensures UniqueKeys(Upserted(ps, menuId, moduleId, f, v))
  {
    var r := Upserted(ps, menuId, moduleId, f, v);
    if FindIndex(ps, KeyIs(menuId, moduleId)).Some? {
      assert forall i | 0 <= i < |ps| :: r[i].menuId == ps[i].menuId && r[i].moduleId == ps[i].moduleId;
    } else {
      assert r == ps + [Grant(menuId, moduleId, NoCaps.With(f, v))];
    }
  }

  /** `updatePermission` run once per key, in order, all with the same flag and value. */
  function ApplyToKeys(ps: seq<Grant>, keys: seq<Key>, f: Capability, v: bool): seq<Grant>
    decreases |keys|
  {
    if keys == [] then ps
    else
      var last := keys[|keys| - 1];
      Upserted(ApplyToKeys(ps, keys[..|keys| - 1], f, v), last.0, last.1, f, v)
  }

  /** After a bulk update every listed key reads with `f` set to `v` and its other flags as before;
      every key not listed reads exactly as before. */
  lemma {:induction false} ApplyToKeysEffect(ps: seq<Grant>, keys: seq<Key>, f: Capability, v: bool, m: int, k: int)
    ensures GetPermission(ApplyToKeys(ps, keys, f, v), m, k) ==
            if (m, k) in keys then GetPermission(ps, m, k).With(f, v) else GetPermission(ps, m, k)
    decreases |keys|
  {
    if keys != [] {
      var init := keys[..|keys| - 1];
      var last := keys[|keys| - 1];
      var before := ApplyToKeys(ps, init, f, v);
      ApplyToKeysEffect(ps, init, f, v, m, k);
      GetAfterUpsert(before, last.0, last.1, f, v, m, k);
      assert keys == init + [last];
      var c := GetPermission(ps, m, k);
      if (m, k) == last {
        WithTwice(c, f, v);
      } else {
        assert (m, k) in keys <==> (m, k) in init;
      }
    }
  }

  /** A bulk update only ever appends rows, and leaves in place every row whose key is not listed. */
  lemma {:induction false} ApplyToKeysKeepsUnlisted(ps: seq<Grant>, keys: seq<Key>, f: Capability, v: bool, i: nat)
    requires i < |ps| && (ps[i].menuId, ps[i].moduleId) !in keys
    ensures |ApplyToKeys(ps, keys, f, v)| >= |ps|
    ensures ApplyToKeys(ps, keys, f, v)[i] == ps[i]
    decreases |keys|
  {
    if keys != [] {
      var init := keys[..|keys| - 1];
      var last := keys[|keys| - 1];
      assert keys == init + [last];
      ApplyToKeysKeepsUnlisted(ps, init, f, v, i);
    }
  }

  /** `(p) => p.can_add || p.can_view || p.can_edit || p.can_delete` */
  function IsActive(g: Grant): bool {
    g.caps.Any()
  }

  /** The save-time filter: the rows with at least one true flag, in their original order. */
  function ActivePermissions(ps: seq<Grant>): (r: seq<Grant>)
    ensures IsSubsequence(r, ps)
    ensures forall g :: g in r <==> g in ps && g.caps.Any()
  {
    Filter(ps, IsActive)
  }
}
