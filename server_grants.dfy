/** The grant side of `server/server.js`: the `groups` and `group_permissions` tables, creating a
    group with its first grants, replacing a group's grants, and listing them. The database is a
    pair of sequences; a transaction works on a copy that is written back only at COMMIT. */
module ServerGrants {
  import opened Wrappers
  import opened Seqs
  import opened Entities

  /** A row of `group_permissions`. */
  datatype Row = Row(groupId: int, grant: Grant)

  /** One element of the request's `permissions` array; a flag the client left out is `None`. */
  datatype SubmittedGrant = SubmittedGrant(
    menuId: int, moduleId: int,
    canAdd: Option<bool>, canView: Option<bool>, canEdit: Option<bool>, canDelete: Option<bool>)

  /** Why the database refused an INSERT (PostgreSQL error codes 23505 and 23503, or anything else). */
  datatype DbError = UniqueViolation | ForeignKeyViolation | OtherDbError

  /** The checks the database runs on inserting `row` into `table`: the constraints of the schema,
      which the source does not show. `None` means the row is accepted. */
  type Constraint = (seq<Row>, Row) -> Option<DbError>

  /** The same for inserting a group into the `groups` table, apart from the unique `name`, which
      is modelled explicitly. */
  type GroupConstraint = (seq<GroupRow>, GroupRow) -> Option<DbError>

  /** The failures the handlers report, with the message of each. */
  datatype StoreError = GroupNameExists | ServerError {
    function Message(): string {
      match this
      case GroupNameExists => "Group name already exists"
      case ServerError => "Server error"
    }
    function Status(): int {
      match this
      case GroupNameExists => 400
      case ServerError => 500
    }
  }

  /** `perm.can_x || false`: only a present `true` is stored as true. */
  function OrFalse(b: Option<bool>): bool {
    b == Some(true)
  }

  /** The row one submitted permission becomes for group `groupId`. */
  function ToRow(groupId: int, p: SubmittedGrant): (r: Row)
    ensures r.groupId == groupId && r.grant.HasKey(p.menuId, p.moduleId)
    ensures r.grant.caps.canAdd <==> p.canAdd == Some(true)
    ensures r.grant.caps.canView <==> p.canView == Some(true)
    ensures r.grant.caps.canEdit <==> p.canEdit == Some(true)
    ensures r.grant.caps.canDelete <==> p.canDelete == Some(true)
  {
    Row(groupId, Grant(p.menuId, p.moduleId,
      Caps(OrFalse(p.canAdd), OrFalse(p.canView), OrFalse(p.canEdit), OrFalse(p.canDelete))))
  }

  function ToRows(groupId: int, ps: seq<SubmittedGrant>): seq<Row> {
    seq(|ps|, i requires 0 <= i < |ps| => ToRow(groupId, ps[i]))
  }

  /** `permissions && permissions.length > 0 ? permissions : nothing`. */
  function Submitted(permissions: Option<seq<SubmittedGrant>>): seq<SubmittedGrant> {
    permissions.GetOr([])
  }

  /** How the client serialises a grant it holds: every flag present. */
  function SubmissionOf(g: Grant): SubmittedGrant {
    SubmittedGrant(g.menuId, g.moduleId, Some(g.caps.canAdd), Some(g.caps.canView),
                   Some(g.caps.canEdit), Some(g.caps.canDelete))
  }

  /** A grant the client sends is stored exactly as the client held it. */
  lemma SubmissionRoundTrip(groupId: int, g: Grant)
    ensures ToRow(groupId, SubmissionOf(g)) == Row(groupId, g)
  {
  }

  function IsOfGroup(g: int): Row -> bool {
    (r: Row) => r.groupId == g
  }

  function NotOfGroup(g: int): Row -> bool {
    (r: Row) => r.groupId != g
  }

  /** The rows of group `g`, in table order. */
  function RowsOf(t: seq<Row>, g: int): (r: seq<Row>)
    ensures forall x :: x in r <==> x in t && x.groupId == g
  {
    Filter(t, IsOfGroup(g))
  }

  /** `DELETE FROM group_permissions WHERE group_id = g`. */
  function OtherRows(t: seq<Row>, g: int): (r: seq<Row>)
    ensures forall x :: x in r <==> x in t && x.groupId != g
    ensures IsSubsequence(r, t)
  {
    Filter(t, NotOfGroup(g))
  }

  function GroupIds(groups: seq<GroupRow>): set<int> {
    set gr | gr in groups :: gr.id
  }

  /** What inserting `row` runs into: the group foreign key, then the schema's other constraints. */
  function InsertError(groupIds: set<int>, t: seq<Row>, row: Row, accept: Constraint): Option<DbError> {
    if row.groupId !in groupIds then Some(ForeignKeyViolation) else accept(t, row)
  }

  /** What `INSERT INTO groups (name)` runs into: a taken name, then the schema's other constraints. */
  function GroupInsertError(groups: seq<GroupRow>, group: GroupRow, acceptGroup: GroupConstraint): (r: Option<DbError>)
    ensures (exists i | 0 <= i < |groups| :: groups[i].name == group.name) ==> r == Some(UniqueViolation)
    ensures !(exists i | 0 <= i < |groups| :: groups[i].name == group.name) ==> r == acceptGroup(groups, group)
  {
    if exists i | 0 <= i < |groups| :: groups[i].name == group.name then Some(UniqueViolation)
    else acceptGroup(groups, group)
  }

  /** One step of the INSERT loop: a refused first row ends it with that error, an accepted one
      leaves the rest to run on the grown table. */
  lemma InsertAllStep(groupIds: set<int>, t: seq<Row>, rs: seq<Row>, i: nat, accept: Constraint)
    requires i < |rs|
    ensures InsertError(groupIds, t, rs[i], accept).Some? ==>
            InsertAll(groupIds, t, rs[i..], accept) == Failure(InsertError(groupIds, t, rs[i], accept).value)
    ensures InsertError(groupIds, t, rs[i], accept).None? ==>
            InsertAll(groupIds, t, rs[i..], accept) == InsertAll(groupIds, t + [rs[i]], rs[i + 1..], accept)
  {
    assert rs[i..][0] == rs[i];
    assert rs[i..][1..] == rs[i + 1..];
  }

  /** The `for` loop of INSERTs: `Success` with the grown table, or the first refusal. */
  function InsertAll(groupIds: set<int>, t: seq<Row>, rs: seq<Row>, accept: Constraint): (r: Result<seq<Row>, DbError>)
    ensures r.Success? ==> r.value == t + rs
    ensures r.Success? ==> forall i | 0 <= i < |rs| :: rs[i].groupId in groupIds
    decreases |rs|
  {
    if rs == [] then Success(t)
    else match InsertError(groupIds, t, rs[0], accept)
      case Some(e) => Failure(e)
      case None =>
        var r := InsertAll(groupIds, t + [rs[0]], rs[1..], accept);
        assert r.Success? ==> t + [rs[0]] + rs[1..] == t + rs;
        r
  }

  /** The table after a successful replace: the other groups' rows, then the submitted ones. */
  function Replaced(t: seq<Row>, g: int, ps: seq<SubmittedGrant>): (r: seq<Row>)
    ensures forall x :: x in r <==> (x in t && x.groupId != g) || x in ToRows(g, ps)
    ensures |r| == |OtherRows(t, g)| + |ps|
  {
    OtherRows(t, g) + ToRows(g, ps)
  }

  /** After a replace, the group's rows are exactly the submitted list, in submitted order. */
  lemma ReplaceYieldsExactly(t: seq<Row>, g: int, ps: seq<SubmittedGrant>)
    ensures RowsOf(Replaced(t, g, ps), g) == ToRows(g, ps)
  {
    FilterAppend(OtherRows(t, g), ToRows(g, ps), IsOfGroup(g));
    FilterDropsAll(OtherRows(t, g), IsOfGroup(g));
    FilterKeepsAll(ToRows(g, ps), IsOfGroup(g));
  }

  /** Deleting group `g`'s rows leaves the rows of any other group `h` as they were. */
  lemma {:induction false} OtherRowsKeepGroup(t: seq<Row>, g: int, h: int)
    requires h != g
    ensures RowsOf(OtherRows(t, g), h) == RowsOf(t, h)
  {
    if t != [] {
      OtherRowsKeepGroup(t[1..], g, h);
      if t[0].groupId == g {
        assert OtherRows(t, g) == OtherRows(t[1..], g);
      } else {
        assert OtherRows(t, g) == [t[0]] + OtherRows(t[1..], g);
        assert ([t[0]] + OtherRows(t[1..], g))[1..] == OtherRows(t[1..], g);
      }
    }
  }

  /** A replace for group `g` leaves every other group's rows unchanged. */
  lemma ReplaceKeepsOtherGroups(t: seq<Row>, g: int, ps: seq<SubmittedGrant>, h: int)
    requires h != g
    ensures RowsOf(Replaced(t, g, ps), h) == RowsOf(t, h)
  {
    FilterAppend(OtherRows(t, g), ToRows(g, ps), IsOfGroup(h));
    FilterDropsAll(ToRows(g, ps), IsOfGroup(h));
    OtherRowsKeepGroup(t, g, h);
  }

  /** The last replace wins: replacing with `a` and then with `b` equals replacing with `b` alone;
      the rows of `a` are gone, not merged. */
  lemma LastReplaceWins(t: seq<Row>, g: int, a: seq<SubmittedGrant>, b: seq<SubmittedGrant>)
    ensures Replaced(Replaced(t, g, a), g, b) == Replaced(t, g, b)
  {
    FilterAppend(OtherRows(t, g), ToRows(g, a), NotOfGroup(g));
    FilterKeepsAll(OtherRows(t, g), NotOfGroup(g));
    FilterDropsAll(ToRows(g, a), NotOfGroup(g));
    assert OtherRows(Replaced(t, g, a), g) == OtherRows(t, g);
  }

  /** Replacing twice with the same list is the same as replacing once. */
  lemma ReplaceIdempotent(t: seq<Row>, g: int, ps: seq<SubmittedGrant>)
    ensures Replaced(Replaced(t, g, ps), g, ps) == Replaced(t, g, ps)
  {
    LastReplaceWins(t, g, ps, ps);
  }

  /** An absent or empty `permissions` leaves the group with no rows at all. */
  lemma EmptyReplaceClears(t: seq<Row>, g: int, permissions: Option<seq<SubmittedGrant>>)
    requires permissions.None? || permissions.value == []
    ensures RowsOf(Replaced(t, g, Submitted(permissions)), g) == []
  {
    ReplaceYieldsExactly(t, g, Submitted(permissions));
  }

  /** Every row a replace stores for the group has a flag set only where the request held `true`. */
  lemma ReplaceCoercesFlags(t: seq<Row>, g: int, ps: seq<SubmittedGrant>, i: nat)
    requires i < |ps|
    ensures |RowsOf(Replaced(t, g, ps), g)| == |ps|
    ensures RowsOf(Replaced(t, g, ps), g)[i].grant.caps ==
            Caps(ps[i].canAdd == Some(true), ps[i].canView == Some(true),
                 ps[i].canEdit == Some(true), ps[i].canDelete == Some(true))
  {
    ReplaceYieldsExactly(t, g, ps);
  }

  /** `ORDER BY m.id, md.id`: menu id first, module id second. */
  predicate KeyLe(a: Row, b: Row) {
    a.grant.menuId < b.grant.menuId || (a.grant.menuId == b.grant.menuId && a.grant.moduleId <= b.grant.moduleId)
  }

  predicate SortedByKey(s: seq<Row>) {
    forall i, j | 0 <= i < j < |s| :: KeyLe(s[i], s[j])
  }

  function InsertByKey(x: Row, s: seq<Row>): (r: seq<Row>)
    requires SortedByKey(s)
    ensures SortedByKey(r)
    ensures multiset(r) == multiset(s) + multiset{x}
  {
    if s == [] || KeyLe(x, s[0]) then
      [x] + s
    else
      var rest := InsertByKey(x, s[1..]);
      assert s == [s[0]] + s[1..];
      assert forall y | y in multiset(rest) :: KeyLe(s[0], y) by {
        forall y | y in multiset(rest) ensures KeyLe(s[0], y) {
          assert y in multiset(s[1..]) || y == x;
        }
      }
      [s[0]] + rest
  }

  function SortByKey(s: seq<Row>): (r: seq<Row>)
    ensures SortedByKey(r)
    ensures multiset(r) == multiset(s)
  {
    if s == [] then []
    else
      assert s == [s[0]] + s[1..];
      InsertByKey(s[0], SortByKey(s[1..]))
  }

  function Listed(g: int, menuIds: set<int>, moduleIds: set<int>): Row -> bool {
    (r: Row) => r.groupId == g && r.grant.menuId in menuIds && r.grant.moduleId in moduleIds
  }

  /** `GET /api/groups/:id/permissions`: the group's rows that join a menu and a module of the
      catalog, ordered by menu id and then module id. */
  function ListPermissions(t: seq<Row>, g: int, menuIds: set<int>, moduleIds: set<int>): (r: seq<Row>)
    ensures SortedByKey(r)
    ensures multiset(r) == multiset(Filter(t, Listed(g, menuIds, moduleIds)))
    ensures forall x :: x in r <==> x in t && x.groupId == g && x.grant.menuId in menuIds && x.grant.moduleId in moduleIds
  {
    var kept := Filter(t, Listed(g, menuIds, moduleIds));
    var r := SortByKey(kept);
    assert forall x :: x in r <==> x in multiset(kept);
    r
  }

  /** How `POST /api/groups` reports a refused insert: code 23505, a unique violation, as a taken
      group name, and anything else as a server error. */
  function CreateError(e: DbError): (r: StoreError)
    ensures r == GroupNameExists <==> e == UniqueViolation
    ensures r.Status() == if e == UniqueViolation then 400 else 500
  {
    if e == UniqueViolation then GroupNameExists else ServerError
  }

  class GrantStore {
    /** The `groups` table. */
    var groups: seq<GroupRow>
    /** The `group_permissions` table. */
    var rows: seq<Row>
    /** The id the next group gets (the `groups.id` sequence). */
    var nextGroupId: int

    /** Group names are unique, ids are below the next one handed out, and every grant row
        belongs to an existing group. */
    ghost predicate Valid()
      reads this
    {
      && (forall i, j | 0 <= i < j < |groups| :: groups[i].name != groups[j].name)
      && (forall i | 0 <= i < |groups| :: groups[i].id < nextGroupId)
      && (forall r | r in rows :: r.groupId in GroupIds(groups))
    }

    constructor ()
      ensures Valid() && groups == [] && rows == []
    {
      groups := [];
      rows := [];
      nextGroupId := 1;
    }

    /** `PUT /api/groups/:id/permissions`: inside one transaction, delete the group's rows and
        insert one row per submitted permission; any refused insert rolls everything back. */
    method ReplacePermissions(g: int, permissions: Option<seq<SubmittedGrant>>, accept: Constraint)
      returns (r: Outcome<StoreError>)
      requires Valid()
      modifies this
      ensures Valid()
      ensures groups == old(groups) && nextGroupId == old(nextGroupId)
      ensures r.Pass? <==> InsertAll(GroupIds(groups), OtherRows(old(rows), g), ToRows(g, Submitted(permissions)), accept).Success?
      ensures r.Pass? ==> rows == Replaced(old(rows), g, Submitted(permissions))
      ensures r.Fail? ==> rows == old(rows) && r.error == ServerError
    {
      var ps := Submitted(permissions);
      var ids := GroupIds(groups);
      var tx := OtherRows(rows, g);
      ghost var all := ToRows(g, ps);
      for i := 0 to |ps|
        invariant groups == old(groups) && rows == old(rows) && nextGroupId == old(nextGroupId)
        invariant tx == OtherRows(rows, g) + all[..i]
        invariant forall x | x in tx :: x.groupId in ids
        invariant InsertAll(ids, OtherRows(rows, g), all, accept) == InsertAll(ids, tx, all[i..], accept)
      {
        var row := ToRow(g, ps[i]);
        InsertAllStep(ids, tx, all, i, accept);
        if InsertError(ids, tx, row, accept).Some? {
          return Fail(ServerError);
        }
        tx := tx + [row];
        assert all[..i + 1] == all[..i] + [row];
      }
      assert all[..|ps|] == all;
      rows := tx;
      return Pass;
    }

    /** `POST /api/groups`: inside one transaction, insert the group, then one row per submitted
        permission. Any refused insert, the group's own included, rolls everything back; a refusal
        with code 23505 (a taken name among them) is reported as a taken group name, any other as a
        server error. */
    method CreateGroup(name: string, permissions: Option<seq<SubmittedGrant>>, acceptGroup: GroupConstraint, accept: Constraint)
      returns (r: Result<GroupRow, StoreError>)
      requires Valid()
      modifies this
      ensures Valid()
      ensures (exists i | 0 <= i < |old(groups)| :: old(groups)[i].name == name) ==> r == Failure(GroupNameExists)
      ensures var refused := GroupInsertError(old(groups), GroupRow(old(nextGroupId), name), acceptGroup);
              var inserted := InsertAll(GroupIds(old(groups)) + {old(nextGroupId)}, old(rows),
                                        ToRows(old(nextGroupId), Submitted(permissions)), accept);
              && (r.Success? <==> refused.None? && inserted.Success?)
              && (refused.Some? ==> r == Failure(CreateError(refused.value)))
              && (refused.None? && inserted.Failure? ==> r == Failure(CreateError(inserted.error)))
      ensures r.Failure? ==> groups == old(groups) && rows == old(rows) && nextGroupId == old(nextGroupId)
      ensures r.Success? ==>
        && r.value == GroupRow(old(nextGroupId), name)
        && groups == old(groups) + [r.value]
        && rows == old(rows) + ToRows(r.value.id, Submitted(permissions))
        && nextGroupId == old(nextGroupId) + 1
    {
      var group := GroupRow(nextGroupId, name);
      var groupRefused := GroupInsertError(groups, group, acceptGroup);
      if groupRefused.Some? {
        return Failure(CreateError(groupRefused.value));
      }
      var ids := GroupIds(groups) + {group.id};
      var ps := Submitted(permissions);
      var tx := rows;
      ghost var all := ToRows(group.id, ps);
      for i := 0 to |ps|
        invariant groups == old(groups) && rows == old(rows) && nextGroupId == old(nextGroupId)
        invariant tx == rows + all[..i]
        invariant forall x | x in tx :: x.groupId in ids
        invariant InsertAll(ids, rows, all, accept) == InsertAll(ids, tx, all[i..], accept)
      {
        var row := ToRow(group.id, ps[i]);
        InsertAllStep(ids, tx, all, i, accept);
        var refused := InsertError(ids, tx, row, accept);
        if refused.Some? {
          return Failure(CreateError(refused.value));
        }
        tx := tx + [row];
        assert all[..i + 1] == all[..i] + [row];
      }
      assert all[..|ps|] == all;
      assert GroupIds(groups + [group]) == ids;
      groups := groups + [group];
      rows := tx;
      nextGroupId := nextGroupId + 1;
      return Success(group);
    }
  }

  /** A group the store has just created has exactly the submitted rows, because no existing
      row can carry the new id. */
  lemma NewGroupHasExactlySubmitted(t: seq<Row>, groupIds: set<int>, newId: int, ps: seq<SubmittedGrant>)
    requires newId !in groupIds
    requires forall r | r in t :: r.groupId in groupIds
    ensures RowsOf(t + ToRows(newId, ps), newId) == ToRows(newId, ps)
  {
    FilterAppend(t, ToRows(newId, ps), IsOfGroup(newId));
    FilterDropsAll(t, IsOfGroup(newId));
    FilterKeepsAll(ToRows(newId, ps), IsOfGroup(newId));
  }
}
