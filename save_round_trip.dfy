/** What a save from either permission editor leaves in `group_permissions`: the editor sends
    its active rows, the server replaces the group's rows with them. */
module SaveRoundTrip {
  import opened Seqs
  import opened Entities
  import opened GrantEditor
  import opened ServerGrants
  import CreateGroupModal

  /** The JSON array the editor sends. */
  function Submissions(ps: seq<Grant>): seq<SubmittedGrant> {
    seq(|ps|, i requires 0 <= i < |ps| => SubmissionOf(ps[i]))
  }

  function AsRows(g: int, ps: seq<Grant>): seq<Row> {
    seq(|ps|, i requires 0 <= i < |ps| => Row(g, ps[i]))
  }

  /** Sending grants and storing them changes nothing in them. */
  lemma SubmissionsRoundTrip(g: int, ps: seq<Grant>)
    ensures ToRows(g, Submissions(ps)) == AsRows(g, ps)
  {
    forall i | 0 <= i < |ps|
      ensures ToRows(g, Submissions(ps))[i] == AsRows(g, ps)[i]
    {
      SubmissionRoundTrip(g, ps[i]);
    }
  }

  /** After a save, the group's stored rows are the editor's rows with a flag set, in editor
      order, and none of them is all-false, although the server itself does not filter. */
  lemma SavedRowsAreActive(t: seq<Row>, g: int, ps: seq<Grant>)
    ensures RowsOf(Replaced(t, g, Submissions(ActivePermissions(ps))), g) == AsRows(g, ActivePermissions(ps))
    ensures forall r | r in RowsOf(Replaced(t, g, Submissions(ActivePermissions(ps))), g) :: r.grant.caps.Any() && r.grant in ps
  {
    ReplaceYieldsExactly(t, g, Submissions(ActivePermissions(ps)));
    SubmissionsRoundTrip(g, ActivePermissions(ps));
  }

  /** A group created from the dialog stores one row per checked module, each with all four
      capabilities, and no other row. */
  lemma CreatedGroupHasSelectedModules(t: seq<Row>, groupIds: set<int>, newId: int, name: string,
                                       selected: map<int, bool>, modules: seq<Module>)
    requires newId !in groupIds
    requires forall r | r in t :: r.groupId in groupIds
    requires CreateGroupModal.Submit(name, selected, modules).Success?
    ensures var ps := CreateGroupModal.Submit(name, selected, modules).value.permissions;
      RowsOf(t + ToRows(newId, Submissions(ps)), newId) == AsRows(newId, ps)
    ensures var ps := CreateGroupModal.Submit(name, selected, modules).value.permissions;
      forall r | r in RowsOf(t + ToRows(newId, Submissions(ps)), newId) :: r.grant.caps == AllCaps
  {
    var ps := CreateGroupModal.Submit(name, selected, modules).value.permissions;
    NewGroupHasExactlySubmitted(t, groupIds, newId, Submissions(ps));
    SubmissionsRoundTrip(newId, ps);
  }
}
