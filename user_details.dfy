/** The employee list of the User Details tab (`setup/UserDetails.jsx`): the three search boxes,
    the list after a delete, and the group column. */
module UserDetails {
  import opened Wrappers
  import opened Seqs
  import opened Text
  import opened Entities

  /** The three search boxes. */
  datatype Search = Search(name: string, email: string, employeeId: string)

  /** The filter's test: each field, lower-cased, includes its lower-cased search box. */
  predicate MatchesSearch(e: EmployeeRow, q: Search) {
    && Contains(ToLower(e.name), ToLower(q.name))
    && Contains(ToLower(e.email), ToLower(q.email))
    && Contains(ToLower(e.employeeId), ToLower(q.employeeId))
  }

  function Matches(q: Search): EmployeeRow -> bool {
    (e: EmployeeRow) => MatchesSearch(e, q)
  }

  /** `filteredEmployees`: the employees that match all three boxes, in list order. */
  function FilteredEmployees(es: seq<EmployeeRow>, q: Search): (r: seq<EmployeeRow>)
    ensures IsSubsequence(r, es)
    ensures forall e :: e in r <==> e in es && MatchesSearch(e, q)
  {
    Filter(es, Matches(q))
  }

  /** With the three boxes empty ("Clear All"), every employee is listed. */
  lemma EmptySearchKeepsAll(es: seq<EmployeeRow>)
    ensures FilteredEmployees(es, Search("", "", "")) == es
  {
    forall e: EmployeeRow
      ensures MatchesSearch(e, Search("", "", ""))
    {
      ContainsEmpty(ToLower(e.name));
      ContainsEmpty(ToLower(e.email));
      ContainsEmpty(ToLower(e.employeeId));
    }
    FilterKeepsAll(es, Matches(Search("", "", "")));
  }

  /** Searches that differ only in the case of their letters list the same employees. */
  lemma SearchIgnoresCase(es: seq<EmployeeRow>, q: Search, q': Search)
    requires ToLower(q.name) == ToLower(q'.name)
    requires ToLower(q.email) == ToLower(q'.email)
    requires ToLower(q.employeeId) == ToLower(q'.employeeId)
    ensures FilteredEmployees(es, q) == FilteredEmployees(es, q')
  {
    FilterAgrees(es, Matches(q), Matches(q'));
  }

  /** Typing a search in capitals finds what the lower-case search finds. */
  lemma UpperCaseSearchSameAsLower(es: seq<EmployeeRow>, q: Search)
    ensures FilteredEmployees(es, q) ==
            FilteredEmployees(es, Search(ToLower(q.name), ToLower(q.email), ToLower(q.employeeId)))
  {
    ToLowerIdempotent(q.name);
    ToLowerIdempotent(q.email);
    ToLowerIdempotent(q.employeeId);
    SearchIgnoresCase(es, q, Search(ToLower(q.name), ToLower(q.email), ToLower(q.employeeId)));
  }

  function IdIsNot(id: int): EmployeeRow -> bool {
    (e: EmployeeRow) => e.id != id
  }

  /** `employees.filter((emp) => emp.id !== id)` after a delete: every employee with that id is
      gone, the others stay in their order. */
  function AfterDelete(es: seq<EmployeeRow>, id: int): (r: seq<EmployeeRow>)
    ensures IsSubsequence(r, es)
    ensures forall e :: e in r <==> e in es && e.id != id
  {
    Filter(es, IdIsNot(id))
  }

  /** Deleting an id the list does not hold leaves the list as it was. */
  lemma DeleteUnknownKeepsList(es: seq<EmployeeRow>, id: int)
    requires forall i | 0 <= i < |es| :: es[i].id != id
    ensures AfterDelete(es, id) == es
  {
    FilterKeepsAll(es, IdIsNot(id));
  }

  /** A delete shortens the list by exactly the number of rows with that id. */
  lemma {:induction false} DeleteCount(es: seq<EmployeeRow>, id: int)
    ensures |AfterDelete(es, id)| == |es| - |Filter(es, (e: EmployeeRow) => e.id == id)|
  {
    if es != [] {
      DeleteCount(es[1..], id);
    }
  }

  function GroupIs(groupId: Option<int>): GroupRow -> bool {
    (g: GroupRow) => Some(g.id) == groupId
  }

  /** `groups.find((g) => g.id === emp.group_id)?.name || 'No Group'`. */
  function GroupLabel(groups: seq<GroupRow>, groupId: Option<int>): (r: string)
    ensures r != ""
    ensures (forall i | 0 <= i < |groups| :: Some(groups[i].id) != groupId) ==> r == "No Group"
    ensures r != "No Group" ==> exists i | 0 <= i < |groups| :: Some(groups[i].id) == groupId && groups[i].name == r
  {
    match Find(groups, GroupIs(groupId))
    case None => "No Group"
    case Some(g) => if g.name == "" then "No Group" else g.name
  }

  /** With unique group ids, an employee in a group with a non-empty name shows that name. */
  lemma GroupLabelShowsName(groups: seq<GroupRow>, i: nat)
    requires i < |groups| && groups[i].name != ""
    requires forall j | 0 <= j < |groups| && j != i :: groups[j].id != groups[i].id
    ensures GroupLabel(groups, Some(groups[i].id)) == groups[i].name
  {
    var k := FindIndex(groups, GroupIs(Some(groups[i].id)));
    assert k == Some(i);
  }
}
