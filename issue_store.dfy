/** `issueStore`: the statements it runs against `issues` and
    `issue_dependencies`. Queries are functions of the table contents; the
    statements that change rows are methods on the database, each proved to
    leave the tables as a transition function of the old rows says. */
module IssueStore {
  import opened Wrappers
  import opened Errors
  import Sql
  import opened IssueModel
  import opened Database

  // -----------------------------------------------------------------------
  // WHERE clauses and SET lists. Each is named so that a statement and the
  // lemmas about it speak of the same clause.

  function InRepo(repoId: int): Issue -> bool {
    (x: Issue) => x.repoId == repoId
  }

  function InRepoWithState(repoId: int, state: IssueState): Issue -> bool {
    (x: Issue) => x.repoId == repoId && x.state == state
  }

  function HasState(state: IssueState): Issue -> bool {
    (x: Issue) => x.state == state
  }

  function Matches(repoId: int, id: int): Issue -> bool {
    (x: Issue) => x.repoId == repoId && x.id == id
  }

  function MatchesInState(repoId: int, id: int, state: IssueState): Issue -> bool {
    (x: Issue) => x.repoId == repoId && x.id == id && x.state == state
  }

  function MatchesEither(repoId: int, id1: int, id2: int): Issue -> bool {
    (x: Issue) => x.repoId == repoId && (x.id == id1 || x.id == id2)
  }

  function NotMatches(repoId: int, id: int): Issue -> bool {
    (x: Issue) => !(x.repoId == repoId && x.id == id)
  }

  function SetText(title: string, description: string, now: int): Issue -> Issue {
    (x: Issue) => x.(title := title, description := description, updatedAt := now)
  }

  function SetClosed(closedBy: int, now: int): Issue -> Issue {
    (x: Issue) => x.(state := IssueStateClosed, closedBy := Some(closedBy), closedAt := Some(now), updatedAt := now)
  }

  function SetReopened(now: int): Issue -> Issue {
    (x: Issue) => x.(state := IssueStateOpen, closedBy := None, closedAt := None, updatedAt := now)
  }

  function IsEdge(issueId: int, dependsOnId: int): Dependency -> bool {
    (e: Dependency) => e == Dependency(issueId, dependsOnId)
  }

  function NotEdge(issueId: int, dependsOnId: int): Dependency -> bool {
    (e: Dependency) => e != Dependency(issueId, dependsOnId)
  }

  // -----------------------------------------------------------------------
  // Queries.

  /** `GetIssueByID`: the row with this repository and id, or ErrNoRows. */
  function GetIssueByID(issues: seq<Issue>, repoId: int, id: int): (r: Result<Issue, Error>)
    ensures r.Ok? ==> r.value in issues && r.value.repoId == repoId && r.value.id == id
    ensures r.Err? <==> forall x :: x in issues ==> !(x.repoId == repoId && x.id == id)
    ensures r.Err? ==> r.error == ErrNoRows
  {
    match Sql.Lookup(issues, Key, (repoId, id))
    case Some(x) => Ok(x)
    case None => Err(ErrNoRows)
  }

  /** `GetIssuesByRepoID`: every row of the repository, as often as it is in
      the table, newest `created_at` first. */
  function GetIssuesByRepoID(issues: seq<Issue>, repoId: int): (r: seq<Issue>)
    ensures forall x :: x in r <==> x in issues && x.repoId == repoId
    ensures forall x :: multiset(r)[x] == if x.repoId == repoId then multiset(issues)[x] else 0
    ensures Sql.SortedDesc(r, CreatedAt)
  {
    Sql.OrderByDesc(Sql.Where(issues, InRepo(repoId)), CreatedAt)
  }

  /** `GetIssuesByRepoIDAndState`: the rows of the repository in that state,
      newest `created_at` first. */
  function GetIssuesByRepoIDAndState(issues: seq<Issue>, repoId: int, state: IssueState): (r: seq<Issue>)
    ensures forall x :: x in r <==> x in issues && x.repoId == repoId && x.state == state
    ensures forall x :: multiset(r)[x] == if x.repoId == repoId && x.state == state then multiset(issues)[x] else 0
    ensures Sql.SortedDesc(r, CreatedAt)
  {
    Sql.OrderByDesc(Sql.Where(issues, InRepoWithState(repoId, state)), CreatedAt)
  }

  /** The listing by state holds exactly the rows of the full listing that
      are in that state. */
  lemma StateListFiltersRepoList(issues: seq<Issue>, repoId: int, state: IssueState)
    ensures multiset(GetIssuesByRepoIDAndState(issues, repoId, state))
         == multiset(Sql.Where(GetIssuesByRepoID(issues, repoId), HasState(state)))
  {
    Sql.WhereOfOrdered(issues, InRepo(repoId), HasState(state), InRepoWithState(repoId, state),
                       GetIssuesByRepoID(issues, repoId), CreatedAt);
  }



  /** The edge that links `issueId` with `other`: out of issueId when
      `forward`, into it otherwise. */
  function Link(issueId: int, other: int, forward: bool): Dependency {
    if forward then Dependency(issueId, other) else Dependency(other, issueId)
  }

  /** `issues i INNER JOIN issue_dependencies d` on `i.id` = the far end of
      the edge, `WHERE` the near end is issueId `AND i.repo_id = repoId`:
      one joined row per matching edge, before ordering. */
  function Join(issues: seq<Issue>, edges: seq<Dependency>, repoId: int, issueId: int, forward: bool): (r: seq<Issue>)
    ensures forall x :: x in r <==> x in issues && x.repoId == repoId && Link(issueId, x.id, forward) in edges
    decreases |edges|
  {
    if edges == [] then []
    else
      assert forall d :: d in edges <==> d == edges[0] || d in edges[1..];
      JoinEdge(issues, edges[0], repoId, issueId, forward) + Join(issues, edges[1..], repoId, issueId, forward)
  }

  /** The joined rows one edge contributes: the issues of the repository at
      the far end, when the near end is issueId. */
  function JoinEdge(issues: seq<Issue>, e: Dependency, repoId: int, issueId: int, forward: bool): (r: seq<Issue>)
    ensures forall x :: x in r <==> x in issues && x.repoId == repoId && e == Link(issueId, x.id, forward)
  {
    var near := if forward then e.issueId else e.dependsOnId;
    var far := if forward then e.dependsOnId else e.issueId;
    if near == issueId then Sql.Where(issues, Matches(repoId, far)) else []
  }

  /** With ids unique, one edge contributes the linked issue at most once. */
  lemma JoinEdgeCount(issues: seq<Issue>, e: Dependency, repoId: int, issueId: int, forward: bool, x: Issue)
    requires Sql.UniqueKeys(issues, Id)
    ensures multiset(JoinEdge(issues, e, repoId, issueId, forward))[x] ==
      if x in issues && x.repoId == repoId && e == Link(issueId, x.id, forward) then 1 else 0
  {
    Sql.UniqueKeysMultiplicity(issues, Id, x);
  }

  /** With ids unique, the join holds each issue of the repository once for
      every copy of the edge that links it with issueId. */
  lemma {:induction false} JoinCount(issues: seq<Issue>, edges: seq<Dependency>, repoId: int, issueId: int, forward: bool, x: Issue)
    requires Sql.UniqueKeys(issues, Id)
    ensures multiset(Join(issues, edges, repoId, issueId, forward))[x] ==
      if x in issues && x.repoId == repoId
      then Sql.Count(edges, IsEdge(Link(issueId, x.id, forward).issueId, Link(issueId, x.id, forward).dependsOnId))
      else 0
    decreases |edges|
  {
    if edges != [] {
      JoinCount(issues, edges[1..], repoId, issueId, forward, x);
      JoinEdgeCount(issues, edges[0], repoId, issueId, forward, x);
      assert multiset(Join(issues, edges, repoId, issueId, forward)) ==
        multiset(JoinEdge(issues, edges[0], repoId, issueId, forward)) + multiset(Join(issues, edges[1..], repoId, issueId, forward));
    }
  }

  /** `GetIssueDependencies`: the issues of the repository that issueId has
      an edge to, newest first. */
  function GetIssueDependencies(issues: seq<Issue>, edges: seq<Dependency>, repoId: int, issueId: int): (r: seq<Issue>)
    ensures forall x :: x in r <==> x in issues && x.repoId == repoId && Dependency(issueId, x.id) in edges
    ensures Sql.SortedDesc(r, CreatedAt)
  {
    Sql.OrderByDesc(Join(issues, edges, repoId, issueId, true), CreatedAt)
  }

  /** `GetIssueDependents`: the issues of the repository with an edge to
      issueId, newest first. */
  function GetIssueDependents(issues: seq<Issue>, edges: seq<Dependency>, repoId: int, issueId: int): (r: seq<Issue>)
    ensures forall x :: x in r <==> x in issues && x.repoId == repoId && Dependency(x.id, issueId) in edges
    ensures Sql.SortedDesc(r, CreatedAt)
  {
    Sql.OrderByDesc(Join(issues, edges, repoId, issueId, false), CreatedAt)
  }

  /** One listed dependency per edge: with ids unique, each issue of the
      repository is listed as often as the edge from issueId to it is stored. */
  lemma DependenciesCount(issues: seq<Issue>, edges: seq<Dependency>, repoId: int, issueId: int)
    requires Sql.UniqueKeys(issues, Id)
    ensures forall x :: multiset(GetIssueDependencies(issues, edges, repoId, issueId))[x] ==
              (if x in issues && x.repoId == repoId then Sql.Count(edges, IsEdge(issueId, x.id)) else 0)
  {
    forall x: Issue ensures multiset(GetIssueDependencies(issues, edges, repoId, issueId))[x] ==
      (if x in issues && x.repoId == repoId then Sql.Count(edges, IsEdge(issueId, x.id)) else 0)
    {
      JoinCount(issues, edges, repoId, issueId, true, x);
    }
  }

  /** One listed dependent per edge: each issue of the repository is listed
      as often as the edge from it to issueId is stored. */
  lemma DependentsCount(issues: seq<Issue>, edges: seq<Dependency>, repoId: int, issueId: int)
    requires Sql.UniqueKeys(issues, Id)
    ensures forall x :: multiset(GetIssueDependents(issues, edges, repoId, issueId))[x] ==
              (if x in issues && x.repoId == repoId then Sql.Count(edges, IsEdge(x.id, issueId)) else 0)
  {
    forall x: Issue ensures multiset(GetIssueDependents(issues, edges, repoId, issueId))[x] ==
      (if x in issues && x.repoId == repoId then Sql.Count(edges, IsEdge(x.id, issueId)) else 0)
    {
      JoinCount(issues, edges, repoId, issueId, false, x);
    }
  }

  /** `HasIssueDependency`: ErrNoRows unless issueId is an issue of the
      repository; otherwise whether the edge is in the table. The far end is
      not checked. */
  function HasIssueDependency(issues: seq<Issue>, edges: seq<Dependency>, repoId: int, issueId: int, dependsOnId: int): (r: Result<bool, Error>)
    ensures r.Err? <==> GetIssueByID(issues, repoId, issueId).Err?
    ensures r.Err? ==> r.error == ErrNoRows
    ensures r.Ok? ==> (r.value <==> Dependency(issueId, dependsOnId) in edges)
  {
    if Sql.Count(issues, Matches(repoId, issueId)) == 0 then Err(ErrNoRows)
    else Ok(Sql.Count(edges, IsEdge(issueId, dependsOnId)) > 0)
  }

  /** The check in front of the dependency INSERT:
      `COUNT(*) ... WHERE repo_id = ? AND (id = ? OR id = ?)` is 2. */
  predicate CanAddDependency(issues: seq<Issue>, repoId: int, issueId: int, dependsOnId: int) {
    Sql.Count(issues, MatchesEither(repoId, issueId, dependsOnId)) == 2
  }

  /** The count is 2 exactly when both ids are issues of the repository and
      differ: a self-edge counts one row, a cross-repository edge at most one. */
  lemma AddDependencyCheck(issues: seq<Issue>, repoId: int, issueId: int, dependsOnId: int)
    requires Sql.UniqueKeys(issues, Id)
    ensures CanAddDependency(issues, repoId, issueId, dependsOnId) <==>
      && issueId != dependsOnId
      && GetIssueByID(issues, repoId, issueId).Ok?
      && GetIssueByID(issues, repoId, dependsOnId).Ok?
  {
    IssueKeysUnique(issues);
    Sql.CountOneKey(issues, Key, (repoId, issueId), Matches(repoId, issueId));
    Sql.CountOneKey(issues, Key, (repoId, dependsOnId), Matches(repoId, dependsOnId));
    if issueId == dependsOnId {
      Sql.CountSame(issues, MatchesEither(repoId, issueId, dependsOnId), Matches(repoId, issueId));
    } else {
      Sql.CountDisjointOr(issues, Matches(repoId, issueId), Matches(repoId, dependsOnId), MatchesEither(repoId, issueId, dependsOnId));
    }
  }

  /** `DELETE FROM issue_dependencies WHERE issue_id = ? AND depends_on_id = ?`:
      every copy of that edge goes and every other edge stays. */
  function RemoveEdges(edges: seq<Dependency>, issueId: int, dependsOnId: int): (r: seq<Dependency>)
    ensures forall e :: e in r <==> e in edges && e != Dependency(issueId, dependsOnId)
    ensures forall e :: multiset(r)[e] == if e == Dependency(issueId, dependsOnId) then 0 else multiset(edges)[e]
  {
    Sql.Where(edges, NotEdge(issueId, dependsOnId))
  }

  /** Removing an edge that is not there leaves the table as it was. */
  lemma RemoveAbsentEdge(edges: seq<Dependency>, issueId: int, dependsOnId: int)
    requires Dependency(issueId, dependsOnId) !in edges
    ensures RemoveEdges(edges, issueId, dependsOnId) == edges
  {
    Sql.WhereAll(edges, NotEdge(issueId, dependsOnId));
  }

  /** After a successful add, Has reports the edge and each end lists the
      other. */
  lemma AddedDependencyVisible(issues: seq<Issue>, edges: seq<Dependency>, repoId: int, issueId: int, dependsOnId: int)
    requires Sql.UniqueKeys(issues, Id)
    requires CanAddDependency(issues, repoId, issueId, dependsOnId)
    ensures GetIssueByID(issues, repoId, issueId).Ok? && GetIssueByID(issues, repoId, dependsOnId).Ok?
    ensures HasIssueDependency(issues, edges + [Dependency(issueId, dependsOnId)], repoId, issueId, dependsOnId) == Ok(true)
    ensures GetIssueByID(issues, repoId, dependsOnId).value
            in GetIssueDependencies(issues, edges + [Dependency(issueId, dependsOnId)], repoId, issueId)
    ensures GetIssueByID(issues, repoId, issueId).value
            in GetIssueDependents(issues, edges + [Dependency(issueId, dependsOnId)], repoId, dependsOnId)
  {
    AddDependencyCheck(issues, repoId, issueId, dependsOnId);
    assert Dependency(issueId, dependsOnId) in edges + [Dependency(issueId, dependsOnId)];
  }

  /** After a remove, Has reports no edge and the dependency is not listed. */
  lemma RemovedDependencyGone(issues: seq<Issue>, edges: seq<Dependency>, repoId: int, issueId: int, dependsOnId: int)
    requires GetIssueByID(issues, repoId, issueId).Ok?
    ensures HasIssueDependency(issues, RemoveEdges(edges, issueId, dependsOnId), repoId, issueId, dependsOnId) == Ok(false)
    ensures forall x :: x in GetIssueDependencies(issues, RemoveEdges(edges, issueId, dependsOnId), repoId, issueId)
                        ==> x.id != dependsOnId
  {
  }

  // -----------------------------------------------------------------------
  // What the row-changing statements do to the `issues` table.

  /** The row `CreateIssue` inserts: Open, no closer, both times `now`. */
  function NewIssue(id: int, repoId: int, authorId: int, title: string, description: string, now: int): Issue {
    Issue(id, repoId, title, description, IssueStateOpen, authorId, None, None, now, now)
  }

  /** `UPDATE issues SET title, description, updated_at WHERE repo_id AND id`. */
  function UpdateRows(issues: seq<Issue>, repoId: int, id: int, title: string, description: string, now: int): seq<Issue> {
    Sql.Update(issues, Matches(repoId, id), SetText(title, description, now))
  }

  /** The guarded close: `... WHERE repo_id AND id AND state = Open`. */
  function CloseRows(issues: seq<Issue>, repoId: int, id: int, closedBy: int, now: int): seq<Issue> {
    Sql.Update(issues, MatchesInState(repoId, id, IssueStateOpen), SetClosed(closedBy, now))
  }

  /** The guarded reopen: `... WHERE repo_id AND id AND state = Closed`. */
  function ReopenRows(issues: seq<Issue>, repoId: int, id: int, now: int): seq<Issue> {
    Sql.Update(issues, MatchesInState(repoId, id, IssueStateClosed), SetReopened(now))
  }

  /** `DELETE FROM issues WHERE repo_id AND id`. */
  function DeleteRows(issues: seq<Issue>, repoId: int, id: int): seq<Issue> {
    Sql.Where(issues, NotMatches(repoId, id))
  }

  /** The inserted row is found under its fresh id with exactly the values
      given, and every other lookup finds what it found before. */
  lemma CreateIssueFound(issues: seq<Issue>, nextId: int, repoId: int, authorId: int, title: string, description: string, now: int)
    requires IssuesTable(issues, nextId)
    ensures nextId > 0
    ensures IssuesTable(issues + [NewIssue(nextId, repoId, authorId, title, description, now)], nextId + 1)
    ensures GetIssueByID(issues + [NewIssue(nextId, repoId, authorId, title, description, now)], repoId, nextId)
         == Ok(Issue(nextId, repoId, title, description, IssueStateOpen, authorId, None, None, now, now))
    ensures forall r, i :: (r, i) != (repoId, nextId) ==>
      GetIssueByID(issues + [NewIssue(nextId, repoId, authorId, title, description, now)], r, i) == GetIssueByID(issues, r, i)
  {
    var x := NewIssue(nextId, repoId, authorId, title, description, now);
    AppendFreshIssue(issues, nextId, x);
    Sql.LookupAppend(issues, x, Key, (repoId, nextId));
    forall r, i | (r, i) != (repoId, nextId)
      ensures GetIssueByID(issues + [x], r, i) == GetIssueByID(issues, r, i)
    {
      Sql.LookupAppend(issues, x, Key, (r, i));
    }
  }

  /** Update rewrites title, description and updated_at of the addressed row
      and nothing else; on a missing row it changes nothing. */
  lemma UpdateIssueEffect(issues: seq<Issue>, repoId: int, id: int, title: string, description: string, now: int,
                          lookupRepoId: int, lookupId: int)
    ensures GetIssueByID(UpdateRows(issues, repoId, id, title, description, now), lookupRepoId, lookupId) ==
      match GetIssueByID(issues, lookupRepoId, lookupId)
      case Err(e) => Err(e)
      case Ok(x) =>
        Ok(if (lookupRepoId, lookupId) == (repoId, id)
           then x.(title := title, description := description, updatedAt := now) else x)
    ensures GetIssueByID(issues, repoId, id).Err? ==> UpdateRows(issues, repoId, id, title, description, now) == issues
  {
    Sql.LookupUpdate(issues, Matches(repoId, id), SetText(title, description, now), Key, (lookupRepoId, lookupId));
    if GetIssueByID(issues, repoId, id).Err? {
      Sql.UpdateUnmatched(issues, Matches(repoId, id), SetText(title, description, now));
    }
  }

  /** Close changes only an Open row of the repository: it becomes Closed by
      the actor at `now`. Any other call, a missing row included, changes
      nothing at all. */
  lemma CloseIssueEffect(issues: seq<Issue>, repoId: int, id: int, closedBy: int, now: int,
                         lookupRepoId: int, lookupId: int)
    requires Sql.UniqueKeys(issues, Id)
    ensures GetIssueByID(CloseRows(issues, repoId, id, closedBy, now), lookupRepoId, lookupId) ==
      match GetIssueByID(issues, lookupRepoId, lookupId)
      case Err(e) => Err(e)
      case Ok(x) =>
        Ok(if (lookupRepoId, lookupId) == (repoId, id) && x.state == IssueStateOpen
           then x.(state := IssueStateClosed, closedBy := Some(closedBy), closedAt := Some(now), updatedAt := now)
           else x)
    ensures (GetIssueByID(issues, repoId, id).Err? || GetIssueByID(issues, repoId, id).value.state != IssueStateOpen)
            ==> CloseRows(issues, repoId, id, closedBy, now) == issues
  {
    var p, f := MatchesInState(repoId, id, IssueStateOpen), SetClosed(closedBy, now);
    Sql.LookupUpdate(issues, p, f, Key, (lookupRepoId, lookupId));
    if GetIssueByID(issues, repoId, id).Err? || GetIssueByID(issues, repoId, id).value.state != IssueStateOpen {
      IssueKeysUnique(issues);
      Sql.UpdateOneRowUnmatched(issues, p, f, Key, (repoId, id));
    }
  }

  /** Reopen changes only a Closed row: it becomes Open with no closer. Any
      other call changes nothing at all. */
  lemma ReopenIssueEffect(issues: seq<Issue>, repoId: int, id: int, now: int, lookupRepoId: int, lookupId: int)
    requires Sql.UniqueKeys(issues, Id)
    ensures GetIssueByID(ReopenRows(issues, repoId, id, now), lookupRepoId, lookupId) ==
      match GetIssueByID(issues, lookupRepoId, lookupId)
      case Err(e) => Err(e)
      case Ok(x) =>
        Ok(if (lookupRepoId, lookupId) == (repoId, id) && x.state == IssueStateClosed
           then x.(state := IssueStateOpen, closedBy := None, closedAt := None, updatedAt := now)
           else x)
    ensures (GetIssueByID(issues, repoId, id).Err? || GetIssueByID(issues, repoId, id).value.state != IssueStateClosed)
            ==> ReopenRows(issues, repoId, id, now) == issues
  {
    var p, f := MatchesInState(repoId, id, IssueStateClosed), SetReopened(now);
    Sql.LookupUpdate(issues, p, f, Key, (lookupRepoId, lookupId));
    if GetIssueByID(issues, repoId, id).Err? || GetIssueByID(issues, repoId, id).value.state != IssueStateClosed {
      IssueKeysUnique(issues);
      Sql.UpdateOneRowUnmatched(issues, p, f, Key, (repoId, id));
    }
  }

  /** Closing an Open issue and reopening it gives back the same row, with
      only `updated_at` moved to the reopening time. */
  lemma CloseThenReopen(issues: seq<Issue>, repoId: int, id: int, closedBy: int, closedAt: int, reopenedAt: int)
    requires GetIssueByID(issues, repoId, id).Ok?
    requires GetIssueByID(issues, repoId, id).value.state == IssueStateOpen
    requires Consistent(GetIssueByID(issues, repoId, id).value)
    ensures GetIssueByID(ReopenRows(CloseRows(issues, repoId, id, closedBy, closedAt), repoId, id, reopenedAt), repoId, id)
         == Ok(GetIssueByID(issues, repoId, id).value.(updatedAt := reopenedAt))
  {
    var closed := CloseRows(issues, repoId, id, closedBy, closedAt);
    Sql.LookupUpdate(issues, MatchesInState(repoId, id, IssueStateOpen), SetClosed(closedBy, closedAt), Key, (repoId, id));
    Sql.LookupUpdate(closed, MatchesInState(repoId, id, IssueStateClosed), SetReopened(reopenedAt), Key, (repoId, id));
  }

  /** After a delete the deleted key finds nothing and every other key finds
      what it found before. */
  lemma DeleteIssueEffect(issues: seq<Issue>, repoId: int, id: int, lookupRepoId: int, lookupId: int)
    ensures GetIssueByID(DeleteRows(issues, repoId, id), lookupRepoId, lookupId) ==
      if (lookupRepoId, lookupId) == (repoId, id) then Err(ErrNoRows) else GetIssueByID(issues, lookupRepoId, lookupId)
  {
    Sql.LookupDelete(issues, NotMatches(repoId, id), Key, (repoId, id), (lookupRepoId, lookupId));
  }

  /** A deleted issue shows in no listing of its repository: not in the
      repository list and, because both dependency queries join back to
      `issues`, not as anyone's dependency or dependent. */
  lemma DeletedIssueNotListed(issues: seq<Issue>, edges: seq<Dependency>, repoId: int, id: int, issueId: int)
    ensures forall x :: x in GetIssuesByRepoID(DeleteRows(issues, repoId, id), repoId) ==> x.id != id
    ensures forall x :: x in GetIssueDependencies(DeleteRows(issues, repoId, id), edges, repoId, issueId) ==> x.id != id
    ensures forall x :: x in GetIssueDependents(DeleteRows(issues, repoId, id), edges, repoId, issueId) ==> x.id != id
  {
  }

  // -----------------------------------------------------------------------
  // The table invariant across the statements.

  lemma UpdateKeepsTable(rows: seq<Issue>, nextId: int, p: Issue -> bool, f: Issue -> Issue)
    requires IssuesTable(rows, nextId)
    requires forall x :: f(x).id == x.id
    requires forall x :: p(x) && Consistent(x) ==> Consistent(f(x))
    ensures IssuesTable(Sql.Update(rows, p, f), nextId)
  {
    var r := Sql.Update(rows, p, f);
    assert forall x :: Id(f(x)) == Id(x);
    Sql.UpdateKeepsUniqueKeys(rows, p, f, Id);
    forall x | x in r ensures 0 < x.id < nextId && Consistent(x) {
      var k :| 0 <= k < |r| && r[k] == x;
      assert rows[k] in rows;
    }
  }

  lemma DeleteKeepsTable(rows: seq<Issue>, nextId: int, repoId: int, id: int)
    requires IssuesTable(rows, nextId)
    ensures IssuesTable(DeleteRows(rows, repoId, id), nextId)
  {
    Sql.WhereKeepsUniqueKeys(rows, NotMatches(repoId, id), Id);
  }

  // -----------------------------------------------------------------------
  // The statements, on the database.

  /** `CreateIssue`: inserts an Open row and returns its fresh id. */
  method CreateIssue(db: Db, repoId: int, authorId: int, title: string, description: string, now: int)
    returns (id: int)
    requires db.Valid()
    modifies db`issues, db`nextIssueId
    ensures db.Valid()
    ensures id > 0 && id == old(db.nextIssueId) && db.nextIssueId == id + 1
    ensures db.issues == old(db.issues) + [NewIssue(id, repoId, authorId, title, description, now)]
    ensures GetIssueByID(db.issues, repoId, id) == Ok(NewIssue(id, repoId, authorId, title, description, now))
  {
    id := db.nextIssueId;
    CreateIssueFound(db.issues, id, repoId, authorId, title, description, now);
    db.issues := db.issues + [NewIssue(id, repoId, authorId, title, description, now)];
    db.nextIssueId := id + 1;
  }

  /** `UpdateIssue`: succeeds whether or not the row exists. */
  method UpdateIssue(db: Db, repoId: int, id: int, title: string, description: string, now: int)
    requires db.Valid()
    modifies db`issues
    ensures db.Valid()
    ensures db.issues == UpdateRows(old(db.issues), repoId, id, title, description, now)
  {
    UpdateKeepsTable(db.issues, db.nextIssueId, Matches(repoId, id), SetText(title, description, now));
    db.issues := UpdateRows(db.issues, repoId, id, title, description, now);
  }

  /** `CloseIssue`: the affected-row count is discarded, so a call whose guard
      matches nothing also succeeds. */
  method CloseIssue(db: Db, repoId: int, id: int, closedBy: int, now: int)
    requires db.Valid()
    modifies db`issues
    ensures db.Valid()
    ensures db.issues == CloseRows(old(db.issues), repoId, id, closedBy, now)
  {
    UpdateKeepsTable(db.issues, db.nextIssueId, MatchesInState(repoId, id, IssueStateOpen), SetClosed(closedBy, now));
    db.issues := CloseRows(db.issues, repoId, id, closedBy, now);
  }

  /** `ReopenIssue`: succeeds whether or not the guard matched. */
  method ReopenIssue(db: Db, repoId: int, id: int, now: int)
    requires db.Valid()
    modifies db`issues
    ensures db.Valid()
    ensures db.issues == ReopenRows(old(db.issues), repoId, id, now)
  {
    UpdateKeepsTable(db.issues, db.nextIssueId, MatchesInState(repoId, id, IssueStateClosed), SetReopened(now));
    db.issues := ReopenRows(db.issues, repoId, id, now);
  }

  /** `DeleteIssue`: the dependency rows are not touched. */
  method DeleteIssue(db: Db, repoId: int, id: int)
    requires db.Valid()
    modifies db`issues
    ensures db.Valid()
    ensures db.issues == DeleteRows(old(db.issues), repoId, id)
  {
    DeleteKeepsTable(db.issues, db.nextIssueId, repoId, id);
    db.issues := DeleteRows(db.issues, repoId, id);
  }

  /** `AddIssueDependency`: counts the two ends first and fails with
      ErrNoRows unless the count is 2; then inserts the edge. */
  method AddIssueDependency(db: Db, repoId: int, issueId: int, dependsOnId: int) returns (r: Outcome<Error>)
    requires db.Valid()
    modifies db`dependencies
    ensures db.Valid()
    ensures r.Pass? <==>
      && issueId != dependsOnId
      && GetIssueByID(db.issues, repoId, issueId).Ok?
      && GetIssueByID(db.issues, repoId, dependsOnId).Ok?
    ensures r.Fail? ==> r.error == ErrNoRows && db.dependencies == old(db.dependencies)
    ensures r.Pass? ==> db.dependencies == old(db.dependencies) + [Dependency(issueId, dependsOnId)]
  {
    AddDependencyCheck(db.issues, repoId, issueId, dependsOnId);
    var count := Sql.Count(db.issues, MatchesEither(repoId, issueId, dependsOnId));
    if count != 2 {
      return Fail(ErrNoRows);
    }
    db.dependencies := db.dependencies + [Dependency(issueId, dependsOnId)];
    return Pass;
  }

  /** `RemoveIssueDependency`: fails with ErrNoRows unless issueId is an issue
      of the repository; then deletes the edge, present or not. */
  method RemoveIssueDependency(db: Db, repoId: int, issueId: int, dependsOnId: int) returns (r: Outcome<Error>)
    requires db.Valid()
    modifies db`dependencies
    ensures db.Valid()
    ensures r.Pass? <==> GetIssueByID(db.issues, repoId, issueId).Ok?
    ensures r.Fail? ==> r.error == ErrNoRows && db.dependencies == old(db.dependencies)
    ensures r.Pass? ==> db.dependencies == RemoveEdges(old(db.dependencies), issueId, dependsOnId)
  {
    var count := Sql.Count(db.issues, Matches(repoId, issueId));
    if count == 0 {
      return Fail(ErrNoRows);
    }
    db.dependencies := RemoveEdges(db.dependencies, issueId, dependsOnId);
    return Pass;
  }
}
