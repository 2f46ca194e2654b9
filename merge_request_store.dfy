/** `mergeRequestStore`: the statements it runs against `merge_requests`.
    Queries are functions of the table; the row-changing statements are
    methods on the database proved against transition functions. */
module MergeRequestStore {
  import opened Wrappers
  import opened Errors
  import Sql
  import opened MergeRequestModel
  import opened Database

  // -----------------------------------------------------------------------
  // WHERE clauses and SET lists.

  function InRepo(repoId: int): MergeRequest -> bool {
    (x: MergeRequest) => x.repoId == repoId
  }

  function InRepoWithState(repoId: int, state: MergeRequestState): MergeRequest -> bool {
    (x: MergeRequest) => x.repoId == repoId && x.state == state
  }

  function HasState(state: MergeRequestState): MergeRequest -> bool {
    (x: MergeRequest) => x.state == state
  }

  function Matches(repoId: int, id: int): MergeRequest -> bool {
    (x: MergeRequest) => x.repoId == repoId && x.id == id
  }

  function MatchesInState(repoId: int, id: int, state: MergeRequestState): MergeRequest -> bool {
    (x: MergeRequest) => x.repoId == repoId && x.id == id && x.state == state
  }

  function NotMatches(repoId: int, id: int): MergeRequest -> bool {
    (x: MergeRequest) => !(x.repoId == repoId && x.id == id)
  }

  function SetText(title: string, description: string, now: int): MergeRequest -> MergeRequest {
    (x: MergeRequest) => x.(title := title, description := description, updatedAt := now)
  }

  function SetMerged(mergedBy: int, now: int): MergeRequest -> MergeRequest {
    (x: MergeRequest) => x.(state := MergeRequestStateMerged, mergedBy := Some(mergedBy), mergedAt := Some(now), updatedAt := now)
  }

  function SetClosed(closedBy: int, now: int): MergeRequest -> MergeRequest {
    (x: MergeRequest) => x.(state := MergeRequestStateClosed, closedBy := Some(closedBy), closedAt := Some(now), updatedAt := now)
  }

  function SetReopened(now: int): MergeRequest -> MergeRequest {
    (x: MergeRequest) => x.(state := MergeRequestStateOpen, closedBy := None, closedAt := None, updatedAt := now)
  }

  // -----------------------------------------------------------------------
  // Queries.

  /** `GetMergeRequestByID`: the row with this repository and id, or ErrNoRows. */
  function GetMergeRequestByID(rows: seq<MergeRequest>, repoId: int, id: int): (r: Result<MergeRequest, Error>)
    ensures r.Ok? ==> r.value in rows && r.value.repoId == repoId && r.value.id == id
    ensures r.Err? <==> forall x :: x in rows ==> !(x.repoId == repoId && x.id == id)
    ensures r.Err? ==> r.error == ErrNoRows
  {
    match Sql.Lookup(rows, Key, (repoId, id))
    case Some(x) => Ok(x)
    case None => Err(ErrNoRows)
  }

  /** `GetMergeRequestsByRepoID`: every row of the repository, newest
      `created_at` first. */
  function GetMergeRequestsByRepoID(rows: seq<MergeRequest>, repoId: int): (r: seq<MergeRequest>)
    ensures forall x :: x in r <==> x in rows && x.repoId == repoId
    ensures forall x :: multiset(r)[x] == if x.repoId == repoId then multiset(rows)[x] else 0
    ensures Sql.SortedDesc(r, CreatedAt)
  {
    Sql.OrderByDesc(Sql.Where(rows, InRepo(repoId)), CreatedAt)
  }

  /** `GetMergeRequestsByRepoIDAndState`: the rows of the repository in that
      state, newest `created_at` first. */
  function GetMergeRequestsByRepoIDAndState(rows: seq<MergeRequest>, repoId: int, state: MergeRequestState): (r: seq<MergeRequest>)
    ensures forall x :: x in r <==> x in rows && x.repoId == repoId && x.state == state
    ensures forall x :: multiset(r)[x] == if x.repoId == repoId && x.state == state then multiset(rows)[x] else 0
    ensures Sql.SortedDesc(r, CreatedAt)
  {
    Sql.OrderByDesc(Sql.Where(rows, InRepoWithState(repoId, state)), CreatedAt)
  }

  /** The listing by state holds exactly the rows of the full listing that are
      in that state. */
  lemma StateListFiltersRepoList(rows: seq<MergeRequest>, repoId: int, state: MergeRequestState)
    ensures multiset(GetMergeRequestsByRepoIDAndState(rows, repoId, state))
         == multiset(Sql.Where(GetMergeRequestsByRepoID(rows, repoId), HasState(state)))
  {
    Sql.WhereOfOrdered(rows, InRepo(repoId), HasState(state), InRepoWithState(repoId, state),
                       GetMergeRequestsByRepoID(rows, repoId), CreatedAt);
  }



  // -----------------------------------------------------------------------
  // What the row-changing statements do to the table.

  /** The row `CreateMergeRequest` inserts: Open, both audit pairs null. */
  function NewMergeRequest(id: int, repoId: int, authorId: int, title: string, description: string,
                           sourceBranch: string, targetBranch: string, now: int): MergeRequest {
    MergeRequest(id, repoId, title, description, sourceBranch, targetBranch, MergeRequestStateOpen, authorId,
                 None, None, None, None, now, now)
  }

  function UpdateRows(rows: seq<MergeRequest>, repoId: int, id: int, title: string, description: string, now: int): seq<MergeRequest> {
    Sql.Update(rows, Matches(repoId, id), SetText(title, description, now))
  }

  /** The guarded merge: `... WHERE repo_id AND id AND state = Open`. */
  function MergeRows(rows: seq<MergeRequest>, repoId: int, id: int, mergedBy: int, now: int): seq<MergeRequest> {
    Sql.Update(rows, MatchesInState(repoId, id, MergeRequestStateOpen), SetMerged(mergedBy, now))
  }

  /** The guarded close: `... WHERE repo_id AND id AND state = Open`. */
  function CloseRows(rows: seq<MergeRequest>, repoId: int, id: int, closedBy: int, now: int): seq<MergeRequest> {
    Sql.Update(rows, MatchesInState(repoId, id, MergeRequestStateOpen), SetClosed(closedBy, now))
  }

  /** The guarded reopen: `... WHERE repo_id AND id AND state = Closed`. */
  function ReopenRows(rows: seq<MergeRequest>, repoId: int, id: int, now: int): seq<MergeRequest> {
    Sql.Update(rows, MatchesInState(repoId, id, MergeRequestStateClosed), SetReopened(now))
  }

  function DeleteRows(rows: seq<MergeRequest>, repoId: int, id: int): seq<MergeRequest> {
    Sql.Where(rows, NotMatches(repoId, id))
  }

  /** The inserted row is found under its fresh id, Open, with both branches
      stored; every other lookup is unchanged. */
  lemma CreateMergeRequestFound(rows: seq<MergeRequest>, nextId: int, repoId: int, authorId: int, title: string,
                                description: string, sourceBranch: string, targetBranch: string, now: int)
    requires MergeRequestsTable(rows, nextId)
    ensures nextId > 0
    ensures MergeRequestsTable(rows + [NewMergeRequest(nextId, repoId, authorId, title, description, sourceBranch, targetBranch, now)], nextId + 1)
    ensures GetMergeRequestByID(rows + [NewMergeRequest(nextId, repoId, authorId, title, description, sourceBranch, targetBranch, now)], repoId, nextId)
         == Ok(MergeRequest(nextId, repoId, title, description, sourceBranch, targetBranch, MergeRequestStateOpen, authorId,
                            None, None, None, None, now, now))
    ensures forall r, i :: (r, i) != (repoId, nextId) ==>
      GetMergeRequestByID(rows + [NewMergeRequest(nextId, repoId, authorId, title, description, sourceBranch, targetBranch, now)], r, i)
      == GetMergeRequestByID(rows, r, i)
  {
    var x := NewMergeRequest(nextId, repoId, authorId, title, description, sourceBranch, targetBranch, now);
    AppendFreshMergeRequest(rows, nextId, x);
    Sql.LookupAppend(rows, x, Key, (repoId, nextId));
    forall r, i | (r, i) != (repoId, nextId)
      ensures GetMergeRequestByID(rows + [x], r, i) == GetMergeRequestByID(rows, r, i)
    {
      Sql.LookupAppend(rows, x, Key, (r, i));
    }
  }

  /** Update rewrites title, description and updated_at of the addressed row;
      branches, state and audit pairs stay. A missing row: no change. */
  lemma UpdateMergeRequestEffect(rows: seq<MergeRequest>, repoId: int, id: int, title: string, description: string, now: int,
                                 lookupRepoId: int, lookupId: int)
    ensures GetMergeRequestByID(UpdateRows(rows, repoId, id, title, description, now), lookupRepoId, lookupId) ==
      match GetMergeRequestByID(rows, lookupRepoId, lookupId)
      case Err(e) => Err(e)
      case Ok(x) =>
        Ok(if (lookupRepoId, lookupId) == (repoId, id)
           then x.(title := title, description := description, updatedAt := now) else x)
    ensures GetMergeRequestByID(rows, repoId, id).Err? ==> UpdateRows(rows, repoId, id, title, description, now) == rows
  {
    Sql.LookupUpdate(rows, Matches(repoId, id), SetText(title, description, now), Key, (lookupRepoId, lookupId));
    if GetMergeRequestByID(rows, repoId, id).Err? {
      Sql.UpdateUnmatched(rows, Matches(repoId, id), SetText(title, description, now));
    }
  }

  /** Merge moves only an Open row to Merged by the actor at `now`; on any
      other row, a missing one included, nothing changes. */
  lemma MergeMergeRequestEffect(rows: seq<MergeRequest>, repoId: int, id: int, mergedBy: int, now: int,
                                lookupRepoId: int, lookupId: int)
    requires Sql.UniqueKeys(rows, Id)
    ensures GetMergeRequestByID(MergeRows(rows, repoId, id, mergedBy, now), lookupRepoId, lookupId) ==
      match GetMergeRequestByID(rows, lookupRepoId, lookupId)
      case Err(e) => Err(e)
      case Ok(x) =>
        Ok(if (lookupRepoId, lookupId) == (repoId, id) && x.state == MergeRequestStateOpen
           then x.(state := MergeRequestStateMerged, mergedBy := Some(mergedBy), mergedAt := Some(now), updatedAt := now)
           else x)
    ensures (GetMergeRequestByID(rows, repoId, id).Err? || GetMergeRequestByID(rows, repoId, id).value.state != MergeRequestStateOpen)
            ==> MergeRows(rows, repoId, id, mergedBy, now) == rows
  {
    var p, f := MatchesInState(repoId, id, MergeRequestStateOpen), SetMerged(mergedBy, now);
    Sql.LookupUpdate(rows, p, f, Key, (lookupRepoId, lookupId));
    if GetMergeRequestByID(rows, repoId, id).Err? || GetMergeRequestByID(rows, repoId, id).value.state != MergeRequestStateOpen {
      MergeRequestKeysUnique(rows);
      Sql.UpdateOneRowUnmatched(rows, p, f, Key, (repoId, id));
    }
  }

  /** Close moves only an Open row to Closed by the actor at `now`; a Merged,
      Closed or missing row is left as it was. */
  lemma CloseMergeRequestEffect(rows: seq<MergeRequest>, repoId: int, id: int, closedBy: int, now: int,
                                lookupRepoId: int, lookupId: int)
    requires Sql.UniqueKeys(rows, Id)
    ensures GetMergeRequestByID(CloseRows(rows, repoId, id, closedBy, now), lookupRepoId, lookupId) ==
      match GetMergeRequestByID(rows, lookupRepoId, lookupId)
      case Err(e) => Err(e)
      case Ok(x) =>
        Ok(if (lookupRepoId, lookupId) == (repoId, id) && x.state == MergeRequestStateOpen
           then x.(state := MergeRequestStateClosed, closedBy := Some(closedBy), closedAt := Some(now), updatedAt := now)
           else x)
    ensures (GetMergeRequestByID(rows, repoId, id).Err? || GetMergeRequestByID(rows, repoId, id).value.state != MergeRequestStateOpen)
            ==> CloseRows(rows, repoId, id, closedBy, now) == rows
  {
    var p, f := MatchesInState(repoId, id, MergeRequestStateOpen), SetClosed(closedBy, now);
    Sql.LookupUpdate(rows, p, f, Key, (lookupRepoId, lookupId));
    if GetMergeRequestByID(rows, repoId, id).Err? || GetMergeRequestByID(rows, repoId, id).value.state != MergeRequestStateOpen {
      MergeRequestKeysUnique(rows);
      Sql.UpdateOneRowUnmatched(rows, p, f, Key, (repoId, id));
    }
  }

  /** Reopen moves only a Closed row to Open and nulls the closed pair; the
      merged pair is left as it was. Any other call changes nothing. */
  lemma ReopenMergeRequestEffect(rows: seq<MergeRequest>, repoId: int, id: int, now: int, lookupRepoId: int, lookupId: int)
    requires Sql.UniqueKeys(rows, Id)
    ensures GetMergeRequestByID(ReopenRows(rows, repoId, id, now), lookupRepoId, lookupId) ==
      match GetMergeRequestByID(rows, lookupRepoId, lookupId)
      case Err(e) => Err(e)
      case Ok(x) =>
        Ok(if (lookupRepoId, lookupId) == (repoId, id) && x.state == MergeRequestStateClosed
           then x.(state := MergeRequestStateOpen, closedBy := None, closedAt := None, updatedAt := now)
           else x)
    ensures GetMergeRequestByID(rows, lookupRepoId, lookupId).Ok? ==>
      && GetMergeRequestByID(ReopenRows(rows, repoId, id, now), lookupRepoId, lookupId).Ok?
      && GetMergeRequestByID(ReopenRows(rows, repoId, id, now), lookupRepoId, lookupId).value.mergedBy
         == GetMergeRequestByID(rows, lookupRepoId, lookupId).value.mergedBy
      && GetMergeRequestByID(ReopenRows(rows, repoId, id, now), lookupRepoId, lookupId).value.mergedAt
         == GetMergeRequestByID(rows, lookupRepoId, lookupId).value.mergedAt
    ensures (GetMergeRequestByID(rows, repoId, id).Err? || GetMergeRequestByID(rows, repoId, id).value.state != MergeRequestStateClosed)
            ==> ReopenRows(rows, repoId, id, now) == rows
  {
    var p, f := MatchesInState(repoId, id, MergeRequestStateClosed), SetReopened(now);
    Sql.LookupUpdate(rows, p, f, Key, (lookupRepoId, lookupId));
    if GetMergeRequestByID(rows, repoId, id).Err? || GetMergeRequestByID(rows, repoId, id).value.state != MergeRequestStateClosed {
      MergeRequestKeysUnique(rows);
      Sql.UpdateOneRowUnmatched(rows, p, f, Key, (repoId, id));
    }
  }

  /** Merged is terminal: none of merge, close and reopen changes a Merged row. */
  lemma MergedIsTerminal(rows: seq<MergeRequest>, repoId: int, id: int, actor: int, now: int)
    requires Sql.UniqueKeys(rows, Id)
    requires GetMergeRequestByID(rows, repoId, id).Ok?
    requires GetMergeRequestByID(rows, repoId, id).value.state == MergeRequestStateMerged
    ensures MergeRows(rows, repoId, id, actor, now) == rows
    ensures CloseRows(rows, repoId, id, actor, now) == rows
    ensures ReopenRows(rows, repoId, id, now) == rows
  {
    MergeMergeRequestEffect(rows, repoId, id, actor, now, repoId, id);
    CloseMergeRequestEffect(rows, repoId, id, actor, now, repoId, id);
    ReopenMergeRequestEffect(rows, repoId, id, now, repoId, id);
  }

  /** After a delete the deleted key finds nothing and every other key finds
      what it found before. */
  lemma DeleteMergeRequestEffect(rows: seq<MergeRequest>, repoId: int, id: int, lookupRepoId: int, lookupId: int)
    ensures GetMergeRequestByID(DeleteRows(rows, repoId, id), lookupRepoId, lookupId) ==
      if (lookupRepoId, lookupId) == (repoId, id) then Err(ErrNoRows) else GetMergeRequestByID(rows, lookupRepoId, lookupId)
  {
    Sql.LookupDelete(rows, NotMatches(repoId, id), Key, (repoId, id), (lookupRepoId, lookupId));
  }

  // -----------------------------------------------------------------------
  // The table invariant across the statements.

  lemma UpdateKeepsTable(rows: seq<MergeRequest>, nextId: int, p: MergeRequest -> bool, f: MergeRequest -> MergeRequest)
    requires MergeRequestsTable(rows, nextId)
    requires forall x :: f(x).id == x.id
    requires forall x :: p(x) && Consistent(x) ==> Consistent(f(x))
    ensures MergeRequestsTable(Sql.Update(rows, p, f), nextId)
  {
    var r := Sql.Update(rows, p, f);
    assert forall x :: Id(f(x)) == Id(x);
    Sql.UpdateKeepsUniqueKeys(rows, p, f, Id);
    forall x | x in r ensures 0 < x.id < nextId && Consistent(x) {
      var k :| 0 <= k < |r| && r[k] == x;
      assert rows[k] in rows;
    }
  }

  lemma DeleteKeepsTable(rows: seq<MergeRequest>, nextId: int, repoId: int, id: int)
    requires MergeRequestsTable(rows, nextId)
    ensures MergeRequestsTable(DeleteRows(rows, repoId, id), nextId)
  {
    Sql.WhereKeepsUniqueKeys(rows, NotMatches(repoId, id), Id);
  }

  // -----------------------------------------------------------------------
  // The statements, on the database.

  /** `CreateMergeRequest`: inserts an Open row and returns its fresh id. */
  method CreateMergeRequest(db: Db, repoId: int, authorId: int, title: string, description: string,
                            sourceBranch: string, targetBranch: string, now: int) returns (id: int)
    requires db.Valid()
    modifies db`mergeRequests, db`nextMergeRequestId
    ensures db.Valid()
    ensures id > 0 && id == old(db.nextMergeRequestId) && db.nextMergeRequestId == id + 1
    ensures db.mergeRequests == old(db.mergeRequests) + [NewMergeRequest(id, repoId, authorId, title, description, sourceBranch, targetBranch, now)]
    ensures GetMergeRequestByID(db.mergeRequests, repoId, id)
         == Ok(NewMergeRequest(id, repoId, authorId, title, description, sourceBranch, targetBranch, now))
  {
    id := db.nextMergeRequestId;
    CreateMergeRequestFound(db.mergeRequests, id, repoId, authorId, title, description, sourceBranch, targetBranch, now);
    db.mergeRequests := db.mergeRequests + [NewMergeRequest(id, repoId, authorId, title, description, sourceBranch, targetBranch, now)];
    db.nextMergeRequestId := id + 1;
  }

  method UpdateMergeRequest(db: Db, repoId: int, id: int, title: string, description: string, now: int)
    requires db.Valid()
    modifies db`mergeRequests
    ensures db.Valid()
    ensures db.mergeRequests == UpdateRows(old(db.mergeRequests), repoId, id, title, description, now)
  {
    UpdateKeepsTable(db.mergeRequests, db.nextMergeRequestId, Matches(repoId, id), SetText(title, description, now));
    db.mergeRequests := UpdateRows(db.mergeRequests, repoId, id, title, description, now);
  }

  /** `MergeMergeRequest`: the affected-row count is discarded, so a guard
      that matches nothing is a silent success. */
  method MergeMergeRequest(db: Db, repoId: int, id: int, mergedBy: int, now: int)
    requires db.Valid()
    modifies db`mergeRequests
    ensures db.Valid()
    ensures db.mergeRequests == MergeRows(old(db.mergeRequests), repoId, id, mergedBy, now)
  {
    UpdateKeepsTable(db.mergeRequests, db.nextMergeRequestId, MatchesInState(repoId, id, MergeRequestStateOpen), SetMerged(mergedBy, now));
    db.mergeRequests := MergeRows(db.mergeRequests, repoId, id, mergedBy, now);
  }

  method CloseMergeRequest(db: Db, repoId: int, id: int, closedBy: int, now: int)
    requires db.Valid()
    modifies db`mergeRequests
    ensures db.Valid()
    ensures db.mergeRequests == CloseRows(old(db.mergeRequests), repoId, id, closedBy, now)
  {
    UpdateKeepsTable(db.mergeRequests, db.nextMergeRequestId, MatchesInState(repoId, id, MergeRequestStateOpen), SetClosed(closedBy, now));
    db.mergeRequests := CloseRows(db.mergeRequests, repoId, id, closedBy, now);
  }

  method ReopenMergeRequest(db: Db, repoId: int, id: int, now: int)
    requires db.Valid()
    modifies db`mergeRequests
    ensures db.Valid()
    ensures db.mergeRequests == ReopenRows(old(db.mergeRequests), repoId, id, now)
  {
    UpdateKeepsTable(db.mergeRequests, db.nextMergeRequestId, MatchesInState(repoId, id, MergeRequestStateClosed), SetReopened(now));
    db.mergeRequests := ReopenRows(db.mergeRequests, repoId, id, now);
  }

  method DeleteMergeRequest(db: Db, repoId: int, id: int)
    requires db.Valid()
    modifies db`mergeRequests
    ensures db.Valid()
    ensures db.mergeRequests == DeleteRows(old(db.mergeRequests), repoId, id)
  {
    DeleteKeepsTable(db.mergeRequests, db.nextMergeRequestId, repoId, id);
    db.mergeRequests := DeleteRows(db.mergeRequests, repoId, id);
  }
}
