/** The backend's issue operations: resolve the repository, require a
    current user where the operation records one, then run one store
    statement. The repository lookup and the request's user are inputs:
    `repo` is what the lookup of the (sanitised) name returned, `user` the
    user in the request context, if any. */
module IssueBackend {
  import opened Wrappers
  import opened Errors
  import opened Proto
  import opened IssueModel
  import opened Database
  import IssueStore

  /** `CreateIssue`: a failed lookup, then a missing user, are returned before
      the store is touched; otherwise the issue is inserted under the
      repository's id with the user as author. */
  method CreateIssue(db: Db, repo: Result<Repo, Error>, user: Option<User>, title: string, description: string, now: int)
    returns (r: Result<int, Error>)
    requires db.Valid()
    modifies db`issues, db`nextIssueId
    ensures db.Valid()
    ensures repo.Err? ==> r == Err(repo.error)
    ensures repo.Ok? && user.None? ==> r == Err(ErrUserNotFound)
    ensures r.Err? ==> db.issues == old(db.issues) && db.nextIssueId == old(db.nextIssueId)
    ensures repo.Ok? && user.Some? ==>
      && r == Ok(old(db.nextIssueId))
      && db.nextIssueId == old(db.nextIssueId) + 1
      && db.issues == old(db.issues) + [IssueStore.NewIssue(r.value, repo.value.id, user.value.id, title, description, now)]
      && IssueStore.GetIssueByID(db.issues, repo.value.id, r.value)
         == Ok(IssueStore.NewIssue(r.value, repo.value.id, user.value.id, title, description, now))
  {
    if repo.Err? {
      return Err(repo.error);
    }
    if user.None? {
      return Err(ErrUserNotFound);
    }
    var id := IssueStore.CreateIssue(db, repo.value.id, user.value.id, title, description, now);
    return Ok(id);
  }

  /** `GetIssue`: the lookup's error, or the store's answer for the
      repository's id. */
  method GetIssue(db: Db, repo: Result<Repo, Error>, issueId: int) returns (r: Result<Issue, Error>)
    ensures repo.Err? ==> r == Err(repo.error)
    ensures repo.Ok? ==> r == IssueStore.GetIssueByID(db.issues, repo.value.id, issueId)
    ensures r.Ok? ==> r.value in db.issues && r.value.repoId == repo.value.id && r.value.id == issueId
  {
    if repo.Err? {
      return Err(repo.error);
    }
    return IssueStore.GetIssueByID(db.issues, repo.value.id, issueId);
  }

  /** `ListIssues`: no state filter lists the whole repository, a filter lists
      the rows in that state. */
  method ListIssues(db: Db, repo: Result<Repo, Error>, state: Option<IssueState>) returns (r: Result<seq<Issue>, Error>)
    ensures repo.Err? ==> r == Err(repo.error)
    ensures repo.Ok? && state.None? ==> r == Ok(IssueStore.GetIssuesByRepoID(db.issues, repo.value.id))
    ensures repo.Ok? && state.Some? ==> r == Ok(IssueStore.GetIssuesByRepoIDAndState(db.issues, repo.value.id, state.value))
    ensures r.Ok? ==> forall x :: x in r.value <==>
      x in db.issues && x.repoId == repo.value.id && (state.None? || x.state == state.value)
  {
    if repo.Err? {
      return Err(repo.error);
    }
    if state.None? {
      return Ok(IssueStore.GetIssuesByRepoID(db.issues, repo.value.id));
    }
    return Ok(IssueStore.GetIssuesByRepoIDAndState(db.issues, repo.value.id, state.value));
  }

  /** `UpdateIssue`: after the lookup, the store update, which succeeds
      whether or not the row exists. */
  method UpdateIssue(db: Db, repo: Result<Repo, Error>, issueId: int, title: string, description: string, now: int)
    returns (r: Outcome<Error>)
    requires db.Valid()
    modifies db`issues
    ensures db.Valid()
    ensures repo.Err? ==> r == Fail(repo.error) && db.issues == old(db.issues)
    ensures repo.Ok? ==> r == Pass && db.issues == IssueStore.UpdateRows(old(db.issues), repo.value.id, issueId, title, description, now)
  {
    if repo.Err? {
      return Fail(repo.error);
    }
    IssueStore.UpdateIssue(db, repo.value.id, issueId, title, description, now);
    return Pass;
  }

  /** `CloseIssue`: needs a current user, whose id becomes `closed_by`. */
  method CloseIssue(db: Db, repo: Result<Repo, Error>, user: Option<User>, issueId: int, now: int)
    returns (r: Outcome<Error>)
    requires db.Valid()
    modifies db`issues
    ensures db.Valid()
    ensures repo.Err? ==> r == Fail(repo.error)
    ensures repo.Ok? && user.None? ==> r == Fail(ErrUserNotFound)
    ensures r.Fail? ==> db.issues == old(db.issues)
    ensures repo.Ok? && user.Some? ==>
      r == Pass && db.issues == IssueStore.CloseRows(old(db.issues), repo.value.id, issueId, user.value.id, now)
  {
    if repo.Err? {
      return Fail(repo.error);
    }
    if user.None? {
      return Fail(ErrUserNotFound);
    }
    IssueStore.CloseIssue(db, repo.value.id, issueId, user.value.id, now);
    return Pass;
  }

  /** `ReopenIssue`: needs no user; straight to the guarded store reopen. */
  method ReopenIssue(db: Db, repo: Result<Repo, Error>, issueId: int, now: int) returns (r: Outcome<Error>)
    requires db.Valid()
    modifies db`issues
    ensures db.Valid()
    ensures repo.Err? ==> r == Fail(repo.error) && db.issues == old(db.issues)
    ensures repo.Ok? ==> r == Pass && db.issues == IssueStore.ReopenRows(old(db.issues), repo.value.id, issueId, now)
  {
    if repo.Err? {
      return Fail(repo.error);
    }
    IssueStore.ReopenIssue(db, repo.value.id, issueId, now);
    return Pass;
  }
}
