/** The backend's merge-request operations. Besides the repository lookup and
    the request's user (inputs, as for issues), creating and merging talk to
    the repository's git oracle `gr`. */
module MergeRequestBackend {
  import opened Wrappers
  import opened Errors
  import opened Proto
  import opened MergeRequestModel
  import opened Database
  import MergeRequestStore
  import Git

  /** The ref `ShowRefVerify` is asked about for a branch. */
  function HeadRef(branch: string): string {
    "refs/heads/" + branch
  }

  /** The commit message of the merge commit. */
  function MergeMessage(sourceBranch: string, targetBranch: string): string {
    "Merge branch '" + sourceBranch + "' into '" + targetBranch + "'"
  }

  function CheckoutArgs(targetBranch: string): seq<string> {
    ["checkout", targetBranch]
  }

  function MergeArgs(sourceBranch: string, targetBranch: string): seq<string> {
    ["merge", "--no-ff", "-m", MergeMessage(sourceBranch, targetBranch), sourceBranch]
  }

  /** Branch names without a quote can be read back from the commit message:
      different branch pairs give different messages. */
  lemma MergeMessageNamesBranches(source1: string, target1: string, source2: string, target2: string)
    requires '\'' !in source1 && '\'' !in source2
    requires MergeMessage(source1, target1) == MergeMessage(source2, target2)
    ensures source1 == source2 && target1 == target2
  {
    if |source1| <= |source2| {
      QuoteEndsSource(source1, target1, source2, target2);
    } else {
      QuoteEndsSource(source2, target2, source1, target1);
    }
  }

  lemma QuoteEndsSource(short: string, targetShort: string, long: string, targetLong: string)
    requires '\'' !in long
    requires |short| <= |long|
    requires MergeMessage(short, targetShort) == MergeMessage(long, targetLong)
    ensures short == long && targetShort == targetLong
  {
    var prefix, middle := "Merge branch '", "' into '";
    var m := MergeMessage(short, targetShort);
    assert m == prefix + short + middle + targetShort + "'";
    assert m == prefix + long + middle + targetLong + "'";
    var n := |prefix|;
    assert m[n + |short|] == '\'';
    assert |short| == |long|;
    assert short == m[n..n + |short|] == long;
    var start := n + |short| + |middle|;
    assert targetShort == m[start..|m| - 1] == targetLong;
  }

  /** `performMerge`: check out the target, then merge the source into it with
      `--no-ff` and the fixed message. A failed checkout stops before the
      merge. The author is not used. */
  method PerformMerge(gr: Git.Repository, sourceBranch: string, targetBranch: string, author: string)
    returns (r: Outcome<Error>)
    modifies gr`log
    ensures CheckoutArgs(targetBranch) in gr.failing ==>
      r == Fail(ErrCheckout) && gr.log == old(gr.log) + [Git.Run(CheckoutArgs(targetBranch))]
    ensures CheckoutArgs(targetBranch) !in gr.failing ==>
      && gr.log == old(gr.log) + [Git.Run(CheckoutArgs(targetBranch)), Git.Run(MergeArgs(sourceBranch, targetBranch))]
      && (r.Pass? <==> MergeArgs(sourceBranch, targetBranch) !in gr.failing)
      && (r.Fail? ==> r.error == ErrMergeBranches)
  {
    var ok := gr.Run(CheckoutArgs(targetBranch));
    if !ok {
      return Fail(ErrCheckout);
    }
    ok := gr.Run(MergeArgs(sourceBranch, targetBranch));
    if !ok {
      return Fail(ErrMergeBranches);
    }
    return Pass;
  }

  /** `CreateMergeRequest`: lookup, user, open the repository, verify the
      source ref and then the target ref; only when all pass is the row
      inserted. */
  method CreateMergeRequest(db: Db, gr: Git.Repository, repo: Result<Repo, Error>, user: Option<User>,
                            title: string, description: string, sourceBranch: string, targetBranch: string, now: int)
    returns (r: Result<int, Error>)
    requires db.Valid()
    modifies db`mergeRequests, db`nextMergeRequestId, gr`log
    ensures db.Valid()
    ensures r.Err? ==> db.mergeRequests == old(db.mergeRequests) && db.nextMergeRequestId == old(db.nextMergeRequestId)
    ensures repo.Err? ==> r == Err(repo.error) && gr.log == old(gr.log)
    ensures repo.Ok? && user.None? ==> r == Err(ErrUserNotFound) && gr.log == old(gr.log)
    ensures repo.Ok? && user.Some? && !gr.openable ==> r == Err(ErrOpenRepository) && gr.log == old(gr.log)
    ensures repo.Ok? && user.Some? && gr.openable ==>
      if HeadRef(sourceBranch) !in gr.refs then
        && r == Err(ErrSourceBranch(sourceBranch))
        && gr.log == old(gr.log) + [Git.ShowRefVerify(HeadRef(sourceBranch))]
      else
        && gr.log == old(gr.log) + [Git.ShowRefVerify(HeadRef(sourceBranch)), Git.ShowRefVerify(HeadRef(targetBranch))]
        && if HeadRef(targetBranch) !in gr.refs then r == Err(ErrTargetBranch(targetBranch))
           else
             && r == Ok(old(db.nextMergeRequestId))
             && db.nextMergeRequestId == old(db.nextMergeRequestId) + 1
             && db.mergeRequests == old(db.mergeRequests) +
                [MergeRequestStore.NewMergeRequest(r.value, repo.value.id, user.value.id, title, description, sourceBranch, targetBranch, now)]
  {
    if repo.Err? {
      return Err(repo.error);
    }
    if user.None? {
      return Err(ErrUserNotFound);
    }
    if !gr.openable {
      return Err(ErrOpenRepository);
    }
    var ok := gr.ShowRefVerify(HeadRef(sourceBranch));
    if !ok {
      return Err(ErrSourceBranch(sourceBranch));
    }
    ok := gr.ShowRefVerify(HeadRef(targetBranch));
    if !ok {
      return Err(ErrTargetBranch(targetBranch));
    }
    var id := MergeRequestStore.CreateMergeRequest(db, repo.value.id, user.value.id, title, description, sourceBranch, targetBranch, now);
    return Ok(id);
  }

  method GetMergeRequest(db: Db, repo: Result<Repo, Error>, mrId: int) returns (r: Result<MergeRequest, Error>)
    ensures repo.Err? ==> r == Err(repo.error)
    ensures repo.Ok? ==> r == MergeRequestStore.GetMergeRequestByID(db.mergeRequests, repo.value.id, mrId)
    ensures r.Ok? ==> r.value in db.mergeRequests && r.value.repoId == repo.value.id && r.value.id == mrId
  {
    if repo.Err? {
      return Err(repo.error);
    }
    return MergeRequestStore.GetMergeRequestByID(db.mergeRequests, repo.value.id, mrId);
  }

  /** `ListMergeRequests`: no filter lists the repository, a filter its rows
      in that state. */
  method ListMergeRequests(db: Db, repo: Result<Repo, Error>, state: Option<MergeRequestState>)
    returns (r: Result<seq<MergeRequest>, Error>)
    ensures repo.Err? ==> r == Err(repo.error)
    ensures repo.Ok? && state.None? ==> r == Ok(MergeRequestStore.GetMergeRequestsByRepoID(db.mergeRequests, repo.value.id))
    ensures repo.Ok? && state.Some? ==>
      r == Ok(MergeRequestStore.GetMergeRequestsByRepoIDAndState(db.mergeRequests, repo.value.id, state.value))
    ensures r.Ok? ==> forall x :: x in r.value <==>
      x in db.mergeRequests && x.repoId == repo.value.id && (state.None? || x.state == state.value)
  {
    if repo.Err? {
      return Err(repo.error);
    }
    if state.None? {
      return Ok(MergeRequestStore.GetMergeRequestsByRepoID(db.mergeRequests, repo.value.id));
    }
    return Ok(MergeRequestStore.GetMergeRequestsByRepoIDAndState(db.mergeRequests, repo.value.id, state.value));
  }

  method UpdateMergeRequest(db: Db, repo: Result<Repo, Error>, mrId: int, title: string, description: string, now: int)
    returns (r: Outcome<Error>)
    requires db.Valid()
    modifies db`mergeRequests
    ensures db.Valid()
    ensures repo.Err? ==> r == Fail(repo.error) && db.mergeRequests == old(db.mergeRequests)
    ensures repo.Ok? ==>
      r == Pass && db.mergeRequests == MergeRequestStore.UpdateRows(old(db.mergeRequests), repo.value.id, mrId, title, description, now)
  {
    if repo.Err? {
      return Fail(repo.error);
    }
    MergeRequestStore.UpdateMergeRequest(db, repo.value.id, mrId, title, description, now);
    return Pass;
  }

  /** `MergeMergeRequest`: lookup, user, read the row; a row that is not Open
      is refused before any git command; then open, `performMerge`, and only
      after it succeeds the guarded store merge with the user as merger. */
  method MergeMergeRequest(db: Db, gr: Git.Repository, repo: Result<Repo, Error>, user: Option<User>, mrId: int, now: int)
    returns (r: Outcome<Error>)
    requires db.Valid()
    modifies db`mergeRequests, gr`log
    ensures db.Valid()
    ensures r.Fail? ==> db.mergeRequests == old(db.mergeRequests)
    ensures repo.Err? ==> r == Fail(repo.error) && gr.log == old(gr.log)
    ensures repo.Ok? && user.None? ==> r == Fail(ErrUserNotFound) && gr.log == old(gr.log)
    ensures repo.Ok? && user.Some? ==>
      match MergeRequestStore.GetMergeRequestByID(old(db.mergeRequests), repo.value.id, mrId)
      case Err(e) => r == Fail(e) && gr.log == old(gr.log)
      case Ok(mr) =>
        if mr.state != MergeRequestStateOpen then r == Fail(ErrNotOpen) && gr.log == old(gr.log)
        else if !gr.openable then r == Fail(ErrOpenRepository) && gr.log == old(gr.log)
        else if CheckoutArgs(mr.targetBranch) in gr.failing then
          r == Fail(ErrCheckout) && gr.log == old(gr.log) + [Git.Run(CheckoutArgs(mr.targetBranch))]
        else
          && gr.log == old(gr.log) + [Git.Run(CheckoutArgs(mr.targetBranch)), Git.Run(MergeArgs(mr.sourceBranch, mr.targetBranch))]
          && (r.Pass? <==> MergeArgs(mr.sourceBranch, mr.targetBranch) !in gr.failing)
          && (r.Fail? ==> r.error == ErrMergeBranches)
          && (r.Pass? ==>
                && db.mergeRequests == MergeRequestStore.MergeRows(old(db.mergeRequests), repo.value.id, mrId, user.value.id, now)
                && MergeRequestStore.GetMergeRequestByID(db.mergeRequests, repo.value.id, mrId)
                   == Ok(mr.(state := MergeRequestStateMerged, mergedBy := Some(user.value.id), mergedAt := Some(now), updatedAt := now)))
  {
    if repo.Err? {
      return Fail(repo.error);
    }
    if user.None? {
      return Fail(ErrUserNotFound);
    }
    var found := GetMergeRequest(db, repo, mrId);
    if found.Err? {
      return Fail(found.error);
    }
    var mr := found.value;
    if mr.state != MergeRequestStateOpen {
      return Fail(ErrNotOpen);
    }
    if !gr.openable {
      return Fail(ErrOpenRepository);
    }
    r := PerformMerge(gr, mr.sourceBranch, mr.targetBranch, user.value.username);
    if r.Fail? {
      return;
    }
    MergeRequestStore.MergeMergeRequestEffect(db.mergeRequests, repo.value.id, mrId, user.value.id, now, repo.value.id, mrId);
    MergeRequestStore.MergeMergeRequest(db, repo.value.id, mrId, user.value.id, now);
    return Pass;
  }

  /** `CloseMergeRequest`: needs a current user, whose id becomes `closed_by`. */
  method CloseMergeRequest(db: Db, repo: Result<Repo, Error>, user: Option<User>, mrId: int, now: int)
    returns (r: Outcome<Error>)
    requires db.Valid()
    modifies db`mergeRequests
    ensures db.Valid()
    ensures repo.Err? ==> r == Fail(repo.error)
    ensures repo.Ok? && user.None? ==> r == Fail(ErrUserNotFound)
    ensures r.Fail? ==> db.mergeRequests == old(db.mergeRequests)
    ensures repo.Ok? && user.Some? ==>
      r == Pass && db.mergeRequests == MergeRequestStore.CloseRows(old(db.mergeRequests), repo.value.id, mrId, user.value.id, now)
  {
    if repo.Err? {
      return Fail(repo.error);
    }
    if user.None? {
      return Fail(ErrUserNotFound);
    }
    MergeRequestStore.CloseMergeRequest(db, repo.value.id, mrId, user.value.id, now);
    return Pass;
  }

  /** `ReopenMergeRequest`: needs no user. */
  method ReopenMergeRequest(db: Db, repo: Result<Repo, Error>, mrId: int, now: int) returns (r: Outcome<Error>)
    requires db.Valid()
    modifies db`mergeRequests
    ensures db.Valid()
    ensures repo.Err? ==> r == Fail(repo.error) && db.mergeRequests == old(db.mergeRequests)
    ensures repo.Ok? ==> r == Pass && db.mergeRequests == MergeRequestStore.ReopenRows(old(db.mergeRequests), repo.value.id, mrId, now)
  {
    if repo.Err? {
      return Fail(repo.error);
    }
    MergeRequestStore.ReopenMergeRequest(db, repo.value.id, mrId, now);
    return Pass;
  }
}
