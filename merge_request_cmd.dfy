/** The `mr` command's state handling: `parseState` and the state filter of
    `mr list`. */
module MergeRequestCommand {
  import opened Wrappers
  import opened Errors
  import opened Proto
  import opened Text
  import opened MergeRequestModel
  import opened Database
  import MergeRequestBackend
  import MergeRequestStore

  /** `parseState`: the lowered name of a state, or -1. */
  function ParseState(s: string): (r: MergeRequestState)
    ensures r == -1 || IsValidState(r)
    ensures r != -1 ==> String(r) == ToLower(s)
  {
    match ToLower(s)
    case "open" => MergeRequestStateOpen
    case "merged" => MergeRequestStateMerged
    case "closed" => MergeRequestStateClosed
    case _ => -1
  }

  /** Parsing the rendering of a valid state gives the state back. */
  lemma ParseStateRoundTrip(state: MergeRequestState)
    requires IsValidState(state)
    ensures ParseState(String(state)) == state
  {
    if state == MergeRequestStateOpen {
      ToLowerNoCapitals("open");
    } else if state == MergeRequestStateMerged {
      ToLowerNoCapitals("merged");
    } else {
      ToLowerNoCapitals("closed");
    }
  }

  /** The rendering of an invalid state, "unknown", parses to -1. */
  lemma ParseStateUnknown(state: MergeRequestState)
    requires !IsValidState(state)
    ensures ParseState(String(state)) == -1
  {
    assert String(state) == "unknown";
    ToLowerNoCapitals("unknown");
  }

  /** Parsing is blind to case. */
  lemma ParseStateIgnoresCase(s: string)
    ensures ParseState(ToLower(s)) == ParseState(s)
  {
    ToLowerIdempotent(s);
  }

  /** A name in capitals parses like its lowered form; the empty string
      does not parse. */
  lemma ParseStateCases()
    ensures ParseState("MERGED") == MergeRequestStateMerged
    ensures ParseState("") == -1
  {
    assert ToLower("MERGED") == "merged";
  }

  /** The `--state` flag: empty means no filter; otherwise a state that parses,
      or the "invalid state" error. */
  function StateFilter(stateFilter: string): (r: Result<Option<MergeRequestState>, Error>)
    ensures stateFilter == [] ==> r == Ok(None)
    ensures r.Err? <==> stateFilter != [] && ParseState(stateFilter) < 0
    ensures r.Err? ==> r.error == ErrInvalidState(stateFilter)
    ensures r.Ok? && r.value.Some? ==> IsValidState(r.value.value) && String(r.value.value) == ToLower(stateFilter)
  {
    if stateFilter == [] then Ok(None)
    else
      var s := ParseState(stateFilter);
      if s < 0 then Err(ErrInvalidState(stateFilter)) else Ok(Some(s))
  }

  /** `mr list`: an invalid filter is refused before the backend is called. */
  method ListCommand(db: Db, repo: Result<Repo, Error>, stateFilter: string)
    returns (r: Result<seq<MergeRequest>, Error>)
    ensures StateFilter(stateFilter).Err? ==> r == Err(ErrInvalidState(stateFilter))
    ensures StateFilter(stateFilter).Ok? && repo.Err? ==> r == Err(repo.error)
    ensures StateFilter(stateFilter).Ok? && repo.Ok? ==>
      r == Ok(match StateFilter(stateFilter).value
              case None => MergeRequestStore.GetMergeRequestsByRepoID(db.mergeRequests, repo.value.id)
              case Some(s) => MergeRequestStore.GetMergeRequestsByRepoIDAndState(db.mergeRequests, repo.value.id, s))
    ensures r.Ok? ==> forall x :: x in r.value <==>
      && x in db.mergeRequests && x.repoId == repo.value.id
      && (stateFilter == [] || x.state == ParseState(stateFilter))
  {
    var filter := StateFilter(stateFilter);
    if filter.Err? {
      return Err(filter.error);
    }
    r := MergeRequestBackend.ListMergeRequests(db, repo, filter.value);
  }
}
