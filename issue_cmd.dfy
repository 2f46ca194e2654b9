/** The `issue` command's state handling: `parseIssueState` and the state
    filter of `issue list`. */
module IssueCommand {
  import opened Wrappers
  import opened Errors
  import opened Proto
  import opened Text
  import opened IssueModel
  import opened Database
  import IssueBackend
  import IssueStore

  /** `parseIssueState`: the lowered name of a state, or -1. */
  function ParseIssueState(s: string): (r: IssueState)
    ensures r == -1 || IsValidState(r)
    ensures r != -1 ==> String(r) == ToLower(s)
  {
    match ToLower(s)
    case "open" => IssueStateOpen
    case "closed" => IssueStateClosed
    case _ => -1
  }

  /** Parsing the rendering of a valid state gives the state back. */
  lemma ParseIssueStateRoundTrip(state: IssueState)
    requires IsValidState(state)
    ensures ParseIssueState(String(state)) == state
  {
    if state == IssueStateOpen {
      ToLowerNoCapitals("open");
    } else {
      ToLowerNoCapitals("closed");
    }
  }

  /** The rendering of an invalid state, "unknown", parses to -1. */
  lemma ParseIssueStateUnknown(state: IssueState)
    requires !IsValidState(state)
    ensures ParseIssueState(String(state)) == -1
  {
    assert String(state) == "unknown";
    ToLowerNoCapitals("unknown");
  }

  /** Parsing is blind to case: a string and its lowered form parse alike. */
  lemma ParseIssueStateIgnoresCase(s: string)
    ensures ParseIssueState(ToLower(s)) == ParseIssueState(s)
  {
    ToLowerIdempotent(s);
  }

  /** A capitalised name parses like its lowered form; the empty string
      does not parse. */
  lemma ParseIssueStateCases()
    ensures ParseIssueState("Closed") == IssueStateClosed
    ensures ParseIssueState("") == -1
  {
    assert ToLower("Closed") == "closed";
  }

  /** The `--state` flag: empty means no filter; otherwise a state that parses,
      or the "invalid state" error. */
  function StateFilter(stateFilter: string): (r: Result<Option<IssueState>, Error>)
    ensures stateFilter == [] ==> r == Ok(None)
    ensures r.Err? <==> stateFilter != [] && ParseIssueState(stateFilter) < 0
    ensures r.Err? ==> r.error == ErrInvalidState(stateFilter)
    ensures r.Ok? && r.value.Some? ==> IsValidState(r.value.value) && String(r.value.value) == ToLower(stateFilter)
  {
    if stateFilter == [] then Ok(None)
    else
      var s := ParseIssueState(stateFilter);
      if s < 0 then Err(ErrInvalidState(stateFilter)) else Ok(Some(s))
  }

  /** `issue list`: an invalid filter is refused before the backend is called,
      so its error wins even over a failing repository lookup. */
  method ListCommand(db: Db, repo: Result<Repo, Error>, stateFilter: string) returns (r: Result<seq<Issue>, Error>)
    ensures StateFilter(stateFilter).Err? ==> r == Err(ErrInvalidState(stateFilter))
    ensures StateFilter(stateFilter).Ok? && repo.Err? ==> r == Err(repo.error)
    ensures StateFilter(stateFilter).Ok? && repo.Ok? ==>
      r == Ok(match StateFilter(stateFilter).value
              case None => IssueStore.GetIssuesByRepoID(db.issues, repo.value.id)
              case Some(s) => IssueStore.GetIssuesByRepoIDAndState(db.issues, repo.value.id, s))
    ensures r.Ok? ==> forall x :: x in r.value <==>
      && x in db.issues && x.repoId == repo.value.id
      && (stateFilter == [] || x.state == ParseIssueState(stateFilter))
  {
    var filter := StateFilter(stateFilter);
    if filter.Err? {
      return Err(filter.error);
    }
    r := IssueBackend.ListIssues(db, repo, filter.value);
  }
}
