/** The Merge Request entity: its state enum with the `String` rendering, and
    the row record the `merge_requests` table holds. */
module MergeRequestModel {
  import opened Wrappers

  /** A Go `int`, like `IssueState`. */
  type MergeRequestState = int

  const MergeRequestStateOpen: MergeRequestState := 0
  const MergeRequestStateMerged: MergeRequestState := 1
  const MergeRequestStateClosed: MergeRequestState := 2

  predicate IsValidState(s: MergeRequestState) {
    s == MergeRequestStateOpen || s == MergeRequestStateMerged || s == MergeRequestStateClosed
  }

  /** `MergeRequestState.String`. */
  function String(s: MergeRequestState): (r: string)
    ensures r in {"open", "merged", "closed", "unknown"}
    ensures r == "unknown" <==> !IsValidState(s)
  {
    if s == MergeRequestStateOpen then "open"
    else if s == MergeRequestStateMerged then "merged"
    else if s == MergeRequestStateClosed then "closed"
    else "unknown"
  }

  /** The three valid states render as distinct names. */
  lemma StringInjective(s: MergeRequestState, t: MergeRequestState)
    requires IsValidState(s) && IsValidState(t)
    ensures String(s) == String(t) <==> s == t
  {
  }

  /** The table cases of the state test: the three names, and "unknown" for
      -1 and 999. */
  lemma StringCases()
    ensures String(MergeRequestStateOpen) == "open"
    ensures String(MergeRequestStateMerged) == "merged"
    ensures String(MergeRequestStateClosed) == "closed"
    ensures String(-1) == "unknown" && String(999) == "unknown"
  {
  }

  /** A row of `merge_requests`. The merged pair and the closed pair are
      separate nullable columns. */
  datatype MergeRequest = MergeRequest(
    id: int,
    repoId: int,
    title: string,
    description: string,
    sourceBranch: string,
    targetBranch: string,
    state: MergeRequestState,
    authorId: int,
    mergedBy: Option<int>,
    mergedAt: Option<int>,
    closedBy: Option<int>,
    closedAt: Option<int>,
    createdAt: int,
    updatedAt: int)

  function Key(m: MergeRequest): (int, int) { (m.repoId, m.id) }

  function Id(m: MergeRequest): int { m.id }

  function CreatedAt(m: MergeRequest): int { m.createdAt }

  /** What every statement of the store keeps true of a row: the merged pair
      is set exactly while Merged, the closed pair exactly while Closed. */
  predicate Consistent(m: MergeRequest) {
    || (m.state == MergeRequestStateOpen && m.mergedBy.None? && m.mergedAt.None? && m.closedBy.None? && m.closedAt.None?)
    || (m.state == MergeRequestStateMerged && m.mergedBy.Some? && m.mergedAt.Some? && m.closedBy.None? && m.closedAt.None?)
    || (m.state == MergeRequestStateClosed && m.mergedBy.None? && m.mergedAt.None? && m.closedBy.Some? && m.closedAt.Some?)
  }
}
