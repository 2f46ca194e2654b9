/** The Issue entity: its state enum with the `String` rendering, and the row
    record the `issues` table holds. */
module IssueModel {
  import opened Wrappers

  /** A Go `int`: the state column holds it, and any integer converts to it
      (the command-line parser produces -1 for unknown names). */
  type IssueState = int

  const IssueStateOpen: IssueState := 0
  const IssueStateClosed: IssueState := 1

  predicate IsValidState(s: IssueState) {
    s == IssueStateOpen || s == IssueStateClosed
  }

  /** `IssueState.String`. */
  function String(s: IssueState): (r: string)
    ensures r in {"open", "closed", "unknown"}
    ensures r == "unknown" <==> !IsValidState(s)
  {
    if s == IssueStateOpen then "open"
    else if s == IssueStateClosed then "closed"
    else "unknown"
  }

  /** The two valid states render as distinct names. */
  lemma StringInjective(s: IssueState, t: IssueState)
    requires IsValidState(s) && IsValidState(t)
    ensures String(s) == String(t) <==> s == t
  {
  }

  /** Open renders as "open", Closed as "closed", anything else as "unknown". */
  lemma StringCases()
    ensures String(IssueStateOpen) == "open"
    ensures String(IssueStateClosed) == "closed"
    ensures String(-1) == "unknown" && String(2) == "unknown"
  {
  }

  /** A row of `issues`. Times are integers (the value of CURRENT_TIMESTAMP
      when the row was written); NULL columns are `None`. */
  datatype Issue = Issue(
    id: int,
    repoId: int,
    title: string,
    description: string,
    state: IssueState,
    authorId: int,
    closedBy: Option<int>,
    closedAt: Option<int>,
    createdAt: int,
    updatedAt: int)

  /** The column pair `(repo_id, id)` every lookup addresses a row by. */
  function Key(i: Issue): (int, int) { (i.repoId, i.id) }

  function Id(i: Issue): int { i.id }

  function CreatedAt(i: Issue): int { i.createdAt }

  /** What every statement of the store keeps true of a row: the state is one
      of the two, and `closed_by`/`closed_at` are set exactly while Closed. */
  predicate Consistent(i: Issue) {
    || (i.state == IssueStateOpen && i.closedBy.None? && i.closedAt.None?)
    || (i.state == IssueStateClosed && i.closedBy.Some? && i.closedAt.Some?)
  }
}
