# soft-serve work items, modelled in Dafny

This project models the work-item core of soft-serve: issues, merge requests
and the issue "depends on" relation, across four layers.

- **Database.** `Database.Db` is an in-memory database with three tables:
  `issues`, `merge_requests` and the `issue_dependencies` edges. It also holds
  a fresh-id counter per table.
- **Store.** Each SQL statement of the store becomes one of two things:
  - a query becomes a function of the table contents (`IssueStore`,
    `MergeRequestStore`);
  - a statement that changes rows becomes a method on the database. Its
    `ensures` gives the new table as a transition function of the old one,
    and lemmas state what that transition does to every later lookup.
- **Backend.** The backend operations (`IssueBackend`, `MergeRequestBackend`)
  take the following as inputs:
  - the result of the repository lookup;
  - the request's current user, if any;
  - the time `now`, which stands for `CURRENT_TIMESTAMP`.

  Creating and merging a merge request also talk to `Git.Repository`. This is
  an oracle: a set of existing refs, a set of command argument lists that
  fail, whether the repository can be opened, and a log of the commands
  issued.
- **Front ends.**
  - The `issue` and `mr` SSH commands contribute their state parsers and
    state filters (`IssueCommand`, `MergeRequestCommand`).
  - The TUI list items contribute their formatters, their `Less`/`Swap`
    comparator and the client-side sort that puts the most recently updated
    item first (`IssueItems`, `MRItems`).

Helper modules:
- `Sql` gives generic meanings to `WHERE`, `COUNT(*)`, `UPDATE ... SET`, a
  lookup by key and `ORDER BY ... DESC`, with the lemmas the stores use.
- `Text` models the standard-library pieces used: `%d`, ASCII `ToLower`, and
  splitting at the first space.

What the code does, and the model with it:
- A guarded close, reopen or merge whose `WHERE` matches nothing still
  reports success and changes nothing, because the affected-row count is
  discarded.
- An update of a missing row succeeds.
- Neither the stores, the backend nor the SSH commands check for an empty
  title. The TUI merge-request form rejects one, and that form is not part
  of this model.
- Adding a dependency checks only that the two ids are distinct issues of
  the repository. The code then returns whatever the INSERT returns.

Assumptions about the schema. The migration scripts are not part of this
model, so each of these is assumed:
- `created_at` and `updated_at` of an inserted row are `now`.
- The edge table is a bag of `(issue_id, depends_on_id)` rows with no
  uniqueness constraint. Adding an edge that is already there stores a
  second copy, and a remove deletes every copy.
- Deleting an issue does not cascade to its edges.
- Ids are never reused. Each table's counter only grows, so a deleted
  issue's id is never given to a new issue. `Database.Db.Valid` keeps both
  ends of every edge below the issue counter, and every statement preserves
  this, so a left-over edge can never attach to a later issue.

Contracts that depend on these assumptions:
- `IssueStore.CreateIssueFound`, `MergeRequestStore.CreateMergeRequestFound`
  and both stores' `Create` methods: the new row's times are `now` and its id
  is the counter.
- `IssueStore.AddIssueDependency`, `IssueStore.RemoveIssueDependency` and
  `IssueStore.RemoveEdges`: a duplicate add succeeds and stores a second
  copy, and a remove takes away every copy.
- `IssueStore.DependenciesCount` and `IssueStore.DependentsCount`: an issue
  is listed once per stored copy of its edge.
- `IssueStore.DeleteIssue`: the edges survive the delete. So
  `IssueStore.HasIssueDependency` can still answer `Ok(true)` for an edge
  whose far end was deleted, since it reads the edge table without joining.
  A cascading schema would answer `Ok(false)`.

`IssueStore.DeletedIssueNotListed` holds with or without a cascade: both
dependency queries join back to `issues`, so a deleted issue is never listed.

## Model

| member | source | states |
|---|---|---|
| IssueModel.String | pkg/db/models/issue.go:19-28 | the result is one of "open", "closed" or "unknown", and it is "unknown" exactly for an integer that is neither Open (0) nor Closed (1) |
| IssueModel.StringInjective | pkg/db/models/issue.go:19-28 | on the two valid states, equal renderings mean equal states |
| IssueModel.StringCases | pkg/db/models/issue.go:11-28 | Open (0) renders "open", Closed (1) renders "closed", -1 and 2 render "unknown" |
| MergeRequestModel.String | pkg/db/models/merge_request.go:21-31 | the result is one of the four names, and it is "unknown" exactly for an integer that is not Open (0), Merged (1) or Closed (2) |
| MergeRequestModel.StringInjective | pkg/db/models/merge_request.go:21-31 | on the three valid states, equal renderings mean equal states |
| MergeRequestModel.StringCases | pkg/db/models/merge_request_test.go:12-16 | the test's table: open, merged and closed render by name, and -1 and 999 render "unknown" |
| IssueStore.GetIssueByID | pkg/store/database/issues.go:17-25 | returns a row of the table that matches both repo_id and id; ErrNoRows exactly when no row matches both |
| IssueStore.GetIssuesByRepoID | pkg/store/database/issues.go:28-37 | holds exactly the repository's rows, each as often as in the table, sorted by created_at, newest first |
| IssueStore.GetIssuesByRepoIDAndState | pkg/store/database/issues.go:40-49 | holds exactly the repository's rows in that state, with their multiplicities, sorted by created_at, newest first |
| IssueStore.StateListFiltersRepoList | pkg/store/database/issues.go:28-49 | the by-state listing is, as a multiset, the full repository listing filtered to that state |
| IssueStore.CreateIssueFound | pkg/store/database/issues.go:52-62 | the inserted row keeps the table invariant and is found under its fresh positive id with the given values, state Open and no closer; every other lookup is unchanged |
| IssueStore.CreateIssue | pkg/store/database/issues.go:52-62 | appends that row, returns the old counter as the id and advances the counter |
| IssueStore.UpdateIssueEffect | pkg/store/database/issues.go:65-73 | after the update, the addressed row has only its title, description and updated_at changed, every other lookup is as before, and a missing row leaves the table equal |
| IssueStore.UpdateIssue | pkg/store/database/issues.go:65-73 | the issues table becomes the update transition of the old one, and the invariant is kept |
| IssueStore.CloseIssueEffect | pkg/store/database/issues.go:76-84 | only an Open row of that repository and id changes: it becomes Closed with closed_by set to the actor and closed_at and updated_at set to now; a missing or non-Open row leaves the table equal |
| IssueStore.CloseIssue | pkg/store/database/issues.go:76-84 | the issues table becomes the guarded close transition of the old one, and the invariant is kept |
| IssueStore.ReopenIssueEffect | pkg/store/database/issues.go:87-95 | only a Closed row changes: it becomes Open, closed_by and closed_at become null, and updated_at becomes now; every other call leaves the table equal |
| IssueStore.ReopenIssue | pkg/store/database/issues.go:87-95 | the issues table becomes the guarded reopen transition of the old one, and the invariant is kept |
| IssueStore.CloseThenReopen | pkg/store/database/issues.go:76-95 | closing an Open consistent issue and then reopening it gives back the original row, except that updated_at is the reopening time |
| IssueStore.DeleteIssueEffect | pkg/store/database/issues.go:98-105 | after the delete, the deleted (repo, id) pair gives ErrNoRows and every other pair finds what it found before |
| IssueStore.DeleteIssue | pkg/store/database/issues.go:98-105 | the issues table loses exactly the matching rows, the edges are untouched, and the invariant is kept |
| IssueStore.DeletedIssueNotListed | pkg/store/database/issues.go:156-179 | after the delete, the issue appears in neither the repository listing nor any dependency or dependents listing |
| IssueStore.AddDependencyCheck | pkg/store/database/issues.go:110-120 | the COUNT(*) over `id = ? OR id = ?` is 2 exactly when the two ids differ and both are issues of the repository |
| IssueStore.AddIssueDependency | pkg/store/database/issues.go:108-129 | Pass exactly when the ids are two distinct issues of the repository, and then the edge is appended; otherwise ErrNoRows with the edges unchanged |
| IssueStore.AddedDependencyVisible | pkg/store/database/issues.go:108-129 | after a successful add, HasIssueDependency is Ok(true), the depended-on issue is among the dependencies, and the depending issue is among the dependents |
| IssueStore.RemoveEdges | pkg/store/database/issues.go:146-152 | every copy of the given edge goes, and every other edge stays with its multiplicity |
| IssueStore.RemoveAbsentEdge | pkg/store/database/issues.go:146-152 | deleting an edge that is not there leaves the table equal |
| IssueStore.RemoveIssueDependency | pkg/store/database/issues.go:132-153 | Pass exactly when issueId is an issue of the repository, and then every copy of the edge is deleted; otherwise ErrNoRows with the edges unchanged |
| IssueStore.RemovedDependencyGone | pkg/store/database/issues.go:132-153 | after a remove, HasIssueDependency is Ok(false) and no listed dependency has the removed id |
| IssueStore.Join | pkg/store/database/issues.go:158-163 | a row is in the join exactly when it is an issue of the repository and an edge from (or to) issueId reaches its id |
| IssueStore.JoinEdge | pkg/store/database/issues.go:159-161 | the rows one edge contributes to the join: exactly the repository's issues at the far end of an edge whose near end is issueId |
| IssueStore.JoinEdgeCount | pkg/store/database/issues.go:159-161 | with ids unique, one edge contributes the issue it links at most once |
| IssueStore.JoinCount | pkg/store/database/issues.go:158-163 | with ids unique, the INNER JOIN holds each issue of the repository once for every stored copy of the edge that links it with issueId |
| IssueStore.GetIssueDependencies | pkg/store/database/issues.go:156-166 | exactly the repository's existing issues that issueId has an edge to, newest created_at first |
| IssueStore.GetIssueDependents | pkg/store/database/issues.go:169-179 | exactly the repository's existing issues with an edge to issueId, newest created_at first |
| IssueStore.DependenciesCount | pkg/store/database/issues.go:156-166 | with ids unique, each issue of the repository is listed as a dependency as often as the edge from issueId to it is stored, and no other row is listed |
| IssueStore.DependentsCount | pkg/store/database/issues.go:169-179 | with ids unique, each issue of the repository is listed as a dependent as often as the edge from it to issueId is stored, and no other row is listed |
| IssueStore.HasIssueDependency | pkg/store/database/issues.go:182-205 | ErrNoRows exactly when issueId is not an issue of the repository; otherwise Ok of whether the edge is in the table, whatever the far end is |
| MergeRequestStore.GetMergeRequestByID | pkg/store/database/merge_requests.go:17-25 | returns a row that matches both repo_id and id; ErrNoRows exactly when none does |
| MergeRequestStore.GetMergeRequestsByRepoID | pkg/store/database/merge_requests.go:28-38 | exactly the repository's rows with their multiplicities, newest created_at first |
| MergeRequestStore.GetMergeRequestsByRepoIDAndState | pkg/store/database/merge_requests.go:40-50 | exactly the repository's rows in that state with their multiplicities, newest created_at first |
| MergeRequestStore.StateListFiltersRepoList | pkg/store/database/merge_requests.go:28-50 | the by-state listing is, as a multiset, the full listing filtered to that state |
| MergeRequestStore.CreateMergeRequestFound | pkg/store/database/merge_requests.go:53-63 | the inserted row keeps the invariant and is found under its fresh positive id: Open, with both branches stored and both audit pairs null; other lookups are unchanged |
| MergeRequestStore.CreateMergeRequest | pkg/store/database/merge_requests.go:53-63 | appends that row, returns the old counter as the id and advances it |
| MergeRequestStore.UpdateMergeRequestEffect | pkg/store/database/merge_requests.go:66-74 | only the title, description and updated_at of the addressed row change, and a missing row leaves the table equal |
| MergeRequestStore.UpdateMergeRequest | pkg/store/database/merge_requests.go:66-74 | the table becomes the update transition, and the invariant is kept |
| MergeRequestStore.MergeMergeRequestEffect | pkg/store/database/merge_requests.go:77-85 | only an Open row becomes Merged, with merged_by set to the actor and merged_at and updated_at set to now; any other call leaves the table equal |
| MergeRequestStore.MergeMergeRequest | pkg/store/database/merge_requests.go:77-85 | the table becomes the guarded merge transition, and the invariant is kept |
| MergeRequestStore.CloseMergeRequestEffect | pkg/store/database/merge_requests.go:88-96 | only an Open row becomes Closed, with the closed pair set; a Merged or missing row is untouched |
| MergeRequestStore.CloseMergeRequest | pkg/store/database/merge_requests.go:88-96 | the table becomes the guarded close transition, and the invariant is kept |
| MergeRequestStore.ReopenMergeRequestEffect | pkg/store/database/merge_requests.go:99-107 | only a Closed row becomes Open, with the closed pair nulled; the merged pair of every row is unchanged |
| MergeRequestStore.ReopenMergeRequest | pkg/store/database/merge_requests.go:99-107 | the table becomes the guarded reopen transition, and the invariant is kept |
| MergeRequestStore.MergedIsTerminal | pkg/store/database/merge_requests.go:77-107 | no merge, close or reopen changes a table whose addressed row is Merged |
| MergeRequestStore.DeleteMergeRequestEffect | pkg/store/database/merge_requests.go:110-117 | the deleted pair gives ErrNoRows afterwards, and every other lookup is unchanged |
| MergeRequestStore.DeleteMergeRequest | pkg/store/database/merge_requests.go:110-117 | the table loses exactly the matching rows, and the invariant is kept |
| Git.Repository.ShowRefVerify | pkg/backend/merge_requests.go:37-45 | succeeds exactly when the ref exists, and appends the query to the log |
| Git.Repository.Run | pkg/backend/merge_requests.go:213-228 | succeeds exactly when the oracle does not fail that argument list, and appends the command to the log |
| IssueBackend.CreateIssue | pkg/backend/issues.go:13-39 | returns a lookup error first, then ErrUserNotFound for a missing user, both without touching the store; otherwise inserts an Open issue authored by the user under the repository's id, returns its id and advances the counter |
| IssueBackend.GetIssue | pkg/backend/issues.go:42-60 | the lookup error, or the store's lookup under the repository's id |
| IssueBackend.ListIssues | pkg/backend/issues.go:63-85 | without a state, the full repository list; with one, the by-state list; in both cases exactly the matching rows |
| IssueBackend.UpdateIssue | pkg/backend/issues.go:88-103 | the lookup error with the table unchanged, or Pass with the store update applied |
| IssueBackend.CloseIssue | pkg/backend/issues.go:106-127 | needs a user (ErrUserNotFound otherwise, with no change), and passes that user's id to the guarded close |
| IssueBackend.ReopenIssue | pkg/backend/issues.go:130-145 | needs no user, and applies the guarded reopen |
| MergeRequestBackend.MergeMessageNamesBranches | pkg/backend/merge_requests.go:221-222 | for branch names without a quote, the commit message determines both the source and the target |
| MergeRequestBackend.PerformMerge | pkg/backend/merge_requests.go:213-228 | runs `checkout <target>` first, and a failed checkout issues no merge; otherwise runs `merge --no-ff -m "Merge branch '<source>' into '<target>'" <source>`; the author is unused |
| MergeRequestBackend.CreateMergeRequest | pkg/backend/merge_requests.go:16-58 | in order: lookup error, missing user, unopenable repository, then `refs/heads/<source>`, then `refs/heads/<target>`, each with the exact git log; the Open row is inserted, and the counter advanced, only when both refs exist |
| MergeRequestBackend.GetMergeRequest | pkg/backend/merge_requests.go:61-79 | the lookup error, or the store's lookup under the repository's id |
| MergeRequestBackend.ListMergeRequests | pkg/backend/merge_requests.go:82-104 | no state gives the full list, a state gives the filtered list |
| MergeRequestBackend.UpdateMergeRequest | pkg/backend/merge_requests.go:107-122 | the lookup error with no change, or the store update |
| MergeRequestBackend.MergeMergeRequest | pkg/backend/merge_requests.go:125-168 | in order: lookup error, missing user, missing row, then a row that is not Open, which gives ErrNotOpen with no git command, then an unopenable repository; a failing checkout gives ErrCheckout with only the checkout logged; otherwise the log gains the checkout and the `--no-ff` merge with the fixed message, a failing merge gives ErrMergeBranches, and only on success is the row Merged by the user at now; any failure leaves the table as it was |
| MergeRequestBackend.CloseMergeRequest | pkg/backend/merge_requests.go:171-192 | needs a user, whose id is passed to the guarded close |
| MergeRequestBackend.ReopenMergeRequest | pkg/backend/merge_requests.go:195-210 | needs no user, and applies the guarded reopen |
| IssueCommand.ParseIssueState | pkg/ssh/cmd/issue.go:328-337 | the result is -1 or a valid state, and a valid result renders as the lowered input |
| IssueCommand.ParseIssueStateRoundTrip | pkg/ssh/cmd/issue.go:328-337 | parsing the rendering of a valid state gives that state back |
| IssueCommand.ParseIssueStateUnknown | pkg/ssh/cmd/issue.go:334-335 | the rendering of any invalid state ("unknown") parses to -1 |
| IssueCommand.ParseIssueStateIgnoresCase | pkg/ssh/cmd/issue.go:329 | a string and its lowered form parse to the same value |
| IssueCommand.ParseIssueStateCases | pkg/ssh/cmd/issue.go:328-337 | "Closed" parses to Closed, and "" to -1 |
| IssueCommand.StateFilter | pkg/ssh/cmd/issue.go:76-81 | an empty flag means no filter; a non-empty flag is an error exactly when it parses negative, and otherwise gives the valid state it names |
| IssueCommand.ListCommand | pkg/ssh/cmd/issue.go:76-85 | an invalid filter is refused before the backend is called, even when the lookup fails; a valid filter with a found repository gives Ok of exactly the backend listing: the whole repository without a filter, the by-state listing with one |
| MergeRequestCommand.ParseState | pkg/ssh/cmd/merge_request.go:243-254 | the result is -1 or a valid state, and a valid result renders as the lowered input |
| MergeRequestCommand.ParseStateRoundTrip | pkg/ssh/cmd/merge_request.go:243-254 | parsing the rendering of each of the three states gives it back |
| MergeRequestCommand.ParseStateUnknown | pkg/ssh/cmd/merge_request.go:251-252 | "unknown", the rendering of any invalid state, parses to -1 |
| MergeRequestCommand.ParseStateIgnoresCase | pkg/ssh/cmd/merge_request.go:244 | a string and its lowered form parse alike |
| MergeRequestCommand.ParseStateCases | pkg/ssh/cmd/merge_request.go:243-254 | "MERGED" parses to Merged, and "" to -1 |
| MergeRequestCommand.StateFilter | pkg/ssh/cmd/merge_request.go:76-81 | an empty flag means no filter; otherwise an error exactly when it parses negative |
| MergeRequestCommand.ListCommand | pkg/ssh/cmd/merge_request.go:76-85 | an invalid filter is refused before the backend is called; a valid filter with a found repository gives Ok of exactly the backend listing, whole or by state |
| IssueItems.ID | pkg/ui/pages/repo/issueitem.go:24-26 | a non-empty string without a space that reads back as the issue's id |
| IssueItems.FilterValue | pkg/ui/pages/repo/issueitem.go:41-43 | split at its first space, it gives back the ID and the title, and it is exactly one character longer than the two |
| IssueItems.DescriptionId | pkg/ui/pages/repo/issueitem.go:34-38 | the description starts with '#', followed by a word that reads back as the id |
| IssueItems.DescriptionSeparator | pkg/ui/pages/repo/issueitem.go:34-38 | the bullet " • " follows "#<id>", and the state's rendering follows the bullet and ends the description |
| IssueItems.DescriptionState | pkg/ui/pages/repo/issueitem.go:34-38 | the description ends with the state's rendering |
| IssueItems.LessIsStrictOrder | pkg/ui/pages/repo/issueitem.go:55-57 | Less (strictly later updated_at) is irreflexive, asymmetric and transitive |
| IssueItems.Swap | pkg/ui/pages/repo/issueitem.go:52 | exchanges exactly positions i and j; every other element and the length are unchanged |
| IssueItems.Sort | pkg/ui/pages/repo/issue.go:309-310 | afterwards updated_at does not increase along the list, and the list is a permutation of the fetched items |
| IssueItems.Insert | pkg/ui/pages/repo/issue.go:310 | one sorting step: a sorted prefix grows by one element, and the array stays a permutation |
| IssueItems.Step | pkg/ui/pages/repo/issueitem.go:52 | one swap of an insertion step: the moving item passes the less recent item before it, the order invariant of the step is kept, and the array stays a permutation |
| MRItems.ID | pkg/ui/pages/repo/mritem.go:25-27 | a non-empty string without a space that reads back as the merge request's id |
| MRItems.FilterValue | pkg/ui/pages/repo/mritem.go:44-46 | split at its first space, it gives back the ID and the title, and it is exactly one character longer than the two |
| MRItems.DescriptionId | pkg/ui/pages/repo/mritem.go:35-41 | the description starts with '#', followed by a word that reads back as the id |
| MRItems.DescriptionSource | pkg/ui/pages/repo/mritem.go:35-41 | the bullet " • " follows "#<id>", and the source branch sits right after it |
| MRItems.DescriptionTarget | pkg/ui/pages/repo/mritem.go:35-41 | the " → " arrow follows the source branch, and the target branch follows the arrow |
| MRItems.DescriptionState | pkg/ui/pages/repo/mritem.go:35-41 | the description ends with the state's rendering |
| MRItems.LessIsStrictOrder | pkg/ui/pages/repo/mritem.go:58-60 | Less (strictly later updated_at) is irreflexive, asymmetric and transitive |
| MRItems.Swap | pkg/ui/pages/repo/mritem.go:55 | exchanges exactly two positions; nothing else changes |
| MRItems.Sort | pkg/ui/pages/repo/mr.go:327-328 | afterwards updated_at does not increase along the list, and the list is a permutation of the fetched items |
| MRItems.Insert | pkg/ui/pages/repo/mr.go:328 | one sorting step: a sorted prefix grows by one element, and the array stays a permutation |
| MRItems.Step | pkg/ui/pages/repo/mritem.go:55 | one swap of an insertion step: the moving item passes the less recent item before it, the order invariant of the step is kept, and the array stays a permutation |

`Title`, `Len`, `Description` and `Less` of both item types have no contract
of their own:
- `Title` is the stored title, which `FilterValue`'s contract reads back.
- `Len` is the array's length.
- `IssueItems.Description` (pkg/ui/pages/repo/issueitem.go:34-38) is stated
  by `IssueItems.DescriptionId`, `IssueItems.DescriptionSeparator` and
  `IssueItems.DescriptionState`.
- `MRItems.Description` (pkg/ui/pages/repo/mritem.go:35-41) is stated by
  `MRItems.DescriptionId`, `MRItems.DescriptionSource`,
  `MRItems.DescriptionTarget` and `MRItems.DescriptionState`.
- `IssueItems.Less` (pkg/ui/pages/repo/issueitem.go:55-57) and `MRItems.Less`
  (pkg/ui/pages/repo/mritem.go:58-60) are stated by the `LessIsStrictOrder`
  lemma of each module; `Sort` compares items only through `Less`.

The Open/Closed (0/1) and Open/Merged/Closed (0/1/2) encodings are the
constants of `IssueModel` and `MergeRequestModel`. The states are plain
integers because the state column holds an integer and the parsers return
-1.

## Left out

- I/O and database failures: sqlx, transactions, connection errors and `db.WrapError` are not modelled, so a store error reaches the caller unwrapped as `ErrNoRows`.
- `utils.SanitizeRepo` and `d.Repository`: the repository lookup is an input (`repo`), so name normalisation and how a lookup fails are outside the model.
- The text of wrapped errors ("failed to merge: ...", "source branch %q does not exist"): each error is a datatype constructor that carries its data, not a formatted message.
- MergeMergeRequest: the lookup inside `GetMergeRequest` repeats the repository lookup, and the model uses the same `repo` result for both.
- Concurrency: the read of the state and the guarded update in MergeMergeRequest can interleave with another caller. The sequential model covers only the single-caller outcome, in which the guard still matches.
- Integer width: ids, times and states are unbounded integers, not Go's `int64`/`int`. The id counter never wraps.
- Text.ToLower: lowers ASCII letters only, so `strings.ToLower` on other Unicode letters is not modelled.
- Schema constraints, defaults and cascades of the `issue_dependencies` table (its own `id` and `created_at` columns included), because the migration scripts are not part of this model. The edge table is a bag of pairs.
- IssueItems.Sort and MRItems.Sort: Go's `sort.Sort` is a pattern-defeating quicksort. The model sorts with an insertion sort driven by the items' `Less` and `Swap`, then proves sortedness and permutation. The order among rows with equal `updated_at`, like the order among equal `created_at` in `ORDER BY`, is left unspecified.
- The backend's dependency wrappers and its issue and merge-request deletes are called but not shown, so the store statements are modelled without them.
- Cobra command plumbing: argument counts, `strconv.ParseInt`, printing, and the read-permission hooks.
- The `Render` and delegate methods of the list items, and the TUI pages around the sort: bubbletea messages, styling and fetching.
- Git execution: the working tree and the real outcome of `checkout` and `merge` are replaced by the oracle's `failing` set, and the repository open by its `openable` flag.
