/** The in-memory database the stores run their statements against: the
    `issues`, `merge_requests` and `issue_dependencies` tables, and one
    autoincrement counter per entity table. */
module Database {
  import Sql
  import IM = IssueModel
  import MM = MergeRequestModel

  /** A row of `issue_dependencies`: `issueId` is blocked on `dependsOnId`.
      The table's own id and created_at columns are read by no statement. */
  datatype Dependency = Dependency(issueId: int, dependsOnId: int)

  /** The `issues` table: ids are positive, unique, below the next id to be
      handed out, and every row is consistent. */
  ghost predicate IssuesTable(rows: seq<IM.Issue>, nextId: int) {
    && nextId >= 1
    && Sql.UniqueKeys(rows, IM.Id)
    && forall i :: i in rows ==> 0 < i.id < nextId && IM.Consistent(i)
  }

  /** The `merge_requests` table, under the same rules. */
  ghost predicate MergeRequestsTable(rows: seq<MM.MergeRequest>, nextId: int) {
    && nextId >= 1
    && Sql.UniqueKeys(rows, MM.Id)
    && forall m :: m in rows ==> 0 < m.id < nextId && MM.Consistent(m)
  }

  /** The `issue_dependencies` table: both ends of every edge are ids the
      `issues` counter has handed out. Ids are never reused, so an edge left
      behind by a delete never attaches to a later issue. */
  ghost predicate EdgesTable(edges: seq<Dependency>, nextIssueId: int) {
    forall e :: e in edges ==> 0 < e.issueId < nextIssueId && 0 < e.dependsOnId < nextIssueId
  }

  /** The schema's rows for the dependency table are not visible, so its rows
      form a bag: no uniqueness, no self-edge check, no cascade. */
  class Db {
    var issues: seq<IM.Issue>
    var mergeRequests: seq<MM.MergeRequest>
    var dependencies: seq<Dependency>
    var nextIssueId: int
    var nextMergeRequestId: int

    ghost predicate Valid()
      reads this
    {
      && IssuesTable(issues, nextIssueId)
      && MergeRequestsTable(mergeRequests, nextMergeRequestId)
      && EdgesTable(dependencies, nextIssueId)
    }

    /** A freshly migrated, empty database. */
    constructor ()
      ensures Valid()
      ensures issues == [] && mergeRequests == [] && dependencies == []
      ensures nextIssueId == 1 && nextMergeRequestId == 1
    {
      issues, mergeRequests, dependencies := [], [], [];
      nextIssueId, nextMergeRequestId := 1, 1;
    }
  }

  /** Ids unique across the table make `(repo_id, id)` unique too. */
  lemma IssueKeysUnique(rows: seq<IM.Issue>)
    requires Sql.UniqueKeys(rows, IM.Id)
    ensures Sql.UniqueKeys(rows, IM.Key)
  {
    forall i, j | 0 <= i < j < |rows| ensures IM.Key(rows[i]) != IM.Key(rows[j]) {
      assert IM.Id(rows[i]) != IM.Id(rows[j]);
    }
  }

  lemma MergeRequestKeysUnique(rows: seq<MM.MergeRequest>)
    requires Sql.UniqueKeys(rows, MM.Id)
    ensures Sql.UniqueKeys(rows, MM.Key)
  {
    forall i, j | 0 <= i < j < |rows| ensures MM.Key(rows[i]) != MM.Key(rows[j]) {
      assert MM.Id(rows[i]) != MM.Id(rows[j]);
    }
  }

  /** Appending a row whose id is the next one keeps the table valid. */
  lemma {:induction false} AppendFreshIssue(rows: seq<IM.Issue>, nextId: int, x: IM.Issue)
    requires IssuesTable(rows, nextId)
    requires x.id == nextId && IM.Consistent(x)
    ensures IssuesTable(rows + [x], nextId + 1)
  {
    var r := rows + [x];
    forall i, j | 0 <= i < j < |r| ensures IM.Id(r[i]) != IM.Id(r[j]) {
      assert r[i] == rows[i] && r[i] in rows;
      if j < |rows| {
        assert r[j] == rows[j];
      }
    }
  }

  lemma {:induction false} AppendFreshMergeRequest(rows: seq<MM.MergeRequest>, nextId: int, x: MM.MergeRequest)
    requires MergeRequestsTable(rows, nextId)
    requires x.id == nextId && MM.Consistent(x)
    ensures MergeRequestsTable(rows + [x], nextId + 1)
  {
    var r := rows + [x];
    forall i, j | 0 <= i < j < |r| ensures MM.Id(r[i]) != MM.Id(r[j]) {
      assert r[i] == rows[i] && r[i] in rows;
      if j < |rows| {
        assert r[j] == rows[j];
      }
    }
  }
}
