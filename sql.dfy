/** Row-level meaning of the SQL statements the stores issue. A table is a
    sequence of rows in insertion (rowid) order; each statement is a function
    from the old rows to its result or to the new rows. */
module Sql {
  import opened Wrappers

  /** `SELECT * ... WHERE p`: the rows that satisfy p, in table order. */
  function Where<T(==,!new)>(rows: seq<T>, p: T -> bool): (r: seq<T>)
    ensures |r| <= |rows|
    ensures forall x :: x in r <==> x in rows && p(x)
    ensures forall x :: multiset(r)[x] == if p(x) then multiset(rows)[x] else 0
  {
    if rows == [] then []
    else
      assert rows == [rows[0]] + rows[1..];
      (if p(rows[0]) then [rows[0]] else []) + Where(rows[1..], p)
  }

  /** `SELECT COUNT(*) ... WHERE p`. */
  function Count<T(==,!new)>(rows: seq<T>, p: T -> bool): (n: nat)
    ensures n <= |rows|
    ensures n == 0 <==> forall x :: x in rows ==> !p(x)
  {
    if rows == [] then 0
    else
      assert forall x :: x in rows <==> x == rows[0] || x in rows[1..];
      (if p(rows[0]) then 1 else 0) + Count(rows[1..], p)
  }

  /** `UPDATE ... SET f WHERE p`: each row satisfying p becomes f of it. */
  function Update<T>(rows: seq<T>, p: T -> bool, f: T -> T): (r: seq<T>)
    ensures |r| == |rows|
    ensures forall k :: 0 <= k < |rows| ==> r[k] == if p(rows[k]) then f(rows[k]) else rows[k]
  {
    if rows == [] then []
    else [if p(rows[0]) then f(rows[0]) else rows[0]] + Update(rows[1..], p, f)
  }

  /** `SELECT * ... WHERE key = k` read as a single row: the first row with that key. */
  function Lookup<T(==,!new), K(==)>(rows: seq<T>, key: T -> K, k: K): (r: Option<T>)
    ensures r.Some? ==> r.value in rows && key(r.value) == k
    ensures r.None? <==> forall x :: x in rows ==> key(x) != k
  {
    if rows == [] then None
    else if key(rows[0]) == k then Some(rows[0])
    else
      assert forall x :: x in rows <==> x == rows[0] || x in rows[1..];
      Lookup(rows[1..], key, k)
  }

  /** No two rows share a key (what a primary key guarantees). */
  ghost predicate UniqueKeys<T, K>(rows: seq<T>, key: T -> K) {
    forall i, j :: 0 <= i < j < |rows| ==> key(rows[i]) != key(rows[j])
  }

  /** The rows are ordered by key, largest first (`ORDER BY key DESC`). */
  ghost predicate SortedDesc<T>(rows: seq<T>, key: T -> int) {
    forall i, j :: 0 <= i < j < |rows| ==> key(rows[i]) >= key(rows[j])
  }

  /** Inserts x into rows sorted by key, largest first, before the first row
      whose key does not exceed x's. */
  function InsertDesc<T(==,!new)>(x: T, rows: seq<T>, key: T -> int): (r: seq<T>)
    requires SortedDesc(rows, key)
    ensures SortedDesc(r, key)
    ensures multiset(r) == multiset(rows) + multiset{x}
  {
    if rows == [] || key(x) >= key(rows[0]) then [x] + rows
    else
      assert SortedDesc(rows[1..], key) by {
        forall i, j | 0 <= i < j < |rows| - 1 ensures key(rows[1..][i]) >= key(rows[1..][j]) {
          assert rows[1..][i] == rows[i + 1] && rows[1..][j] == rows[j + 1];
        }
      }
      var tail := InsertDesc(x, rows[1..], key);
      assert rows == [rows[0]] + rows[1..];
      BelowHead(x, rows, tail, key);
      [rows[0]] + tail
  }

  /** The step InsertDesc needs: a head that outranks x and the rest of a
      sorted table outranks their merge. */
  lemma BelowHead<T(!new)>(x: T, rows: seq<T>, tail: seq<T>, key: T -> int)
    requires rows != [] && SortedDesc(rows, key) && key(x) < key(rows[0])
    requires SortedDesc(tail, key) && multiset(tail) == multiset(rows[1..]) + multiset{x}
    ensures SortedDesc([rows[0]] + tail, key)
  {
    forall y | y in tail ensures key(y) <= key(rows[0]) {
      assert y in multiset(tail);
      if y != x {
        assert y in multiset(rows[1..]);
        var j :| 0 <= j < |rows[1..]| && rows[1..][j] == y;
        assert rows[j + 1] == y;
      }
    }
    var r := [rows[0]] + tail;
    forall i, j | 0 <= i < j < |r| ensures key(r[i]) >= key(r[j]) {
      assert r[j] == tail[j - 1] && r[j] in tail;
      if i > 0 {
        assert r[i] == tail[i - 1];
      }
    }
  }

  /** `ORDER BY key DESC`. Rows with equal keys keep their table order; the
      database leaves that order open, and no lemma here depends on it. */
  function OrderByDesc<T(==,!new)>(rows: seq<T>, key: T -> int): (r: seq<T>)
    ensures SortedDesc(r, key)
    ensures multiset(r) == multiset(rows)
    ensures forall x :: x in r <==> x in rows
  {
    if rows == [] then []
    else
      var sorted := OrderByDesc(rows[1..], key);
      var r := InsertDesc(rows[0], sorted, key);
      MultisetCons(rows);
      SameMembers(r, rows);
      r
  }

  lemma MultisetCons<T>(rows: seq<T>)
    requires rows != []
    ensures multiset(rows) == multiset(rows[1..]) + multiset{rows[0]}
  {
    assert rows == [rows[0]] + rows[1..];
  }

  /** Filtering an ordered selection by a second condition selects the same
      rows, as often, as selecting by both conditions and ordering. */
  lemma WhereOfOrdered<T(!new)>(rows: seq<T>, p: T -> bool, q: T -> bool, pq: T -> bool, ordered: seq<T>, key: T -> int)
    requires forall x :: pq(x) <==> p(x) && q(x)
    requires multiset(ordered) == multiset(Where(rows, p))
    ensures multiset(OrderByDesc(Where(rows, pq), key)) == multiset(Where(ordered, q))
  {
    WhereSameMultiset(ordered, Where(rows, p), q);
    WhereConj(rows, p, q, pq);
  }

  /** Filtering is blind to order: the same rows filter to the same rows. */
  lemma WhereSameMultiset<T(!new)>(a: seq<T>, b: seq<T>, q: T -> bool)
    requires multiset(a) == multiset(b)
    ensures multiset(Where(a, q)) == multiset(Where(b, q))
  {
    forall x ensures multiset(Where(a, q))[x] == multiset(Where(b, q))[x] {
    }
  }

  /** Filtering twice is filtering by the conjunction. */
  lemma WhereConj<T(!new)>(rows: seq<T>, p: T -> bool, q: T -> bool, pq: T -> bool)
    requires forall x :: pq(x) <==> p(x) && q(x)
    ensures multiset(Where(Where(rows, p), q)) == multiset(Where(rows, pq))
  {
    forall x ensures multiset(Where(Where(rows, p), q))[x] == multiset(Where(rows, pq))[x] {
    }
  }

  /** Two sequences with the same multiset have the same members. */
  lemma SameMembers<T(!new)>(a: seq<T>, b: seq<T>)
    requires multiset(a) == multiset(b)
    ensures forall x :: x in a <==> x in b
  {
    forall x ensures x in a <==> x in b {
      assert x in a <==> x in multiset(a);
      assert x in b <==> x in multiset(b);
    }
  }

  // ---------------------------------------------------------------------
  // Lemmas about statements that address one row through a unique key.

  lemma UniqueKeysTail<T, K>(rows: seq<T>, key: T -> K)
    requires rows != [] && UniqueKeys(rows, key)
    ensures UniqueKeys(rows[1..], key)
    ensures forall x :: x in rows[1..] ==> key(x) != key(rows[0])
  {
    forall i, j | 0 <= i < j < |rows| - 1
      ensures key(rows[1..][i]) != key(rows[1..][j])
    {
      assert rows[1..][i] == rows[i + 1] && rows[1..][j] == rows[j + 1];
    }
    forall x | x in rows[1..] ensures key(x) != key(rows[0]) {
      var j :| 0 <= j < |rows[1..]| && rows[1..][j] == x;
      assert rows[j + 1] == x;
    }
  }

  /** With unique keys, a row is in the table at most once. */
  lemma {:induction false} UniqueKeysMultiplicity<T(!new), K>(rows: seq<T>, key: T -> K, x: T)
    requires UniqueKeys(rows, key)
    ensures multiset(rows)[x] == if x in rows then 1 else 0
  {
    if rows != [] {
      UniqueKeysTail(rows, key);
      UniqueKeysMultiplicity(rows[1..], key, x);
      assert rows == [rows[0]] + rows[1..];
      assert rows[0] !in rows[1..];
    }
  }

  /** With unique keys, looking a row's key up finds that row. */
  lemma {:induction false} LookupUnique<T(!new), K>(rows: seq<T>, key: T -> K, x: T)
    requires UniqueKeys(rows, key) && x in rows
    ensures Lookup(rows, key, key(x)) == Some(x)
  {
    if rows[0] != x {
      UniqueKeysTail(rows, key);
      assert x in rows[1..] by {
        var j :| 0 <= j < |rows| && rows[j] == x;
        assert j > 0 && rows[1..][j - 1] == x;
      }
      LookupUnique(rows[1..], key, x);
    }
  }

  /** An UPDATE whose SET keeps every key changes what a key finds into the
      updated row, exactly when that row satisfies the WHERE clause. */
  lemma {:induction false} LookupUpdate<T(!new), K>(rows: seq<T>, p: T -> bool, f: T -> T, key: T -> K, k: K)
    requires forall x :: key(f(x)) == key(x)
    ensures Lookup(Update(rows, p, f), key, k) ==
      match Lookup(rows, key, k)
      case None => None
      case Some(x) => Some(if p(x) then f(x) else x)
  {
    if rows != [] {
      LookupUpdate(rows[1..], p, f, key, k);
    }
  }

  /** An UPDATE that no row satisfies leaves the table as it was. */
  lemma {:induction false} UpdateUnmatched<T>(rows: seq<T>, p: T -> bool, f: T -> T)
    requires forall k :: 0 <= k < |rows| ==> !p(rows[k])
    ensures Update(rows, p, f) == rows
  {
  }

  /** An UPDATE whose WHERE clause names one key, on a table with unique keys,
      changes nothing unless the row with that key satisfies it. */
  lemma UpdateOneRowUnmatched<T(!new), K>(rows: seq<T>, p: T -> bool, f: T -> T, key: T -> K, k: K)
    requires UniqueKeys(rows, key)
    requires forall x :: p(x) ==> key(x) == k
    requires Lookup(rows, key, k).None? || !p(Lookup(rows, key, k).value)
    ensures Update(rows, p, f) == rows
  {
    forall i | 0 <= i < |rows| ensures !p(rows[i]) {
      if p(rows[i]) {
        LookupUnique(rows, key, rows[i]);
      }
    }
    UpdateUnmatched(rows, p, f);
  }

  /** An UPDATE whose SET keeps every key keeps the keys unique. */
  lemma UpdateKeepsUniqueKeys<T, K>(rows: seq<T>, p: T -> bool, f: T -> T, key: T -> K)
    requires UniqueKeys(rows, key)
    requires forall x :: key(f(x)) == key(x)
    ensures UniqueKeys(Update(rows, p, f), key)
  {
    var r := Update(rows, p, f);
    forall i, j | 0 <= i < j < |r| ensures key(r[i]) != key(r[j]) {
      assert key(r[i]) == key(rows[i]) && key(r[j]) == key(rows[j]);
    }
  }

  /** `DELETE ... WHERE key = k0`, written as keeping the rows p selects:
      afterwards k0 finds nothing and every other key finds what it found. */
  lemma {:induction false} LookupDelete<T(!new), K>(rows: seq<T>, p: T -> bool, key: T -> K, k0: K, k: K)
    requires forall x :: p(x) <==> key(x) != k0
    ensures Lookup(Where(rows, p), key, k) == if k == k0 then None else Lookup(rows, key, k)
  {
    if rows != [] && k != k0 {
      LookupDelete(rows[1..], p, key, k0, k);
      var w := Where(rows[1..], p);
      if p(rows[0]) {
        var r := [rows[0]] + w;
        assert Where(rows, p) == r;
        assert r[0] == rows[0] && r[1..] == w;
      } else {
        assert Where(rows, p) == w;
      }
    }
  }

  /** Deleting rows keeps the keys unique. */
  lemma {:induction false} WhereKeepsUniqueKeys<T(!new), K>(rows: seq<T>, p: T -> bool, key: T -> K)
    requires UniqueKeys(rows, key)
    ensures UniqueKeys(Where(rows, p), key)
  {
    if rows != [] {
      UniqueKeysTail(rows, key);
      WhereKeepsUniqueKeys(rows[1..], p, key);
      var tail := Where(rows[1..], p);
      if p(rows[0]) {
        assert Where(rows, p) == [rows[0]] + tail;
        UniqueKeysCons(rows[0], tail, key);
      } else {
        assert Where(rows, p) == tail;
      }
    }
  }

  lemma UniqueKeysCons<T(!new), K>(h: T, tail: seq<T>, key: T -> K)
    requires UniqueKeys(tail, key)
    requires forall x :: x in tail ==> key(x) != key(h)
    ensures UniqueKeys([h] + tail, key)
  {
    var r := [h] + tail;
    forall i, j | 0 <= i < j < |r| ensures key(r[i]) != key(r[j]) {
      assert r[j] == tail[j - 1];
      if i > 0 {
        assert r[i] == tail[i - 1];
      }
    }
  }

  /** A WHERE clause every row satisfies selects the whole table. */
  lemma {:induction false} WhereAll<T(!new)>(rows: seq<T>, p: T -> bool)
    requires forall x :: x in rows ==> p(x)
    ensures Where(rows, p) == rows
  {
    if rows != [] {
      var head, tail := rows[0], rows[1..];
      assert rows == [head] + tail;
      assert p(head);
      WhereAll(tail, p);
      assert Where(rows, p) == [head] + Where(tail, p);
    }
  }

  /** An INSERT appends a row: every key finds what it found before, and a
      key found nowhere before now finds the new row. */
  lemma {:induction false} LookupAppend<T(!new), K>(rows: seq<T>, x: T, key: T -> K, k: K)
    ensures Lookup(rows + [x], key, k) ==
      if Lookup(rows, key, k).Some? then Lookup(rows, key, k)
      else if key(x) == k then Some(x) else None
  {
    if rows != [] {
      assert (rows + [x])[1..] == rows[1..] + [x];
      LookupAppend(rows[1..], x, key, k);
    }
  }

  // ---------------------------------------------------------------------
  // Lemmas about COUNT(*).

  /** Two WHERE clauses that select the same rows count the same. */
  lemma {:induction false} CountSame<T(!new)>(rows: seq<T>, p: T -> bool, q: T -> bool)
    requires forall x :: p(x) <==> q(x)
    ensures Count(rows, p) == Count(rows, q)
  {
    if rows != [] {
      CountSame(rows[1..], p, q);
    }
  }

  /** COUNT(*) over `p OR q` with disjoint p and q is the sum of their counts. */
  lemma {:induction false} CountDisjointOr<T(!new)>(rows: seq<T>, p: T -> bool, q: T -> bool, pq: T -> bool)
    requires forall x :: pq(x) <==> p(x) || q(x)
    requires forall x :: !(p(x) && q(x))
    ensures Count(rows, pq) == Count(rows, p) + Count(rows, q)
  {
    if rows != [] {
      CountDisjointOr(rows[1..], p, q, pq);
    }
  }

  /** On a table with unique keys, COUNT(*) over `key = k` is 1 if the key is
      present and 0 if not. */
  lemma {:induction false} CountOneKey<T(!new), K>(rows: seq<T>, key: T -> K, k: K, p: T -> bool)
    requires UniqueKeys(rows, key)
    requires forall x :: p(x) <==> key(x) == k
    ensures Count(rows, p) == if Lookup(rows, key, k).Some? then 1 else 0
  {
    if rows != [] {
      UniqueKeysTail(rows, key);
      CountOneKey(rows[1..], key, k, p);
      if key(rows[0]) == k {
        assert Lookup(rows[1..], key, k).None?;
      }
    }
  }
}
