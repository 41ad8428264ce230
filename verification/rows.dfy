/**
 * Generic table machinery shared by the three tables: a WHERE scan, an
 * ORDER BY sort, row counting by id, and SQLite's AUTOINCREMENT id rule.
 * Tables are sequences of rows in rowid order.
 */
module Rows {
  import opened Collation

  /** The rows of `s` that satisfy `keep`, in their original order. */
  function Filter<T(==,!new)>(s: seq<T>, keep: T -> bool): (r: seq<T>)
    ensures |r| <= |s|
    ensures forall i :: 0 <= i < |r| ==> keep(r[i])
    ensures forall x :: x in r <==> x in s && keep(x)
  {
    if |s| == 0 then []
    else
      var rest := Filter(s[1..], keep);
      assert s == [s[0]] + s[1..];
      if keep(s[0]) then [s[0]] + rest else rest
  }

  /** A WHERE clause that rejects every row selects nothing. */
  lemma {:induction false} FilterNone<T(!new)>(s: seq<T>, keep: T -> bool)
    requires forall i :: 0 <= i < |s| ==> !keep(s[i])
    ensures Filter(s, keep) == []
    decreases |s|
  {
    if |s| > 0 {
      FilterNone(s[1..], keep);
    }
  }

  /** A WHERE clause keeps every occurrence of a row it accepts and none of a row it rejects. */
  lemma {:induction false} FilterCounts<T(!new)>(s: seq<T>, keep: T -> bool)
    ensures forall x :: multiset(Filter(s, keep))[x] == if keep(x) then multiset(s)[x] else 0
    decreases |s|
  {
    if |s| > 0 {
      FilterCounts(s[1..], keep);
      assert s == [s[0]] + s[1..];
    }
  }

  /** A WHERE clause keeps every row exactly when every row satisfies it, and then the table is unchanged. */
  lemma {:induction false} FilterKeepsAll<T(!new)>(s: seq<T>, keep: T -> bool)
    ensures |Filter(s, keep)| == |s| <==> forall i :: 0 <= i < |s| ==> keep(s[i])
    ensures |Filter(s, keep)| == |s| ==> Filter(s, keep) == s
    decreases |s|
  {
    if |s| > 0 {
      FilterKeepsAll(s[1..], keep);
      assert forall i :: 1 <= i < |s| ==> s[i] == s[1..][i - 1];
      assert s == [s[0]] + s[1..];
    }
  }

  lemma {:induction false} FilterAppend<T(!new)>(a: seq<T>, b: seq<T>, keep: T -> bool)
    ensures Filter(a + b, keep) == Filter(a, keep) + Filter(b, keep)
    decreases |a|
  {
    if |a| > 0 {
      assert (a + b)[1..] == a[1..] + b;
      FilterAppend(a[1..], b, keep);
    } else {
      assert a + b == b;
    }
  }

  /** `r` is `s` with some elements left out, the rest kept in order. */
  predicate Subsequence<T(==)>(r: seq<T>, s: seq<T>)
    decreases |s|
  {
    |r| == 0 || (|s| > 0 && ((r[0] == s[0] && Subsequence(r[1..], s[1..])) || Subsequence(r, s[1..])))
  }

  lemma {:induction false} FilterIsSubsequence<T(!new)>(s: seq<T>, keep: T -> bool)
    ensures Subsequence(Filter(s, keep), s)
    decreases |s|
  {
    if |s| > 0 {
      FilterIsSubsequence(s[1..], keep);
      var rest := Filter(s[1..], keep);
      if keep(s[0]) {
        assert ([s[0]] + rest)[1..] == rest;
      }
    }
  }

  lemma {:induction false} SubsequenceReflexive<T>(s: seq<T>)
    ensures Subsequence(s, s)
    decreases |s|
  {
    if |s| > 0 {
      SubsequenceReflexive(s[1..]);
    }
  }

  /** A position at which `x` occurs in `s`. */
  lemma PositionOf<T>(s: seq<T>, x: T) returns (i: int)
    requires x in s
    ensures 0 <= i < |s| && s[i] == x
  {
    i :| 0 <= i < |s| && s[i] == x;
  }

  // ---------------------------------------------------------------- ORDER BY

  /** `s` is ordered by `key` in direction `dir`. */
  predicate SortedBy<T>(s: seq<T>, key: T -> string, dir: Direction) {
    forall i, j :: 0 <= i < j < |s| ==> InOrder(key(s[i]), key(s[j]), dir)
  }

  lemma {:induction false} FilterKeepsSorted<T(!new)>(s: seq<T>, keep: T -> bool, key: T -> string, dir: Direction)
    requires SortedBy(s, key, dir)
    ensures SortedBy(Filter(s, keep), key, dir)
    decreases |s|
  {
    if |s| > 0 {
      FilterKeepsSorted(s[1..], keep, key, dir);
      var rest := Filter(s[1..], keep);
      if keep(s[0]) {
        forall k | 0 <= k < |rest|
          ensures InOrder(key(s[0]), key(rest[k]), dir)
        {
          assert rest[k] in s[1..];
        }
      }
    }
  }

  /** Inserts `x` into the ordered `s` before the first row it may precede. */
  function InsertBy<T(==)>(x: T, s: seq<T>, key: T -> string, dir: Direction): (r: seq<T>)
    requires SortedBy(s, key, dir)
    ensures SortedBy(r, key, dir)
    ensures multiset(r) == multiset(s) + multiset{x}
    decreases |s|
  {
    if |s| == 0 then [x]
    else if InOrder(key(x), key(s[0]), dir) then
      FirstBoundsAll(x, s, key, dir);
      SortedCons(x, s, key, dir);
      [x] + s
    else
      var rest := InsertBy(x, s[1..], key, dir);
      assert s == [s[0]] + s[1..];
      HeadBoundsInserted(x, s, rest, key, dir);
      SortedCons(s[0], rest, key, dir);
      [s[0]] + rest
  }

  /** A row that may precede the first row of an ordered sequence may precede all of them. */
  lemma FirstBoundsAll<T>(x: T, s: seq<T>, key: T -> string, dir: Direction)
    requires SortedBy(s, key, dir) && |s| > 0
    requires InOrder(key(x), key(s[0]), dir)
    ensures forall k :: 0 <= k < |s| ==> InOrder(key(x), key(s[k]), dir)
  {
    forall k | 0 < k < |s| ensures InOrder(key(x), key(s[k]), dir) {
      InOrderTransitive(key(x), key(s[0]), key(s[k]), dir);
    }
  }

  /** When `x` may not precede the head, the head may precede everything the tail becomes with `x` in it. */
  lemma HeadBoundsInserted<T>(x: T, s: seq<T>, rest: seq<T>, key: T -> string, dir: Direction)
    requires SortedBy(s, key, dir) && |s| > 0
    requires !InOrder(key(x), key(s[0]), dir)
    requires multiset(rest) == multiset(s[1..]) + multiset{x}
    ensures forall k :: 0 <= k < |rest| ==> InOrder(key(s[0]), key(rest[k]), dir)
  {
    forall k | 0 <= k < |rest| ensures InOrder(key(s[0]), key(rest[k]), dir) {
      assert rest[k] in multiset(rest);
      if rest[k] == x {
        InOrderTotal(key(x), key(s[0]), dir);
      } else {
        assert rest[k] in s[1..];
      }
    }
  }

  /** Putting a row that may precede all of an ordered sequence in front keeps it ordered. */
  lemma SortedCons<T>(h: T, t: seq<T>, key: T -> string, dir: Direction)
    requires SortedBy(t, key, dir)
    requires forall k :: 0 <= k < |t| ==> InOrder(key(h), key(t[k]), dir)
    ensures SortedBy([h] + t, key, dir)
  {
    var r := [h] + t;
    forall i, j | 0 <= i < j < |r| ensures InOrder(key(r[i]), key(r[j]), dir) {
      assert r[j] == t[j - 1];
      if i > 0 {
        assert r[i] == t[i - 1];
      }
    }
  }

  /** The rows of `s` ordered by `key` in direction `dir`; rows with equal keys keep no promised order. */
  function SortBy<T(==)>(s: seq<T>, key: T -> string, dir: Direction): (r: seq<T>)
    ensures SortedBy(r, key, dir)
    ensures multiset(r) == multiset(s)
    decreases |s|
  {
    if |s| == 0 then []
    else
      assert s == [s[0]] + s[1..];
      InsertBy(s[0], SortBy(s[1..], key, dir), key, dir)
  }

  // ---------------------------------------------------------------- row ids

  /** The rowids of `rows` strictly increase, so no id occurs twice. */
  predicate IdsIncreasing<T>(rows: seq<T>, id: T -> int) {
    forall i, j :: 0 <= i < j < |rows| ==> id(rows[i]) < id(rows[j])
  }

  /** No id in `rows` exceeds `bound`, the last id the table issued. */
  predicate IdsAtMost<T>(rows: seq<T>, id: T -> int, bound: int) {
    forall i :: 0 <= i < |rows| ==> id(rows[i]) <= bound
  }

  /** When no id exceeds the last one issued, the next id is the last plus one. */
  lemma NextIdAfterLast<T>(rows: seq<T>, id: T -> int, last: int)
    requires IdsAtMost(rows, id, last)
    ensures NextId(rows, id, last) == last + 1
  {
  }

  /** In a table whose ids increase, a row is determined by its id. */
  lemma IdsIncreasingUnique<T>(rows: seq<T>, id: T -> int, x: T, y: T)
    requires IdsIncreasing(rows, id)
    requires x in rows && y in rows
    ensures id(x) == id(y) ==> x == y
  {
    var i := PositionOf(rows, x);
    var j := PositionOf(rows, y);
    assert i < j ==> id(x) < id(y);
    assert j < i ==> id(y) < id(x);
  }

  /** In a table whose ids increase, no row occurs twice. */
  lemma {:induction false} IdsIncreasingNoDuplicates<T>(rows: seq<T>, id: T -> int, x: T)
    requires IdsIncreasing(rows, id)
    ensures multiset(rows)[x] <= 1
    decreases |rows|
  {
    if |rows| > 0 {
      assert rows == [rows[0]] + rows[1..];
      IdsIncreasingNoDuplicates(rows[1..], id, x);
    }
  }

  lemma SubsetKeepsIdsAtMost<T>(sub: seq<T>, rows: seq<T>, id: T -> int, bound: int)
    requires forall x :: x in sub ==> x in rows
    requires IdsAtMost(rows, id, bound)
    ensures IdsAtMost(sub, id, bound)
  {
    forall i | 0 <= i < |sub|
      ensures id(sub[i]) <= bound
    {
      assert sub[i] in rows;
    }
  }

  lemma {:induction false} FilterKeepsIdsIncreasing<T(!new)>(rows: seq<T>, keep: T -> bool, id: T -> int)
    requires IdsIncreasing(rows, id)
    ensures IdsIncreasing(Filter(rows, keep), id)
    decreases |rows|
  {
    if |rows| > 0 {
      FilterKeepsIdsIncreasing(rows[1..], keep, id);
      var rest := Filter(rows[1..], keep);
      forall k | 0 <= k < |rest|
        ensures id(rows[0]) < id(rest[k])
      {
        assert rest[k] in rows[1..];
      }
    }
  }

  /** The predicate `id(x) != k`, the WHERE clause that keeps every row but row `k`. */
  function IdOtherThan<T>(id: T -> int, k: int): T -> bool {
    x => id(x) != k
  }

  /** `rows` with `f` applied to every row whose id is `k`: the rows an `UPDATE ... WHERE id = k` rewrites. */
  function ReplaceWhereId<T>(rows: seq<T>, id: T -> int, k: int, f: T -> T): (r: seq<T>)
    ensures |r| == |rows|
    ensures forall i :: 0 <= i < |rows| ==> r[i] == if id(rows[i]) == k then f(rows[i]) else rows[i]
    ensures (forall i :: 0 <= i < |rows| ==> id(rows[i]) != k) ==> r == rows
    decreases |rows|
  {
    if |rows| == 0 then []
    else
      var rest := ReplaceWhereId(rows[1..], id, k, f);
      assert rows == [rows[0]] + rows[1..];
      [if id(rows[0]) == k then f(rows[0]) else rows[0]] + rest
  }

  lemma {:induction false} RemovesAtMostOne<T(!new)>(rows: seq<T>, id: T -> int, k: int)
    requires IdsIncreasing(rows, id)
    ensures |rows| - |Filter(rows, IdOtherThan(id, k))| <= 1
    decreases |rows|
  {
    if |rows| > 0 {
      if id(rows[0]) == k {
        assert forall i :: 0 <= i < |rows[1..]| ==> IdOtherThan(id, k)(rows[1..][i]) by {
          forall i | 0 <= i < |rows[1..]| ensures IdOtherThan(id, k)(rows[1..][i]) {
            assert rows[1..][i] == rows[i + 1];
          }
        }
        FilterKeepsAll(rows[1..], IdOtherThan(id, k));
      } else {
        RemovesAtMostOne(rows[1..], id, k);
      }
    }
  }

  /** The rows a `DELETE ... WHERE id = k` keeps. */
  function WithoutId<T(==,!new)>(rows: seq<T>, id: T -> int, k: int): (r: seq<T>)
    ensures forall x :: x in r <==> x in rows && id(x) != k
    ensures Subsequence(r, rows)
    ensures |r| == |rows| <==> forall i :: 0 <= i < |rows| ==> id(rows[i]) != k
    ensures |r| == |rows| ==> r == rows
    ensures IdsIncreasing(rows, id) ==> |rows| - |r| <= 1 && IdsIncreasing(r, id)
  {
    var r := Filter(rows, IdOtherThan(id, k));
    FilterIsSubsequence(rows, IdOtherThan(id, k));
    FilterKeepsAll(rows, IdOtherThan(id, k));
    assert IdsIncreasing(rows, id) ==> |rows| - |r| <= 1 && IdsIncreasing(r, id) by {
      if IdsIncreasing(rows, id) {
        RemovesAtMostOne(rows, id, k);
        FilterKeepsIdsIncreasing(rows, IdOtherThan(id, k), id);
      }
    }
    r
  }

  /** The number of rows whose id is `k`: the rows an `UPDATE`/`DELETE ... WHERE id = k` affects. */
  function CountId<T(==,!new)>(rows: seq<T>, id: T -> int, k: int): (n: nat)
    ensures n == 0 <==> forall i :: 0 <= i < |rows| ==> id(rows[i]) != k
    ensures IdsIncreasing(rows, id) ==> n <= 1
  {
    |rows| - |WithoutId(rows, id, k)|
  }

  /**
   * The id SQLite's AUTOINCREMENT gives the next row: one more than the
   * larger of `last` (the table's entry in sqlite_sequence) and the largest
   * id in the table.
   */
  function NextId<T>(rows: seq<T>, id: T -> int, last: int): (r: int)
    ensures r > last
    ensures forall i :: 0 <= i < |rows| ==> id(rows[i]) < r
    ensures r == last + 1 || exists i :: 0 <= i < |rows| && r == id(rows[i]) + 1
    decreases |rows|
  {
    if |rows| == 0 then last + 1
    else
      var n := NextId(rows[1..], id, last);
      assert forall i :: 1 <= i < |rows| ==> rows[i] == rows[1..][i - 1];
      if id(rows[0]) >= n then id(rows[0]) + 1 else n
  }

  /** After a row with id `NextId` is appended and recorded, the next id is one more. */
  lemma NextIdAfterAppend<T>(rows: seq<T>, id: T -> int, last: int, x: T)
    requires id(x) == NextId(rows, id, last)
    ensures NextId(rows + [x], id, id(x)) == id(x) + 1
  {
    forall i | 0 <= i < |rows + [x]|
      ensures id((rows + [x])[i]) <= id(x)
    {
      if i < |rows| {
        assert (rows + [x])[i] == rows[i];
      }
    }
  }

  /** Removing rows never raises the next id. */
  lemma NextIdOfSubset<T>(sub: seq<T>, rows: seq<T>, id: T -> int, last: int)
    requires forall x :: x in sub ==> x in rows
    ensures NextId(sub, id, last) <= NextId(rows, id, last)
  {
    var r := NextId(sub, id, last);
    if r != last + 1 {
      var i :| 0 <= i < |sub| && r == id(sub[i]) + 1;
      assert sub[i] in rows;
    }
  }
}
