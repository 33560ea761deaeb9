/**
 * Generic row operations that the SQL of the data-access layer is built from:
 * WHERE filters, COUNT(*), LIMIT 1 look-ups, ORDER BY and the text collation
 * SQLite uses for ORDER BY on string columns.
 *
 * A table is a `seq` of rows in storage order. A query without ORDER BY
 * returns rows in that order in this model, but no contract promises it.
 */
module Tables {

  datatype Option<+T> = None | Some(value: T)

  /** Kotlin's `Long`, the type of every timestamp column: a signed 64-bit integer. */
  type Long = x: int | -0x8000_0000_0000_0000 <= x < 0x8000_0000_0000_0000

  /** `SELECT * ... WHERE keep(row)`: the rows satisfying `keep`, each as often as in `s`. */
  function Filter<T(!new)>(s: seq<T>, keep: T -> bool): (r: seq<T>)
    ensures |r| <= |s|
    ensures forall x :: x in r <==> x in s && keep(x)
  {
    if s == [] then []
    else
      var rest := Filter(s[1..], keep);
      assert s == [s[0]] + s[1..];
      if keep(s[0]) then [s[0]] + rest else rest
  }

  /** Each row keeps its multiplicity when it satisfies `keep`, and is gone otherwise. */
  lemma {:induction false} FilterMultiset<T(!new)>(s: seq<T>, keep: T -> bool)
    ensures forall x :: multiset(Filter(s, keep))[x] == if keep(x) then multiset(s)[x] else 0
  {
    if s != [] {
      FilterMultiset(s[1..], keep);
      assert s == [s[0]] + s[1..];
    }
  }

  lemma {:induction false} FilterAppend<T(!new)>(s: seq<T>, x: T, keep: T -> bool)
    ensures Filter(s + [x], keep) == Filter(s, keep) + (if keep(x) then [x] else [])
  {
    if s == [] {
      assert s + [x] == [x];
    } else {
      var s' := s + [x];
      assert s'[0] == s[0] && s'[1..] == s[1..] + [x];
      FilterAppend(s[1..], x, keep);
      if keep(s[0]) {
        assert Filter(s', keep) == [s[0]] + Filter(s[1..] + [x], keep);
      } else {
        assert Filter(s', keep) == Filter(s[1..] + [x], keep);
      }
    }
  }

  /** `SELECT COUNT(*) ... WHERE p(row)`. */
  function Count<T(!new)>(s: seq<T>, p: T -> bool): (n: nat)
    ensures n <= |s|
    ensures n == 0 <==> forall x :: x in s ==> !p(x)
  {
    var r := Filter(s, p);
    assert r != [] ==> r[0] in r;
    |r|
  }

  /** COUNT(*) over a table is the first row's match plus COUNT(*) over the rest. */
  lemma CountCons<T(!new)>(s: seq<T>, p: T -> bool)
    requires s != []
    ensures Count(s, p) == (if p(s[0]) then 1 else 0) + Count(s[1..], p)
  {
  }

  /** COUNT(*) grows by one exactly when the appended row matches. */
  lemma CountAppend<T(!new)>(s: seq<T>, x: T, p: T -> bool)
    ensures Count(s + [x], p) == Count(s, p) + (if p(x) then 1 else 0)
  {
    FilterAppend(s, x, p);
  }

  /** The positions of the rows satisfying `p`: what COUNT(*) counts. */
  function MatchingPositions<T(!new)>(s: seq<T>, p: T -> bool): set<int>
  {
    set i | 0 <= i < |s| && p(s[i])
  }

  /** Appending a row adds its position to the matching positions exactly when it matches. */
  lemma MatchingPositionsAppend<T(!new)>(s: seq<T>, x: T, p: T -> bool)
    ensures |MatchingPositions(s + [x], p)| == |MatchingPositions(s, p)| + (if p(x) then 1 else 0)
  {
    var before, after := MatchingPositions(s, p), MatchingPositions(s + [x], p);
    var extra: set<int> := if p(x) then {|s|} else {};
    forall i | i in after ensures i in before + extra {
      if i < |s| {
        assert (s + [x])[i] == s[i];
      }
    }
    forall i | i in before + extra ensures i in after {
      if i < |s| {
        assert (s + [x])[i] == s[i];
      }
    }
    assert after == before + extra;
    assert |s| !in before;
  }

  lemma {:induction false} CountIsMatchingPositions<T(!new)>(s: seq<T>, p: T -> bool)
    ensures Count(s, p) == |MatchingPositions(s, p)|
  {
    if s != [] {
      var init, x := s[..|s| - 1], s[|s| - 1];
      assert s == init + [x];
      CountIsMatchingPositions(init, p);
      CountAppend(init, x, p);
      MatchingPositionsAppend(init, x, p);
    }
  }

  /** `SELECT * ... WHERE p(row) LIMIT 1`: some matching row, none exactly when no row matches. */
  function First<T(!new)>(s: seq<T>, p: T -> bool): (r: Option<T>)
    ensures r.Some? ==> r.value in s && p(r.value)
    ensures r.None? <==> forall x :: x in s ==> !p(x)
  {
    if s == [] then None
    else if p(s[0]) then Some(s[0])
    else
      assert forall x :: x in s ==> x == s[0] || x in s[1..];
      First(s[1..], p)
  }

  /** When at most one row can match, LIMIT 1 returns that row. */
  lemma {:induction false} FirstIsOnly<T(!new)>(s: seq<T>, p: T -> bool, x: T)
    requires x in s && p(x)
    requires forall y :: y in s && p(y) ==> y == x
    ensures First(s, p) == Some(x)
  {
  }

  /** A comparison fit for ORDER BY: any two rows are comparable, and it is transitive. */
  ghost predicate TotalPreorder<T(!new)>(le: (T, T) -> bool)
  {
    && (forall a, b :: le(a, b) || le(b, a))
    && (forall a, b, c :: le(a, b) && le(b, c) ==> le(a, c))
  }

  ghost predicate SortedBy<T(!new)>(s: seq<T>, le: (T, T) -> bool)
  {
    forall i, j :: 0 <= i < j < |s| ==> le(s[i], s[j])
  }

  /** Puts `x` before the first row it is not after. */
  function InsertBy<T(!new)>(x: T, s: seq<T>, le: (T, T) -> bool): (r: seq<T>)
    ensures multiset(r) == multiset(s) + multiset{x}
    ensures |r| == |s| + 1
  {
    if s == [] || le(x, s[0]) then
      [x] + s
    else
      assert s == [s[0]] + s[1..];
      [s[0]] + InsertBy(x, s[1..], le)
  }

  lemma {:induction false} InsertBySorted<T(!new)>(x: T, s: seq<T>, le: (T, T) -> bool)
    requires TotalPreorder(le) && SortedBy(s, le)
    ensures SortedBy(InsertBy(x, s, le), le)
  {
    if s != [] && !le(x, s[0]) {
      var rest := InsertBy(x, s[1..], le);
      InsertBySorted(x, s[1..], le);
      assert s == [s[0]] + s[1..];
      assert le(s[0], x);
      forall k | 0 <= k < |rest|
        ensures le(s[0], rest[k])
      {
        assert rest[k] in multiset(rest);
        assert rest[k] == x || rest[k] in s[1..];
      }
    }
  }

  /** `ORDER BY`: the same rows, sorted by `le` (see SortBySorted). Rows that compare equal come in no promised order. */
  function SortBy<T(!new)>(s: seq<T>, le: (T, T) -> bool): (r: seq<T>)
    ensures multiset(r) == multiset(s)
    ensures |r| == |s|
  {
    if s == [] then []
    else
      assert s == [s[0]] + s[1..];
      InsertBy(s[0], SortBy(s[1..], le), le)
  }

  lemma {:induction false} SortBySorted<T(!new)>(s: seq<T>, le: (T, T) -> bool)
    requires TotalPreorder(le)
    ensures SortedBy(SortBy(s, le), le)
  {
    if s != [] {
      SortBySorted(s[1..], le);
      InsertBySorted(s[0], SortBy(s[1..], le), le);
    }
  }

  /**
   * SQLite's BINARY collation: UTF-8 bytes compared with memcmp, a proper
   * prefix first. UTF-8 byte order is code-point order, so here characters
   * are compared as code points.
   */
  predicate TextLe(a: string, b: string)
  {
    if a == [] then true
    else if b == [] then false
    else if a[0] != b[0] then a[0] < b[0]
    else TextLe(a[1..], b[1..])
  }

  lemma {:induction false} TextLeTotal(a: string, b: string)
    ensures TextLe(a, b) || TextLe(b, a)
  {
    if a != [] && b != [] && a[0] == b[0] {
      TextLeTotal(a[1..], b[1..]);
    }
  }

  lemma {:induction false} TextLeTransitive(a: string, b: string, c: string)
    requires TextLe(a, b) && TextLe(b, c)
    ensures TextLe(a, c)
  {
    if a != [] && b != [] && c != [] && a[0] == b[0] && b[0] == c[0] {
      TextLeTransitive(a[1..], b[1..], c[1..]);
    }
  }

  /** No two rows share a key: a primary key or a UNIQUE column. */
  ghost predicate DistinctKeys<T, K>(s: seq<T>, key: T -> K)
  {
    forall i, j :: 0 <= i < j < |s| ==> key(s[i]) != key(s[j])
  }

  /** The rows after the first keep their keys distinct, and none has the first row's key. */
  lemma DistinctKeysTail<T, K>(s: seq<T>, key: T -> K)
    requires DistinctKeys(s, key) && s != []
    ensures DistinctKeys(s[1..], key)
    ensures forall x :: x in s[1..] ==> key(x) != key(s[0])
  {
    assert forall i :: 0 <= i < |s| - 1 ==> s[1..][i] == s[i + 1];
  }

  /** Deleting rows keeps keys distinct: the surviving rows keep their relative order. */
  lemma {:induction false} FilterKeepsDistinct<T(!new), K>(s: seq<T>, keep: T -> bool, key: T -> K)
    ensures DistinctKeys(s, key) ==> DistinctKeys(Filter(s, keep), key)
  {
    if s != [] && DistinctKeys(s, key) {
      FilterKeepsDistinct(s[1..], keep, key);
      var rest := Filter(s[1..], keep);
      if keep(s[0]) {
        var r := [s[0]] + rest;
        forall i, j | 0 <= i < j < |r|
          ensures key(r[i]) != key(r[j])
        {
          if i == 0 {
            assert r[j] in s[1..];
          }
        }
      }
    }
  }

  /** Appending a row whose key no row has yet keeps keys distinct. */
  lemma AppendKeepsDistinct<T, K>(s: seq<T>, x: T, key: T -> K)
    requires DistinctKeys(s, key)
    requires forall i :: 0 <= i < |s| ==> key(s[i]) != key(x)
    ensures DistinctKeys(s + [x], key)
  {
  }

  /**
   * The id a row gets from an INTEGER PRIMARY KEY AUTOINCREMENT column: Room
   * passes id 0 as NULL, and SQLite then hands out one more than the largest
   * id it has ever handed out; any other id is stored as given.
   */
  function AssignedId(id: int, lastId: int): (r: int)
    ensures id != 0 ==> r == id
    ensures id == 0 ==> r > lastId
  {
    if id == 0 then lastId + 1 else id
  }

  /** The largest id handed out, after a row with id `newId` is stored. */
  function NextLastId(lastId: int, newId: int): (r: int)
    ensures r >= lastId && r >= newId
    ensures r == lastId || r == newId
  {
    if newId > lastId then newId else lastId
  }

  /** An id AUTOINCREMENT hands out clashes with no stored id, when no stored id exceeds the last one handed out. */
  lemma AssignedIdFresh(ids: set<int>, lastId: int, id: int)
    requires forall x :: x in ids ==> x <= lastId
    requires id == 0 || id !in ids
    ensures AssignedId(id, lastId) !in ids
    ensures AssignedId(id, lastId) <= NextLastId(lastId, AssignedId(id, lastId))
  {
  }

  /** A row occurring in a table whose rows are pairwise distinct occurs exactly once. */
  lemma {:induction false} DistinctOnce<T(!new)>(s: seq<T>, x: T)
    requires forall i, j :: 0 <= i < j < |s| ==> s[i] != s[j]
    requires x in s
    ensures multiset(s)[x] == 1
  {
    assert s == [s[0]] + s[1..];
    if s[0] == x {
      assert x !in s[1..];
    } else {
      DistinctOnce(s[1..], x);
    }
  }

  /** Under a key that no two rows share, a stored row occurs exactly once. */
  lemma KeyedOnce<T(!new), K>(s: seq<T>, key: T -> K, x: T)
    requires DistinctKeys(s, key) && x in s
    ensures multiset(s)[x] == 1
  {
    assert forall i, j :: 0 <= i < j < |s| ==> key(s[i]) != key(s[j]);
    DistinctOnce(s, x);
  }
}
