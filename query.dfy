/** The shape shared by every list endpoint: scan a table, keep the rows a
    WHERE clause accepts, ORDER BY a timestamp DESC, then LIMIT. The tables
    are maps from id to row, and every row stores its own id. */
module Query {

  /** Every row is stored under its own id. */
  ghost predicate SelfKeyed<T>(m: map<int, T>, id: T -> int) {
    forall k :: k in m ==> id(m[k]) == k
  }

  /** Every id of the table lies in 1..n (the ids AUTOINCREMENT has handed out). */
  ghost predicate IdsUpTo<T>(m: map<int, T>, n: int) {
    forall k :: k in m ==> 1 <= k <= n
  }

  /** The id discipline of an AUTOINCREMENT table whose counter stands at n:
      every row under its own id, every id within 1..n. */
  ghost predicate Indexed<T>(m: map<int, T>, id: T -> int, n: int) {
    0 <= n && SelfKeyed(m, id) && IdsUpTo(m, n)
  }

  /** `x` is a row of the table. */
  ghost predicate IsRow<T>(m: map<int, T>, id: T -> int, x: T) {
    id(x) in m && m[id(x)] == x
  }

  /** Later timestamps first. */
  ghost predicate SortedDesc<T>(s: seq<T>, key: T -> int) {
    forall i, j :: 0 <= i < j < |s| ==> key(s[i]) >= key(s[j])
  }

  /** The rows with ids 1..n in ascending id order, as a rowid scan visits them. */
  function Scan<T>(m: map<int, T>, n: int): seq<T>
    decreases n
  {
    if n <= 0 then [] else Scan(m, n - 1) + (if n in m then [m[n]] else [])
  }

  /** A scan up to n meets every row with an id up to n exactly once, and nothing else. */
  lemma {:induction false} ScanCounts<T>(m: map<int, T>, id: T -> int, n: int)
    requires SelfKeyed(m, id)
    ensures forall x :: multiset(Scan(m, n))[x] == if IsRow(m, id, x) && 1 <= id(x) <= n then 1 else 0
    decreases n
  {
    if n > 0 {
      ScanCounts(m, id, n - 1);
      assert Scan(m, n) == Scan(m, n - 1) + (if n in m then [m[n]] else []);
    }
  }

  /** The WHERE clause: the rows of `s` that `keep` accepts, in their order. */
  function Filter<T(!new)>(s: seq<T>, keep: T -> bool): (r: seq<T>)
    ensures forall x :: multiset(r)[x] == if keep(x) then multiset(s)[x] else 0
  {
    if s == [] then []
    else
      assert s == [s[0]] + s[1..];
      (if keep(s[0]) then [s[0]] else []) + Filter(s[1..], keep)
  }

  /** Places `x` before the first row that is not later than it. */
  function InsertDesc<T>(x: T, s: seq<T>, key: T -> int): (r: seq<T>)
    ensures multiset(r) == multiset(s) + multiset{x}
  {
    if s == [] || key(x) >= key(s[0]) then [x] + s
    else
      assert s == [s[0]] + s[1..];
      [s[0]] + InsertDesc(x, s[1..], key)
  }

  /** Every row after an insertion is the inserted one or was there before. */
  lemma InsertMembers<T>(x: T, s: seq<T>, key: T -> int)
    ensures forall y :: y in InsertDesc(x, s, key) ==> y == x || y in s
  {
  }

  /** A row later than everything in `s` and than `x` stays in front. */
  lemma InsertBelow<T>(x: T, s: seq<T>, key: T -> int, top: int)
    requires key(x) <= top
    requires forall i :: 0 <= i < |s| ==> key(s[i]) <= top
    ensures forall j :: 0 <= j < |InsertDesc(x, s, key)| ==> key(InsertDesc(x, s, key)[j]) <= top
  {
    var r := InsertDesc(x, s, key);
    InsertMembers(x, s, key);
    forall j | 0 <= j < |r|
      ensures key(r[j]) <= top
    {
      assert r[j] in r;
      if r[j] != x {
        var i :| 0 <= i < |s| && s[i] == r[j];
      }
    }
  }

  lemma {:induction false} InsertKeepsSorted<T>(x: T, s: seq<T>, key: T -> int)
    requires SortedDesc(s, key)
    ensures SortedDesc(InsertDesc(x, s, key), key)
  {
    if s != [] && key(x) < key(s[0]) {
      var tail := s[1..];
      assert SortedDesc(tail, key);
      InsertKeepsSorted(x, tail, key);
      var rest := InsertDesc(x, tail, key);
      assert forall i :: 0 <= i < |tail| ==> key(tail[i]) <= key(s[0]);
      InsertBelow(x, tail, key, key(s[0]));
      var r := InsertDesc(x, s, key);
      assert r == [s[0]] + rest;
      forall i, j | 0 <= i < j < |r|
        ensures key(r[i]) >= key(r[j])
      {
        assert r[j] == rest[j - 1];
        if i > 0 {
          assert r[i] == rest[i - 1];
        }
      }
    }
  }

  /** ORDER BY key DESC: an insertion sort, so equal keys keep scan order. */
  function SortDesc<T>(s: seq<T>, key: T -> int): (r: seq<T>)
    ensures multiset(r) == multiset(s)
    ensures SortedDesc(r, key)
  {
    if s == [] then []
    else
      assert s == [s[0]] + s[1..];
      var rest := SortDesc(s[1..], key);
      InsertKeepsSorted(s[0], rest, key);
      InsertDesc(s[0], rest, key)
  }

  /** LIMIT: a negative limit means no limit, as in SQLite. */
  function Take<T>(s: seq<T>, limit: int): (r: seq<T>)
    ensures |r| == if 0 <= limit < |s| then limit else |s|
    ensures r == s[..|r|]
  {
    if 0 <= limit < |s| then s[..limit] else s
  }

  /** What a prefix of a sorted sequence keeps: sorted rows, each no more
      often than before, and none earlier than a row it drops. */
  lemma PrefixOfSorted<T>(all: seq<T>, r: seq<T>, key: T -> int)
    requires SortedDesc(all, key)
    requires |r| <= |all| && r == all[..|r|]
    ensures SortedDesc(r, key)
    ensures multiset(r) <= multiset(all)
    ensures forall x, y :: x in all && x !in r && y in r ==> key(x) <= key(y)
  {
    assert all == r + all[|r|..];
    forall x, y | x in all && x !in r && y in r
      ensures key(x) <= key(y)
    {
      var i :| 0 <= i < |all| && all[i] == x;
      var j :| 0 <= j < |r| && r[j] == y;
      assert all[j] == y;
    }
  }

  /** The rows before LIMIT: each accepted row exactly once, latest first. */
  lemma OrderedCounts<T(!new)>(m: map<int, T>, id: T -> int, n: int, keep: T -> bool, key: T -> int)
    requires SelfKeyed(m, id) && IdsUpTo(m, n)
    ensures forall x :: multiset(SortDesc(Filter(Scan(m, n), keep), key))[x] == if IsRow(m, id, x) && keep(x) then 1 else 0
  {
    ScanCounts(m, id, n);
  }

  /** LIMIT applied to the accepted rows, latest first, each once. */
  lemma LimitedRows<T(!new)>(m: map<int, T>, id: T -> int, keep: T -> bool, key: T -> int, all: seq<T>, limit: int)
    requires SortedDesc(all, key)
    requires forall x :: multiset(all)[x] == if IsRow(m, id, x) && keep(x) then 1 else 0
    ensures var r := Take(all, limit);
      && (forall x :: x in r ==> IsRow(m, id, x) && keep(x))
      && (forall x :: multiset(r)[x] <= 1)
      && SortedDesc(r, key)
      && (0 <= limit ==> |r| <= limit)
      && (limit < 0 || |r| < limit ==> forall x :: IsRow(m, id, x) && keep(x) ==> x in r)
      && (forall x, y :: IsRow(m, id, x) && keep(x) && x !in r && y in r ==> key(x) <= key(y))
  {
    var r := Take(all, limit);
    PrefixOfSorted(all, r, key);
    forall x | x in r
      ensures IsRow(m, id, x) && keep(x)
    {
      assert multiset(r)[x] <= multiset(all)[x];
    }
    forall x
      ensures multiset(r)[x] <= 1
    {
      assert multiset(r)[x] <= multiset(all)[x];
    }
    forall x | IsRow(m, id, x) && keep(x)
      ensures x in all
    {
      assert multiset(all)[x] == 1;
    }
  }

  /** The whole query. Its result holds only rows that `keep` accepts, each
      at most once, latest first, no more than `limit` of them; every
      accepted row it leaves out is no later than every row it returns,
      and it leaves none out when there is no limit or room was left. */
  function Select<T(!new)>(m: map<int, T>, id: T -> int, n: int, keep: T -> bool, key: T -> int, limit: int): (r: seq<T>)
    requires SelfKeyed(m, id) && IdsUpTo(m, n)
    ensures forall x :: x in r ==> IsRow(m, id, x) && keep(x)
    ensures forall x :: multiset(r)[x] <= 1
    ensures SortedDesc(r, key)
    ensures 0 <= limit ==> |r| <= limit
    ensures limit < 0 || |r| < limit ==> forall k :: k in m && keep(m[k]) ==> m[k] in r
    ensures forall k, y :: k in m && keep(m[k]) && m[k] !in r && y in r ==> key(m[k]) <= key(y)
  {
    assert forall k :: k in m ==> IsRow(m, id, m[k]);
    var all := SortDesc(Filter(Scan(m, n), keep), key);
    OrderedCounts(m, id, n, keep, key);
    LimitedRows(m, id, keep, key, all, limit);
    Take(all, limit)
  }
}
