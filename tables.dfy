/**
 * The store's tables and the LINQ operators the repositories apply to them.
 *
 * A table maps each row's identity key to the row, and remembers the next
 * identity value the database will hand out (keys start at 1, as an SQL
 * Server IDENTITY(1,1) column does). A query without an ORDER BY yields its
 * rows in key order.
 */
module Tables {
  import opened Errors

  datatype Table<T> = Table(rows: map<int, T>, next: int)

  function Empty<T>(): Table<T> {
    Table(map[], 1)
  }

  /** Every key was handed out before: it lies in 1 .. next - 1. */
  predicate KeysInRange<T>(t: Table<T>) {
    t.next >= 1 && forall k :: k in t.rows ==> 1 <= k < t.next
  }

  /** Keys are in range and every row carries its own key as its id. */
  predicate Keyed<T>(t: Table<T>, id: T -> int) {
    KeysInRange(t) && forall k :: k in t.rows ==> id(t.rows[k]) == k
  }

  /** `FindAsync(key)`: the row stored under `key`, if any. */
  function Find<T>(t: Table<T>, key: int): Option<T> {
    if key in t.rows then Some(t.rows[key]) else None
  }

  /** `Add` + `SaveChanges`: the row is stored under the next identity value. */
  function Add<T>(t: Table<T>, row: T): Table<T> {
    Table(t.rows[t.next := row], t.next + 1)
  }

  /** The key a saved row ends up under: its own when already stored, otherwise the next one. */
  function SaveKey<T>(t: Table<T>, id: int): int {
    if id in t.rows then id else t.next
  }

  /** `Update` + `SaveChanges` of a tracked row. */
  function Put<T>(t: Table<T>, key: int, row: T): Table<T> {
    Table(t.rows[key := row], t.next)
  }

  /** `Remove` + `SaveChanges`. */
  function Remove<T>(t: Table<T>, key: int): Table<T> {
    Table(t.rows - {key}, t.next)
  }

  /** Removing every row that `drop` selects (a cascading delete). */
  function RemoveWhere<T>(t: Table<T>, drop: T -> bool): (r: Table<T>)
    ensures r.next == t.next
    ensures forall k :: k in r.rows <==> k in t.rows && !drop(t.rows[k])
    ensures forall k :: k in r.rows ==> r.rows[k] == t.rows[k]
  {
    Table(map k | k in t.rows && !drop(t.rows[k]) :: t.rows[k], t.next)
  }

  lemma AddKeepsKeyed<T>(t: Table<T>, id: T -> int, row: T)
    requires Keyed(t, id) && id(row) == t.next
    ensures Keyed(Add(t, row), id)
  {
  }

  /** `x` is one of the stored rows. */
  predicate Stored<T(==)>(t: Table<T>, x: T) {
    exists k :: k in t.rows && t.rows[k] == x
  }

  /** `x` is stored under some key in lo .. hi - 1. */
  predicate StoredIn<T(==)>(rows: map<int, T>, lo: int, hi: int, x: T) {
    exists k :: lo <= k < hi && k in rows && rows[k] == x
  }

  /** The rows under keys lo .. hi - 1 that satisfy `keep`, in key order. */
  function Scan<T(==)>(rows: map<int, T>, lo: int, hi: int, keep: T -> bool): (r: seq<T>)
    ensures forall i :: 0 <= i < |r| ==> keep(r[i]) && StoredIn(rows, lo, hi, r[i])
    ensures forall k :: lo <= k < hi && k in rows && keep(rows[k]) ==> rows[k] in r
    decreases hi - lo
  {
    if lo >= hi then []
    else
      var head := if lo in rows && keep(rows[lo]) then [rows[lo]] else [];
      var rest := Scan(rows, lo + 1, hi, keep);
      var r := head + rest;
      assert forall i :: 0 <= i < |r| ==> keep(r[i]) && StoredIn(rows, lo, hi, r[i]) by {
        forall i | 0 <= i < |r|
          ensures keep(r[i]) && StoredIn(rows, lo, hi, r[i])
        {
          if i < |head| {
            assert rows[lo] == r[i];
          } else {
            assert r[i] == rest[i - |head|];
            assert StoredIn(rows, lo + 1, hi, r[i]);
            var k :| lo + 1 <= k < hi && k in rows && rows[k] == r[i];
            assert lo <= k < hi;
          }
        }
      }
      r
  }

  /** `Where(keep)` over a whole table: exactly the stored rows that satisfy `keep`. */
  function Where<T(==,!new)>(t: Table<T>, keep: T -> bool): (r: seq<T>)
    requires KeysInRange(t)
    ensures forall x :: x in r <==> Stored(t, x) && keep(x)
  {
    Scan(t.rows, 1, t.next, keep)
  }

  /** No row appears twice. */
  predicate Distinct<T(==)>(s: seq<T>) {
    forall i, j :: 0 <= i < j < |s| ==> s[i] != s[j]
  }

  lemma DistinctCons<T>(h: T, t: seq<T>)
    requires Distinct(t) && h !in t
    ensures Distinct([h] + t)
  {
    forall i, j | 0 <= i < j < |[h] + t| ensures ([h] + t)[i] != ([h] + t)[j] {
      assert ([h] + t)[j] == t[j - 1];
      if i > 0 {
        assert ([h] + t)[i] == t[i - 1];
      }
    }
  }

  /** Scanning rows that carry their own keys as ids meets each row once, with its id in the scanned range. */
  lemma {:induction false} ScanOfKeyedRows<T>(rows: map<int, T>, lo: int, hi: int, keep: T -> bool, id: T -> int)
    requires forall k :: k in rows ==> id(rows[k]) == k
    ensures Distinct(Scan(rows, lo, hi, keep))
    ensures forall x :: x in Scan(rows, lo, hi, keep) ==> lo <= id(x) < hi
    decreases hi - lo
  {
    if lo < hi {
      ScanOfKeyedRows(rows, lo + 1, hi, keep, id);
      var rest := Scan(rows, lo + 1, hi, keep);
      if lo in rows && keep(rows[lo]) {
        assert rows[lo] !in rest;
        DistinctCons(rows[lo], rest);
      }
    }
  }

  /** On a table whose rows carry their keys as ids, `Where` lists each row once. */
  lemma WhereIsDistinct<T(!new)>(t: Table<T>, keep: T -> bool, id: T -> int)
    requires Keyed(t, id)
    ensures Distinct(Where(t, keep))
  {
    ScanOfKeyedRows(t.rows, 1, t.next, keep, id);
  }

  /** The keys of `rows` in lo .. hi - 1 are those in lo + 1 .. hi - 1, and `lo` itself when it is a key. */
  lemma KeysStep<T>(rows: map<int, T>, lo: int, hi: int)
    requires lo < hi
    ensures |set k | k in rows && lo <= k < hi| == |set k | k in rows && lo + 1 <= k < hi| + if lo in rows then 1 else 0
  {
    var (keys, later) := (set k | k in rows && lo <= k < hi, set k | k in rows && lo + 1 <= k < hi);
    if lo in rows {
      assert keys == later + {lo} && lo !in later;
    } else {
      assert keys == later;
    }
  }

  /** A scan that keeps every row takes one row for `lo` when it is a key, then scans the rest. */
  lemma ScanStep<T>(rows: map<int, T>, lo: int, hi: int, keep: T -> bool)
    requires lo < hi && forall k :: k in rows ==> keep(rows[k])
    ensures |Scan(rows, lo, hi, keep)| == |Scan(rows, lo + 1, hi, keep)| + if lo in rows then 1 else 0
  {
  }

  /** A scan that keeps every row yields as many rows as there are keys in the range. */
  lemma {:induction false} ScanLength<T>(rows: map<int, T>, lo: int, hi: int, keep: T -> bool)
    requires forall k :: k in rows ==> keep(rows[k])
    ensures |Scan(rows, lo, hi, keep)| == |set k | k in rows && lo <= k < hi|
    decreases hi - lo
  {
    if lo >= hi {
      assert (set k | k in rows && lo <= k < hi) == {};
    } else {
      ScanLength(rows, lo + 1, hi, keep);
      KeysStep(rows, lo, hi);
      ScanStep(rows, lo, hi, keep);
    }
  }

  /** A `Where` that keeps every row of a table yields one entry per row. */
  lemma WhereAllLength<T(!new)>(t: Table<T>, keep: T -> bool)
    requires KeysInRange(t) && forall k :: k in t.rows ==> keep(t.rows[k])
    ensures |Where(t, keep)| == |t.rows|
  {
    ScanLength(t.rows, 1, t.next, keep);
    assert (set k | k in t.rows && 1 <= k < t.next) == t.rows.Keys;
  }

  /** The first stored row, in key order, that satisfies `keep` (`FirstOrDefaultAsync`). */
  function FirstWhere<T(==,!new)>(t: Table<T>, keep: T -> bool): (r: Option<T>)
    requires KeysInRange(t)
    ensures r.None? ==> forall k :: k in t.rows ==> !keep(t.rows[k])
    ensures r.Some? ==> keep(r.value) && exists k :: k in t.rows && t.rows[k] == r.value
  {
    var found := Where(t, keep);
    if found == [] then
      None
    else Some(found[0])
  }

  // ---- ordering -------------------------------------------------------------

  /** `s` is in ascending order of `key`. */
  predicate SortedBy<T>(s: seq<T>, key: T -> int) {
    forall i, j :: 0 <= i < j < |s| ==> key(s[i]) <= key(s[j])
  }

  lemma SortedTail<T>(s: seq<T>, key: T -> int)
    requires s != [] && SortedBy(s, key)
    ensures SortedBy(s[1..], key)
    ensures forall y :: y in s[1..] ==> key(s[0]) <= key(y)
  {
    forall y | y in s[1..] ensures key(s[0]) <= key(y) {
      var j :| 0 <= j < |s[1..]| && s[1..][j] == y;
      assert s[j + 1] == y;
    }
  }

  lemma ConsSorted<T>(h: T, rest: seq<T>, key: T -> int)
    requires SortedBy(rest, key)
    requires forall y :: y in rest ==> key(h) <= key(y)
    ensures SortedBy([h] + rest, key)
  {
    forall i, j | 0 <= i < j < |[h] + rest| ensures key(([h] + rest)[i]) <= key(([h] + rest)[j]) {
      assert ([h] + rest)[j] == rest[j - 1];
      if i > 0 {
        assert ([h] + rest)[i] == rest[i - 1];
      } else {
        assert rest[j - 1] in rest;
      }
    }
  }

  function InsertBy<T(==)>(x: T, s: seq<T>, key: T -> int): (r: seq<T>)
    requires SortedBy(s, key)
    ensures SortedBy(r, key)
    ensures multiset(r) == multiset(s) + multiset{x}
    ensures forall y :: y in r ==> y == x || y in s
  {
    if s == [] then [x]
    else if key(x) <= key(s[0]) then
      SortedTail(s, key);
      assert s == [s[0]] + s[1..];
      ConsSorted(x, s, key);
      [x] + s
    else
      SortedTail(s, key);
      var rest := InsertBy(x, s[1..], key);
      assert s == [s[0]] + s[1..];
      ConsSorted(s[0], rest, key);
      [s[0]] + rest
  }

  /** `OrderBy(key)`: the same rows, ascending by `key`. */
  function SortBy<T(==)>(s: seq<T>, key: T -> int): (r: seq<T>)
    ensures SortedBy(r, key)
    ensures multiset(r) == multiset(s)
  {
    if s == [] then []
    else
      assert s == [s[0]] + s[1..];
      InsertBy(s[0], SortBy(s[1..], key), key)
  }

  lemma {:induction false} InsertByKeepsDistinct<T>(x: T, s: seq<T>, key: T -> int)
    requires SortedBy(s, key) && Distinct(s) && x !in s
    ensures Distinct(InsertBy(x, s, key))
    decreases |s|
  {
    if s == [] {
    } else if key(x) <= key(s[0]) {
      DistinctCons(x, s);
    } else {
      SortedTail(s, key);
      assert s == [s[0]] + s[1..];
      assert Distinct(s[1..]) by {
        forall i, j | 0 <= i < j < |s[1..]| ensures s[1..][i] != s[1..][j] {
          assert s[1..][i] == s[i + 1] && s[1..][j] == s[j + 1];
        }
      }
      InsertByKeepsDistinct(x, s[1..], key);
      var rest := InsertBy(x, s[1..], key);
      assert s[0] !in s[1..] by {
        forall j | 0 <= j < |s[1..]| ensures s[1..][j] != s[0] {
          assert s[1..][j] == s[j + 1];
        }
      }
      DistinctCons(s[0], rest);
    }
  }

  /** Sorting a sequence without repetitions leaves it without repetitions. */
  lemma {:induction false} SortByKeepsDistinct<T>(s: seq<T>, key: T -> int)
    requires Distinct(s)
    ensures Distinct(SortBy(s, key))
    decreases |s|
  {
    if s != [] {
      assert Distinct(s[1..]) by {
        forall i, j | 0 <= i < j < |s[1..]| ensures s[1..][i] != s[1..][j] {
          assert s[1..][i] == s[i + 1] && s[1..][j] == s[j + 1];
        }
      }
      SortByKeepsDistinct(s[1..], key);
      var sorted := SortBy(s[1..], key);
      assert s[0] !in s[1..] by {
        forall j | 0 <= j < |s[1..]| ensures s[1..][j] != s[0] {
          assert s[1..][j] == s[j + 1];
        }
      }
      assert s[0] !in multiset(sorted);
      InsertByKeepsDistinct(s[0], sorted, key);
    }
  }

  /** `OrderByDescending(key)`: the same rows, newest (largest key) first. */
  function SortByDescending<T(==,!new)>(s: seq<T>, key: T -> int): (r: seq<T>)
    ensures forall i, j :: 0 <= i < j < |r| ==> key(r[i]) >= key(r[j])
    ensures multiset(r) == multiset(s)
    ensures forall x :: x in r <==> x in s
  {
    var r := SortBy(s, Negated(key));
    assert forall x :: x in r <==> x in multiset(r);
    r
  }

  /** The key that orders largest first. */
  function Negated<T>(key: T -> int): T -> int {
    x => -key(x)
  }

  /** Sorting newest first lists each row once when the input does. */
  lemma SortByDescendingKeepsDistinct<T(!new)>(s: seq<T>, key: T -> int)
    requires Distinct(s)
    ensures Distinct(SortByDescending(s, key))
  {
    SortByKeepsDistinct(s, Negated(key));
  }

  // ---- paging ---------------------------------------------------------------

  /** `Skip(n)`: a count of zero or less skips nothing. */
  function Skip<T>(s: seq<T>, n: int): (r: seq<T>)
    ensures n <= 0 ==> r == s
    ensures 0 <= n <= |s| ==> r == s[n..]
    ensures n >= |s| ==> r == []
  {
    if n <= 0 then s else if n >= |s| then [] else s[n..]
  }

  /** `Take(n)`: a count of zero or less takes nothing. */
  function Take<T>(s: seq<T>, n: int): (r: seq<T>)
    ensures n <= 0 ==> r == []
    ensures 0 <= n <= |s| ==> r == s[..n]
    ensures n >= |s| ==> r == s
  {
    if n <= 0 then [] else if n >= |s| then s else s[..n]
  }

  /** `Skip(lo).Take(size)`: the rows at positions lo .. lo + size - 1, as many of them as exist. */
  function Page<T>(s: seq<T>, lo: int, size: int): (r: seq<T>)
    requires 0 <= lo && 1 <= size
    ensures |r| <= size
    ensures lo >= |s| ==> r == []
    ensures lo < |s| ==> r == s[lo .. if lo + size < |s| then lo + size else |s|]
    ensures forall i :: 0 <= i < |r| ==> lo + i < |s| && r[i] == s[lo + i]
  {
    Take(Skip(s, lo), size)
  }

  /** The position of the first row of a page: each page starts `size` after the one before. */
  function PageStart(pageNumber: int, size: nat): nat
    requires pageNumber >= 1
    decreases pageNumber
  {
    if pageNumber == 1 then 0 else PageStart(pageNumber - 1, size) + size
  }

  /** The page start is the offset `(pageNumber - 1) * size`. */
  lemma {:induction false} PageStartIsOffset(pageNumber: int, size: nat)
    requires pageNumber >= 1
    ensures PageStart(pageNumber, size) == (pageNumber - 1) * size
    decreases pageNumber
  {
    if pageNumber > 1 {
      PageStartIsOffset(pageNumber - 1, size);
      assert (pageNumber - 1) * size == (pageNumber - 2) * size + size;
    }
  }

  /** A later page starts at or after the end of an earlier one. */
  lemma {:induction false} PagesFollowEachOther(p: int, q: int, size: nat)
    requires 1 <= p < q
    ensures PageStart(p, size) + size <= PageStart(q, size)
    decreases q
  {
    if q > p + 1 {
      PagesFollowEachOther(p, q - 1, size);
    }
  }

  /** Pages 1 .. n of `s`, one after the other. */
  function FirstPages<T>(s: seq<T>, size: int, n: nat): seq<T>
    requires size >= 1
  {
    if n == 0 then [] else FirstPages(s, size, n - 1) + Page(s, PageStart(n, size), size)
  }

  /** The rows before `lo` followed by the page at `lo` are the rows before `lo + size`. */
  lemma PageExtends<T>(s: seq<T>, lo: int, size: int)
    requires 0 <= lo && 1 <= size
    ensures var (before, after) := (if lo < |s| then lo else |s|, if lo + size < |s| then lo + size else |s|);
      s[..before] + Page(s, lo, size) == s[..after]
  {
    var (before, after) := (if lo < |s| then lo else |s|, if lo + size < |s| then lo + size else |s|);
    assert Page(s, lo, size) == s[before..after];
    assert s[..after] == s[..before] + s[before..after];
  }

  /** Pages 1 .. n together are the first n * size rows (or all of them). */
  lemma {:induction false} PagesConcatenate<T>(s: seq<T>, size: int, n: nat)
    requires size >= 1
    ensures var end := PageStart(n + 1, size);
      FirstPages(s, size, n) == s[..if end < |s| then end else |s|]
  {
    if n > 0 {
      PagesConcatenate(s, size, n - 1);
      var lo := PageStart(n, size);
      assert PageStart(n + 1, size) == lo + size;
      assert FirstPages(s, size, n) == FirstPages(s, size, n - 1) + Page(s, lo, size);
      PageExtends(s, lo, size);
    }
  }

  /** Two windows of a sequence without repetitions that do not overlap share no row. */
  lemma SlicesAreDisjoint<T>(s: seq<T>, loP: int, loQ: int, size: int, x: T)
    requires Distinct(s) && 0 <= loP && 0 <= loQ && 1 <= size
    requires loP + size <= loQ || loQ + size <= loP
    requires x in Page(s, loP, size)
    ensures x !in Page(s, loQ, size)
  {
    var (pageP, pageQ) := (Page(s, loP, size), Page(s, loQ, size));
    var i :| 0 <= i < |pageP| && pageP[i] == x;
    assert loP + i < |s| && x == s[loP + i];
    forall j | 0 <= j < |pageQ| ensures pageQ[j] != x {
      assert loQ + j < |s| && pageQ[j] == s[loQ + j];
      if loQ + j < loP + i {
        assert s[loQ + j] != s[loP + i];
      } else {
        assert s[loP + i] != s[loQ + j];
      }
    }
  }

  /** Two different pages of a sequence without repetitions share no row. */
  lemma PagesAreDisjoint<T>(s: seq<T>, size: int, p: int, q: int, x: T)
    requires Distinct(s) && size >= 1 && p >= 1 && q >= 1 && p != q
    requires x in Page(s, PageStart(p, size), size)
    ensures x !in Page(s, PageStart(q, size), size)
  {
    if p < q {
      PagesFollowEachOther(p, q, size);
    } else {
      PagesFollowEachOther(q, p, size);
    }
    SlicesAreDisjoint(s, PageStart(p, size), PageStart(q, size), size, x);
  }
}
