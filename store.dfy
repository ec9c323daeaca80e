/**
 * The database side of a connection, reduced to what the strategies use:
 * one table, keyed by the value of its primary key.  A cursor answers
 * ordered, limited reads and applies the write commands the strategies
 * issue, reporting the driver's raw row count.
 */
module Store {
  import opened Common

  predicate StrictlyIncreasing(s: seq<int>)
  {
    forall i, j :: 0 <= i < j < |s| ==> s[i] < s[j]
  }

  /** Keys of a sequence are pairwise different. */
  predicate Distinct(s: seq<int>)
  {
    forall i, j :: 0 <= i < j < |s| ==> s[i] != s[j]
  }

  /** A subset of a finite set has no more elements. */
  lemma {:induction false} SubsetCard(a: set<int>, b: set<int>)
    requires a <= b
    ensures |a| <= |b|
    decreases |a|
  {
    if a != {} {
      SomeElement(a);
      var x :| x in a;
      SubsetCard(a - {x}, b - {x});
    }
  }

  predicate IsMin(m: int, s: set<int>)
  {
    m in s && forall x :: x in s ==> m <= x
  }

  predicate IsMax(m: int, s: set<int>)
  {
    m in s && forall x :: x in s ==> x <= m
  }

  /** A non-empty set has an element. */
  lemma SomeElement(s: set<int>)
    requires s != {}
    ensures exists y :: y in s
  {
    if forall y :: y !in s {
      assert false;
    }
  }

  lemma {:induction false} MinExists(s: set<int>)
    requires s != {}
    ensures exists m :: IsMin(m, s)
    decreases |s|
  {
    SomeElement(s);
    var y :| y in s;
    if s == {y} {
      forall x | x in s ensures y <= x { assert x == y; }
      assert IsMin(y, s);
    } else {
      MinExists(s - {y});
      var m :| IsMin(m, s - {y});
      var r := if y < m then y else m;
      forall x | x in s ensures r <= x {
        if x != y { assert x in s - {y}; }
      }
      assert IsMin(r, s);
    }
  }

  lemma {:induction false} MaxExists(s: set<int>)
    requires s != {}
    ensures exists m :: IsMax(m, s)
    decreases |s|
  {
    SomeElement(s);
    var y :| y in s;
    if s == {y} {
      forall x | x in s ensures x <= y { assert x == y; }
      assert IsMax(y, s);
    } else {
      MaxExists(s - {y});
      var m :| IsMax(m, s - {y});
      var r := if y > m then y else m;
      forall x | x in s ensures x <= r {
        if x != y { assert x in s - {y}; }
      }
      assert IsMax(r, s);
    }
  }

  /** The elements of a finite set of keys in ascending order (`ORDER BY key`). */
  ghost function Sorted(s: set<int>): seq<int>
    decreases |s|
  {
    if s == {} then []
    else
      MinExists(s);
      var m :| IsMin(m, s);
      [m] + Sorted(s - {m})
  }

  /** `Sorted` lists every key of the set exactly once, in ascending order. */
  lemma {:induction false} SortedSpec(s: set<int>)
    ensures |Sorted(s)| == |s|
    ensures forall x :: x in Sorted(s) <==> x in s
    ensures StrictlyIncreasing(Sorted(s))
    decreases |s|
  {
    if s != {} {
      MinExists(s);
      var m :| IsMin(m, s);
      SortedHead(s, m);
      var tail := Sorted(s - {m});
      SortedSpec(s - {m});
      assert Sorted(s) == [m] + tail;
      forall i, j | 0 <= i < j < |Sorted(s)| ensures Sorted(s)[i] < Sorted(s)[j] {
        if i > 0 {
          assert Sorted(s)[i] == tail[i - 1] && Sorted(s)[j] == tail[j - 1];
        } else {
          assert tail[j - 1] in tail;
        }
      }
    }
  }

  /** The ascending order of a set starts with its minimum. */
  lemma SortedHead(s: set<int>, m: int)
    requires IsMin(m, s)
    ensures Sorted(s) == [m] + Sorted(s - {m})
  {
  }

  /** An ascending listing of a set is unique: it is `Sorted`. */
  lemma {:induction false} SortedUnique(s: set<int>, r: seq<int>)
    requires StrictlyIncreasing(r)
    requires forall x :: x in r <==> x in s
    ensures r == Sorted(s)
    decreases |r|
  {
    if r == [] {
      assert forall x :: x !in s;
      assert s == {};
    } else {
      HeadIsMin(s, r);
      SortedHead(s, r[0]);
      TailListsRest(s, r);
      SortedUnique(s - {r[0]}, r[1..]);
    }
  }

  lemma HeadIsMin(s: set<int>, r: seq<int>)
    requires r != [] && StrictlyIncreasing(r)
    requires forall x :: x in r <==> x in s
    ensures IsMin(r[0], s)
  {
    assert r[0] in r;
    forall x | x in s ensures r[0] <= x {
      var i :| 0 <= i < |r| && r[i] == x;
    }
  }

  lemma TailListsRest(s: set<int>, r: seq<int>)
    requires r != [] && StrictlyIncreasing(r)
    requires forall x :: x in r <==> x in s
    ensures StrictlyIncreasing(r[1..])
    ensures forall x :: x in r[1..] <==> x in s - {r[0]}
  {
    forall x ensures x in r[1..] <==> x in s - {r[0]} {
      if x in r[1..] {
        var i :| 1 <= i < |r| && r[i] == x;
        assert r[0] < r[i];
      }
      if x in s - {r[0]} {
        var i :| 0 <= i < |r| && r[i] == x;
        assert i != 0;
        assert r[1..][i - 1] == x;
      }
    }
  }

  /** `LIMIT n`: at most the first `n` elements. */
  function Take<T>(s: seq<T>, n: int): (r: seq<T>)
    ensures |r| == if n <= 0 then 0 else if n < |s| then n else |s|
    ensures r == s[..|r|]
  {
    if n <= 0 then [] else if n < |s| then s[..n] else s
  }

  /** The `WHERE` clauses of the strategies' reads. */
  datatype Filter =
    | KeyAbove(bound: int)                      // key > bound
    | ModifiedSince(field: string, since: int)  // field >= since
    | KeyBetween(lo: int, hi: int)              // key BETWEEN lo AND hi

  /** A row satisfies a filter; a missing or NULL modified column never qualifies. */
  predicate Matches(f: Filter, k: int, row: Row)
  {
    match f
    case KeyAbove(b) => k > b
    case ModifiedSince(field, since) =>
      var v := Get(row, field);
      v.Some? && v.value.Int? && v.value.i >= since
    case KeyBetween(lo, hi) => lo <= k <= hi
  }

  /** Keys whose rows satisfy a `WHERE` clause. */
  function Matching(rows: map<int, Row>, f: Filter): (ks: set<int>)
    ensures forall k :: k in ks <==> k in rows && Matches(f, k, rows[k])
  {
    set k | k in rows.Keys && Matches(f, k, rows[k])
  }

  /** An optional `LIMIT n`. */
  function Limited<T>(s: seq<T>, limit: Option<int>): (r: seq<T>)
    ensures limit.None? ==> r == s
    ensures limit.Some? ==> r == Take(s, limit.value)
  {
    if limit.None? then s else Take(s, limit.value)
  }

  /** The fetched rows for the given keys, in the given order. */
  function RecordsOf(rows: map<int, Row>, keys: seq<int>): (recs: seq<Record>)
    requires forall i :: 0 <= i < |keys| ==> keys[i] in rows
    ensures |recs| == |keys|
    ensures forall i :: 0 <= i < |keys| ==> recs[i] == Record(keys[i], rows[keys[i]])
  {
    seq(|keys|, i requires 0 <= i < |keys| => Record(keys[i], rows[keys[i]]))
  }

  function KeysOf(recs: seq<Record>): (ks: seq<int>)
    ensures |ks| == |recs| && forall i :: 0 <= i < |recs| ==> ks[i] == recs[i].key
  {
    seq(|recs|, i requires 0 <= i < |recs| => recs[i].key)
  }

  /** The keys a `SELECT ... WHERE f ORDER BY key [LIMIT n]` returns. */
  ghost function Selected(rows: map<int, Row>, f: Filter, limit: Option<int>): seq<int>
  {
    Limited(Sorted(Matching(rows, f)), limit)
  }

  /** Largest key of the table; none for an empty table (`SELECT MAX(key)` is NULL). */
  ghost function MaxKey(rows: map<int, Row>): (m: Option<int>)
    ensures m.None? <==> rows == map[]
    ensures m.Some? ==> IsMax(m.value, rows.Keys)
  {
    if rows == map[] then None
    else
      assert rows.Keys != {} by {
        assert rows.Keys == {} ==> rows == map[];
      }
      MaxExists(rows.Keys);
      var m :| IsMax(m, rows.Keys);
      Some(m)
  }

  /** Every selected key belongs to the table. */
  ghost predicate SelectedInRows(rows: map<int, Row>, f: Filter, limit: Option<int>)
  {
    forall i :: 0 <= i < |Selected(rows, f, limit)| ==> Selected(rows, f, limit)[i] in rows
  }

  lemma SelectedIn(rows: map<int, Row>, f: Filter, limit: Option<int>)
    ensures SelectedInRows(rows, f, limit)
  {
    var all := Sorted(Matching(rows, f));
    SortedSpec(Matching(rows, f));
    forall i | 0 <= i < |Selected(rows, f, limit)| ensures Selected(rows, f, limit)[i] in rows {
      assert Selected(rows, f, limit)[i] == all[i];
      assert all[i] in all;
    }
  }

  /**
   * What an ordered, limited read returns: matching keys of the table, in
   * ascending order, no more than the limit, and always the smallest ones.
   */
  lemma SelectedSpec(rows: map<int, Row>, f: Filter, limit: Option<int>)
    ensures StrictlyIncreasing(Selected(rows, f, limit))
    ensures forall k :: k in Selected(rows, f, limit) ==> k in rows && Matches(f, k, rows[k])
    ensures limit.Some? ==> (|Selected(rows, f, limit)| ==
      if limit.value <= 0 then 0 else if limit.value < |Matching(rows, f)| then limit.value else |Matching(rows, f)|)
    ensures limit.None? ==> forall k :: k in rows && Matches(f, k, rows[k]) ==> k in Selected(rows, f, limit)
    ensures forall k, i :: k in Matching(rows, f) && k !in Selected(rows, f, limit) && 0 <= i < |Selected(rows, f, limit)|
              ==> Selected(rows, f, limit)[i] < k
  {
    var all := Sorted(Matching(rows, f));
    var sel := Selected(rows, f, limit);
    SortedSpec(Matching(rows, f));
    assert sel == all[..|sel|];
    forall k, i | k in Matching(rows, f) && k !in sel && 0 <= i < |sel| ensures sel[i] < k {
      var j :| 0 <= j < |all| && all[j] == k;
      assert forall m :: 0 <= m < |sel| ==> sel[m] == all[m];
      assert sel[i] == all[i];
    }
  }

  lemma Associative(a: seq<int>, b: seq<int>, c: seq<int>)
    ensures a + (b + c) == (a + b) + c
  {
  }

  /** Moving the minimum of the unscanned keys to the scanned prefix keeps the ordering. */
  lemma ExtractMin(keys: seq<int>, rest: set<int>, m: int)
    requires IsMin(m, rest)
    ensures keys + Sorted(rest) == (keys + [m]) + Sorted(rest - {m})
  {
    SortedHead(rest, m);
    Associative(keys, [m], Sorted(rest - {m}));
  }

  /** The prefix a bounded scan stops at is the `LIMIT` of the whole ordering. */
  lemma TakeOfSplit(keys: seq<int>, rest: seq<int>, limit: Option<int>, exhausted: bool)
    requires exhausted <==> rest == []
    requires exhausted || (limit.Some? && |keys| >= limit.value)
    requires limit.Some? ==> |keys| <= if limit.value <= 0 then 0 else limit.value
    ensures keys == Limited(keys + rest, limit)
  {
    assert (keys + rest)[..|keys|] == keys;
    if exhausted {
      assert keys + rest == keys;
    }
  }

  /** `MAX(key)` with NULL (an empty table) read as 0. */
  function MaxOrZero(m: Option<int>): int
  {
    if m.None? then 0 else m.value
  }

  /** The rows given as records, keyed by their keys (later records win). */
  function ToMap(recs: seq<Record>): (m: map<int, Row>)
    ensures forall k :: k in m <==> k in KeysOf(recs)
  {
    if recs == [] then map[]
    else
      var last := recs[|recs| - 1];
      assert KeysOf(recs) == KeysOf(recs[..|recs| - 1]) + [last.key];
      ToMap(recs[..|recs| - 1])[last.key := last.row]
  }

  /** With distinct keys, each record is found under its own key. */
  lemma {:induction false} ToMapAt(recs: seq<Record>, i: int)
    requires Distinct(KeysOf(recs)) && 0 <= i < |recs|
    ensures recs[i].key in ToMap(recs) && ToMap(recs)[recs[i].key] == recs[i].row
  {
    var n := |recs| - 1;
    if i < n {
      assert recs[i].key != recs[n].key by { assert KeysOf(recs)[i] != KeysOf(recs)[n]; }
      assert KeysOf(recs[..n]) == KeysOf(recs)[..n];
      ToMapAt(recs[..n], i);
    }
  }

  lemma {:induction false} ToMapAppend(a: seq<Record>, b: seq<Record>)
    ensures ToMap(a + b) == ToMap(a) + ToMap(b)
    decreases |b|
  {
    if b == [] {
      assert a + b == a;
    } else {
      var n := |b| - 1;
      var last := b[n];
      assert (a + b)[..|a + b| - 1] == a + b[..n];
      assert (a + b)[|a + b| - 1] == last;
      ToMapAppend(a, b[..n]);
      UnionUpdate(ToMap(a), ToMap(b[..n]), last.key, last.row);
    }
  }

  lemma UnionUpdate(x: map<int, Row>, y: map<int, Row>, k: int, v: Row)
    ensures (x + y)[k := v] == x + y[k := v]
  {
  }

  /** The write statements the strategies issue, as their effect on the table. */
  datatype Command =
    | InsertRows(records: seq<Record>)   // INSERT of a batch of rows
    | UpdateRow(record: Record)          // UPDATE ... SET every column ... WHERE key = record.key
    | DeleteKeys(keys: seq<int>)         // DELETE ... WHERE key IN (keys)
    | Statement(rowcount: int)           // any other statement: the table is left as is

  /** The engine accepts an insert only of new, pairwise different keys. */
  predicate Applicable(rows: map<int, Row>, cmd: Command)
  {
    cmd.InsertRows? ==>
      Distinct(KeysOf(cmd.records)) && forall r :: r in cmd.records ==> r.key !in rows
  }

  function Apply(rows: map<int, Row>, cmd: Command): map<int, Row>
  {
    match cmd
    case InsertRows(recs) => rows + ToMap(recs)
    case UpdateRow(rec) => if rec.key in rows then rows[rec.key := rec.row] else rows
    case DeleteKeys(ks) => rows - (set k | k in ks)
    case Statement(_) => rows
  }

  /** The driver's row count: rows inserted, matched or deleted. */
  function RawCount(rows: map<int, Row>, cmd: Command): int
  {
    match cmd
    case InsertRows(recs) => |recs|
    case UpdateRow(rec) => if rec.key in rows then 1 else 0
    case DeleteKeys(ks) => |set k | k in ks && k in rows|
    case Statement(n) => n
  }

  lemma {:induction false} DistinctCard(ks: seq<int>)
    requires Distinct(ks)
    ensures |set k | k in ks| == |ks|
  {
    if ks != [] {
      var tail := ks[1..];
      assert Distinct(tail);
      DistinctCard(tail);
      assert (set k | k in ks) == {ks[0]} + (set k | k in tail);
      assert ks[0] !in (set k | k in tail) by {
        forall j | 0 <= j < |tail| ensures tail[j] != ks[0] {
          assert tail[j] == ks[j + 1];
        }
      }
    }
  }

  /**
   * Deleting distinct keys that are all present removes exactly that many
   * rows, and the driver reports that number.
   */
  lemma DeleteCount(rows: map<int, Row>, ks: seq<int>)
    requires Distinct(ks) && forall k :: k in ks ==> k in rows
    ensures RawCount(rows, DeleteKeys(ks)) == |ks|
    ensures |Apply(rows, DeleteKeys(ks)).Keys| == |rows.Keys| - |ks|
  {
    var del := set k | k in ks;
    assert (set k | k in ks && k in rows) == del;
    DistinctCard(ks);
    assert Apply(rows, DeleteKeys(ks)).Keys == rows.Keys - del;
    assert del <= rows.Keys;
    assert rows.Keys == (rows.Keys - del) + del;
  }

  /** A cursor on one table of one database. */
  class Cursor {
    var rows: map<int, Row>

    constructor (rows: map<int, Row>)
      ensures this.rows == rows
    {
      this.rows := rows;
    }

    /** `SELECT * ... WHERE f ORDER BY key [LIMIT limit]`, scanned in key order. */
    method SelectOrdered(f: Filter, limit: Option<int>) returns (recs: seq<Record>)
      ensures SelectedInRows(rows, f, limit)
      ensures recs == RecordsOf(rows, Selected(rows, f, limit))
    {
      ghost var all := Matching(rows, f);
      var rest := Matching(rows, f);
      var keys: seq<int> := [];
      while rest != {} && (limit.None? || |keys| < limit.value)
        invariant keys + Sorted(rest) == Sorted(all)
        invariant limit.Some? ==> |keys| <= if limit.value <= 0 then 0 else limit.value
        decreases |rest|
      {
        MinExists(rest);
        var m :| IsMin(m, rest);
        ExtractMin(keys, rest, m);
        keys := keys + [m];
        rest := rest - {m};
      }
      SortedSpec(rest);
      TakeOfSplit(keys, Sorted(rest), limit, rest == {});
      assert keys == Selected(rows, f, limit);
      SelectedIn(rows, f, limit);
      recs := RecordsOf(rows, keys);
    }

    /** `SELECT ... WHERE key = k`: the row under that key, if any. */
    method SelectRow(k: int) returns (row: Option<Row>)
      ensures row.Some? <==> k in rows
      ensures row.Some? ==> row.value == rows[k]
    {
      if k in rows {
        row := Some(rows[k]);
      } else {
        row := None;
      }
    }

    /** `SELECT MAX(key)`. */
    method SelectMax() returns (m: Option<int>)
      ensures m == MaxKey(rows)
    {
      if rows == map[] {
        m := None;
      } else {
        assert rows.Keys != {} by {
          assert rows.Keys == {} ==> rows == map[];
        }
        MaxExists(rows.Keys);
        var x :| IsMax(x, rows.Keys);
        m := Some(x);
      }
    }

    /** Runs one write statement; the engine reports its raw row count. */
    method Run(cmd: Command) returns (raw: int)
      requires Applicable(rows, cmd)
      modifies this
      ensures rows == Apply(old(rows), cmd)
      ensures raw == RawCount(old(rows), cmd)
    {
      raw := RawCount(rows, cmd);
      rows := Apply(rows, cmd);
    }
  }
}
