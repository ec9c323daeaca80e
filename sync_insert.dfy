/**
 * The insert strategy: copy to the target the source rows whose primary
 * key lies above the target's largest key, in key order, at most
 * `db_insert_limit_select` read and `db_insert_limit` written, in batches of
 * `db_insert_batch_size` rows.
 */
module SyncInsert {
  import opened Common
  import opened Text
  import opened Store
  import opened Sql

  /** The rows the streaming read returns: keys above `w`, ascending, `LIMIT` applied. */
  ghost function Stream(config: Config, source: map<int, Row>, w: int): (recs: seq<Record>)
    ensures KeysOf(recs) == Selected(source, KeyAbove(w), Some(config.dbInsertLimitSelect))
  {
    SelectedIn(source, KeyAbove(w), Some(config.dbInsertLimitSelect));
    RecordsOf(source, Selected(source, KeyAbove(w), Some(config.dbInsertLimitSelect)))
  }

  /** The rows one run copies: the stream cut off at the insert limit. */
  ghost function InsertPlan(config: Config, source: map<int, Row>, target: map<int, Row>): seq<Record>
  {
    Take(Stream(config, source, MaxOrZero(MaxKey(target))), config.dbInsertLimit)
  }

  /** The batches `execute_many` receives: full batches of `b` rows, then the rest. */
  function Chunks(s: seq<Record>, b: int): (cs: seq<seq<Record>>)
    requires b >= 1
    decreases |s|
  {
    if s == [] then []
    else if |s| <= b then [s]
    else [s[..b]] + Chunks(s[b..], b)
  }

  function Flatten(cs: seq<seq<Record>>): seq<Record>
  {
    if cs == [] then [] else cs[0] + Flatten(cs[1..])
  }

  /** The batches cover the rows in order, none is empty, and all but the last are full. */
  lemma {:induction false} ChunksSpec(s: seq<Record>, b: int)
    requires b >= 1
    ensures Flatten(Chunks(s, b)) == s
    ensures forall j :: 0 <= j < |Chunks(s, b)| ==> 1 <= |Chunks(s, b)[j]| <= b
    ensures forall j :: 0 <= j < |Chunks(s, b)| - 1 ==> |Chunks(s, b)[j]| == b
    decreases |s|
  {
    if |s| > b {
      ChunksSpec(s[b..], b);
      var cs := Chunks(s, b);
      assert cs[1..] == Chunks(s[b..], b);
      assert s[..b] + s[b..] == s;
      forall j | 0 <= j < |cs| ensures 1 <= |cs[j]| <= b && (j < |cs| - 1 ==> |cs[j]| == b) {
        if j > 0 {
          assert cs[j] == Chunks(s[b..], b)[j - 1];
        }
      }
    } else if s != [] {
      assert Flatten([s]) == s + Flatten([]);
    }
  }

  /** A full prefix of batches followed by one more batch of at most `b` rows. */
  lemma {:induction false} ChunksAppend(a: seq<Record>, c: seq<Record>, b: int, k: nat)
    requires b >= 1 && |a| == k * b && 1 <= |c| <= b
    ensures Chunks(a + c, b) == Chunks(a, b) + [c]
    decreases k
  {
    if k == 0 {
      assert a + c == c;
    } else {
      assert |a| == (k - 1) * b + b;
      var rest := a[b..];
      assert |rest| == (k - 1) * b;
      ChunksAppend(rest, c, b, k - 1);
      assert (a + c)[..b] == a[..b];
      assert (a + c)[b..] == rest + c;
      if |a| > b {
        assert Chunks(a, b) == [a[..b]] + Chunks(rest, b);
      } else {
        assert rest == [];
        assert Chunks(a, b) == [a];
      }
    }
  }

  /** The remainder is unique: `x % b` for `x = q * b + r`. */
  lemma ModUnique(x: int, b: int, q: int, r: int)
    requires b >= 1 && x == q * b + r && 0 <= r < b
    ensures x % b == r
  {
    var d := q - x / b;
    assert d * b == x % b - r;
    assert d == 0 by {
      MulBound(d, b);
    }
  }

  lemma MulBound(d: int, b: int)
    requires b >= 1
    ensures d >= 1 ==> d * b >= b
    ensures d <= -1 ==> d * b <= -b
  {
  }

  /** After `k` full batches, the row counter is a multiple of `b` exactly when the pending batch is full. */
  lemma BatchBoundary(k: nat, b: int, p: int)
    requires b >= 1 && 1 <= p <= b
    ensures (k * b + p) % b == 0 <==> p == b
    ensures k * b + b == (k + 1) * b
  {
    if p == b {
      ModUnique(k * b + p, b, k + 1, 0);
    } else {
      ModUnique(k * b + p, b, k, p);
    }
  }

  /**
   * The keys of the stream are above every key of the target and ascend, so
   * no batch ever collides with a target row or with another batch's rows.
   */
  lemma Fresh(t0: map<int, Row>, w: int, stream: seq<Record>, nf: int, i: int)
    requires forall k :: k in t0 ==> k <= w
    requires forall j :: 0 <= j < |stream| ==> stream[j].key > w
    requires StrictlyIncreasing(KeysOf(stream))
    requires 0 <= nf <= i <= |stream|
    ensures Applicable(t0 + ToMap(stream[..nf]), InsertRows(stream[nf..i]))
  {
    var pending := stream[nf..i];
    forall x, y | 0 <= x < y < |KeysOf(pending)| ensures KeysOf(pending)[x] != KeysOf(pending)[y] {
      assert KeysOf(stream)[nf + x] < KeysOf(stream)[nf + y];
    }
    forall r | r in pending ensures r.key !in t0 + ToMap(stream[..nf]) {
      var j :| 0 <= j < |pending| && pending[j] == r;
      assert r == stream[nf + j];
      forall m | 0 <= m < nf ensures KeysOf(stream[..nf])[m] != r.key {
        assert KeysOf(stream)[m] < KeysOf(stream)[nf + j];
      }
    }
  }

  /**
   * What the strategy knows about the stream before writing: it holds source
   * rows above every target key, ascending; and a source key above the
   * watermark is left out only when the read is full and every streamed key
   * lies below it.
   */
  lemma StreamFacts(config: Config, source: map<int, Row>, target: map<int, Row>)
    ensures var w := MaxOrZero(MaxKey(target));
      var stream := Stream(config, source, w);
      (forall k :: k in target ==> k <= w) &&
      (forall j :: 0 <= j < |stream| ==> stream[j].key > w && stream[j].key in source && stream[j].row == source[stream[j].key]) &&
      StrictlyIncreasing(KeysOf(stream))
    ensures var w := MaxOrZero(MaxKey(target));
      var stream := Stream(config, source, w);
      forall k :: k in source && k > w && k !in KeysOf(stream) ==>
        |stream| >= config.dbInsertLimitSelect && forall j :: 0 <= j < |stream| ==> stream[j].key < k
  {
    var w := MaxOrZero(MaxKey(target));
    var f := KeyAbove(w);
    var limit := Some(config.dbInsertLimitSelect);
    SelectedSpec(source, f, limit);
    var stream := Stream(config, source, w);
    var sel := Selected(source, f, limit);
    assert KeysOf(stream) == sel;
    forall j | 0 <= j < |stream| ensures stream[j].key > w {
      assert KeysOf(stream)[j] in sel;
    }
    forall k | k in source && k > w && k !in KeysOf(stream)
      ensures |stream| >= config.dbInsertLimitSelect && forall j :: 0 <= j < |stream| ==> stream[j].key < k
    {
      assert k in Matching(source, f);
      SortedSpec(Matching(source, f));
      assert k in Sorted(Matching(source, f));
      assert sel == Sorted(Matching(source, f))[..|sel|];
      forall j | 0 <= j < |stream| ensures stream[j].key < k {
        assert sel[j] == stream[j].key;
      }
    }
  }

  /** The text `InsertStatement` builds for a table and its first row. */
  function InsertText(style: Style, tableName: string, row: Row): string
  {
    "INSERT INTO " + tableName + " (" + RStrip(Terminated(Columns(row), ", "), {',', ' '})
      + ") VALUES (" + RStrip(Terminated(Placeholders(style, Columns(row)), ", "), {',', ' '}) + ")"
  }

  /**
   * The statement a batch is inserted with: the first row's columns and one
   * placeholder per column, each list built as `item, ` and right-stripped.
   */
  method InsertStatement(style: Style, tableName: string, row: Row) returns (text: string)
    ensures text == InsertText(style, tableName, row)
  {
    var names, values := ColumnLists(style, row);
    names := RStrip(names, {',', ' '});
    values := RStrip(values, {',', ' '});
    text := "INSERT INTO " + tableName + " (" + names + ") VALUES (" + values + ")";
  }

  /** The loop over the first row's columns: each name, and its placeholder, followed by `, `. */
  method ColumnLists(style: Style, row: Row) returns (names: string, values: string)
    ensures names == Terminated(Columns(row), ", ")
    ensures values == Terminated(Placeholders(style, Columns(row)), ", ")
  {
    var cols := Columns(row);
    var marks := Placeholders(style, cols);
    names := "";
    values := "";
    var j := 0;
    while j < |row|
      invariant 0 <= j <= |row|
      invariant names == Terminated(cols[..j], ", ")
      invariant values == Terminated(marks[..j], ", ")
    {
      TerminatedSnoc(cols, ", ", j);
      TerminatedSnoc(marks, ", ", j);
      names := names + row[j].0 + ", ";
      values := values + Placeholder(style, row[j].0) + ", ";
      j := j + 1;
    }
    assert cols[..j] == cols && marks[..j] == marks;
  }

  /**
   * For a row whose last column name ends cleanly, the statement lists the
   * columns and their placeholders comma-separated, and every row with those
   * columns, passed as it is, binds exactly its own values.
   */
  lemma InsertStatementBinds(style: Style, first: Row, row: Row)
    requires style != QMark
    requires first != [] && CleanTail(first[|first| - 1].0)
    requires Columns(row) == Columns(first) && DistinctColumns(row)
    ensures RStrip(Terminated(Columns(first), ", "), {',', ' '}) == Join(Columns(first), ", ")
    ensures RStrip(Terminated(Placeholders(style, Columns(first)), ", "), {',', ' '}) == Join(Placeholders(style, Columns(first)), ", ")
    ensures Bind(style, Placeholders(style, Columns(first)), Named(row)) == Some(Values(row))
  {
    var cols := Columns(first);
    var marks := Placeholders(style, cols);
    assert RStrip(Terminated(cols, ", "), {',', ' '}) == Join(cols, ", ") by {
      StripList(cols);
    }
    assert RStrip(Terminated(marks, ", "), {',', ' '}) == Join(marks, ", ") by {
      PlaceholderClean(style, cols[|cols| - 1]);
      StripList(marks);
    }
    RowBinds(style, row);
  }

  /** A comma-terminated list of cleanly ending items strips back to the joined list. */
  lemma StripList(items: seq<string>)
    requires items != [] && CleanTail(items[|items| - 1])
    ensures RStrip(Terminated(items, ", "), {',', ' '}) == Join(items, ", ")
  {
    TerminatedJoin(items, ", ");
    JoinEndsWithLast(items, ", ");
    RStripSuffix(Join(items, ", "), ", ", {',', ' '});
  }

  /** The stream's keys lie above every target key and ascend. */
  ghost predicate StreamAbove(t0: map<int, Row>, w: int, stream: seq<Record>)
  {
    (forall k :: k in t0 ==> k <= w) &&
    (forall j :: 0 <= j < |stream| ==> stream[j].key > w) &&
    StrictlyIncreasing(KeysOf(stream))
  }

  /**
   * `execute_many` of the pending rows `stream[nf..i]`, after the full
   * batches `batches`; returns the running total and the batches so far.
   */
  method Flush(sql: Sql, target: Cursor, insertSql: string, stream: seq<Record>, pending: seq<Record>,
               total: int, ghost batches: seq<seq<Record>>, ghost t0: map<int, Row>, ghost w: int,
               ghost nf: int, i: int)
    returns (total': int, ghost batches': seq<seq<Record>>)
    requires LimitsPositive(sql.config) && StreamAbove(t0, w, stream)
    requires 0 <= nf < i <= |stream| && nf == |batches| * sql.config.dbInsertBatchSize
    requires i - nf <= sql.config.dbInsertBatchSize
    requires pending == stream[nf..i] && batches == Chunks(stream[..nf], sql.config.dbInsertBatchSize)
    requires total == if sql.config.dryRun then 0 else nf
    requires target.rows == After(sql.config.dryRun, t0, stream[..nf])
    modifies target
    ensures total' == if sql.config.dryRun then 0 else i
    ensures batches' == Chunks(stream[..i], sql.config.dbInsertBatchSize) && batches' == batches + [pending]
    ensures target.rows == After(sql.config.dryRun, t0, stream[..i])
  {
    FlushFacts(t0, w, stream, nf, i, sql.config.dbInsertBatchSize, |batches|);
    var res := sql.ExecuteMany(target, insertSql, pending);
    total' := total + res.value;
    batches' := batches + [pending];
  }

  /** Writing `stream[nf..i]` after the first `k` full batches: fresh keys, one more batch. */
  lemma FlushFacts(t0: map<int, Row>, w: int, stream: seq<Record>, nf: int, i: int, b: int, k: nat)
    requires StreamAbove(t0, w, stream)
    requires 0 <= nf < i <= |stream| && b >= 1 && nf == k * b && i - nf <= b
    ensures Applicable(t0 + ToMap(stream[..nf]), InsertRows(stream[nf..i]))
    ensures Chunks(stream[..i], b) == Chunks(stream[..nf], b) + [stream[nf..i]]
    ensures (t0 + ToMap(stream[..nf])) + ToMap(stream[nf..i]) == t0 + ToMap(stream[..i])
  {
    Fresh(t0, w, stream, nf, i);
    SliceJoin(stream, nf, i);
    ChunksAppend(stream[..nf], stream[nf..i], b, k);
    ToMapAppend(stream[..nf], stream[nf..i]);
    UnionAssoc(t0, ToMap(stream[..nf]), ToMap(stream[nf..i]));
  }

  lemma SliceJoin(s: seq<Record>, a: int, b: int)
    requires 0 <= a <= b <= |s|
    ensures s[..a] + s[a..b] == s[..b]
  {
  }

  lemma SliceSnoc(s: seq<Record>, a: int, b: int)
    requires 0 <= a <= b < |s|
    ensures s[a..b] + [s[b]] == s[a..b + 1]
  {
  }

  /** The target after copying `copied`: unchanged by a dry run. */
  ghost function After(dryRun: bool, t0: map<int, Row>, copied: seq<Record>): map<int, Row>
  {
    if dryRun then t0 else t0 + ToMap(copied)
  }

  /** Where the loop stops: after the limit's row, or at the end of the stream. */
  lemma StopPoint(stream: seq<Record>, i: int, limit: int)
    requires 0 <= i <= |stream| && 1 <= limit
    requires i == limit || (i == |stream| && i < limit)
    ensures stream[..i] == Take(stream, limit)
  {
  }

  lemma UnionAssoc(x: map<int, Row>, y: map<int, Row>, z: map<int, Row>)
    ensures (x + y) + z == x + (y + z)
  {
  }

  /**
   * The loop of `sync_insert`: counts the rows, builds the statement from
   * the first row, stops after `db_insert_limit` rows, writes a batch each
   * time the count reaches a multiple of the batch size, then the rest.
   */
  method CopyStream(sql: Sql, target: Cursor, tableName: string, stream: seq<Record>,
                    ghost t0: map<int, Row>, ghost w: int)
    returns (total: int, ghost batches: seq<seq<Record>>)
    requires LimitsPositive(sql.config) && StreamAbove(t0, w, stream)
    requires target.rows == t0
    modifies target
    ensures var copied := Take(stream, sql.config.dbInsertLimit);
      && total == (if sql.config.dryRun then 0 else |copied|)
      && batches == Chunks(copied, sql.config.dbInsertBatchSize)
      && target.rows == After(sql.config.dryRun, t0, copied)
  {
    var batchSize := sql.config.dbInsertBatchSize;
    var limit := sql.config.dbInsertLimit;
    batches := [];
    var pending: seq<Record> := [];
    var insertSql := "";
    var rowNbr := 0;
    total := 0;
    var i := 0;
    ghost var nf := 0;
    while i < |stream|
      invariant 0 <= nf <= i <= |stream| && rowNbr == i && i < limit
      invariant nf == |batches| * batchSize && i - nf < batchSize
      invariant pending == stream[nf..i]
      invariant batches == Chunks(stream[..nf], batchSize)
      invariant total == if sql.config.dryRun then 0 else nf
      invariant target.rows == After(sql.config.dryRun, t0, stream[..nf])
    {
      var rec := stream[i];
      rowNbr := rowNbr + 1;
      if i == 0 {
        insertSql := InsertStatement(sql.paramStyle, tableName, rec.row);
      }
      SliceSnoc(stream, nf, i);
      pending := pending + [rec];
      i := i + 1;
      if rowNbr >= limit {
        break;
      }
      pending, total, batches, nf := EndOfRow(sql, target, insertSql, stream, pending, total, batches, t0, w, nf, i, rowNbr);
    }
    StopPoint(stream, i, limit);
    total, batches := FlushRest(sql, target, insertSql, stream, pending, total, batches, t0, w, nf, i);
  }

  /** The end of the loop's body: when the count reaches a multiple of the batch size, the batch is written. */
  method EndOfRow(sql: Sql, target: Cursor, insertSql: string, stream: seq<Record>, pending: seq<Record>,
                  total: int, ghost batches: seq<seq<Record>>, ghost t0: map<int, Row>, ghost w: int,
                  ghost nf: int, i: int, rowNbr: int)
    returns (pending': seq<Record>, total': int, ghost batches': seq<seq<Record>>, ghost nf': int)
    requires LimitsPositive(sql.config) && StreamAbove(t0, w, stream)
    requires 0 <= nf < i <= |stream| && rowNbr == i && nf == |batches| * sql.config.dbInsertBatchSize
    requires i - nf <= sql.config.dbInsertBatchSize
    requires pending == stream[nf..i] && batches == Chunks(stream[..nf], sql.config.dbInsertBatchSize)
    requires total == if sql.config.dryRun then 0 else nf
    requires target.rows == After(sql.config.dryRun, t0, stream[..nf])
    modifies target
    ensures 0 <= nf' <= i && nf' == |batches'| * sql.config.dbInsertBatchSize && i - nf' < sql.config.dbInsertBatchSize
    ensures pending' == stream[nf'..i] && batches' == Chunks(stream[..nf'], sql.config.dbInsertBatchSize)
    ensures total' == if sql.config.dryRun then 0 else nf'
    ensures target.rows == After(sql.config.dryRun, t0, stream[..nf'])
  {
    var batchSize := sql.config.dbInsertBatchSize;
    BatchBoundary(|batches|, batchSize, |pending|);
    if rowNbr % batchSize == 0 {
      total', batches' := Flush(sql, target, insertSql, stream, pending, total, batches, t0, w, nf, i);
      nf' := i;
      pending' := [];
    } else {
      pending', total', batches', nf' := pending, total, batches, nf;
    }
  }

  /** After the loop: the rows still pending, if any, form the last batch. */
  method FlushRest(sql: Sql, target: Cursor, insertSql: string, stream: seq<Record>, pending: seq<Record>,
                   total: int, ghost batches: seq<seq<Record>>, ghost t0: map<int, Row>, ghost w: int,
                   ghost nf: int, i: int)
    returns (total': int, ghost batches': seq<seq<Record>>)
    requires LimitsPositive(sql.config) && StreamAbove(t0, w, stream)
    requires 0 <= nf <= i <= |stream| && nf == |batches| * sql.config.dbInsertBatchSize
    requires i - nf <= sql.config.dbInsertBatchSize
    requires pending == stream[nf..i] && batches == Chunks(stream[..nf], sql.config.dbInsertBatchSize)
    requires total == if sql.config.dryRun then 0 else nf
    requires target.rows == After(sql.config.dryRun, t0, stream[..nf])
    modifies target
    ensures total' == if sql.config.dryRun then 0 else i
    ensures batches' == Chunks(stream[..i], sql.config.dbInsertBatchSize)
    ensures target.rows == After(sql.config.dryRun, t0, stream[..i])
  {
    if |pending| > 0 {
      total', batches' := Flush(sql, target, insertSql, stream, pending, total, batches, t0, w, nf, i);
    } else {
      total', batches' := total, batches;
    }
  }

  /**
   * `sync_insert`.  The cursors stand for the two connections' tables; the
   * ghost result lists the batches written, in order.
   */
  method SyncInsert(sql: Sql, source: Cursor, target: Cursor, table: TableDescriptor)
    returns (r: Result<SyncResult>, ghost batches: seq<seq<Record>>)
    requires LimitsPositive(sql.config)
    requires source != target
    modifies sql, target
    ensures r.Err? <==> (EngineStyle(sql.config.dbEngine).Err? ||
      ResolveField(table.primaryField, sql.config.dbPrimaryField, "primary field", table.name).Err?)
    ensures EngineStyle(sql.config.dbEngine).Err? ==> r == Err(EngineStyle(sql.config.dbEngine).error)
    ensures r.Err? ==> target.rows == old(target.rows)
    ensures r.Ok? ==> var plan := InsertPlan(sql.config, source.rows, old(target.rows));
      && r.value == SyncResult(table.name, if sql.config.dryRun then 0 else |plan|, table.taskId)
      && batches == Chunks(plan, sql.config.dbInsertBatchSize)
      && target.rows == if sql.config.dryRun then old(target.rows) else old(target.rows) + ToMap(plan)
  {
    batches := [];
    var connected := sql.Connect();
    if connected.Err? {
      r := Err(connected.error);
      return;
    }
    connected := sql.Connect();
    var field := ResolveField(table.primaryField, sql.config.dbPrimaryField, "primary field", table.name);
    if field.Err? {
      r := Err(field.error);
      return;
    }
    var maxTarget := target.SelectMax();
    var w := MaxOrZero(maxTarget);
    var stream := source.SelectOrdered(KeyAbove(w), Some(sql.config.dbInsertLimitSelect));
    StreamFacts(sql.config, source.rows, target.rows);
    assert stream == Stream(sql.config, source.rows, w);
    var total;
    total, batches := CopyStream(sql, target, table.name, stream, target.rows, w);
    r := Ok(SyncResult(table.name, total, table.taskId));
  }

  /** `[lo, lo + 1, ..., hi - 1]`. */
  function Range(lo: int, hi: int): (r: seq<int>)
    ensures |r| == if hi <= lo then 0 else hi - lo
    ensures forall i :: 0 <= i < |r| ==> r[i] == lo + i
  {
    if hi <= lo then [] else seq(hi - lo, i requires 0 <= i < hi - lo => lo + i)
  }

  /**
   * Source keys `1..n`, target keys `1..t` (`t <= n`): a run copies the keys
   * `t+1, t+2, ...` up to the smaller of the two limits, and no further than `n`.
   */
  lemma ContiguousInsert(config: Config, source: map<int, Row>, target: map<int, Row>, n: int, t: int)
    requires LimitsPositive(config)
    requires 0 <= t <= n
    requires forall k :: k in source <==> 1 <= k <= n
    requires forall k :: k in target <==> 1 <= k <= t
    ensures var lim := if config.dbInsertLimit < config.dbInsertLimitSelect then config.dbInsertLimit else config.dbInsertLimitSelect;
      KeysOf(InsertPlan(config, source, target)) == Range(t + 1, if t + lim < n then t + lim + 1 else n + 1)
  {
    var lim := if config.dbInsertLimit < config.dbInsertLimitSelect then config.dbInsertLimit else config.dbInsertLimitSelect;
    MaxOfRange(target, t);
    SortedRange(source, n, t);
    var stream := Stream(config, source, t);
    var all := Range(t + 1, n + 1);
    assert KeysOf(stream) == Take(all, config.dbInsertLimitSelect);
    var plan := Take(stream, config.dbInsertLimit);
    assert KeysOf(plan) == KeysOf(stream)[..|plan|];
  }

  /** A table keyed `1..t` has largest key `t`, or none (read as 0) when `t` is 0. */
  lemma MaxOfRange(target: map<int, Row>, t: int)
    requires 0 <= t
    requires forall k :: k in target <==> 1 <= k <= t
    ensures MaxOrZero(MaxKey(target)) == t
  {
    if t == 0 {
      assert target == map[] by {
        assert forall k :: k !in target;
      }
    } else {
      assert IsMax(t, target.Keys);
    }
  }

  /** The keys of a table keyed `1..n` above `t`, in order, are `t+1..n`. */
  lemma SortedRange(source: map<int, Row>, n: int, t: int)
    requires 0 <= t <= n
    requires forall k :: k in source <==> 1 <= k <= n
    ensures Sorted(Matching(source, KeyAbove(t))) == Range(t + 1, n + 1)
  {
    var above := Matching(source, KeyAbove(t));
    var all := Range(t + 1, n + 1);
    forall x ensures x in all <==> x in above {
      if x in above {
        assert all[x - t - 1] == x;
      }
    }
    SortedUnique(above, all);
  }
}
