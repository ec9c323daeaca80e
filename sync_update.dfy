/**
 * The update strategy: rewrite in the target every row the source changed
 * since a point in time, in key order, at most `db_update_limit_select`
 * read, stopping once `db_update_limit` rows were reported updated;
 * optionally skipping rows whose modified value already matches the target.
 */
module SyncUpdate {
  import opened Common
  import opened Text
  import opened Store
  import opened Sql

  /** The modified field, falling back to the configured `db_update_modified_field`. */
  function ModifiedField(config: Config, table: TableDescriptor): (r: Result<string>)
    ensures table.modifiedField.None? && config.dbUpdateModifiedField != "" ==> r == Ok(config.dbUpdateModifiedField)
    ensures table.modifiedField.Some? ==> r == ResolveField(table.modifiedField, "", "modified field", table.name)
  {
    ResolveField(table.modifiedField, config.dbUpdateModifiedField, "modified field", table.name)
  }

  /**
   * The modified field as the code reads it: without a per-table value it
   * asks the configuration for `db_modified_field`, an attribute the
   * configuration object does not have.
   */
  function ModifiedFieldAsWritten(config: Config, table: TableDescriptor): (r: Result<string>)
    ensures table.modifiedField.None? ==> r.Err? && r.error.AttributeError?
    ensures table.modifiedField.Some? ==> r == ModifiedField(config, table)
  {
    if table.modifiedField.Some? then ResolveField(table.modifiedField, "", "modified field", table.name)
    else Err(AttributeError("'Config' object has no attribute 'db_modified_field'"))
  }

  /** A configured default modified field is never used by the code as written. */
  lemma ModifiedFieldDefaultIgnored(config: Config, name: string)
    requires config.dbUpdateModifiedField != ""
    ensures ModifiedField(config, TableDescriptor(name, None, None, None, 0)) == Ok(config.dbUpdateModifiedField)
    ensures ModifiedFieldAsWritten(config, TableDescriptor(name, None, None, None, 0)).Err?
  {
  }

  /**
   * Everything resolved before the first read, in the order the strategy
   * checks it: modified field, modified-from date, primary field, and the
   * parsed date (`parseDate` stands for the date parser; `None` is an
   * unparseable text).  The result is the modified field and the instant.
   */
  function UpdateFields(config: Config, table: TableDescriptor, parseDate: string -> Option<int>): (r: Result<(string, int)>)
    ensures r.Ok? <==> (ModifiedField(config, table).Ok?
      && ResolveField(table.modifiedFromDate, config.dbUpdateModifiedFromDate, "modified from date", table.name).Ok?
      && ResolveField(table.primaryField, config.dbPrimaryField, "primary field", table.name).Ok?
      && parseDate(ResolveField(table.modifiedFromDate, config.dbUpdateModifiedFromDate, "modified from date", table.name).value).Some?)
    ensures ModifiedField(config, table).Err? ==> r == Err(ModifiedField(config, table).error)
    ensures r.Ok? ==> r.value.0 == ModifiedField(config, table).value && r.value.0 != ""
    ensures r.Ok? ==> r.value.1 == parseDate(ResolveField(table.modifiedFromDate, config.dbUpdateModifiedFromDate, "modified from date", table.name).value).value
  {
    var modified := ModifiedField(config, table);
    if modified.Err? then Err(modified.error)
    else
      var from := ResolveField(table.modifiedFromDate, config.dbUpdateModifiedFromDate, "modified from date", table.name);
      if from.Err? then Err(from.error)
      else
        var primary := ResolveField(table.primaryField, config.dbPrimaryField, "primary field", table.name);
        if primary.Err? then Err(primary.error)
        else
          var since := parseDate(from.value);
          if since.None? then Err(AttributeError("'NoneType' object has no attribute 'isoformat'"))
          else Ok((modified.value, since.value))
  }

  /** The target's row under a key, as the single-row read returns it. */
  function RowAt(rows: map<int, Row>, k: int): (r: Option<Row>)
    ensures r.Some? <==> k in rows
    ensures r.Some? ==> r.value == rows[k]
  {
    if k in rows then Some(rows[k]) else None
  }

  /** The timestamp comparison: the target already holds the source row's modified value. */
  predicate Skip(targetRow: Option<Row>, field: string, row: Row)
  {
    targetRow.Some? && Get(targetRow.value, field) == Get(row, field)
  }

  /**
   * The timestamp comparison as written: the whole target row (or its
   * absence) is compared with the source row's modified value, which can
   * only be equal when there is no target row and the value is NULL.
   */
  predicate SkipAsWritten(targetRow: Option<Row>, field: string, row: Row)
  {
    targetRow.None? && Get(row, field) == Some(Null)
  }

  /** No row the read returns is ever skipped by the comparison as written. */
  lemma NeverSkipsAsWritten(targetRow: Option<Row>, field: string, since: int, k: int, row: Row)
    requires Matches(ModifiedSince(field, since), k, row)
    ensures !SkipAsWritten(targetRow, field, row)
  {
  }

  /** A target row identical to the source row is skipped, though the code as written rewrites it. */
  lemma IdenticalRowSkipped(field: string, since: int, k: int, row: Row)
    requires Matches(ModifiedSince(field, since), k, row)
    ensures Skip(Some(row), field, row)
    ensures !SkipAsWritten(Some(row), field, row)
  {
  }

  /**
   * The effect of the update loop on the target and the running total:
   * each row is skipped (timestamp comparison), or written, adding the
   * reported count; the loop stops once the total reaches the limit.
   */
  ghost function UpdateRun(config: Config, field: string, stream: seq<Record>, target: map<int, Row>, total: int): (map<int, Row>, int)
    decreases |stream|
  {
    if stream == [] then (target, total)
    else
      var rec := stream[0];
      if config.dbUpdateCompareMethod == "timestamp" && Skip(RowAt(target, rec.key), field, rec.row) then
        UpdateRun(config, field, stream[1..], target, total)
      else
        var n := if config.dryRun then 0 else RawCount(target, UpdateRow(rec));
        var next := if config.dryRun then target else Apply(target, UpdateRow(rec));
        if total + n >= config.dbUpdateLimit then (next, total + n)
        else UpdateRun(config, field, stream[1..], next, total + n)
  }

  /** The total never passes the limit, and grows by at most one per row read. */
  lemma {:induction false} UpdateBound(config: Config, field: string, stream: seq<Record>, target: map<int, Row>, total: int)
    requires 0 <= total < config.dbUpdateLimit
    ensures total <= UpdateRun(config, field, stream, target, total).1 <= config.dbUpdateLimit
    ensures UpdateRun(config, field, stream, target, total).1 <= total + |stream|
    decreases |stream|
  {
    if stream != [] {
      var rec := stream[0];
      var next := if config.dryRun then target else Apply(target, UpdateRow(rec));
      UpdateBound(config, field, stream[1..], target, total);
      var n := if config.dryRun then 0 else RawCount(target, UpdateRow(rec));
      if total + n < config.dbUpdateLimit {
        UpdateBound(config, field, stream[1..], next, total + n);
      }
    }
  }

  /** A dry run changes nothing and reports nothing. */
  lemma {:induction false} UpdateDryRun(config: Config, field: string, stream: seq<Record>, target: map<int, Row>, total: int)
    requires config.dryRun && total < config.dbUpdateLimit
    ensures UpdateRun(config, field, stream, target, total) == (target, total)
    decreases |stream|
  {
    if stream != [] {
      UpdateDryRun(config, field, stream[1..], target, total);
    }
  }

  /**
   * Updating never adds or removes a row, and every row it changes now holds
   * the source row of the same key.
   */
  lemma {:induction false} UpdateOnlyRewrites(config: Config, field: string, stream: seq<Record>, target: map<int, Row>, total: int)
    ensures UpdateRun(config, field, stream, target, total).0.Keys == target.Keys
    ensures forall k :: k in target ==>
      UpdateRun(config, field, stream, target, total).0[k] == target[k] ||
      exists j :: 0 <= j < |stream| && stream[j].key == k && stream[j].row == UpdateRun(config, field, stream, target, total).0[k]
    decreases |stream|
  {
    if stream != [] {
      var rec := stream[0];
      var next := if config.dryRun then target else Apply(target, UpdateRow(rec));
      var n := if config.dryRun then 0 else RawCount(target, UpdateRow(rec));
      var skip := config.dbUpdateCompareMethod == "timestamp" && Skip(RowAt(target, rec.key), field, rec.row);
      var result := UpdateRun(config, field, stream, target, total);
      if skip || total + n < config.dbUpdateLimit {
        var t1 := if skip then target else next;
        var n1 := if skip then total else total + n;
        UpdateOnlyRewrites(config, field, stream[1..], t1, n1);
        assert result == UpdateRun(config, field, stream[1..], t1, n1);
        forall k | k in target ensures result.0[k] == target[k] ||
          exists j :: 0 <= j < |stream| && stream[j].key == k && stream[j].row == result.0[k]
        {
          if result.0[k] != t1[k] {
            var j :| 0 <= j < |stream[1..]| && stream[1..][j].key == k && stream[1..][j].row == result.0[k];
            assert stream[j + 1] == stream[1..][j];
          } else if t1[k] != target[k] {
            assert stream[0].key == k && stream[0].row == result.0[k];
          }
        }
      } else {
        forall k | k in target ensures result.0[k] == target[k] ||
          exists j :: 0 <= j < |stream| && stream[j].key == k && stream[j].row == result.0[k]
        {
          if result.0[k] != target[k] {
            assert stream[0].key == k && stream[0].row == result.0[k];
          }
        }
      }
    }
  }

  /**
   * Without the comparison, when every row read exists in the target, the
   * run reports one row per row read until the limit.
   */
  lemma {:induction false} UpdateCountsRows(config: Config, field: string, stream: seq<Record>, target: map<int, Row>, total: int)
    requires !config.dryRun && config.dbUpdateCompareMethod != "timestamp"
    requires 0 <= total < config.dbUpdateLimit
    requires forall j :: 0 <= j < |stream| ==> stream[j].key in target
    ensures UpdateRun(config, field, stream, target, total).1 ==
      if total + |stream| < config.dbUpdateLimit then total + |stream| else config.dbUpdateLimit
    decreases |stream|
  {
    if stream != [] {
      var rec := stream[0];
      var next := Apply(target, UpdateRow(rec));
      assert next.Keys == target.Keys;
      if total + 1 < config.dbUpdateLimit {
        forall j | 0 <= j < |stream[1..]| ensures stream[1..][j].key in next {
          assert stream[1..][j] == stream[j + 1];
        }
        UpdateCountsRows(config, field, stream[1..], next, total + 1);
      }
    }
  }

  /**
   * With the comparison on, rows whose modified value the target already
   * holds are not written and not counted.
   */
  lemma {:induction false} UpdateSkipsUnchanged(config: Config, field: string, stream: seq<Record>, target: map<int, Row>, total: int)
    requires config.dbUpdateCompareMethod == "timestamp"
    requires forall j :: 0 <= j < |stream| ==> Skip(RowAt(target, stream[j].key), field, stream[j].row)
    ensures UpdateRun(config, field, stream, target, total) == (target, total)
    decreases |stream|
  {
    if stream != [] {
      forall j | 0 <= j < |stream[1..]| ensures Skip(RowAt(target, stream[1..][j].key), field, stream[1..][j].row) {
        assert stream[1..][j] == stream[j + 1];
      }
      UpdateSkipsUnchanged(config, field, stream[1..], target, total);
    }
  }

  /** A key no row of the stream carries keeps its target row through the run. */
  lemma KeyUntouched(config: Config, field: string, stream: seq<Record>, target: map<int, Row>, total: int, k: int)
    requires k in target && k !in KeysOf(stream)
    ensures k in UpdateRun(config, field, stream, target, total).0
    ensures UpdateRun(config, field, stream, target, total).0[k] == target[k]
  {
    UpdateOnlyRewrites(config, field, stream, target, total);
    forall i | 0 <= i < |stream| ensures stream[i].key != k {
      assert KeysOf(stream)[i] == stream[i].key;
    }
  }

  /**
   * In timestamp mode, a row of a stream with distinct ascending keys whose
   * modified value the target already holds leaves that target row as it
   * was, wherever it sits in the stream.
   */
  lemma {:induction false} SkippedRowKept(config: Config, field: string, stream: seq<Record>, target: map<int, Row>, total: int, j: int)
    requires config.dbUpdateCompareMethod == "timestamp"
    requires StrictlyIncreasing(KeysOf(stream))
    requires 0 <= j < |stream|
    requires Skip(RowAt(target, stream[j].key), field, stream[j].row)
    ensures stream[j].key in UpdateRun(config, field, stream, target, total).0
    ensures UpdateRun(config, field, stream, target, total).0[stream[j].key] == target[stream[j].key]
    decreases |stream|
  {
    var k := stream[j].key;
    var rec := stream[0];
    var rest := stream[1..];
    assert KeysOf(rest) == KeysOf(stream)[1..];
    var next := if config.dryRun then target else Apply(target, UpdateRow(rec));
    var n := if config.dryRun then 0 else RawCount(target, UpdateRow(rec));
    var skip := Skip(RowAt(target, rec.key), field, rec.row);
    if j == 0 {
      assert skip;
      assert k !in KeysOf(rest) by {
        forall i | 0 <= i < |rest| ensures KeysOf(rest)[i] != k {
          assert KeysOf(stream)[0] < KeysOf(stream)[i + 1];
        }
      }
      KeyUntouched(config, field, rest, target, total, k);
    } else {
      assert rest[j - 1] == stream[j];
      assert rec.key < k by {
        assert KeysOf(stream)[0] < KeysOf(stream)[j];
      }
      if skip {
        SkippedRowKept(config, field, rest, target, total, j - 1);
      } else {
        assert RowAt(next, k) == RowAt(target, k);
        if total + n < config.dbUpdateLimit {
          SkippedRowKept(config, field, rest, next, total + n, j - 1);
        }
      }
    }
  }

  /** The rows of the stream the timestamp comparison does not skip against `target`. */
  function Unskipped(config: Config, field: string, stream: seq<Record>, target: map<int, Row>): (r: seq<Record>)
    ensures |r| <= |stream|
    ensures forall x :: x in r ==> x in stream
    decreases |stream|
  {
    if stream == [] then []
    else
      var rest := Unskipped(config, field, stream[1..], target);
      if config.dbUpdateCompareMethod == "timestamp" && Skip(RowAt(target, stream[0].key), field, stream[0].row) then rest
      else [stream[0]] + rest
  }

  /** The comparison against two targets that agree on the stream's keys keeps the same rows. */
  lemma {:induction false} UnskippedAgree(config: Config, field: string, stream: seq<Record>, t1: map<int, Row>, t2: map<int, Row>)
    requires forall i :: 0 <= i < |stream| ==> RowAt(t1, stream[i].key) == RowAt(t2, stream[i].key)
    ensures Unskipped(config, field, stream, t1) == Unskipped(config, field, stream, t2)
    decreases |stream|
  {
    if stream != [] {
      assert RowAt(t1, stream[0].key) == RowAt(t2, stream[0].key);
      forall i | 0 <= i < |stream[1..]| ensures RowAt(t1, stream[1..][i].key) == RowAt(t2, stream[1..][i].key) {
        assert stream[1..][i] == stream[i + 1];
      }
      UnskippedAgree(config, field, stream[1..], t1, t2);
    }
  }

  /** Writing the first row of a stream with ascending keys changes no comparison for the rows after it. */
  lemma WriteKeepsRestUnskipped(config: Config, field: string, stream: seq<Record>, target: map<int, Row>)
    requires stream != [] && StrictlyIncreasing(KeysOf(stream))
    ensures Unskipped(config, field, stream[1..], target)
      == Unskipped(config, field, stream[1..], Apply(target, UpdateRow(stream[0])))
  {
    var rest := stream[1..];
    var next := Apply(target, UpdateRow(stream[0]));
    forall i | 0 <= i < |rest| ensures RowAt(target, rest[i].key) == RowAt(next, rest[i].key) {
      assert KeysOf(stream)[0] < KeysOf(stream)[i + 1];
    }
    UnskippedAgree(config, field, rest, target, next);
  }

  /**
   * Skipped rows are neither written nor counted: over a stream with
   * distinct ascending keys, the run is the run over the rows the
   * comparison keeps, with the same final target and the same total.
   */
  lemma {:induction false} UpdateIgnoresSkipped(config: Config, field: string, stream: seq<Record>, target: map<int, Row>, total: int)
    requires StrictlyIncreasing(KeysOf(stream))
    ensures UpdateRun(config, field, stream, target, total)
      == UpdateRun(config, field, Unskipped(config, field, stream, target), target, total)
    decreases |stream|, 1
  {
    if stream != [] {
      assert KeysOf(stream[1..]) == KeysOf(stream)[1..];
      if config.dbUpdateCompareMethod == "timestamp" && Skip(RowAt(target, stream[0].key), field, stream[0].row) {
        IgnoresSkippedHead(config, field, stream, target, total);
      } else {
        IgnoresKeptHead(config, field, stream, target, total);
      }
    }
  }

  /** `UpdateIgnoresSkipped` when the first row is skipped. */
  lemma {:induction false} IgnoresSkippedHead(config: Config, field: string, stream: seq<Record>, target: map<int, Row>, total: int)
    requires stream != [] && StrictlyIncreasing(KeysOf(stream[1..]))
    requires config.dbUpdateCompareMethod == "timestamp" && Skip(RowAt(target, stream[0].key), field, stream[0].row)
    ensures UpdateRun(config, field, stream, target, total)
      == UpdateRun(config, field, Unskipped(config, field, stream, target), target, total)
    decreases |stream|, 0
  {
    var rest := stream[1..];
    assert Unskipped(config, field, stream, target) == Unskipped(config, field, rest, target);
    assert UpdateRun(config, field, stream, target, total) == UpdateRun(config, field, rest, target, total);
    UpdateIgnoresSkipped(config, field, rest, target, total);
  }

  /** `UpdateIgnoresSkipped` when the first row is written. */
  lemma {:induction false} IgnoresKeptHead(config: Config, field: string, stream: seq<Record>, target: map<int, Row>, total: int)
    requires stream != [] && StrictlyIncreasing(KeysOf(stream)) && StrictlyIncreasing(KeysOf(stream[1..]))
    requires !(config.dbUpdateCompareMethod == "timestamp" && Skip(RowAt(target, stream[0].key), field, stream[0].row))
    ensures UpdateRun(config, field, stream, target, total)
      == UpdateRun(config, field, Unskipped(config, field, stream, target), target, total)
    decreases |stream|, 0
  {
    var rec := stream[0];
    var rest := stream[1..];
    var kept := Unskipped(config, field, stream, target);
    var keptRest := Unskipped(config, field, rest, target);
    assert kept == [rec] + keptRest;
    assert kept != [] && kept[0] == rec && kept[1..] == keptRest;
    var next := if config.dryRun then target else Apply(target, UpdateRow(rec));
    var n := if config.dryRun then 0 else RawCount(target, UpdateRow(rec));
    if total + n < config.dbUpdateLimit {
      assert UpdateRun(config, field, stream, target, total) == UpdateRun(config, field, rest, next, total + n);
      assert UpdateRun(config, field, kept, target, total) == UpdateRun(config, field, keptRest, next, total + n);
      if !config.dryRun {
        WriteKeepsRestUnskipped(config, field, stream, target);
      }
      UpdateIgnoresSkipped(config, field, rest, next, total + n);
    }
  }

  /** The column names of a row without the primary field, in row order. */
  function Without(cols: seq<string>, key: string): (r: seq<string>)
    ensures forall x :: x in r <==> x in cols && x != key
  {
    if cols == [] then []
    else
      var last := cols[|cols| - 1];
      assert cols == cols[..|cols| - 1] + [last];
      Without(cols[..|cols| - 1], key) + (if last == key then [] else [last])
  }

  /** The `column = placeholder` items of the `SET` clause. */
  function Assignments(style: Style, fields: seq<string>): (r: seq<string>)
    ensures |r| == |fields| && forall i :: 0 <= i < |fields| ==> r[i] == fields[i] + " = " + Placeholder(style, fields[i])
  {
    seq(|fields|, i requires 0 <= i < |fields| => fields[i] + " = " + Placeholder(style, fields[i]))
  }

  lemma TerminatedAppend(items: seq<string>, x: string, sep: string)
    ensures Terminated(items + [x], sep) == Terminated(items, sep) + x + sep
  {
    var all := items + [x];
    TerminatedSnoc(all, sep, |items|);
    assert all[..|items| + 1] == all && all[..|items|] == items;
  }

  /** One more column adds its assignment to the list unless it is the key. */
  lemma AssignmentsStep(style: Style, cols: seq<string>, key: string, j: int)
    requires 0 <= j < |cols|
    ensures Terminated(Assignments(style, Without(cols[..j + 1], key)), ", ")
      == Terminated(Assignments(style, Without(cols[..j], key)), ", ")
        + (if cols[j] != key then cols[j] + " = " + Placeholder(style, cols[j]) + ", " else "")
  {
    assert cols[..j + 1][..j] == cols[..j];
    var fields := Without(cols[..j], key);
    if cols[j] != key {
      assert Without(cols[..j + 1], key) == fields + [cols[j]];
      assert Assignments(style, fields + [cols[j]]) == Assignments(style, fields) + [cols[j] + " = " + Placeholder(style, cols[j])];
      TerminatedAppend(Assignments(style, fields), cols[j] + " = " + Placeholder(style, cols[j]), ", ");
    } else {
      assert Without(cols[..j + 1], key) == fields;
    }
  }

  /** The text `UpdateStatement` builds for a table, its key and the first row. */
  function UpdateText(style: Style, tableName: string, key: string, row: Row): string
  {
    RStrip("UPDATE " + tableName + " SET " + Terminated(Assignments(style, Without(Columns(row), key)), ", "), {',', ' '})
      + " " + "WHERE " + key + " = " + Placeholder(style, key)
  }

  /**
   * The statement a row is written back with, built from the first row read:
   * every column but the primary field set from its placeholder, the list
   * right-stripped, then the key condition.
   */
  method UpdateStatement(style: Style, tableName: string, key: string, row: Row) returns (text: string)
    ensures text == UpdateText(style, tableName, key, row)
  {
    var list := SetList(style, row, key);
    text := "UPDATE " + tableName + " SET " + list;
    text := RStrip(text, {',', ' '});
    text := text + " ";
    text := text + "WHERE " + key + " = " + Placeholder(style, key);
  }

  /** The `SET` list before stripping: one `column = placeholder, ` per column but the key. */
  method SetList(style: Style, row: Row, key: string) returns (list: string)
    ensures list == Terminated(Assignments(style, Without(Columns(row), key)), ", ")
  {
    var cols := Columns(row);
    list := "";
    var j := 0;
    while j < |row|
      invariant 0 <= j <= |row|
      invariant list == Terminated(Assignments(style, Without(cols[..j], key)), ", ")
    {
      AssignmentsStep(style, cols, key, j);
      if cols[j] != key {
        list := list + (cols[j] + " = " + Placeholder(style, cols[j]) + ", ");
      }
      j := j + 1;
    }
    assert cols[..j] == cols;
  }

  /**
   * When the row has other columns than the key and the last of them ends
   * cleanly, the `SET` list is comma-separated, and the row, passed as it
   * is, binds each other column's value and then the key's value.
   */
  lemma UpdateStatementBinds(style: Style, tableName: string, key: string, row: Row)
    requires style != QMark && DistinctColumns(row) && key in Columns(row)
    requires var fields := Without(Columns(row), key); fields != [] && CleanTail(fields[|fields| - 1])
    ensures var fields := Without(Columns(row), key);
      RStrip("UPDATE " + tableName + " SET " + Terminated(Assignments(style, fields), ", "), {',', ' '})
        == "UPDATE " + tableName + " SET " + Join(Assignments(style, fields), ", ")
    ensures var fields := Without(Columns(row), key);
      forall i :: 0 <= i < |fields + [key]| ==> Get(row, (fields + [key])[i]).Some?
    ensures var fields := Without(Columns(row), key);
      Bind(style, Placeholders(style, fields) + [Placeholder(style, key)], ParamValues(style, row))
        == Some(Lookup(row, fields + [key]))
  {
    SetListStrips(style, tableName, key, row);
    UpdateParamsBind(style, key, row);
  }

  /** The `SET` list of a row whose last non-key column ends cleanly strips to the comma-joined list. */
  lemma SetListStrips(style: Style, tableName: string, key: string, row: Row)
    requires style != QMark
    requires var fields := Without(Columns(row), key); fields != [] && CleanTail(fields[|fields| - 1])
    ensures var fields := Without(Columns(row), key);
      RStrip("UPDATE " + tableName + " SET " + Terminated(Assignments(style, fields), ", "), {',', ' '})
        == "UPDATE " + tableName + " SET " + Join(Assignments(style, fields), ", ")
  {
    var fields := Without(Columns(row), key);
    var assigns := Assignments(style, fields);
    var last := fields[|fields| - 1];
    PlaceholderClean(style, last);
    assert assigns[|assigns| - 1] == last + " = " + Placeholder(style, last);
    assert Last(assigns[|assigns| - 1]) == Last(Placeholder(style, last));
    RStripTerminated(assigns, "UPDATE " + tableName + " SET ", ", ", {',', ' '});
  }

  /** The other columns' placeholders and then the key's bind, by name, the row's own values. */
  lemma UpdateParamsBind(style: Style, key: string, row: Row)
    requires style != QMark && DistinctColumns(row) && key in Columns(row)
    ensures var fields := Without(Columns(row), key);
      forall i :: 0 <= i < |fields + [key]| ==> Get(row, (fields + [key])[i]).Some?
    ensures var fields := Without(Columns(row), key);
      Bind(style, Placeholders(style, fields) + [Placeholder(style, key)], ParamValues(style, row))
        == Some(Lookup(row, fields + [key]))
  {
    var fields := Without(Columns(row), key);
    var all := fields + [key];
    forall i | 0 <= i < |all| ensures Get(row, all[i]).Some? {
      assert all[i] in Columns(row);
    }
    assert Placeholders(style, fields) + [Placeholder(style, key)] == Placeholders(style, all);
    NamedBinds(style, all, row);
  }

  /** The rows the streaming read returns: modified at or after `since`, by key, `LIMIT` applied. */
  ghost function Stream(config: Config, source: map<int, Row>, field: string, since: int): seq<Record>
  {
    SelectedIn(source, ModifiedSince(field, since), Some(config.dbUpdateLimitSelect));
    RecordsOf(source, Selected(source, ModifiedSince(field, since), Some(config.dbUpdateLimitSelect)))
  }

  /**
   * The body of the loop for one row: under the timestamp comparison the
   * target row is read and an unchanged row skipped; otherwise the row is
   * written and its row count returned.
   */
  method UpdateOne(sql: Sql, target: Cursor, updateSql: string, field: string, rec: Record)
    returns (skipped: bool, n: int)
    modifies target
    ensures skipped <==> sql.config.dbUpdateCompareMethod == "timestamp" && Skip(RowAt(old(target.rows), rec.key), field, rec.row)
    ensures skipped ==> target.rows == old(target.rows)
    ensures !skipped ==> n == (if sql.config.dryRun then 0 else RawCount(old(target.rows), UpdateRow(rec)))
    ensures !skipped ==> target.rows == if sql.config.dryRun then old(target.rows) else Apply(old(target.rows), UpdateRow(rec))
  {
    if sql.config.dbUpdateCompareMethod == "timestamp" {
      var targetRow := target.SelectRow(rec.key);
      if Skip(targetRow, field, rec.row) {
        return true, 0;
      }
    }
    skipped := false;
    n := sql.Execute(target, updateSql, UpdateRow(rec));
  }

  /** The loop of `sync_update` over the rows read. */
  method UpdateRows(sql: Sql, target: Cursor, tableName: string, key: string, field: string, stream: seq<Record>)
    returns (total: int)
    requires LimitsPositive(sql.config)
    modifies target
    ensures (target.rows, total) == UpdateRun(sql.config, field, stream, old(target.rows), 0)
  {
    var updateSql := "";
    total := 0;
    var i := 0;
    while i < |stream|
      invariant 0 <= i <= |stream| && 0 <= total < sql.config.dbUpdateLimit
      invariant UpdateRun(sql.config, field, stream, old(target.rows), 0) == UpdateRun(sql.config, field, stream[i..], target.rows, total)
    {
      var rec := stream[i];
      assert stream[i..][1..] == stream[i + 1..];
      if i == 0 {
        updateSql := UpdateStatement(sql.paramStyle, tableName, key, rec.row);
      }
      var skipped, n := UpdateOne(sql, target, updateSql, field, rec);
      if skipped {
        i := i + 1;
        continue;
      }
      total := total + n;
      i := i + 1;
      if total >= sql.config.dbUpdateLimit {
        return;
      }
    }
  }

  /** `sync_update`, with `parseDate` standing for the date parser. */
  method SyncUpdate(sql: Sql, source: Cursor, target: Cursor, table: TableDescriptor, parseDate: string -> Option<int>)
    returns (r: Result<SyncResult>)
    requires LimitsPositive(sql.config)
    requires source != target
    modifies sql, target
    ensures r.Err? <==> (EngineStyle(sql.config.dbEngine).Err? || UpdateFields(sql.config, table, parseDate).Err?)
    ensures EngineStyle(sql.config.dbEngine).Err? ==> r == Err(EngineStyle(sql.config.dbEngine).error)
    ensures EngineStyle(sql.config.dbEngine).Ok? && UpdateFields(sql.config, table, parseDate).Err? ==>
      r == Err(UpdateFields(sql.config, table, parseDate).error)
    ensures r.Err? ==> target.rows == old(target.rows)
    ensures r.Ok? ==>
      var (field, since) := UpdateFields(sql.config, table, parseDate).value;
      var (rows, total) := UpdateRun(sql.config, field, Stream(sql.config, source.rows, field, since), old(target.rows), 0);
      target.rows == rows && r.value == SyncResult(table.name, total, table.taskId)
  {
    var connected := sql.Connect();
    if connected.Err? {
      r := Err(connected.error);
      return;
    }
    connected := sql.Connect();
    var fields := UpdateFields(sql.config, table, parseDate);
    if fields.Err? {
      r := Err(fields.error);
      return;
    }
    var (field, since) := fields.value;
    var key := ResolveField(table.primaryField, sql.config.dbPrimaryField, "primary field", table.name).value;
    var stream := source.SelectOrdered(ModifiedSince(field, since), Some(sql.config.dbUpdateLimitSelect));
    assert stream == Stream(sql.config, source.rows, field, since);
    var total := UpdateRows(sql, target, table.name, key, field, stream);
    r := Ok(SyncResult(table.name, total, table.taskId));
  }

  /**
   * Without the comparison, when every changed source row the read returns
   * exists in the target, a run reports the smallest of the number of
   * changed rows and the two limits.
   */
  lemma UpdateCount(config: Config, source: map<int, Row>, target: map<int, Row>, field: string, since: int)
    requires LimitsPositive(config) && !config.dryRun && config.dbUpdateCompareMethod != "timestamp"
    requires forall k :: k in Selected(source, ModifiedSince(field, since), Some(config.dbUpdateLimitSelect)) ==> k in target
    ensures var n := |Matching(source, ModifiedSince(field, since))|;
      var m := if n < config.dbUpdateLimitSelect then n else config.dbUpdateLimitSelect;
      UpdateRun(config, field, Stream(config, source, field, since), target, 0).1 == if m < config.dbUpdateLimit then m else config.dbUpdateLimit
  {
    var f := ModifiedSince(field, since);
    var stream := Stream(config, source, field, since);
    SelectedSpec(source, f, Some(config.dbUpdateLimitSelect));
    SortedSpec(Matching(source, f));
    forall j | 0 <= j < |stream| ensures stream[j].key in target {
      assert stream[j].key in Selected(source, f, Some(config.dbUpdateLimitSelect));
    }
    UpdateCountsRows(config, field, stream, target, 0);
  }
}
