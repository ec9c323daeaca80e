/**
 * Shared vocabulary of the synchronisation engine: scalar values, rows as
 * ordered column/value associations, the run configuration, table
 * descriptors, per-table results and the errors the core raises.
 */
module Common {

  datatype Option<T> = None | Some(value: T)

  /** The exceptions the core raises, by kind; each carries its message. */
  datatype Error =
    | MissingField(msg: string)      // ValueError: a required field could not be resolved
    | QueryEmpty(msg: string)        // ValueError: an asserted read matched no row
    | EmptyBatch(msg: string)        // ValueError: execute_many without any values
    | UnknownEngine(msg: string)     // NotImplementedError: unknown database engine
    | AttributeError(msg: string)    // Python attribute lookup failure
    | TypeError(msg: string)         // Python operator applied to the wrong type
    | FileNotFound(msg: string)      // ValueError: a script file does not exist

  datatype Result<T> = Ok(value: T) | Err(error: Error)

  /** A scalar column value; `Int` also stands for instants (seconds). */
  datatype Value = Null | Int(i: int) | Text(s: string)

  /** A fetched row: column name to value, in the engine's column order. */
  type Row = seq<(string, Value)>

  /** A row together with the value of its table's primary key. */
  datatype Record = Record(key: int, row: Row)

  function Columns(row: Row): (cs: seq<string>)
    ensures |cs| == |row|
    ensures forall i :: 0 <= i < |row| ==> cs[i] == row[i].0
  {
    seq(|row|, i requires 0 <= i < |row| => row[i].0)
  }

  function Values(row: Row): (vs: seq<Value>)
    ensures |vs| == |row|
    ensures forall i :: 0 <= i < |row| ==> vs[i] == row[i].1
  {
    seq(|row|, i requires 0 <= i < |row| => row[i].1)
  }

  /** Keys of a row are unique, as in the dictionaries the drivers return. */
  predicate DistinctColumns(row: Row)
  {
    forall i, j :: 0 <= i < j < |row| ==> row[i].0 != row[j].0
  }

  /** `row[col]`: the value stored under `col`, if the row has that column. */
  function Get(row: Row, col: string): (v: Option<Value>)
    ensures v.Some? <==> col in Columns(row)
    ensures v.Some? ==> exists i :: 0 <= i < |row| && row[i] == (col, v.value)
  {
    if row == [] then None
    else if row[0].0 == col then Some(row[0].1)
    else
      var v := Get(row[1..], col);
      assert Columns(row) == [row[0].0] + Columns(row[1..]);
      if v.Some? then
        var i :| 0 <= i < |row[1..]| && row[1..][i] == (col, v.value);
        assert row[i + 1] == (col, v.value);
        v
      else v
  }

  /** In a row with unique columns, looking up a column finds its own value. */
  lemma {:induction false} GetAt(row: Row, i: int)
    requires DistinctColumns(row) && 0 <= i < |row|
    ensures Get(row, row[i].0) == Some(row[i].1)
  {
    if i > 0 {
      assert row[0].0 != row[i].0;
      assert row[1..][i - 1] == row[i];
      GetAt(row[1..], i - 1);
    }
  }

  /** Process-wide settings read by the core (limits, engine, dry-run). */
  datatype Config = Config(
    dbEngine: string,
    dryRun: bool,
    dbPrimaryField: string,
    dbUpdateLimitSelect: int,
    dbUpdateModifiedField: string,
    dbUpdateModifiedFromDate: string,
    dbUpdateCompareMethod: string,
    dbUpdateLimit: int,
    dbInsertLimitSelect: int,
    dbInsertBatchSize: int,
    dbInsertLimit: int,
    dbDeleteLimitSelect: int,
    dbDeleteLimit: int)

  /** The configuration invariant: every window, cap and batch size is positive. */
  predicate LimitsPositive(c: Config)
  {
    c.dbUpdateLimitSelect >= 1 && c.dbUpdateLimit >= 1 &&
    c.dbInsertLimitSelect >= 1 && c.dbInsertBatchSize >= 1 && c.dbInsertLimit >= 1 &&
    c.dbDeleteLimitSelect >= 1 && c.dbDeleteLimit >= 1
  }

  /** One entry of a table list, stamped with its task id by the scheduler. */
  datatype TableDescriptor = TableDescriptor(
    name: string,
    primaryField: Option<string>,
    modifiedField: Option<string>,
    modifiedFromDate: Option<string>,
    taskId: int)

  /** The per-table summary a strategy returns. */
  datatype SyncResult = SyncResult(name: string, nbrRows: int, taskId: int)

  function MissingMessage(what: string, tableName: string): string
  {
    "Missing required " + what + " for " + tableName
  }

  /**
   * A per-table override wins whenever the descriptor carries the key, even
   * when its value is empty; otherwise the configured default applies.  An
   * empty outcome is an error.
   */
  function ResolveField(override: Option<string>, fallback: string, what: string, tableName: string): (r: Result<string>)
    ensures override.Some? && override.value != "" ==> r == Ok(override.value)
    ensures override.None? && fallback != "" ==> r == Ok(fallback)
    ensures r.Err? <==> (override.Some? && override.value == "") || (override.None? && fallback == "")
    ensures r.Err? ==> r.error == MissingField(MissingMessage(what, tableName))
  {
    var field := if override.Some? then override.value else fallback;
    if field == "" then Err(MissingField(MissingMessage(what, tableName))) else Ok(field)
  }
}
