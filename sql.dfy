/**
 * The database facade shared by the strategies: the parameter style chosen
 * when a connection is opened, the placeholders and parameter shapes derived
 * from it, how the drivers bind them, the normalisation of row counts, the
 * empty-result check of single reads, and the three write entry points
 * (one statement, one batch, one script).
 */
module Sql {
  import opened Common
  import opened Text
  import opened Store

  /**
   * `param_style`: `QMark` ("?") until a connection is opened; then ":" for
   * sqlite3, "%s" for MySQLdb and "%" for psycopg2.
   */
  datatype Style = QMark | Colon | PercentS | Percent

  /** The engine switch of `_connect`: the style the chosen driver's connection sets. */
  function EngineStyle(engine: string): (r: Result<Style>)
    ensures r.Ok? <==> engine == "sqlite3" || engine == "mysql" || engine == "mariadb" || engine == "postgres"
    ensures r.Ok? ==> r.value != QMark
    ensures engine == "sqlite3" ==> r == Ok(Colon)
    ensures engine == "mysql" || engine == "mariadb" ==> r == Ok(PercentS)
    ensures engine == "postgres" ==> r == Ok(Percent)
    ensures r.Err? ==> r.error == UnknownEngine("_connect: Unknown database engine: " + engine)
  {
    if engine == "sqlite3" then Ok(Colon)
    else if engine == "mysql" || engine == "mariadb" then Ok(PercentS)
    else if engine == "postgres" then Ok(Percent)
    else Err(UnknownEngine("_connect: Unknown database engine: " + engine))
  }

  /** How a driver reads one placeholder token: positional, or bound by field name. */
  datatype Slot = Pos | Name(field: string)

  /** The placeholder tokens each driver's paramstyle accepts, and what they mean. */
  function SlotOf(style: Style, token: string): Option<Slot>
  {
    match style
    case QMark => if token == "?" then Some(Pos) else None
    case Colon =>
      if token == "?" then Some(Pos)
      else if |token| >= 1 && token[0] == ':' then Some(Name(token[1..]))
      else None
    case _ =>
      if token == "%s" then Some(Pos)
      else if |token| >= 4 && token[..2] == "%(" && token[|token| - 2..] == ")s" then Some(Name(token[2..|token| - 2]))
      else None
  }

  /** `get_param_style`: the bare placeholder for positional (or, under sqlite3, named) use. */
  function ParamStyle(style: Style, paramType: string): (r: string)
    ensures paramType != "name" || style != Colon ==> SlotOf(style, r) == Some(Pos)
    ensures paramType == "name" && style == Colon ==> r == ":"
  {
    match style
    case QMark => "?"
    case Colon => if paramType == "name" then ":" else "?"
    case _ => "%s"
  }

  /** `get_param_placeholder`: the token that stands for `field`'s value. */
  function Placeholder(style: Style, field: string): (t: string)
    ensures SlotOf(style, t) == if style == QMark then Some(Pos) else Some(Name(field))
  {
    match style
    case QMark => "?"
    case Colon =>
      var t := ":" + field;
      assert t[1..] == field;
      t
    case _ =>
      var t := "%(" + field + ")s";
      assert t[..2] == "%(" && t[|t| - 2..] == ")s" && t[2..|t| - 2] == field;
      t
  }

  function Placeholders(style: Style, fields: seq<string>): (ts: seq<string>)
    ensures |ts| == |fields| && forall i :: 0 <= i < |fields| ==> ts[i] == Placeholder(style, fields[i])
  {
    seq(|fields|, i requires 0 <= i < |fields| => Placeholder(style, fields[i]))
  }

  /** A column name or placeholder that does not end in a comma or a blank. */
  predicate CleanTail(s: string)
  {
    s != [] && Last(s) != ',' && Last(s) != ' '
  }

  /** A named placeholder ends cleanly when its field name does. */
  lemma PlaceholderClean(style: Style, field: string)
    requires style != QMark && CleanTail(field)
    ensures CleanTail(Placeholder(style, field))
  {
    var mark := Placeholder(style, field);
    if style == Colon {
      assert mark == ":" + field;
      assert Last(mark) == Last(field);
    } else {
      assert mark == "%(" + field + ")s";
      assert Last(mark) == 's';
    }
  }

  /** Statement parameters: a sequence of values, or a row bound by column name. */
  datatype Params = Positional(values: seq<Value>) | Named(row: Row)

  /** `get_param_values`: under `QMark` a row is passed as its values, otherwise as it is. */
  function ParamValues(style: Style, row: Row): (p: Params)
    ensures p.Positional? <==> style == QMark
    ensures p.Positional? ==> p.values == Values(row)
    ensures p.Named? ==> p.row == row
  {
    if style == QMark then Positional(Values(row)) else Named(row)
  }

  /**
   * The values a driver sends for a statement's placeholder tokens: a value
   * sequence fills positional tokens one for one; a row fills named tokens
   * from its columns.  Anything else is a driver error.
   */
  function Bind(style: Style, tokens: seq<string>, params: Params): Option<seq<Value>>
  {
    match params
    case Positional(vs) =>
      if |tokens| == |vs| && forall i :: 0 <= i < |tokens| ==> SlotOf(style, tokens[i]) == Some(Pos)
      then Some(vs) else None
    case Named(row) => BindNamed(style, tokens, row)
  }

  function BindNamed(style: Style, tokens: seq<string>, row: Row): Option<seq<Value>>
  {
    if tokens == [] then Some([])
    else
      var slot := SlotOf(style, tokens[0]);
      if slot.Some? && slot.value.Name? && Get(row, slot.value.field).Some? then
        var rest := BindNamed(style, tokens[1..], row);
        if rest.Some? then Some([Get(row, slot.value.field).value] + rest.value) else None
      else None
  }

  /** The values of the named columns of a row, in the given order. */
  function Lookup(row: Row, fields: seq<string>): (vs: seq<Value>)
    requires forall i :: 0 <= i < |fields| ==> Get(row, fields[i]).Some?
    ensures |vs| == |fields| && forall i :: 0 <= i < |fields| ==> Some(vs[i]) == Get(row, fields[i])
  {
    if fields == [] then []
    else
      var rest := Lookup(row, fields[1..]);
      assert forall i :: 1 <= i < |fields| ==> fields[1..][i - 1] == fields[i];
      [Get(row, fields[0]).value] + rest
  }


  /** A list of positional placeholders takes a value sequence of the same length. */
  lemma PositionalBinds(style: Style, vs: seq<Value>)
    ensures Bind(style, Repeat(ParamStyle(style, "position"), |vs|), Positional(vs)) == Some(vs)
  {
  }

  /** A leading placeholder naming a present column binds that column's value before the rest. */
  lemma BindNamedHead(style: Style, tokens: seq<string>, row: Row, field: string, rest: seq<Value>)
    requires tokens != [] && SlotOf(style, tokens[0]) == Some(Name(field)) && Get(row, field).Some?
    requires BindNamed(style, tokens[1..], row) == Some(rest)
    ensures BindNamed(style, tokens, row) == Some([Get(row, field).value] + rest)
  {
  }

  /**
   * Under a named style, the placeholders of any columns of a row bind to
   * those columns' values, in placeholder order.
   */
  lemma {:induction false} NamedBinds(style: Style, fields: seq<string>, row: Row)
    requires style != QMark
    requires forall i :: 0 <= i < |fields| ==> Get(row, fields[i]).Some?
    ensures BindNamed(style, Placeholders(style, fields), row) == Some(Lookup(row, fields))
  {
    if fields != [] {
      var tokens := Placeholders(style, fields);
      PlaceholdersTail(style, fields);
      NamedBinds(style, fields[1..], row);
      BindNamedHead(style, tokens, row, fields[0], Lookup(row, fields[1..]));
    }
  }

  lemma PlaceholdersTail(style: Style, fields: seq<string>)
    requires fields != []
    ensures Placeholders(style, fields)[1..] == Placeholders(style, fields[1..])
  {
  }

  /** Looking a row's own columns up, in its own order, gives its values. */
  lemma LookupColumns(row: Row)
    requires DistinctColumns(row)
    ensures forall i :: 0 <= i < |row| ==> Get(row, Columns(row)[i]).Some?
    ensures Lookup(row, Columns(row)) == Values(row)
  {
    forall i | 0 <= i < |row| ensures Get(row, Columns(row)[i]) == Some(row[i].1) {
      GetAt(row, i);
    }
  }

  /**
   * A statement with one placeholder per column of a row, given the row as
   * `get_param_values` shapes it, binds exactly the row's values, whatever
   * the style.
   */
  lemma RowBinds(style: Style, row: Row)
    requires DistinctColumns(row)
    ensures Bind(style, Placeholders(style, Columns(row)), ParamValues(style, row)) == Some(Values(row))
  {
    LookupColumns(row);
    if style != QMark {
      NamedBinds(style, Columns(row), row);
    }
  }

  /**
   * `execute` under sqlite3: a statement reported with row count -1 counts as
   * one affected row when its text mentions DROP or CREATE in any letter case.
   */
  function NormalizeRowCount(engine: string, sqlText: string, raw: int): (n: int)
    ensures engine != "sqlite3" || raw != -1 ==> n == raw
    ensures engine == "sqlite3" && raw == -1 ==>
      (n == 1 <==> exists i :: MatchesAt(sqlText, i, "drop") || MatchesAt(sqlText, i, "create"))
    ensures n == raw || n == 1
  {
    if engine == "sqlite3" && raw == -1 && ContainsDropOrCreate(sqlText) then 1 else raw
  }

  /** What `execute` returns for a statement the engine reported `raw` rows for. */
  function ExecResult(config: Config, sqlText: string, raw: int): int
  {
    if config.dryRun then 0 else NormalizeRowCount(config.dbEngine, sqlText, raw)
  }

  /**
   * `select_one_row` / `select_all_rows`: an asserted read whose driver
   * reports a row count of 0 fails, with the caller's message if it gave a
   * non-empty one.  (sqlite3 reports -1 for every `SELECT`.)
   */
  function CheckResult(sqlText: string, nbrRows: int, assertResult: bool, errorMsg: Option<string>): (r: Result<()>)
    ensures r.Err? <==> assertResult && nbrRows == 0
    ensures r.Err? && errorMsg.Some? && errorMsg.value != "" ==> r.error == QueryEmpty(errorMsg.value)
    ensures r.Err? && (errorMsg.None? || errorMsg.value == "") ==> r.error == QueryEmpty("No results found for " + sqlText)
  {
    if assertResult && nbrRows == 0 then
      var msg := if errorMsg.Some? && errorMsg.value != "" then errorMsg.value else "No results found for " + sqlText;
      Err(QueryEmpty(msg))
    else Ok(())
  }

  /** The statements of a script: split on `;`, then `$$` turned back into `;`. */
  function ScriptStatements(contents: string): (stmts: seq<string>)
    ensures |stmts| == |Split(contents, ';')|
  {
    var parts := Split(contents, ';');
    seq(|parts|, i requires 0 <= i < |parts| => Unescape(parts[i]))
  }

  /** A script runs one statement per `;` and one more. */
  lemma ScriptCount(contents: string)
    ensures |ScriptStatements(contents)| == Count(contents, ';') + 1
  {
    SplitCount(contents, ';');
  }

  function EscapeAll(stmts: seq<string>): (es: seq<string>)
    ensures |es| == |stmts| && forall i :: 0 <= i < |stmts| ==> es[i] == Escape(stmts[i])
  {
    seq(|stmts|, i requires 0 <= i < |stmts| => Escape(stmts[i]))
  }

  /**
   * A script written as statements with their own `;` escaped as `$$` and
   * joined by `;` runs exactly those statements, when they contain no `$`.
   */
  lemma ScriptRoundTrip(stmts: seq<string>)
    requires |stmts| >= 1
    requires forall i :: 0 <= i < |stmts| ==> '$' !in stmts[i]
    ensures ScriptStatements(Join(EscapeAll(stmts), ";")) == stmts
  {
    var es := EscapeAll(stmts);
    forall p | p in es ensures ';' !in p {
      var i :| 0 <= i < |es| && es[i] == p;
    }
    SplitJoin(es, ';');
    assert Split(Join(es, ";"), ';') == es;
    forall i | 0 <= i < |stmts| ensures Unescape(es[i]) == stmts[i] {
      UnescapeEscape(stmts[i]);
    }
  }

  /** What `execute_script` returns: the sum of what `execute` returns per statement. */
  function ScriptTotal(config: Config, stmts: seq<string>, rawOf: string -> int): int
  {
    if stmts == [] then 0
    else ScriptTotal(config, stmts[..|stmts| - 1], rawOf) + ExecResult(config, stmts[|stmts| - 1], rawOf(stmts[|stmts| - 1]))
  }

  /** A dry run of a script reports no affected rows. */
  lemma {:induction false} ScriptDryRun(config: Config, stmts: seq<string>, rawOf: string -> int)
    requires config.dryRun
    ensures ScriptTotal(config, stmts, rawOf) == 0
  {
    if stmts != [] {
      ScriptDryRun(config, stmts[..|stmts| - 1], rawOf);
    }
  }

  /**
   * Under sqlite3, a script of DDL statements that each report -1 counts
   * one row per statement.
   */
  lemma {:induction false} ScriptDdlCount(config: Config, stmts: seq<string>, rawOf: string -> int)
    requires !config.dryRun && config.dbEngine == "sqlite3"
    requires forall i :: 0 <= i < |stmts| ==> rawOf(stmts[i]) == -1 && ContainsDropOrCreate(stmts[i])
    ensures ScriptTotal(config, stmts, rawOf) == |stmts|
  {
    if stmts != [] {
      ScriptDdlCount(config, stmts[..|stmts| - 1], rawOf);
    }
  }

  /** The facade object: the run's configuration and the current parameter style. */
  class Sql {
    const config: Config
    var paramStyle: Style

    constructor (config: Config)
      ensures this.config == config && paramStyle == QMark
    {
      this.config := config;
      paramStyle := QMark;
    }

    /** `_connect` (source or target): picks the driver, which sets the parameter style. */
    method Connect() returns (r: Result<Style>)
      modifies this
      ensures r == EngineStyle(config.dbEngine)
      ensures r.Ok? ==> paramStyle == r.value
      ensures r.Err? ==> paramStyle == old(paramStyle)
    {
      r := EngineStyle(config.dbEngine);
      if r.Ok? {
        paramStyle := r.value;
      }
    }

    /** `execute`: runs one statement unless this is a dry run, and reports its row count. */
    method Execute(cur: Cursor, sqlText: string, cmd: Command) returns (n: int)
      requires !config.dryRun ==> Applicable(cur.rows, cmd)
      modifies cur
      ensures n == ExecResult(config, sqlText, RawCount(old(cur.rows), cmd))
      ensures cur.rows == if config.dryRun then old(cur.rows) else Apply(old(cur.rows), cmd)
    {
      if !config.dryRun {
        var raw := cur.Run(cmd);
        n := NormalizeRowCount(config.dbEngine, sqlText, raw);
      } else {
        n := 0;
      }
    }

    /** `execute_many` for a batch of rows to insert; an empty batch is refused. */
    method ExecuteMany(cur: Cursor, sqlText: string, records: seq<Record>) returns (r: Result<int>)
      requires !config.dryRun && records != [] ==> Applicable(cur.rows, InsertRows(records))
      modifies cur
      ensures records == [] ==> r == Err(EmptyBatch("execute_many without any values"))
      ensures records != [] ==> r == Ok(if config.dryRun then 0 else |records|)
      ensures cur.rows == if config.dryRun || records == [] then old(cur.rows) else old(cur.rows) + ToMap(records)
    {
      if |records| == 0 {
        r := Err(EmptyBatch("execute_many without any values"));
        return;
      }
      if !config.dryRun {
        var raw := cur.Run(InsertRows(records));
        r := Ok(raw);
      } else {
        r := Ok(0);
      }
    }

    /**
     * `execute_script`: `contents` is the file's text, absent when the file
     * does not exist; `rawOf` is the row count the engine reports per statement.
     */
    method ExecuteScript(sqlFile: string, contents: Option<string>, cur: Cursor, rawOf: string -> int) returns (r: Result<int>)
      modifies cur
      ensures contents.None? ==> r == Err(FileNotFound("execute_script: sql_file " + sqlFile + " not found"))
      ensures contents.Some? ==> r == Ok(ScriptTotal(config, ScriptStatements(contents.value), rawOf))
      ensures cur.rows == old(cur.rows)
    {
      if contents.None? {
        r := Err(FileNotFound("execute_script: sql_file " + sqlFile + " not found"));
        return;
      }
      var commands := Split(contents.value, ';');
      ghost var stmts := ScriptStatements(contents.value);
      var total := 0;
      var i := 0;
      while i < |commands|
        invariant 0 <= i <= |commands|
        invariant total == ScriptTotal(config, stmts[..i], rawOf)
        invariant cur.rows == old(cur.rows)
      {
        var command := Unescape(commands[i]);
        var n := Execute(cur, command, Statement(rawOf(command)));
        assert stmts[..i + 1][..i] == stmts[..i];
        total := total + n;
        i := i + 1;
      }
      assert stmts[..i] == stmts;
      r := Ok(total);
    }
  }
}
