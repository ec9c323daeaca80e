/**
 * The delete strategy: walk the target's key range in windows of
 * `db_delete_limit_select` keys, and in each window delete the target keys
 * the source no longer has, at most `db_delete_limit` of them, stopping
 * after the first window that reached the limit.
 */
module SyncDelete {
  import opened Common
  import opened Text
  import opened Store
  import opened Sql

  /** `ceil(max / w)` for the target's largest key, as an integer. */
  function WindowCount(max: int, w: int): (n: int)
    requires w >= 1
    ensures max <= 0 ==> n == 0
    ensures max > 0 ==> n >= 1 && (n - 1) * w < max <= n * w
  {
    if max <= 0 then 0
    else
      var n := (max - 1) / w + 1;
      ModFacts(max - 1, w);
      n
  }

  lemma ModFacts(x: int, w: int)
    requires x >= 0 && w >= 1
    ensures (x / w) * w <= x < (x / w + 1) * w
  {
    assert x == (x / w) * w + x % w;
  }

  /**
   * The window count as written: `ceil(None / w)` raises when the target is
   * empty and its `MAX` is NULL.
   */
  function WindowCountAsWritten(max: Option<int>, w: int): (r: Result<int>)
    requires w >= 1
    ensures max.None? ==> r.Err? && r.error.TypeError?
    ensures max.Some? ==> r == Ok(WindowCount(max.value, w))
  {
    if max.None? then Err(TypeError("unsupported operand type(s) for /: 'NoneType' and 'int'"))
    else Ok(WindowCount(max.value, w))
  }

  /** On an empty target the code as written fails, where no window is the evident intent. */
  lemma EmptyTargetWindows(w: int)
    requires w >= 1
    ensures WindowCountAsWritten(MaxKey(map[]), w).Err?
    ensures WindowCount(MaxOrZero(MaxKey(map[])), w) == 0
  {
  }

  /** Window `b` is `BETWEEN b*w + 1 AND b*w + 1 + w` (both ends included). */
  function WindowLo(b: int, w: int): int
  {
    b * w + 1
  }

  function WindowHi(b: int, w: int): int
  {
    WindowLo(b, w) + w
  }

  /** Consecutive windows share their boundary key and leave no gap. */
  lemma WindowsAdjacent(b: int, w: int)
    ensures WindowHi(b, w) == WindowLo(b + 1, w)
  {
    assert (b + 1) * w == b * w + w;
  }

  /** The windows cover every key from 1 to the largest key. */
  lemma WindowsCover(max: int, w: int, k: int)
    requires w >= 1 && 1 <= k <= max
    ensures var b := (k - 1) / w;
      0 <= b < WindowCount(max, w) && WindowLo(b, w) <= k <= WindowHi(b, w)
  {
    var b := (k - 1) / w;
    ModFacts(k - 1, w);
    DivMono(k - 1, max - 1, w);
  }

  lemma DivMono(x: int, y: int, w: int)
    requires 0 <= x <= y && w >= 1
    ensures x / w <= y / w
  {
    ModFacts(x, w);
    ModFacts(y, w);
    if x / w > y / w {
      MulStep(x / w, y / w, w);
    }
  }

  lemma MulStep(a: int, b: int, w: int)
    requires a > b && w >= 1
    ensures a * w >= (b + 1) * w
  {
    assert a * w - (b + 1) * w == (a - b - 1) * w;
  }

  /** `[item for item in a if item not in b]`. */
  function Minus(a: seq<int>, b: seq<int>): seq<int>
  {
    if a == [] then []
    else (if a[0] in b then [] else [a[0]]) + Minus(a[1..], b)
  }

  /** The difference keeps exactly the items of `a` that `b` lacks, and is no longer than `a`. */
  lemma {:induction false} MinusSpec(a: seq<int>, b: seq<int>)
    ensures forall x :: x in Minus(a, b) <==> x in a && x !in b
    ensures |Minus(a, b)| <= |a|
  {
    if a != [] {
      MinusSpec(a[1..], b);
      assert forall x :: x in a <==> x == a[0] || x in a[1..];
    }
  }

  /** Filtering keeps an ascending list ascending. */
  lemma {:induction false} MinusIncreasing(a: seq<int>, b: seq<int>)
    requires StrictlyIncreasing(a)
    ensures StrictlyIncreasing(Minus(a, b))
  {
    if a != [] {
      assert StrictlyIncreasing(a[1..]);
      MinusIncreasing(a[1..], b);
      MinusSpec(a[1..], b);
      var rest := Minus(a[1..], b);
      forall j | 0 <= j < |rest| ensures a[0] < rest[j] {
        assert rest[j] in a[1..];
      }
    }
  }

  /** `target_ids_to_delete[:db_delete_limit]` once the limit is reached. */
  function Truncate(cands: seq<int>, limit: int): (r: seq<int>)
    requires limit >= 1
    ensures |r| == if |cands| >= limit then limit else |cands|
    ensures r == cands[..|r|]
  {
    if |cands| >= limit then cands[..limit] else cands
  }

  /**
   * The truncation as written: it first appends text to the log message,
   * which is a tuple, and that raises before anything is deleted.
   */
  function TruncateAsWritten(cands: seq<int>, limit: int): (r: Result<seq<int>>)
    requires limit >= 1
    ensures |cands| >= limit <==> r.Err?
    ensures r.Err? ==> r.error == TypeError("can only concatenate tuple (not \"str\") to tuple")
    ensures r.Ok? ==> r.value == cands
  {
    if |cands| >= limit then Err(TypeError("can only concatenate tuple (not \"str\") to tuple"))
    else Ok(cands)
  }

  /** Whenever a window has the limit's worth of candidates, the code as written fails, where the limit's worth is the evident intent. */
  lemma TruncateAtLimit(cands: seq<int>, limit: int)
    requires limit >= 1 && |cands| >= limit
    ensures TruncateAsWritten(cands, limit).Err?
    ensures Truncate(cands, limit) == cands[..limit]
  {
  }

  /** The `IN (...)` list: one positional placeholder per key. */
  function InList(style: Style, n: nat): string
  {
    Join(Repeat(ParamStyle(style, "position"), n), ",")
  }

  /** The keys, as the positional parameter values of the `DELETE`. */
  function KeyValues(keys: seq<int>): (vs: seq<Value>)
    ensures |vs| == |keys| && forall i :: 0 <= i < |keys| ==> vs[i] == Int(keys[i])
  {
    seq(|keys|, i requires 0 <= i < |keys| => Int(keys[i]))
  }

  /** A non-empty `IN` list holds exactly `n` placeholders, and they take the `n` keys. */
  lemma InListBinds(style: Style, keys: seq<int>)
    requires keys != []
    ensures Split(InList(style, |keys|), ',') == Repeat(ParamStyle(style, "position"), |keys|)
    ensures Bind(style, Repeat(ParamStyle(style, "position"), |keys|), Positional(KeyValues(keys))) == Some(KeyValues(keys))
  {
    InListSplits(style, |keys|);
    PositionalBinds(style, KeyValues(keys));
  }

  /** The `IN` list splits at its commas into its placeholders. */
  lemma InListSplits(style: Style, n: nat)
    requires n >= 1
    ensures Split(InList(style, n), ',') == Repeat(ParamStyle(style, "position"), n)
  {
    var mark := ParamStyle(style, "position");
    var marks := Repeat(mark, n);
    assert ',' !in mark by {
      assert mark == "?" || mark == "%s";
    }
    forall p | p in marks ensures ',' !in p {
      var i :| 0 <= i < |marks| && marks[i] == p;
    }
    SplitJoin(marks, ',');
  }

  /** Keys of the table inside a window, ascending: what a `BETWEEN` read returns. */
  ghost function WindowKeys(rows: map<int, Row>, b: int, w: int): seq<int>
  {
    Sorted(Matching(rows, KeyBetween(WindowLo(b, w), WindowHi(b, w))))
  }

  /**
   * The keys from `lo` to `hi`, both included, that the target has and the
   * source lacks, scanned in ascending order: the reference for what one
   * window of the delete strategy removes.
   */
  function Missing(source: map<int, Row>, target: map<int, Row>, lo: int, hi: int): seq<int>
    decreases if lo <= hi then hi - lo + 1 else 0
  {
    if lo > hi then []
    else (if lo in target && lo !in source then [lo] else []) + Missing(source, target, lo + 1, hi)
  }

  lemma {:induction false} MissingSpec(source: map<int, Row>, target: map<int, Row>, lo: int, hi: int)
    ensures StrictlyIncreasing(Missing(source, target, lo, hi))
    ensures forall k :: k in Missing(source, target, lo, hi) <==> k in target && k !in source && lo <= k <= hi
    decreases if lo <= hi then hi - lo + 1 else 0
  {
    if lo <= hi {
      MissingSpec(source, target, lo + 1, hi);
      var rest := Missing(source, target, lo + 1, hi);
      if lo in target && lo !in source {
        forall j | 0 <= j < |rest| ensures lo < rest[j] {
          assert rest[j] in rest;
        }
      }
    }
  }

  /** Target keys of window `b` that the source does not have. */
  ghost function Candidates(source: map<int, Row>, target: map<int, Row>, b: int, w: int): seq<int>
  {
    Missing(source, target, WindowLo(b, w), WindowHi(b, w))
  }

  /** The candidates are ascending target keys of the window, absent from the source. */
  lemma CandidatesSpec(source: map<int, Row>, target: map<int, Row>, b: int, w: int)
    ensures StrictlyIncreasing(Candidates(source, target, b, w))
    ensures forall k :: k in Candidates(source, target, b, w) <==>
      k in target && k !in source && WindowLo(b, w) <= k <= WindowHi(b, w)
  {
    MissingSpec(source, target, WindowLo(b, w), WindowHi(b, w));
  }

  /**
   * The list comprehension over the two windows' key lists yields exactly
   * the window's candidates, in the same order.
   */
  lemma MinusIsCandidates(source: map<int, Row>, target: map<int, Row>, b: int, w: int)
    ensures Minus(WindowKeys(target, b, w), WindowKeys(source, b, w)) == Candidates(source, target, b, w)
  {
    var f := KeyBetween(WindowLo(b, w), WindowHi(b, w));
    var diff := Minus(WindowKeys(target, b, w), WindowKeys(source, b, w));
    SortedSpec(Matching(target, f));
    SortedSpec(Matching(source, f));
    var only := set k | k in target && k !in source && WindowLo(b, w) <= k <= WindowHi(b, w);
    assert diff == Sorted(only) by {
      MinusIncreasing(WindowKeys(target, b, w), WindowKeys(source, b, w));
      MinusSpec(WindowKeys(target, b, w), WindowKeys(source, b, w));
      SortedUnique(only, diff);
    }
    assert Candidates(source, target, b, w) == Sorted(only) by {
      CandidatesSpec(source, target, b, w);
      SortedUnique(only, Candidates(source, target, b, w));
    }
  }

  /**
   * One window: read the window's keys on both sides, keep the target-only
   * ones (cut to the limit), delete them and report the count; `full` says
   * the candidates reached the limit.
   */
  ghost function Step(config: Config, source: map<int, Row>, target: map<int, Row>, b: int): (map<int, Row>, int, bool)
    requires LimitsPositive(config)
  {
    var cands := Candidates(source, target, b, config.dbDeleteLimitSelect);
    var del := Truncate(cands, config.dbDeleteLimit);
    if config.dryRun then (target, 0, |cands| >= config.dbDeleteLimit)
    else (Apply(target, DeleteKeys(del)), RawCount(target, DeleteKeys(del)), |cands| >= config.dbDeleteLimit)
  }

  /**
   * The effect of the window loop from window `b` on, and the rows it
   * reports: run each window's step, add its count, and stop after a window
   * whose candidates reached the limit.
   */
  ghost function DeleteRun(config: Config, source: map<int, Row>, target: map<int, Row>, b: int, count: int): (map<int, Row>, int)
    requires LimitsPositive(config)
    decreases count - b
  {
    if b >= count then (target, 0)
    else
      var step := Step(config, source, target, b);
      if step.2 then (step.0, step.1)
      else
        var rest := DeleteRun(config, source, step.0, b + 1, count);
        (rest.0, step.1 + rest.1)
  }

  /**
   * `rows` is `target` with some rows removed, none of them a row whose key
   * the source has.
   */
  ghost predicate Pruned(rows: map<int, Row>, target: map<int, Row>, source: map<int, Row>)
  {
    && (forall k :: k in rows ==> k in target && rows[k] == target[k])
    && (forall k :: k in target && k in source ==> k in rows)
  }

  lemma PrunedTrans(rows: map<int, Row>, mid: map<int, Row>, target: map<int, Row>, source: map<int, Row>)
    requires Pruned(rows, mid, source) && Pruned(mid, target, source)
    ensures Pruned(rows, target, source)
  {
  }

  /**
   * One window's deletion removes only target keys the source lacks, leaves
   * the remaining rows as they were, and counts exactly the rows removed; a
   * dry run changes nothing.
   */
  lemma StepSpec(config: Config, source: map<int, Row>, target: map<int, Row>, b: int)
    requires LimitsPositive(config)
    ensures Pruned(Step(config, source, target, b).0, target, source)
    ensures Step(config, source, target, b).1 == |target.Keys| - |Step(config, source, target, b).0.Keys|
    ensures config.dryRun ==> Step(config, source, target, b).0 == target
  {
    if !config.dryRun {
      var cands := Candidates(source, target, b, config.dbDeleteLimitSelect);
      CandidatesSpec(source, target, b, config.dbDeleteLimitSelect);
      var del := Truncate(cands, config.dbDeleteLimit);
      assert forall k :: k in del ==> k in cands;
      forall i, j | 0 <= i < j < |del| ensures del[i] != del[j] {
        assert del[i] == cands[i] && del[j] == cands[j];
      }
      DeleteCount(target, del);
    }
  }

  /** Target keys from 1 on that the source does not have. */
  ghost function TargetOnly(source: map<int, Row>, target: map<int, Row>): set<int>
  {
    set k | k in target && k !in source && k >= 1
  }

  /** Keys the windows from `b` to `count` span. */
  predicate Spanned(b: int, count: int, w: int, k: int)
  {
    b < count && WindowLo(b, w) <= k <= WindowLo(count, w)
  }

  /**
   * A window with fewer target-only keys than the limit in the whole table
   * does not reach the limit, and deletes exactly the window's target-only
   * keys.
   */
  lemma StepBelowLimit(config: Config, source: map<int, Row>, target: map<int, Row>, b: int)
    requires LimitsPositive(config) && !config.dryRun && b >= 0
    requires |TargetOnly(source, target)| < config.dbDeleteLimit
    ensures var (next, _, full) := Step(config, source, target, b);
      && !full
      && (forall k :: k in next <==> (k in target &&
            !(k in TargetOnly(source, target) && WindowLo(b, config.dbDeleteLimitSelect) <= k <= WindowHi(b, config.dbDeleteLimitSelect))))
      && TargetOnly(source, next) <= TargetOnly(source, target)
  {
    var w := config.dbDeleteLimitSelect;
    var cands := Candidates(source, target, b, w);
    CandidatesSpec(source, target, b, w);
    var cs := set k | k in cands;
    assert WindowLo(b, w) >= 1 by {
      MulMono(0, b, w);
    }
    forall k | k in cs ensures k in TargetOnly(source, target) {
      assert k in cands;
    }
    DistinctCard(cands);
    SubsetCard(cs, TargetOnly(source, target));
  }

  /** With `ceil(max / w)` windows, every key from 1 to `max` lies in the span of the windows. */
  lemma WindowsSpan(max: int, w: int, k: int)
    requires w >= 1 && 1 <= k <= max
    ensures Spanned(0, WindowCount(max, w), w, k)
  {
    var count := WindowCount(max, w);
    WindowsCover(max, w, k);
    var b := (k - 1) / w;
    WindowsAdjacent(b, w);
    MulMono(b + 1, count, w);
  }

  /** Adding window `b` to the span of the windows before it. */
  lemma SpanStep(b: int, w: int, k: int)
    requires b >= 0 && w >= 1
    ensures Spanned(0, b + 1, w, k) <==> (Spanned(0, b, w, k) || WindowLo(b, w) <= k <= WindowHi(b, w))
  {
    WindowsAdjacent(b, w);
    MulMono(0, b, w);
  }

  /** Every key of a table is at most its largest key. */
  lemma MaxKeyBound(rows: map<int, Row>, k: int)
    requires k in rows
    ensures k <= MaxOrZero(MaxKey(rows))
  {
    assert rows != map[];
  }

  lemma MulMono(a: int, b: int, w: int)
    requires a <= b && w >= 1
    ensures a * w <= b * w
  {
    assert b * w - a * w == (b - a) * w;
  }

  /** The keys of the records read back are the keys asked for. */
  lemma KeysOfRecords(rows: map<int, Row>, ks: seq<int>)
    requires forall i :: 0 <= i < |ks| ==> ks[i] in rows
    ensures KeysOf(RecordsOf(rows, ks)) == ks
  {
  }

  /** The window step of `sync_delete`. */
  method DeleteWindow(sql: Sql, source: Cursor, target: Cursor, tableName: string, key: string, b: int)
    returns (n: int, full: bool)
    requires LimitsPositive(sql.config) && source != target
    modifies target
    ensures (target.rows, n, full) == Step(sql.config, source.rows, old(target.rows), b)
  {
    var w := sql.config.dbDeleteLimitSelect;
    var limit := sql.config.dbDeleteLimit;
    var style := ParamStyle(sql.paramStyle, "position");
    var lo := b * w + 1;
    var hi := lo + w;
    var sourceRecs := source.SelectOrdered(KeyBetween(lo, hi), None);
    var sourceIds := KeysOf(sourceRecs);
    var targetRecs := target.SelectOrdered(KeyBetween(lo, hi), None);
    var targetIds := KeysOf(targetRecs);
    WindowRead(source.rows, b, w, sourceRecs);
    WindowRead(target.rows, b, w, targetRecs);
    var cands := Minus(targetIds, sourceIds);
    MinusIsCandidates(source.rows, target.rows, b, w);
    full := |cands| >= limit;
    var del := cands;
    if full {
      del := cands[..limit];
    }
    assert del == Truncate(cands, limit);
    var ids := Join(Repeat(style, |del|), ",");
    var sqlText := "DELETE FROM " + tableName + " WHERE " + key + " IN (" + ids + ")";
    n := sql.Execute(target, sqlText, DeleteKeys(del));
    assert RawCount(old(target.rows), DeleteKeys(del)) >= 0;
  }

  /** A `BETWEEN` read of window `b` gives back the window's keys in ascending order. */
  lemma WindowRead(rows: map<int, Row>, b: int, w: int, recs: seq<Record>)
    requires SelectedInRows(rows, KeyBetween(WindowLo(b, w), WindowHi(b, w)), None)
    requires recs == RecordsOf(rows, Selected(rows, KeyBetween(WindowLo(b, w), WindowHi(b, w)), None))
    ensures KeysOf(recs) == WindowKeys(rows, b, w)
  {
    KeysOfRecords(rows, Selected(rows, KeyBetween(WindowLo(b, w), WindowHi(b, w)), None));
  }

  /** Outside a dry run, the target has fewer keys the source lacks than the limit. */
  ghost predicate Below(config: Config, source: map<int, Row>, t0: map<int, Row>)
  {
    !config.dryRun && |TargetOnly(source, t0)| < config.dbDeleteLimit
  }

  /** `rows` is `t0` without the target-only keys that windows `0 .. b-1` span. */
  ghost predicate RemovedUpTo(rows: map<int, Row>, t0: map<int, Row>, source: map<int, Row>, b: int, w: int)
  {
    forall k :: k in rows <==> (k in t0 && !(k in TargetOnly(source, t0) && Spanned(0, b, w, k)))
  }

  /** The run from window `b` is window `b`'s step, then either the stop or the run from `b + 1`. */
  lemma PassFacts(config: Config, source: map<int, Row>, before: map<int, Row>, after: map<int, Row>, n: int, full: bool,
                  b: int, count: int)
    requires LimitsPositive(config) && b < count
    requires (after, n, full) == Step(config, source, before, b)
    ensures full ==> DeleteRun(config, source, before, b, count).0 == after
    ensures full ==> DeleteRun(config, source, before, b, count).1 == n
    ensures !full ==> DeleteRun(config, source, before, b, count).0 == DeleteRun(config, source, after, b + 1, count).0
    ensures !full ==> DeleteRun(config, source, before, b, count).1 == n + DeleteRun(config, source, after, b + 1, count).1
  {
  }

  /**
   * The window loop removes only target rows whose keys the source lacks,
   * leaves the others as they were, and reports exactly the number of rows
   * it removed; a dry run changes nothing and reports nothing.
   */
  lemma {:induction false} DeleteRunSpec(config: Config, source: map<int, Row>, target: map<int, Row>, b: int, count: int)
    requires LimitsPositive(config)
    ensures Pruned(DeleteRun(config, source, target, b, count).0, target, source)
    ensures DeleteRun(config, source, target, b, count).1 == |target.Keys| - |DeleteRun(config, source, target, b, count).0.Keys|
    ensures config.dryRun ==> DeleteRun(config, source, target, b, count).0 == target
    ensures config.dryRun ==> DeleteRun(config, source, target, b, count).1 == 0
    decreases count - b
  {
    if b < count {
      var (next, n, full) := Step(config, source, target, b);
      StepSpec(config, source, target, b);
      if !full {
        DeleteRunSpec(config, source, next, b + 1, count);
        PrunedTrans(DeleteRun(config, source, next, b + 1, count).0, next, target, source);
      }
    }
  }

  /**
   * With fewer target-only keys than the limit, no window reaches the limit,
   * and the run from window `b` removes every target-only key that windows
   * `0 .. count-1` span.
   */
  lemma {:induction false} DeleteRunBelow(config: Config, source: map<int, Row>, t0: map<int, Row>, target: map<int, Row>, b: int, count: int)
    requires LimitsPositive(config) && 0 <= b <= count
    requires Below(config, source, t0)
    requires Pruned(target, t0, source)
    requires RemovedUpTo(target, t0, source, b, config.dbDeleteLimitSelect)
    ensures RemovedUpTo(DeleteRun(config, source, target, b, count).0, t0, source, count, config.dbDeleteLimitSelect)
    decreases count - b
  {
    if b < count {
      var (next, n, full) := Step(config, source, target, b);
      BelowLimitKept(config, source, t0, target, b);
      StepSpec(config, source, target, b);
      PrunedTrans(next, target, t0, source);
      DeleteRunBelow(config, source, t0, next, b + 1, count);
    }
  }

  /**
   * The window loop of `sync_delete` over `count` windows: each pass runs
   * one window and stops after a window that reached the limit.
   */
  method DeleteWindows(sql: Sql, source: Cursor, target: Cursor, tableName: string, key: string, count: int)
    returns (total: int)
    requires LimitsPositive(sql.config) && source != target
    modifies target
    ensures target.rows == DeleteRun(sql.config, source.rows, old(target.rows), 0, count).0
    ensures total == DeleteRun(sql.config, source.rows, old(target.rows), 0, count).1
  {
    ghost var run := DeleteRun(sql.config, source.rows, target.rows, 0, count);
    total := 0;
    var b := 0;
    while b < count
      invariant run.0 == DeleteRun(sql.config, source.rows, target.rows, b, count).0
      invariant run.1 == total + DeleteRun(sql.config, source.rows, target.rows, b, count).1
      decreases count - b
    {
      ghost var before := target.rows;
      var n, full := DeleteWindow(sql, source, target, tableName, key, b);
      PassFacts(sql.config, source.rows, before, target.rows, n, full, b, count);
      total := total + n;
      if full {
        return;
      }
      b := b + 1;
    }
  }

  /**
   * Below the limit, window `b` removes exactly the target-only keys it
   * holds, so after it the removed keys are those spanned by windows 0 to `b`.
   */
  lemma BelowLimitKept(config: Config, source: map<int, Row>, t0: map<int, Row>, before: map<int, Row>, b: int)
    requires LimitsPositive(config) && b >= 0
    requires Below(config, source, t0)
    requires Pruned(before, t0, source)
    requires RemovedUpTo(before, t0, source, b, config.dbDeleteLimitSelect)
    ensures !Step(config, source, before, b).2
    ensures RemovedUpTo(Step(config, source, before, b).0, t0, source, b + 1, config.dbDeleteLimitSelect)
  {
    var w := config.dbDeleteLimitSelect;
    assert TargetOnly(source, before) <= TargetOnly(source, t0);
    SubsetCard(TargetOnly(source, before), TargetOnly(source, t0));
    StepBelowLimit(config, source, before, b);
    forall k ensures Spanned(0, b + 1, w, k) <==> (Spanned(0, b, w, k) || WindowLo(b, w) <= k <= WindowHi(b, w)) {
      SpanStep(b, w, k);
    }
  }

  /**
   * `sync_delete`, with an empty target read as largest key 0. It removes
   * only target rows the source lacks and reports how many; a dry run
   * changes nothing. When fewer target keys than the limit are missing from
   * the source, a run that is not a dry run removes all of them.
   */
  method SyncDelete(sql: Sql, source: Cursor, target: Cursor, table: TableDescriptor)
    returns (r: Result<SyncResult>)
    requires LimitsPositive(sql.config)
    requires source != target
    modifies sql, target
    ensures r.Err? <==> (EngineStyle(sql.config.dbEngine).Err? ||
      ResolveField(table.primaryField, sql.config.dbPrimaryField, "primary field", table.name).Err?)
    ensures EngineStyle(sql.config.dbEngine).Err? ==> r == Err(EngineStyle(sql.config.dbEngine).error)
    ensures r.Err? ==> target.rows == old(target.rows)
    ensures r.Ok? ==>
      var count := WindowCount(MaxOrZero(MaxKey(old(target.rows))), sql.config.dbDeleteLimitSelect);
      var (rows, total) := DeleteRun(sql.config, source.rows, old(target.rows), 0, count);
      target.rows == rows && r.value == SyncResult(table.name, total, table.taskId)
    ensures r.Ok? ==> Pruned(target.rows, old(target.rows), source.rows)
    ensures r.Ok? ==> r.value.nbrRows == |old(target.rows).Keys| - |target.rows.Keys|
    ensures r.Ok? && sql.config.dryRun ==> target.rows == old(target.rows) && r.value.nbrRows == 0
    ensures r.Ok? && Below(sql.config, source.rows, old(target.rows)) ==>
      target.rows.Keys == old(target.rows).Keys - TargetOnly(source.rows, old(target.rows))
    ensures r.Ok? && Below(sql.config, source.rows, old(target.rows)) ==>
      r.value.nbrRows == |TargetOnly(source.rows, old(target.rows))|
  {
    var connected := sql.Connect();
    if connected.Err? {
      r := Err(connected.error);
      return;
    }
    connected := sql.Connect();
    var field := ResolveField(table.primaryField, sql.config.dbPrimaryField, "primary field", table.name);
    if field.Err? {
      r := Err(field.error);
      return;
    }
    ghost var t0 := target.rows;
    var maxTarget := target.SelectMax();
    var count := WindowCount(MaxOrZero(maxTarget), sql.config.dbDeleteLimitSelect);
    var total := DeleteWindows(sql, source, target, table.name, field.value, count);
    r := Ok(SyncResult(table.name, total, table.taskId));
    DeleteRunSpec(sql.config, source.rows, t0, 0, count);
    if Below(sql.config, source.rows, t0) {
      DeleteRunBelow(sql.config, source.rows, t0, t0, 0, count);
      AllSpanned(sql.config, source.rows, t0, target.rows, count);
    }
  }

  lemma AllSpanned(config: Config, source: map<int, Row>, t0: map<int, Row>, rows: map<int, Row>, count: int)
    requires LimitsPositive(config)
    requires count == WindowCount(MaxOrZero(MaxKey(t0)), config.dbDeleteLimitSelect)
    requires RemovedUpTo(rows, t0, source, count, config.dbDeleteLimitSelect)
    ensures rows.Keys == t0.Keys - TargetOnly(source, t0)
    ensures |t0.Keys| - |rows.Keys| == |TargetOnly(source, t0)|
  {
    var w := config.dbDeleteLimitSelect;
    var only := TargetOnly(source, t0);
    forall k | k in only ensures Spanned(0, count, w, k) {
      MaxKeyBound(t0, k);
      WindowsSpan(MaxOrZero(MaxKey(t0)), w, k);
    }
    forall k ensures k in rows.Keys <==> k in t0.Keys - only {
      if k in only {
        assert Spanned(0, count, w, k);
      }
    }
    assert rows.Keys == t0.Keys - only;
    assert only <= t0.Keys;
    assert t0.Keys == rows.Keys + only;
    assert rows.Keys * only == {};
  }
}
