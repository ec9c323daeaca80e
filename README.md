# db-sync-pie: a verified model of the reconciliation core

db-sync-pie brings a target relational database in line with a source one,
table by table. Three strategies do the work. The insert strategy copies
source rows whose primary key lies above the target's largest key. The
update strategy rewrites target rows that changed in the source since a
point in time. The delete strategy removes target rows whose keys the source
no longer has, scanning the key range in fixed-width windows. All three run
through one statement adapter (`utils/sql.py`). The adapter picks the
parameter style of the database driver, builds placeholders, runs writes,
honours the dry-run flag and normalises row counts.

This project models that core in Dafny and proves what it promises.

- `common.dfy` (`Common`): column values, rows as ordered column/value
  pairs, the configuration, table descriptors, per-table results, the
  errors the core raises, and how a field falls back from the table
  descriptor to the configured default.
- `text.dfy` (`Text`): the string operations the adapter relies on.
  Splitting on `;` and joining, the `$$` escape of script files, `rstrip`,
  comma-terminated lists and a case-insensitive search for DROP or CREATE.
- `store.dfy` (`Store`): one table of one database, as a class `Cursor`
  whose `rows` map a primary key to a row. Reads are `WHERE` filters with
  `ORDER BY` key and `LIMIT`, specified by sorting a set of keys. Writes are
  `Command`s with their effect (`Apply`) and the row count the engine
  reports (`RawCount`).
- `sql.dfy` (`Sql`): the parameter styles (`?` before any connection, `:`
  for sqlite3, `%s` for MySQLdb, `%` for psycopg2) and the three functions
  derived from them. It also gives a model of how a driver binds
  placeholders to values, the sqlite3 row-count normalisation and the
  empty-result check of single reads. The class `Sql` holds the facade's
  state (configuration, current style) and its write methods `Execute`,
  `ExecuteMany` and `ExecuteScript`.
- `sync_insert.dfy`, `sync_update.dfy`, `sync_delete.dfy`: each strategy is
  an imperative method. It has the source's loops, `break`s and running
  totals and is proved against a ghost function that states the whole run:
  `InsertPlan`/`Chunks`, `UpdateRun` and `DeleteRun`. Lemmas about those
  functions state what the strategy promises.

Two of the code's rules may surprise a reader:

- Delete windows are not disjoint. Window `b` is `BETWEEN b*w+1 AND b*w+1+w`,
  with both ends included. So window `b` shares its last key with the first
  key of window `b+1` (`SyncDelete.WindowsAdjacent`).
- When a window has too many candidates, they are cut in the order the
  target's read returns them. The model reads each window in ascending key
  order, which the `BETWEEN` reads themselves do not request (see
  `SyncDelete.WindowRead` under "## Left out").

## Model

| member | source | states |
|---|---|---|
| Common.ResolveField | sync/sync_insert.py:30-37 | a per-table value wins whenever the descriptor has the key, even an empty one; otherwise the configured default applies; the result is an error exactly when the chosen value is empty, with the "Missing required … for …" message |
| Common.Get | sync/sync_update.py:120-122 | `row[col]` finds a value exactly when the row has that column, and the value is the one stored under it |
| Common.GetAt | sync/sync_update.py:120-122 | in a row with unique column names, looking up the i-th column gives the i-th value |
| Text.SplitCount | utils/sql.py:354-355 | `split(';')` yields one piece more than there are `;` |
| Text.Split | utils/sql.py:354 | `split(';')`: the pieces between the `;`, never fewer than one (the laws are in `Text.SplitCount`, `Text.SplitJoin` and `Text.JoinSplit`) |
| Text.SplitJoin | utils/sql.py:354 | splitting the `;`-join of pieces that contain no `;` gives the pieces back |
| Text.JoinSplit | utils/sql.py:354 | joining the pieces of a split with `;` gives the text back |
| Text.UnescapeEscape | utils/sql.py:358-360 | replacing `$$` by `;` undoes escaping `;` as `$$` in a statement that has no `$` |
| Text.Unescape | utils/sql.py:359-360 | `replace('$$', ';')`, scanning left to right; `Text.UnescapeEscape` proves it undoes `Text.Escape` |
| Text.Escape | utils/sql.py:359-360 | the way a script writes a `;` inside a statement as `$$`; the escaped text has no `;` |
| Text.RStrip | sync/sync_insert.py:109-110 | `rstrip(", ")` keeps a prefix, removes only commas and blanks, and leaves no comma or blank at the end |
| Text.RStripTerminated | sync/sync_insert.py:101-110 | a list written as `item, item, ` and right-stripped is the `, `-join of the items when the last item ends cleanly |
| Text.ContainsDropOrCreate | utils/sql.py:304 | true exactly when DROP or CREATE occurs somewhere in the text in any letter case |
| Store.SortedSpec | sync/sync_insert.py:85-89 | `ORDER BY` key lists every matching key once, ascending |
| Store.SelectedSpec | sync/sync_insert.py:85-89 | a read lists ascending keys of rows matching the filter: all of them without `LIMIT`, otherwise exactly the smaller of the limit (0 when it is not positive) and the number of matching rows, and every matching key it leaves out lies above all it lists |
| Store.MaxKey | sync/sync_insert.py:53-61 | `MAX(key)` is NULL exactly on an empty table, otherwise the largest key |
| Store.DeleteCount | sync/sync_delete.py:93-97 | deleting distinct present keys reports one row per key and shrinks the table by that many |
| Store.ToMapAppend | sync/sync_insert.py:121-125 | inserting two batches one after the other adds the same rows as inserting their concatenation |
| Store.Apply | utils/sql.py:289-342 | the effect on the table of a write the engine runs: an insert adds the rows under their keys, an update replaces the row under a present key, a delete removes the listed keys, a script statement changes no modelled table (properties in `Store.DeleteCount`, `SyncUpdate.UpdateOnlyRewrites`, `SyncDelete.StepSpec`) |
| Store.RawCount | utils/sql.py:293-307 | the row count the driver reports for that write: the rows inserted, 1 for an update of a present key and 0 otherwise, the present keys deleted; `Store.DeleteCount` relates it to the rows removed |
| Store.Cursor.SelectOrdered | utils/sql.py:280-287 | the streamed cursor returns the selected rows, in key order, each with its stored row |
| Store.Cursor.SelectRow | sync/sync_update.py:117-121 | the single-row read by key returns the row exactly when the key is present |
| Store.Cursor.SelectMax | sync/sync_insert.py:53-61 | returns the table's `MAX` of the key |
| Store.Cursor.Run | utils/sql.py:293 | the engine applies the command and reports its row count |
| Sql.EngineStyle | utils/sql.py:51-72 | sqlite3 selects `:`, mysql and mariadb `%s`, postgres `%`; any other engine, and only such an engine, is refused with "_connect: Unknown database engine" |
| Sql.ParamStyle | utils/sql.py:205-217 | `?` under `?`; under `:`, `:` only for "name" and `?` otherwise; `%s` under every other style; each is a positional token for its driver |
| Sql.Placeholder | utils/sql.py:219-227 | `?` for any field under `?`, `:field` under `:`, `%(field)s` under any other style; each token stands, for its driver, for that field's value |
| Sql.ParamValues | utils/sql.py:229-235 | under `?` a row is passed as its values in column order, under every other style as the row itself |
| Sql.PositionalBinds | utils/sql.py:205-217 | n positional tokens take a sequence of n values as they are |
| Sql.NamedBinds | utils/sql.py:219-227 | under a named style, the placeholders of present columns bind those columns' values in placeholder order |
| Sql.RowBinds | utils/sql.py:219-235 | one placeholder per column of a row, given the row as `get_param_values` shapes it, binds exactly the row's values, whatever the style |
| Sql.NormalizeRowCount | utils/sql.py:300-307 | under sqlite3 a row count of -1 becomes 1 exactly when the text mentions DROP or CREATE; otherwise the count is kept |
| Sql.CheckResult | utils/sql.py:247-253 | an asserted read fails exactly when the driver reports a row count of 0, with the caller's message when it is non-empty and "No results found for <sql>" otherwise |
| Sql.ScriptCount | utils/sql.py:354-364 | a script runs one statement per `;` plus one |
| Sql.ScriptRoundTrip | utils/sql.py:354-360 | statements with their `;` escaped as `$$` and joined by `;` are run exactly as they were |
| Sql.ScriptDryRun | utils/sql.py:358-367 | a script in dry run reports 0 rows |
| Sql.ScriptDdlCount | utils/sql.py:358-364 | under sqlite3, a script of DROP/CREATE statements each reported as -1 counts one row per statement |
| Sql.Sql.constructor | utils/sql.py:17-22 | the facade starts with the `?` style |
| Sql.Sql.Connect | utils/sql.py:51-72 | opening a connection sets the style of the engine's driver, or fails and leaves the style unchanged |
| Sql.Sql.Execute | utils/sql.py:289-313 | in dry run nothing changes and 0 is returned; otherwise the command is applied and its normalised row count returned |
| Sql.Sql.ExecuteMany | utils/sql.py:315-342 | an empty batch is refused before anything else, even in dry run; a dry run returns 0 and changes nothing; otherwise every row is inserted and the count is the batch's size |
| Sql.Sql.ExecuteScript | utils/sql.py:344-367 | a missing file fails; otherwise the result is the sum of what `execute` returns for each `;`-piece with `$$` turned into `;` |
| SyncInsert.Stream | sync/sync_insert.py:85-89 | the streamed rows are the source rows above the watermark, ascending, at most `db_insert_limit_select` |
| SyncInsert.InsertPlan | sync/sync_insert.py:53-116 | the rows a run copies: the first `db_insert_limit` streamed rows above the watermark; `SyncInsert.SyncInsert` and `SyncInsert.ContiguousInsert` state what that is |
| SyncInsert.Chunks | sync/sync_insert.py:112-138 | the batches `execute_many` receives, full batches then the rest; `SyncInsert.ChunksSpec` states their shape |
| SyncInsert.StreamFacts | sync/sync_insert.py:53-89 | every target key is at most the watermark (0 for an empty target), and the streamed keys lie above it, ascend and carry the source rows; a source key above the watermark that is not streamed means the stream already holds `db_insert_limit_select` rows, all with smaller keys |
| SyncInsert.ChunksSpec | sync/sync_insert.py:112-138 | the batches hold the copied rows in order, none dropped or repeated, each has 1 to `db_insert_batch_size` rows, and all but the last are full |
| SyncInsert.ChunksAppend | sync/sync_insert.py:118-138 | after k full batches, one more batch of at most the batch size is appended as the next batch |
| SyncInsert.BatchBoundary | sync/sync_insert.py:118 | after k full batches the row counter is a multiple of the batch size exactly when the pending batch is full |
| SyncInsert.Fresh | sync/sync_insert.py:121-124 | no batch collides with a target key or with an earlier batch |
| SyncInsert.InsertStatement | sync/sync_insert.py:100-110 | the statement lists the first row's columns and one placeholder per column, each list written `item, ` and right-stripped |
| SyncInsert.ColumnLists | sync/sync_insert.py:101-107 | the loop over the first row writes each column name, and its placeholder, followed by `, `, in row order |
| SyncInsert.InsertStatementBinds | sync/sync_insert.py:100-124 | those lists are comma-separated, and each row with the first row's columns, passed as it is, binds exactly its own values |
| SyncInsert.StripList | sync/sync_insert.py:109-110 | a comma-terminated list of cleanly ending items strips back to the joined list |
| SyncInsert.StopPoint | sync/sync_insert.py:114-116 | stopping after the limit's row or at the end of the stream copies exactly the first `db_insert_limit` rows |
| SyncInsert.Flush | sync/sync_insert.py:118-138 | writing the pending rows adds them to the target, returns their number (0 in dry run) and appends them as the next batch |
| SyncInsert.FlushFacts | sync/sync_insert.py:118-138 | the pending rows hold no key of the target or of earlier batches, form the next batch, and adding them after the earlier batches adds every copied row |
| SyncInsert.EndOfRow | sync/sync_insert.py:118-127 | when the row counter reaches a multiple of the batch size the pending rows are written as the next batch; otherwise they stay pending |
| SyncInsert.FlushRest | sync/sync_insert.py:130-138 | after the loop, rows still pending are written as the last batch |
| SyncInsert.CopyStream | sync/sync_insert.py:91-138 | the loop copies the first `db_insert_limit` streamed rows, in batches that are `Chunks` of them, and reports their number (0 in dry run) |
| SyncInsert.SyncInsert | sync/sync_insert.py:17-147 | fails exactly on an unknown engine or an unresolved primary field; otherwise the target gains the planned rows (nothing in dry run) and the result counts them |
| SyncInsert.ContiguousInsert | tests/test_sync.py:44-128 | source keyed 1..n and target keyed 1..t: a run copies keys t+1 up to the smaller limit, no further than n (10 rows, then 10 more, in the tests) |
| SyncInsert.MaxOfRange | sync/sync_insert.py:58-61 | a table keyed 1..t has watermark t, and 0 when it is empty |
| SyncInsert.SortedRange | sync/sync_insert.py:85-89 | the keys of a table keyed 1..n above t, in order, are t+1..n |
| SyncUpdate.ModifiedField | sync/sync_update.py:32-39 | the modified field is the table's value, else the configured `db_update_modified_field` |
| SyncUpdate.ModifiedFieldAsWritten | sync/sync_update.py:32-35 | without a per-table value the code reads a configuration attribute that does not exist and fails |
| SyncUpdate.ModifiedFieldDefaultIgnored | sync/sync_update.py:35 | a configured default modified field resolves in the corrected rule but fails as written |
| SyncUpdate.UpdateFields | sync/sync_update.py:32-59 | succeeds exactly when the modified field, the from-date, the primary field and the date parse all succeed; the modified-field error comes first; on success the instant is the parse of the resolved from-date |
| SyncUpdate.RowAt | sync/sync_update.py:117-121 | the target lookup by key finds the target's row exactly when the key is present |
| SyncUpdate.UpdateRun | sync/sync_update.py:93-137 | the whole loop over the streamed rows: skip under the comparison, write and count otherwise, stop once the total reaches `db_update_limit`; its properties are `SyncUpdate.UpdateBound` through `SyncUpdate.UpdateIgnoresSkipped` |
| SyncUpdate.NeverSkipsAsWritten | sync/sync_update.py:115-123 | the comparison as written never skips a row the read returned |
| SyncUpdate.IdenticalRowSkipped | sync/sync_update.py:115-123 | a target row holding the source row is skipped by the corrected comparison but not as written |
| SyncUpdate.UpdateBound | sync/sync_update.py:133-137 | the total never passes `db_update_limit` and grows by at most one per row read |
| SyncUpdate.UpdateDryRun | sync/sync_update.py:128-137 | in dry run every row is attempted, nothing changes and the total is 0 |
| SyncUpdate.UpdateOnlyRewrites | sync/sync_update.py:125-131 | updating never adds or removes a target row, and each changed row now holds a source row of the same key |
| SyncUpdate.UpdateCountsRows | sync/sync_update.py:128-137 | without the comparison, when every row read exists in the target, the total is one per row read, capped at the limit |
| SyncUpdate.UpdateSkipsUnchanged | sync/sync_update.py:115-123 | in timestamp mode, rows whose modified value the target already holds are neither written nor counted |
| SyncUpdate.KeyUntouched | sync/sync_update.py:125-131 | a target row whose key the stream does not carry is left as it was |
| SyncUpdate.SkippedRowKept | sync/sync_update.py:115-131 | in timestamp mode, over ascending keys, a row the comparison skips leaves its target row as it was, wherever it sits in the stream |
| SyncUpdate.Unskipped | sync/sync_update.py:115-123 | the rows the comparison keeps are some of the streamed rows, never more of them |
| SyncUpdate.UnskippedAgree | sync/sync_update.py:117-123 | the comparison keeps the same rows against two targets that hold the same rows under the streamed keys |
| SyncUpdate.WriteKeepsRestUnskipped | sync/sync_update.py:117-131 | over ascending keys, writing one row does not change which later rows the comparison keeps |
| SyncUpdate.UpdateIgnoresSkipped | sync/sync_update.py:115-137 | over ascending keys, the run (final target and total) is the run over only the rows the comparison keeps: skipped rows are neither written nor counted |
| SyncUpdate.IgnoresSkippedHead | sync/sync_update.py:117-123 | the same, when the first row is skipped |
| SyncUpdate.IgnoresKeptHead | sync/sync_update.py:125-137 | the same, when the first row is written |
| SyncUpdate.Without | sync/sync_update.py:97-103 | the columns of the `SET` list are the row's columns except the primary field |
| SyncUpdate.Assignments | sync/sync_update.py:101-108 | each `SET` item is `column = placeholder(column)` |
| SyncUpdate.AssignmentsStep | sync/sync_update.py:101-108 | each column adds its assignment to the list unless it is the primary field |
| SyncUpdate.SetList | sync/sync_update.py:100-109 | the loop writes `column = placeholder, ` for every column but the key, in row order |
| SyncUpdate.UpdateStatement | sync/sync_update.py:95-112 | the statement is the right-stripped `SET` list followed by `WHERE key = placeholder(key)` |
| SyncUpdate.UpdateStatementBinds | sync/sync_update.py:95-131 | the `SET` list is comma-separated, and the row, passed as it is, binds each other column's value and then the key's |
| SyncUpdate.SetListStrips | sync/sync_update.py:100-110 | a `SET` list whose last item ends cleanly strips to the comma-joined items |
| SyncUpdate.UpdateParamsBind | sync/sync_update.py:107-131 | every column of the `SET` list and the key is present in the row, and their placeholders bind the row's own values in that order |
| SyncUpdate.UpdateRows | sync/sync_update.py:90-137 | the loop's effect on the target and its total are those of `UpdateRun` |
| SyncUpdate.UpdateOne | sync/sync_update.py:115-131 | one row: skipped, with the target unchanged, exactly when the comparison says so; otherwise written, returning the driver's count (0 in dry run) |
| SyncUpdate.SyncUpdate | sync/sync_update.py:18-148 | fails exactly on an unknown engine or an unresolved field or date; otherwise runs `UpdateRun` over the streamed rows and reports its total |
| SyncUpdate.UpdateCount | tests/test_sync.py:134-190 | without the comparison, when every row the read returns exists in the target, the total is the smallest of the number of changed rows and the two limits (in the tests the streamed keys exist in the target and the total is 10) |
| SyncDelete.WindowCount | sync/sync_delete.py:57 | `ceil(max / w)` windows: none for max at most 0, otherwise the least n with n*w at least max |
| SyncDelete.WindowCountAsWritten | sync/sync_delete.py:43-57 | the window count as written fails when the target is empty and its `MAX` is NULL |
| SyncDelete.EmptyTargetWindows | sync/sync_delete.py:43-57 | on an empty target the code as written fails, where no window is the evident intent |
| SyncDelete.WindowsAdjacent | sync/sync_delete.py:60-61 | the last key of window b is the first key of window b+1 |
| SyncDelete.WindowsCover | sync/sync_delete.py:57-61 | every key from 1 to the largest key lies in one of the `ceil(max / w)` windows |
| SyncDelete.WindowsSpan | sync/sync_delete.py:57-61 | every key from 1 to the largest key is spanned by the windows the loop visits |
| SyncDelete.SpanStep | sync/sync_delete.py:58-61 | the span of windows 0..b is the span of 0..b-1 plus window b |
| SyncDelete.MinusSpec | sync/sync_delete.py:81 | the comprehension keeps exactly the target ids the source ids lack, and is no longer than the target list |
| SyncDelete.Minus | sync/sync_delete.py:81 | the list comprehension: the target ids not among the source ids, in target order; `SyncDelete.MinusSpec` and `SyncDelete.MinusIncreasing` state its properties |
| SyncDelete.MinusIncreasing | sync/sync_delete.py:81 | the comprehension keeps the target's ascending order |
| SyncDelete.Truncate | sync/sync_delete.py:86-88 | the deleted ids are the first `db_delete_limit` candidates, or all of them when fewer |
| SyncDelete.TruncateAsWritten | sync/sync_delete.py:84-88 | as written, reaching the limit fails with a TypeError before anything is deleted; below it the candidates are kept |
| SyncDelete.TruncateAtLimit | sync/sync_delete.py:84-88 | at or over the limit the code as written fails, while the evident rule cuts to the first `db_delete_limit` ids |
| SyncDelete.KeyValues | sync/sync_delete.py:96 | the `DELETE` parameters are the ids, in order |
| SyncDelete.InListBinds | sync/sync_delete.py:91-97 | the `IN` list holds one positional placeholder per id, and they bind exactly the ids |
| SyncDelete.InList | sync/sync_delete.py:91 | `','.join([param_style] * n)`; `SyncDelete.InListSplits` proves it holds exactly n placeholders |
| SyncDelete.InListSplits | sync/sync_delete.py:91 | the `IN` list splits at its commas into exactly n positional placeholders |
| SyncDelete.MissingSpec | sync/sync_delete.py:63-81 | the range scan lists, ascending, exactly the target keys in the range that the source lacks |
| SyncDelete.CandidatesSpec | sync/sync_delete.py:63-81 | a window's candidates are, ascending, exactly its target keys absent from the source |
| SyncDelete.MinusIsCandidates | sync/sync_delete.py:63-81 | the comprehension over the two `BETWEEN` reads yields exactly the window's candidates, in the same order |
| SyncDelete.WindowRead | sync/sync_delete.py:63-79 | a `BETWEEN` read of a window returns the window's keys ascending |
| SyncDelete.StepSpec | sync/sync_delete.py:81-97 | one window removes only target keys the source lacks, leaves other rows as they were and counts exactly the rows removed; a dry run changes nothing |
| SyncDelete.Step | sync/sync_delete.py:63-105 | one window: the target-only ids, cut to `db_delete_limit`, are deleted and counted (nothing in dry run), and the window stops the loop when the candidates reached the limit; `SyncDelete.StepSpec` and `SyncDelete.StepBelowLimit` state its properties |
| SyncDelete.DeleteRun | sync/sync_delete.py:56-106 | the window loop from a window on: each window's step, counts added, stopping after a window that reached the limit; `SyncDelete.DeleteRunSpec` and `SyncDelete.DeleteRunBelow` state its properties |
| SyncDelete.StepBelowLimit | sync/sync_delete.py:81-105 | when fewer keys than the limit are missing from the source, a window does not reach the limit and removes exactly its target-only keys |
| SyncDelete.MaxKeyBound | sync/sync_delete.py:43-48 | every key of a table is at most its `MAX` |
| SyncDelete.DeleteWindow | sync/sync_delete.py:58-102 | one pass reads both windows, deletes the truncated candidates, and reports the count and whether the limit was reached, as `Step` states |
| SyncDelete.PassFacts | sync/sync_delete.py:102-105 | the run is the window's step, then either the stop (limit reached) or the run from the next window |
| SyncDelete.DeleteRunSpec | sync/sync_delete.py:58-105 | the window loop removes only target rows the source lacks, leaves the others as they were, and reports exactly the rows removed; a dry run changes nothing and reports 0 |
| SyncDelete.DeleteRunBelow | sync/sync_delete.py:58-105 | below the limit, the run removes every target-only key the visited windows span |
| SyncDelete.BelowLimitKept | sync/sync_delete.py:86-105 | below the limit, window b never stops the loop and extends the removed keys by its own target-only keys |
| SyncDelete.DeleteWindows | sync/sync_delete.py:56-106 | the loop's effect on the target and its total are those of `DeleteRun` |
| SyncDelete.AllSpanned | sync/sync_delete.py:57-61 | once every window was visited below the limit, the target keeps exactly its keys the source also has |
| SyncDelete.SyncDelete | sync/sync_delete.py:30-115 | fails exactly on an unknown engine or an unresolved primary field; removes only target rows the source lacks and reports how many; changes nothing in dry run; below the limit removes all of them (3 rows in the tests) |

## Left out

- Drivers, connections and transactions are not modelled: the `_connect*` helpers, `connect_to_source`/`connect_to_target`, commits and closing. Opening a connection is modelled only by the style it sets (`Sql.Sql.Connect`).
- Logging, `time.perf_counter` timing, `time.sleep(2)` and the "Dryrun: " prefix of logged statements are left out; they change no result.
- Exceptions re-raised as `Exception(e)` keep only their inner kind and message (`Common.Error`).
- `dateparser.parse` is a foreign library and becomes the parameter `parseDate` of `SyncUpdate.SyncUpdate`; instants are integers, and an unparseable text is an error.
- Column values are only NULL, integers (which also stand for instants) and text; driver type conversions and string comparison of timestamps are not modelled.
- Primary keys are integers, and each row is stored under its key value; a key column whose value differs from that key is not modelled.
- The streamed source cursor is read in full before the loop. Concurrent changes to the source while it streams are not modelled.
- The diagnostic reads are not modelled: the insert strategy's `COUNT` and source `MAX`, and the update strategy's `COUNT`. They only feed log messages. Their asserted-result check fails only when the driver reports a row count of 0; an aggregate returns one row, and sqlite3 reports -1 for every `SELECT`.
- `select_one_row`/`select_all_rows` are modelled only by their empty-result check (`Sql.CheckResult`) and the reads of `Store.Cursor`.
- The script file is read by the caller: `Sql.Sql.ExecuteScript` takes the file's text (absent when the file does not exist) and a function giving each statement's reported row count. The statements' effect on the tables is not modelled.
- Sql.Sql.Execute: engine errors are not modelled; the command must be applicable (for an insert, keys not yet present). The strategies prove this for every write they issue.
- Sql.Sql.ExecuteMany: a duplicate-key error from the engine is not modelled; the inserted keys must be fresh, and the insert strategy proves that they are.
- Store.RawCount: an `UPDATE` reports the rows it matched (1 when the key is present). MySQL's changed-rows count and psycopg2's `execute` returning no count are not modelled.
- Store.Apply: an update replaces the whole row under its key and an insert stores the source row as it is. The real `UPDATE` sets only the columns of its `SET` list, and an `INSERT` fills columns only the target has with their defaults. So `SyncUpdate.UpdateOnlyRewrites` and `SyncInsert.SyncInsert` (the target gains the source rows) describe the tables exactly only when source and target have the same columns.
- SyncDelete.WindowRead: the `BETWEEN` reads of sync/sync_delete.py:63-79 have no `ORDER BY`. The model returns each window's keys ascending, as sqlite3 and InnoDB return them by primary key. Another engine may return another order; then a window at the limit deletes a different set of `db_delete_limit` ids, and `SyncDelete.MinusIsCandidates` holds only up to order.
- SyncDelete.DeleteWindow: a window with no candidates still issues `DELETE … IN ()`. The model treats it as deleting nothing, as sqlite3 does; MySQL and PostgreSQL reject the empty list.
- SyncInsert.SyncInsert: every limit and the batch size must be at least 1 (`Common.LimitsPositive`). A zero batch size divides by zero in the source, and zero or negative limits are not modelled.
- SyncUpdate.SyncUpdate: requires every limit to be at least 1, as above.
- SyncDelete.SyncDelete: requires every limit to be at least 1, as above; a zero window width divides by zero in the source.
- The `?` style is set by the constructor (utils/sql.py:17-22) and also by the MySQL-connector and MariaDB helpers (utils/sql.py:139 and 159), but `_connect` only reaches the sqlite3, MySQLdb and psycopg2 helpers, so after a connection the style is never `?`. Those two helpers are not modelled, and the named-binding lemmas require a named style.
- sync/sync_thread.py (the thread pool and task ids), sync/sync.py and sync/sync_select.py (table lists and catalog listing, file I/O), utils/config.py, utils/logger.py, utils/json.py and main.py (environment, logging, serialisation, command line) are not part of this model.

## Findings

| source | as written | input that shows it | evidently intended | confidence | as-written member | corrected member |
|---|---|---|---|---|---|---|
| sync/sync_delete.py:84-88 | `msg` is a tuple, so `msg += ", limiting …"` raises TypeError before any row of the window is deleted | any window with at least `db_delete_limit` candidates, e.g. limit 1, target keys {1}, empty source (`SyncDelete.TruncateAtLimit`) | cut the candidates to the first `db_delete_limit` ids, delete them and stop | high; not executed | SyncDelete.TruncateAsWritten | SyncDelete.Truncate |
| sync/sync_delete.py:48-57 | `MAX` of an empty target is NULL, and `ceil(None / w)` raises TypeError | an empty target table (`SyncDelete.EmptyTargetWindows`) | read NULL as 0, as the insert strategy does, so no window is scanned | high; not executed | SyncDelete.WindowCountAsWritten | SyncDelete.WindowCount |
| sync/sync_update.py:35 | without a per-table modified field the code reads `config.db_modified_field`, which the configuration does not define, so it raises AttributeError | a table descriptor without `modified_field` and `DB_UPDATE_MODIFIED_FIELD` set (`SyncUpdate.ModifiedFieldDefaultIgnored`) | fall back to `db_update_modified_field` | high; not executed | SyncUpdate.ModifiedFieldAsWritten | SyncUpdate.ModifiedField |
| sync/sync_update.py:117-123 | the whole fetched row (or None) is compared with the source row's modified value, so a row the read returned is never skipped | compare method "timestamp" and a target row identical to the source row (`SyncUpdate.IdenticalRowSkipped`) | compare the target's modified value with the source's and skip when they are equal | high; not executed | SyncUpdate.NeverSkipsAsWritten | SyncUpdate.SkippedRowKept |
