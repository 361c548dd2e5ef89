# minase query engine in Dafny

A model of the query engine of minase, a small in-memory columnar database, with proofs about it.
A table is a list of typed columns plus a frozen list of column type tags. Queries carry postfix
(RPN) condition and update expressions, which a stack machine evaluates with the row's cell bound
in place of `Cell`. Two executors are modelled:

- the full one in the minase crate: `get_table`, `get_table_with_column_check`, `add_table`,
  `drop_table`, `select`, `insert`, `update`, `update_all` and `delete`;
- the older one in the database crate: `get_table`, `add_table`, `drop_table`, `select` and
  `insert`.

The model also covers the error enums of both crates and their `Display` text.

Modules, in dependency order:

| module | file | models |
|---|---|---|
| `Outcomes` | outcomes.dfy | `Result`, `Option`, and the two ways a Rust call can end (`Outcome`, `Effect`) |
| `Values` | values.dfy | `Types`, `Value`, `Column`, both `to_types`, and the column operations the executors use (push, index write, `Vec::remove`) |
| `QueryErrors` | query_errors.dfy | the eight-variant `QueryError` of the database crate and its `Display` |
| `MinaseQueryErrors` | minase_query_errors.dfy | the nine-variant `QueryError` of the minase crate, its `Display`, and `Lift` from the eight-variant enum |
| `Evaluator` | evaluator.dfy | `Expr` and `ExprEvaluator::evaluate` |
| `Tables` | tables.dfy | `Table`, its invariants, the condition scan shared by `select`, `update` and `delete`, and the checks and push of `insert` |
| `Projection` | projection.dfy | the projection half of `select` |
| `Rewrite` | rewrite.dfy | the in-place rewrite of `update` and `update_all` |
| `Removal` | removal.dfy | the reversed-row removal of `delete` |
| `LegacyDatabase` | legacy_database.dfy | the older `Database` |
| `MinaseDatabase` | minase_database.dfy | the full `Database` |

How the model is built:

- **Panics are explicit.** Some Rust operations panic: `i32` overflow, division by zero, an index
  past the end in the projection, the update or `Vec::remove`, and `into_int().unwrap()` on a
  value of another variant. Each becomes an outcome of its own: `Outcome.Panics` for values,
  `Effect.Aborts` for state changes.
- **Methods are proved against functions.** Each executor method is specified by a function on
  the state (`SelectOutcome`, `UpdateEffect`, …). Its precondition is that this function does
  not panic, and its postcondition is that it returns, or leaves, exactly what the function
  says. The lemmas prove what the source promises about those functions.
- **Loops stay loops.** `evaluate`, the scan, the projection, the insert push, the rewrite and
  the removal are `while` loops with invariants.
- **Class state.** `Database.tables` is a `seq<Table>` field that the methods reassign. The class
  invariant `Valid()` says every table's type tags mirror its columns (`Tables.Schematic`).
- **Equal column lengths are not an invariant.** `add_table` accepts columns of different
  lengths. Lemmas show that every operation keeps a table whose columns have equal lengths in
  that state (`Tables.Rectangular`).
- **The minase `evaluate!` macro** is modelled as the inline pattern of the older `select`
  (database/src/db_core/database.rs:73-122): evaluate, and return the evaluator's error
  unchanged. `MinaseQueryErrors.Lift` carries that error into the minase enum.
- **The rewrite is generic in the evaluator.** Module `Rewrite` is stated over any evaluation
  function (`Semantics`). `update` and `update_all` run it with `SemanticsOf(fp)`, which is
  `Evaluator.Evaluation` under float arithmetic `fp`.
- **`f32` is a bit pattern.** A `Float` payload is a `bv32`. Its arithmetic and comparisons are
  the functions of a `FloatArith` parameter, so nothing is claimed about rounding or NaN.

The column check of `get_table_with_column_check` is `table.columns.len() < column`
(minase/src/db_core/database.rs:46). It accepts `column == len(columns)`, one past the last
column, which looks like an off-by-one. The model follows the code as written:
`MinaseDatabase.CheckedTable` states the accepted range exactly, and
`MinaseDatabase.SelectPastLastColumn` shows what `select` then returns (a table of empty
columns).

## Model

| member | source | states |
|---|---|---|
| Values.TypeOf | database/src/db_core/values.rs:259-276 | each `Value` variant maps to the `Types` tag of the same name, and only that variant does |
| Values.ColumnType | database/src/db_core/values.rs:286-302 | each `Column` variant maps to the `Types` tag of the same name, and only that variant does |
| Values.CellAt | database/src/db_core/database.rs:73 | a cell wrapped as `Value::T(..)` has its column's type tag |
| Values.EmptyColumn | minase/src/db_core/database.rs:148-181 | the fresh `vec![]` column of a projection has the requested variant and no cells |
| Values.Append | minase/src/db_core/database.rs:227-241 | a push onto a column of the value's variant keeps the variant and appends exactly that value |
| Values.SetCell | minase/src/db_core/database.rs:333-360 | the write `vals[row] = v` keeps the variant and replaces exactly cell `row` |
| Values.RemoveAt | minase/src/db_core/database.rs:465-488 | `Vec::remove(row)` keeps the variant, drops cell `row` and shifts the later cells down |
| QueryErrors.Display | database/src/db_core/query_error.rs:16-45 | every variant's text is `"Query Error: "` followed by more text |
| QueryErrors.ExactlyEightVariants | database/src/db_core/query_error.rs:5-14 | every error is one of eight listed variants, which are distinct; there is no `InvalidQuery` |
| QueryErrors.DisplayInjective | database/src/db_core/query_error.rs:18-43 | two errors with the same text are the same variant |
| QueryErrors.CellValueNotSetText | database/src/db_core/query_error.rs:28-30 | `CellValueNotSet` displays as "Query Error: Column Value Not Set" |
| MinaseQueryErrors.Display | minase/src/db_core/query_error.rs:18-50 | every variant's text is `"Query Error: "` followed by more text |
| MinaseQueryErrors.ExactlyNineVariants | minase/src/db_core/query_error.rs:6-16 | every error is one of nine listed variants, which are distinct |
| MinaseQueryErrors.DisplayInjective | minase/src/db_core/query_error.rs:20-48 | two errors with the same text are the same variant |
| MinaseQueryErrors.CellValueNotSetText | minase/src/db_core/query_error.rs:30-32 | `CellValueNotSet` displays as "Query Error: Column Value Not Set" |
| MinaseQueryErrors.InvalidQueryText | minase/src/db_core/query_error.rs:45-47 | `InvalidQuery` displays as "Query Error: Invalid Query" |
| MinaseQueryErrors.Lift | minase/src/db_core/query_error.rs:6-16 | an evaluator error becomes the minase variant with the same text, never `InvalidQuery` |
| MinaseQueryErrors.LiftInjective | minase/src/db_core/query_error.rs:6-16 | distinct evaluator errors stay distinct in the minase enum |
| Evaluator.Quot | database/src/db_core/values.rs:150-158 | Rust's `i32` division: `q * b` is the multiple of `b` nearest `a` on the side of zero (the remainder is smaller than `b` and keeps the sign of `a`), and equals Euclidean division for non-negative operands |
| Evaluator.IntArith | database/src/db_core/values.rs:65-77 | `i32` arithmetic yields an Int; in range, `Add`, `Sub`, `Mul` and `Div` give exactly a+b, a−b, a·b and the truncated quotient; division by zero panics |
| Evaluator.Apply | database/src/db_core/values.rs:27-90 | an operator errors exactly when the operands differ in variant or the operator does not accept their type, always with `TypeMismatch`; arithmetic keeps the operand type and comparisons give Bool; only Int arithmetic panics; String `Add` is left followed by right; Int arithmetic is `IntArith`; `Eq`/`Neq` on non-Float operands of one variant give whether they are equal, and its negation |
| Evaluator.Bind | database/src/db_core/values.rs:104-113 | the substituted program has the same length, every `Cell` becomes the row value as a literal, and every other instruction is unchanged |
| Evaluator.Step | database/src/db_core/values.rs:123-228 | one instruction underflows exactly when the stack holds fewer values than it pops: two for a binary operator, one for `Not` |
| Evaluator.Run | database/src/db_core/values.rs:115-230 | the loop over a program without `Cell` fails only with `TypeMismatch` or `StackUnderflow` |
| Evaluator.Finish | database/src/db_core/values.rs:232-236 | the result is `Ok` exactly when the loop ends with one value, and is that value; a loop error passes through unchanged; a panic stays a panic |
| Evaluator.Evaluation | database/src/db_core/values.rs:104-236 | `evaluate` never returns `CellValueNotSet`, and fails only with `TypeMismatch`, `StackUnderflow` or `NoOperation` |
| Evaluator.Evaluate | database/src/db_core/values.rs:23-237 | the stack-machine loop returns exactly what `Evaluation` specifies |
| Evaluator.StackUnderflowAfter | database/src/db_core/values.rs:123-216 | a binary operator reached with fewer than two values, or `Not` with none, yields `StackUnderflow` |
| Evaluator.ResultIsTheOnlyValueLeft | database/src/db_core/values.rs:232-236 | the result is `Ok(v)` exactly when the loop leaves the single value `v`; any other count gives `NoOperation` |
| Evaluator.LeafPrograms | database/src/db_core/values.rs:104-236 | the empty program gives `NoOperation`; a lone value, or a lone `Cell`, evaluates to that value |
| Evaluator.OperandOrder | database/src/db_core/values.rs:123-211 | operands pop right then left: `[a, b, op]` applies `op` to `a` on the left and `b` on the right |
| Evaluator.SubAndLtOrder | database/src/db_core/values.rs:123-175 | `[a, b, Sub]` computes a − b (in `i32` range), `[a, b, Lt]` computes a < b, and `[x, y, Add]` on strings is x followed by y |
| Evaluator.DivTruncates | database/src/db_core/values.rs:150-158 | `-7 / 2` and `7 / -2` evaluate to `-3`: division truncates toward zero |
| Evaluator.NotTyping | database/src/db_core/values.rs:213-228 | `Not` negates a Bool and rejects every other variant with `TypeMismatch` |
| Tables.NewTable | minase/src/db_core/database.rs:68-74 | a new table keeps the given columns, and its type tags mirror their variants |
| Tables.Scan | minase/src/db_core/database.rs:113-121 | a successful scan of the first `n` rows keeps at most `n` rows, each below `n` |
| Tables.Kept | minase/src/db_core/database.rs:124-142 | every kept row is a row of the condition column; an error can come only from a condition column that exists |
| Tables.ScanSound | minase/src/db_core/database.rs:113-121 | a successful scan is ascending and lists exactly the rows whose condition is `Bool(true)`, and every row evaluated without error |
| Tables.ScanStuck | database/src/db_core/database.rs:73-122 | once a row's evaluation fails, scanning further rows changes nothing (the early return) |
| Tables.ScanFirstError | database/src/db_core/database.rs:73-122 | a failed scan reports, unchanged, the error of the first row whose evaluation failed |
| Tables.ScanNoneMatch | minase/src/db_core/database.rs:113-121 | when every row evaluates without error and none to `Bool(true)`, no row is kept |
| Tables.EmptyConditionScan | database/src/db_core/database.rs:70-128 | an empty condition fails with `NoOperation` at the first row, and keeps nothing on a column without rows |
| Tables.KeptSound | minase/src/db_core/database.rs:124-142 | the kept rows are ascending and are exactly the matching rows; a condition column past the last keeps none |
| Tables.CollectRows | minase/src/db_core/database.rs:113-121 | the `check!` loop returns what the scan specifies |
| Tables.KeptRows | minase/src/db_core/database.rs:124-142 | the dispatch on the condition column returns what `Kept` specifies |
| Tables.Insertion | minase/src/db_core/database.rs:205-225 | `SizeMismatch` exactly when the counts differ, else `TypeMismatch` exactly when the tags differ from the schema; success only for well-typed values |
| Tables.PushRow | minase/src/db_core/database.rs:243-263 | the push loop pushes `values[i]` onto column `i` for every `i` |
| Tables.AppendRow | minase/src/db_core/database.rs:243-263 | the schema and the column count are kept; each column keeps its variant and gains exactly its value at the end |
| Tables.AppendRowGrows | minase/src/db_core/database.rs:243-263 | each column grows by exactly its value at its end; schema, type-tag agreement and equal lengths are kept; the table gains one row |
| Projection.Project | minase/src/db_core/database.rs:147-181 | the projected column keeps the variant, has one cell per kept row, and its k-th cell is source cell `rows[k]` |
| Projection.ProjectTable | minase/src/db_core/database.rs:144-187 | the schema and the column count are copied; each column keeps its variant and has one cell per kept row |
| Projection.Selected | minase/src/db_core/database.rs:113-187 | a successful select copies the schema and the column count; an error can come only from a condition column that exists |
| Projection.BuildProjection | minase/src/db_core/database.rs:144-187 | the projection loops build every column projected onto the kept rows, with the copied schema |
| Projection.ProjectionFaithful | minase/src/db_core/database.rs:144-187 | the projection's i-th row is the source's `rows[i]`-th row; schema copied; equal column lengths |
| Projection.SelectedKeepsMatchingRows | minase/src/db_core/database.rs:113-187 | a successful select is the projection onto the ascending list of exactly the matching rows |
| Projection.SelectedPanicsOnlyInEvaluation | minase/src/db_core/database.rs:147-181 | on a table with equal column lengths, the `get(row).unwrap()` of the projection never panics |
| Projection.SelectedPastLastColumn | database/src/db_core/database.rs:131-194 | a condition column past the last keeps no row: empty columns of the source variants, schema copied |
| Rewrite.Range | minase/src/db_core/database.rs:382 | `0..len` is ascending and holds exactly the rows below `len` |
| Rewrite.RewriteStep | minase/src/db_core/database.rs:334-338 | one row written keeps the column's variant and length; an evaluator error leaves the column unchanged and is that row's evaluation error |
| Rewrite.Rewritten | minase/src/db_core/database.rs:334-359 | rewriting a column keeps its variant and length |
| Rewrite.ApplyTarget | minase/src/db_core/database.rs:329-364 | one target changes only its own column, which becomes that column rewritten at the chosen rows, with the same status; an id past the last column changes nothing and succeeds |
| Rewrite.Retargeted | minase/src/db_core/database.rs:329-365 | the targets in order keep the number of columns |
| Rewrite.RewrittenStuck | minase/src/db_core/database.rs:334-338 | after an error or a panic, the later rows are not visited |
| Rewrite.RetargetedStuck | minase/src/db_core/database.rs:329-365 | after an error or a panic, the later targets are not applied |
| Rewrite.RewriteColumn | minase/src/db_core/database.rs:334-359 | the row loop of one target column leaves what `Rewritten` specifies |
| Rewrite.RewriteTarget | minase/src/db_core/database.rs:330-364 | one target leaves what `ApplyTarget` specifies; an id that is not a column is skipped |
| Rewrite.RewriteColumns | minase/src/db_core/database.rs:329-365 | the target loop leaves what `Retargeted` specifies |
| Rewrite.RewrittenCells | minase/src/db_core/database.rs:334-359 | after a full rewrite at ascending rows, each rewritten cell is the expression's value on its old value and every other cell is unchanged |
| Rewrite.RewrittenAtRows | minase/src/db_core/database.rs:334-359 | the same, stated per position of the column |
| Rewrite.RewrittenEveryRow | minase/src/db_core/database.rs:382-407 | `update_all` on a column replaces every cell by the expression's value on it |
| Rewrite.RewrittenError | minase/src/db_core/database.rs:334-359 | a rewrite stopped by an error keeps the complete rewrite of the rows before the failing row |
| Rewrite.RetargetedUntouched | minase/src/db_core/database.rs:329-365 | columns no target names come through unchanged |
| Rewrite.RetargetedError | minase/src/db_core/database.rs:329-365 | an error on target m keeps every earlier target's writes and target m's writes up to the failing row |
| Rewrite.RewrittenErrors | minase/src/db_core/database.rs:334-359 | a rewrite fails only with `TypeMismatch`, `StackUnderflow` or `NoOperation` |
| Rewrite.RetargetedErrors | minase/src/db_core/database.rs:329-365 | the targets fail only with `TypeMismatch`, `StackUnderflow` or `NoOperation` |
| Rewrite.RetargetedShape | minase/src/db_core/database.rs:329-365 | every column keeps its variant and length |
| Rewrite.RetargetedKeepsShape | minase/src/db_core/database.rs:329-365 | the rewritten table keeps type-tag agreement, equal column lengths and its row count |
| Rewrite.RewrittenKeepsOtherRows | minase/src/db_core/database.rs:334-359 | whatever the status, the cells outside the chosen rows are unchanged |
| Rewrite.RetargetedKeepsOtherRows | minase/src/db_core/database.rs:329-365 | in every column, the length and every cell outside the chosen rows are kept, whatever the status |
| Rewrite.RetargetedDistinct | minase/src/db_core/database.rs:329-365 | with distinct target ids, a completed run leaves each named column as the complete rewrite of its original column |
| Removal.Reverse | minase/src/db_core/database.rs:463 | `reverse()` puts element `n-1-i` at position `i` |
| Removal.RemoveEach | minase/src/db_core/database.rs:468-470 | removing each listed row keeps the variant and shrinks the column by the number of rows; the first row must exist |
| Removal.RemoveDescending | minase/src/db_core/database.rs:463-488 | removing distinct ascending rows last first never panics and filters out exactly those positions |
| Removal.RemoveRows | minase/src/db_core/database.rs:468-470 | the removal loop of one column leaves what `RemoveEach` specifies |
| Removal.RemoveFromAll | minase/src/db_core/database.rs:465-488 | the loop over the columns removes the rows from every column |
| Removal.Removal | minase/src/db_core/database.rs:463-488 | the schema and the column count are kept; each column keeps its variant and shrinks by the number of removed rows |
| Removal.Deleted | minase/src/db_core/database.rs:427-490 | a failed scan leaves the table unchanged; the schema and the column count are always kept |
| Removal.DeletedRemovesKeptRows | minase/src/db_core/database.rs:463-488 | a successful delete filters the kept rows out of every column, each shrinking by their count |
| Removal.DeletedRemovesMatchingRows | minase/src/db_core/database.rs:432-488 | a successful delete removes exactly the matching rows; type-tag agreement and equal lengths are kept |
| Removal.DeletedPanicsOnlyInEvaluation | minase/src/db_core/database.rs:465-488 | on a table with equal column lengths, no `Vec::remove` panics |
| Removal.NothingLeftMatches | minase/src/db_core/database.rs:432-488 | after the kept rows are filtered out, no remaining row matches |
| Removal.DeleteThenNothingMatches | minase/src/db_core/database.rs:419-491 | after a successful delete, the same condition keeps no row |
| Removal.DeleteEmptyCondition | minase/src/db_core/database.rs:419-461 | with an empty condition, delete fails with `NoOperation` only when the condition column has rows, else succeeds with no change |
| LegacyDatabase.Database.constructor | database/src/db_core/database.rs:19-24 | a new database has no tables |
| LegacyDatabase.Database.GetTable | database/src/db_core/database.rs:26-40 | the table at `id`, or `TableNotFound` exactly when `id` is past the last |
| LegacyDatabase.Database.AddTable | database/src/db_core/database.rs:42-54 | exactly one table is appended, with tags mirroring its columns; earlier tables are untouched |
| LegacyDatabase.Database.DropTable | database/src/db_core/database.rs:56-63 | position `id` is removed and later tables shift down |
| LegacyDatabase.SelectOutcome | database/src/db_core/database.rs:65-207 | a successful select needs an existing table and copies its schema and column count; on an existing table an error can come only from a condition column that exists |
| LegacyDatabase.InsertEffect | database/src/db_core/database.rs:209-280 | insert never panics; an error changes nothing; the other tables are kept; success keeps the target's schema |
| LegacyDatabase.Database.Select | database/src/db_core/database.rs:65-207 | the older select returns what `SelectOutcome` specifies; the tables are unchanged |
| LegacyDatabase.Database.Insert | database/src/db_core/database.rs:209-280 | the older insert leaves the tables and the status `InsertEffect` specifies |
| LegacyDatabase.InsertAppendsOneRow | database/src/db_core/database.rs:209-280 | on error nothing changes; on success each column of the target gets its value at the end, and the other tables are kept |
| LegacyDatabase.SelectEmptyCondition | database/src/db_core/database.rs:73-122 | an empty condition fails with `NoOperation` on a column with rows, and succeeds with an empty projection on one without |
| LegacyDatabase.SelectPastLastColumn | database/src/db_core/database.rs:131-149 | a condition column at or past the column count gives empty columns of the source variants with the copied schema |
| MinaseDatabase.CheckedTable | minase/src/db_core/database.rs:43-66 | `TableNotFound` exactly when `id` is past the last table; `ColumnNotFound` exactly when the column count is below `column`; otherwise that table |
| MinaseDatabase.SelectOutcome | minase/src/db_core/database.rs:91-200 | a successful select needs an existing table, a condition column no greater than the column count and a non-empty condition, and copies that table's schema and column count |
| MinaseDatabase.InsertEffect | minase/src/db_core/database.rs:202-273 | insert never panics; an error changes nothing; the other tables are kept; success keeps the target's schema |
| MinaseDatabase.Commit | minase/src/db_core/database.rs:283-366 | the rewritten columns go into table `table` under its schema; every other table is kept; the status is `Ok` exactly when the rewrite's is; a panic stays a panic |
| MinaseDatabase.UpdateEffect | minase/src/db_core/database.rs:275-368 | only table `table` can change; a missing table, a column past the count or an empty condition is an error that changes nothing |
| MinaseDatabase.UpdateAllEffect | minase/src/db_core/database.rs:370-416 | only table `table` can change; a missing table is `TableNotFound` and changes nothing |
| MinaseDatabase.DeleteEffect | minase/src/db_core/database.rs:419-491 | only table `table` can change; an error changes nothing |
| MinaseDatabase.Database.constructor | minase/src/db_core/database.rs:20-25 | a new database has no tables |
| MinaseDatabase.Database.GetTable | minase/src/db_core/database.rs:27-41 | the table at `id`, or `TableNotFound` exactly when `id` is past the last |
| MinaseDatabase.Database.GetTableWithColumnCheck | minase/src/db_core/database.rs:43-66 | returns what `CheckedTable` specifies |
| MinaseDatabase.Database.AddTable | minase/src/db_core/database.rs:68-80 | exactly one table is appended, with tags mirroring its columns; earlier tables are untouched |
| MinaseDatabase.Database.DropTable | minase/src/db_core/database.rs:82-89 | position `id` is removed and later tables shift down |
| MinaseDatabase.Database.Select | minase/src/db_core/database.rs:91-200 | select returns what `SelectOutcome` specifies; the tables are unchanged |
| MinaseDatabase.Database.Insert | minase/src/db_core/database.rs:202-273 | insert leaves the tables and the status `InsertEffect` specifies |
| MinaseDatabase.Database.Update | minase/src/db_core/database.rs:275-368 | update leaves the tables and the status `UpdateEffect` specifies |
| MinaseDatabase.Database.UpdateAll | minase/src/db_core/database.rs:370-416 | update_all leaves the tables and the status `UpdateAllEffect` specifies |
| MinaseDatabase.Database.Delete | minase/src/db_core/database.rs:419-491 | delete leaves the tables and the status `DeleteEffect` specifies |
| MinaseDatabase.SelectsAgree | minase/src/db_core/database.rs:91-200 | past both checks, the two selects return the same, with errors lifted |
| MinaseDatabase.SelectsDiffer | minase/src/db_core/database.rs:102-111 | a column past `len(columns)` is `ColumnNotFound` here but an empty result in the older select; an empty condition is `NoOperation` here even where the older select succeeds |
| MinaseDatabase.SelectPastLastColumn | minase/src/db_core/database.rs:124-199 | the accepted `column == len(columns)` keeps no row: empty columns of the source variants, schema copied |
| MinaseDatabase.InsertsAgree | minase/src/db_core/database.rs:202-273 | both inserts leave the same tables and the same status, lifted |
| MinaseDatabase.UpdateKeepsUnmatchedCells | minase/src/db_core/database.rs:275-368 | whatever the status, update keeps the other tables, the schema, each column's variant and length, every column no target names, and every cell of a row that does not match |
| MinaseDatabase.UpdateDistinctTargets | minase/src/db_core/database.rs:275-368 | a successful update with distinct target ids leaves each named column as the complete rewrite of its original at exactly the matching rows |
| MinaseDatabase.UpdateKeepsEarlierWrites | minase/src/db_core/database.rs:329-365 | an error in the rewrite does not undo earlier writes: earlier targets stay complete, and the failing target keeps its writes up to the failing row |
| MinaseDatabase.UpdateAllKeepsOtherColumns | minase/src/db_core/database.rs:370-416 | whatever the status, update_all keeps the other tables, the schema and every column no target names |
| MinaseDatabase.UpdateAllDistinctTargets | minase/src/db_core/database.rs:370-416 | a successful update_all with distinct target ids replaces every cell of each named column by the expression's value on its original |
| MinaseDatabase.UpdateAllErrors | minase/src/db_core/database.rs:370-416 | update_all fails only with `TableNotFound`, which changes nothing, or an evaluator error |
| MinaseDatabase.DeleteRemovesMatchingRows | minase/src/db_core/database.rs:419-491 | a failed delete changes nothing; a successful one filters exactly the matching rows out of every column of the table and keeps the other tables |
| MinaseDatabase.DeleteEmptyCondition | minase/src/db_core/database.rs:419-461 | an empty condition fails with `NoOperation` only when the condition column has rows; otherwise nothing changes |
| MinaseDatabase.DeleteThenSelectFindsNothing | minase/src/db_core/database.rs:419-491 | after a successful delete, a select with the same condition returns the table's columns, all empty |

## Left out

- Networking and framing (server/src/main.rs, database/src/main.rs, driver/src/lib.rs, client/src/main.rs), test.py, and `Query` in both query.rs files are not part of this model. They are I/O plumbing and plain data declarations.
- Logging (logger/src/lib.rs) is a no-op. The `logger` field, the constructors' logger argument and `logger_flush` are left out.
- `async` is dropped: every method runs to completion in order.
- minase/src/db_core/values.rs is not part of this model. Its `evaluate!` macro is taken to be the visible inline pattern, and the evaluator is the one in database/src/db_core/values.rs.
- `f32` arithmetic, comparison and equality are the uninterpreted functions of `FloatArith`. Nothing is proved about Float payloads beyond their type tags.
- Evaluator.IntArith: `i32` overflow and division by zero are panics, as in a debug build. Release-mode wrap-around is not modelled.
- In-place writes are modelled as values. The row loops of `update`, `update_all` and `delete` build a new column value, and the table is written back once. `get_table` returns a copy of the table, not a `&mut` into the database, so aliasing is not modelled.
- MinaseDatabase.Database.Select, MinaseDatabase.Database.Update, MinaseDatabase.Database.UpdateAll, MinaseDatabase.Database.Delete and LegacyDatabase.Database.Select require that the run does not panic. The panic paths are modelled as `Panics`/`Aborts` in the functions that specify these methods, and the lemmas state when they cannot happen.
- MinaseDatabase.Database.DropTable and LegacyDatabase.Database.DropTable require `id < len(tables)`, because `Vec::remove` panics otherwise.
- The class invariant `Valid()` is a precondition of the methods that change the tables. It says every table's type tags mirror its columns, and every method keeps it.
- MinaseDatabase.Database.Insert and LegacyDatabase.Database.Insert: the "UNREACHABLE" branch of the push loop (minase/src/db_core/database.rs:232-237) is not modelled. `Valid()` and the type check before it exclude it.
- LegacyDatabase.Database.Select: the match on the evaluator's error (database/src/db_core/database.rs:76-119) only logs, and has no arm for `ColumnNotFound`. With logging a no-op, the model returns the error unchanged, as line 121 does.
- Rewrite.Retargeted states only the number of columns. Its cells are given by the lemmas about it: RetargetedUntouched (columns no target names), RetargetedKeepsOtherRows (rows not chosen), RetargetedDistinct (with distinct ids, each named column is the complete rewrite of its original), RetargetedError and RetargetedShape. When an id repeats, the later target rewrites the earlier target's output, as the definition composes them in order; no closed form is stated for that case.
- Removal.RemoveEach states only the variant and the length. Its cells, for ascending rows, are given by Removal.RemoveDescending.
