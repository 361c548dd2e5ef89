/** The in-place rewrite of `update` and `update_all` (minase/src/db_core/database.rs): for each
    `(column, expression)` target in order, each chosen row's cell is bound into the expression and
    the result is written back over it. */
module Rewrite {
  import opened Values
  import opened Outcomes
  import opened QueryErrors
  import opened Evaluator
  import opened Tables

  /** An evaluator as a value: the result of a program with its cells bound to a value. The rewrite
      is stated over any such function; `update` and `update_all` run it with `SemanticsOf(fp)`. */
  type Semantics = (seq<Expr>, Value) -> Outcome<Value, QueryError>

  function SemanticsOf(fp: FloatArith): Semantics {
    (query, value) => Evaluation(fp, query, value)
  }

  /** `eval` agrees with the evaluator under float arithmetic `fp` (the loops below run `fp`'s
      evaluator and are specified over `eval`). */
  ghost predicate Runs(eval: Semantics, fp: FloatArith) {
    forall query, value {:trigger Evaluation(fp, query, value)} :: eval(query, value) == Evaluation(fp, query, value)
  }

  /** Which rows a target rewrites: the kept rows of `update`, or every row of the target column
      (`0..values.len()`) for `update_all`. */
  datatype Rows = Chosen(ids: seq<nat>) | Every

  /** The row ids `0, 1, …, n-1`. */
  function Range(n: nat): (rows: seq<nat>)
    ensures |rows| == n && StrictlyAscending(rows)
    ensures forall r: nat :: r in rows <==> r < n
  {
    var rows := seq(n, i requires 0 <= i < n => i);
    forall r: nat | r < n ensures r in rows { assert rows[r] == r; }
    rows
  }

  function RowsOf(rs: Rows, c: Column): seq<nat> {
    match rs
    case Chosen(ids) => ids
    case Every => Range(Len(c))
  }

  /** One row of a rewrite: the cell at `row` is read, bound into `expr`, and the result written
      back. An index past the end (`values[*row]`), a panic in the evaluator, or a result of another
      variant (`into_int().unwrap()` and the like) aborts; an evaluator error leaves the column. */
  function RewriteStep(eval: Semantics, cur: Column, expr: seq<Expr>, row: nat): (r: Effect<Column, QueryError>)
    ensures r.Leaves? ==> ColumnType(r.state) == ColumnType(cur) && Len(r.state) == Len(cur)
    ensures r.Leaves? && r.status.Err? ==>
      r.state == cur && row < Len(cur) && eval(expr, CellAt(cur, row)) == Returns(Err(r.status.error))
  {
    if row >= Len(cur) then Aborts
    else
      match eval(expr, CellAt(cur, row))
      case Panics => Aborts
      case Returns(Err(e)) => Leaves(cur, Err(e))
      case Returns(Ok(v)) => if TypeOf(v) != ColumnType(cur) then Aborts else Leaves(SetCell(cur, row, v), Ok(()))
  }

  /** One target column with `rows` rewritten in order; an evaluator error stops the rewrite with
      the cells written so far left in place. */
  function Rewritten(eval: Semantics, c: Column, expr: seq<Expr>, rows: seq<nat>): (r: Effect<Column, QueryError>)
    ensures r.Leaves? ==> ColumnType(r.state) == ColumnType(c) && Len(r.state) == Len(c)
    decreases |rows|
  {
    if rows == [] then Leaves(c, Ok(()))
    else
      match Rewritten(eval, c, expr, rows[..|rows| - 1])
      case Aborts => Aborts
      case Leaves(cur, Err(e)) => Leaves(cur, Err(e))
      case Leaves(cur, Ok(_)) => RewriteStep(eval, cur, expr, rows[|rows| - 1])
  }

  /** One `(column, expression)` target applied to the columns; an id that is not a column
      position is skipped (`columns.get_mut(column)` is `None`). */
  function ApplyTarget(eval: Semantics, cs: seq<Column>, target: (nat, seq<Expr>), rs: Rows): (r: Effect<seq<Column>, QueryError>)
    ensures r.Leaves? ==> |r.state| == |cs| && forall j :: 0 <= j < |cs| && j != target.0 ==> r.state[j] == cs[j]
    ensures r.Leaves? && target.0 < |cs| ==>
      Rewritten(eval, cs[target.0], target.1, RowsOf(rs, cs[target.0])) == Leaves(r.state[target.0], r.status)
    ensures target.0 >= |cs| ==> r == Leaves(cs, Ok(()))
  {
    var id := target.0;
    if id >= |cs| then Leaves(cs, Ok(()))
    else
      match Rewritten(eval, cs[id], target.1, RowsOf(rs, cs[id]))
      case Aborts => Aborts
      case Leaves(c, status) => Leaves(cs[id := c], status)
  }

  /** All targets applied in order to the columns; an evaluator error stops at that target,
      keeping every write made before it. */
  function Retargeted(eval: Semantics, cols: seq<Column>, targets: seq<(nat, seq<Expr>)>, rs: Rows): (r: Effect<seq<Column>, QueryError>)
    ensures r.Leaves? ==> |r.state| == |cols|
    decreases |targets|
  {
    if targets == [] then Leaves(cols, Ok(()))
    else
      match Retargeted(eval, cols, targets[..|targets| - 1], rs)
      case Aborts => Aborts
      case Leaves(cs, Err(e)) => Leaves(cs, Err(e))
      case Leaves(cs, Ok(_)) => ApplyTarget(eval, cs, targets[|targets| - 1], rs)
  }

  /** The targets up to `k + 1` are those up to `k` followed by target `k`. */
  lemma RetargetedNext(eval: Semantics, cols: seq<Column>, targets: seq<(nat, seq<Expr>)>, rs: Rows, k: nat, cs: seq<Column>)
    requires k < |targets| && Retargeted(eval, cols, targets[..k], rs) == Leaves(cs, Ok(()))
    ensures Retargeted(eval, cols, targets[..k + 1], rs) == ApplyTarget(eval, cs, targets[k], rs)
  {
    assert targets[..k + 1][..k] == targets[..k];
  }

  /** Once a prefix of the rows stops (an error or an abort), the rest of the rows are not visited. */
  lemma {:induction false} RewrittenStuck(eval: Semantics, c: Column, expr: seq<Expr>, rows: seq<nat>, m: nat)
    requires m <= |rows|
    ensures !(Rewritten(eval, c, expr, rows[..m]).Leaves? && Rewritten(eval, c, expr, rows[..m]).status.Ok?) ==>
      Rewritten(eval, c, expr, rows) == Rewritten(eval, c, expr, rows[..m])
    decreases |rows|
  {
    if m == |rows| {
      assert rows[..m] == rows;
    } else {
      var init := rows[..|rows| - 1];
      RewrittenStuck(eval, c, expr, init, m);
      assert init[..m] == rows[..m];
    }
  }

  /** Once a prefix of the targets stops, the later targets are not applied. */
  lemma {:induction false} RetargetedStuck(eval: Semantics, cols: seq<Column>, targets: seq<(nat, seq<Expr>)>, rs: Rows, m: nat)
    requires m <= |targets|
    ensures !(Retargeted(eval, cols, targets[..m], rs).Leaves? && Retargeted(eval, cols, targets[..m], rs).status.Ok?) ==>
      Retargeted(eval, cols, targets, rs) == Retargeted(eval, cols, targets[..m], rs)
    decreases |targets|
  {
    var head := Retargeted(eval, cols, targets[..m], rs);
    if m == |targets| {
      assert targets[..m] == targets;
    } else if !(head.Leaves? && head.status.Ok?) {
      var init := targets[..|targets| - 1];
      RetargetedStuck(eval, cols, init, rs, m);
      assert init[..m] == targets[..m];
      assert Retargeted(eval, cols, init, rs) == head;
      assert targets[..|targets| - 1] == init;
      assert Retargeted(eval, cols, targets, rs) == head by {
        assert head.Aborts? || head.status.Err?;
      }
    }
  }

  /** From a successful prefix of `k` targets, target `k` does not abort when the whole run
      does not. */
  lemma RetargetedContinue(eval: Semantics, cols: seq<Column>, targets: seq<(nat, seq<Expr>)>, rs: Rows, k: nat, cs: seq<Column>)
    requires k < |targets| && Retargeted(eval, cols, targets[..k], rs) == Leaves(cs, Ok(()))
    requires !Retargeted(eval, cols, targets, rs).Aborts?
    ensures !ApplyTarget(eval, cs, targets[k], rs).Aborts?
  {
    RetargetedNext(eval, cols, targets, rs, k, cs);
    RetargetedStuck(eval, cols, targets, rs, k + 1);
  }

  /** After target `k` left `next` with `status`: on success the first `k + 1` targets leave
      `next`, and on an error the whole run ends there. */
  lemma RetargetedAdvance(eval: Semantics, cols: seq<Column>, targets: seq<(nat, seq<Expr>)>, rs: Rows, k: nat, cs: seq<Column>, next: seq<Column>, status: Result<(), QueryError>)
    requires k < |targets| && Retargeted(eval, cols, targets[..k], rs) == Leaves(cs, Ok(()))
    requires Leaves(next, status) == ApplyTarget(eval, cs, targets[k], rs)
    ensures status.Ok? ==> Retargeted(eval, cols, targets[..k + 1], rs) == Leaves(next, Ok(()))
    ensures status.Err? ==> Retargeted(eval, cols, targets, rs) == Leaves(next, status)
  {
    RetargetedNext(eval, cols, targets, rs, k, cs);
    RetargetedStuck(eval, cols, targets, rs, k + 1);
  }

  /** The loop over the rows of one target column (`for row in &row_ids` in `update`,
      `for row in 0..values.len()` in `update_all`): read the cell, evaluate, write back. */
  method RewriteColumn(fp: FloatArith, ghost eval: Semantics, c: Column, expr: seq<Expr>, rows: seq<nat>) returns (c': Column, status: Result<(), QueryError>)
    requires Runs(eval, fp) && !Rewritten(eval, c, expr, rows).Aborts?
    ensures Leaves(c', status) == Rewritten(eval, c, expr, rows)
  {
    c' := c;
    var j := 0;
    while j < |rows|
      invariant 0 <= j <= |rows|
      invariant Rewritten(eval, c, expr, rows[..j]) == Leaves(c', Ok(()))
    {
      RewrittenStuck(eval, c, expr, rows, j + 1);
      assert rows[..j + 1][..j] == rows[..j];
      var row := rows[j];
      var res := Evaluate(fp, expr, CellAt(c', row));
      if res.Err? {
        return c', Err(res.error);
      }
      c' := SetCell(c', row, res.value);
      j := j + 1;
    }
    assert rows[..j] == rows;
    status := Ok(());
  }

  /** One target: the rewrite of its column, when the id is a column position. */
  method RewriteTarget(fp: FloatArith, ghost eval: Semantics, cs: seq<Column>, target: (nat, seq<Expr>), rs: Rows) returns (cs': seq<Column>, status: Result<(), QueryError>)
    requires Runs(eval, fp) && !ApplyTarget(eval, cs, target, rs).Aborts?
    ensures Leaves(cs', status) == ApplyTarget(eval, cs, target, rs)
  {
    var id := target.0;
    if id < |cs| {
      var c;
      c, status := RewriteColumn(fp, eval, cs[id], target.1, RowsOf(rs, cs[id]));
      cs' := cs[id := c];
    } else {
      cs', status := cs, Ok(());
    }
  }

  /** The loop over the `(column, expression)` targets, in order. */
  method RewriteColumns(fp: FloatArith, ghost eval: Semantics, cols: seq<Column>, targets: seq<(nat, seq<Expr>)>, rs: Rows) returns (cs: seq<Column>, status: Result<(), QueryError>)
    requires Runs(eval, fp) && !Retargeted(eval, cols, targets, rs).Aborts?
    ensures Leaves(cs, status) == Retargeted(eval, cols, targets, rs)
  {
    cs := cols;
    var k := 0;
    while k < |targets|
      invariant 0 <= k <= |targets|
      invariant Retargeted(eval, cols, targets[..k], rs) == Leaves(cs, Ok(()))
    {
      RetargetedContinue(eval, cols, targets, rs, k, cs);
      var next, st := RewriteTarget(fp, eval, cs, targets[k], rs);
      RetargetedAdvance(eval, cols, targets, rs, k, cs, next, st);
      if st.Err? {
        return next, st;
      }
      cs := next;
      k := k + 1;
    }
    assert targets[..k] == targets;
    status := Ok(());
  }

  /** One completed step of a rewrite: the last row's cell is the expression's value on what the
      rows before it had left there, and nothing else changes in that step. */
  lemma RewrittenLastStep(eval: Semantics, c: Column, expr: seq<Expr>, rows: seq<nat>, c': Column)
    requires rows != [] && Rewritten(eval, c, expr, rows) == Leaves(c', Ok(()))
    ensures var cur := Rewritten(eval, c, expr, rows[..|rows| - 1]);
      && cur.Leaves? && cur.status.Ok?
      && rows[|rows| - 1] < Len(cur.state)
      && eval(expr, Cells(cur.state)[rows[|rows| - 1]]) == Returns(Ok(Cells(c')[rows[|rows| - 1]]))
      && Cells(c') == Cells(cur.state)[rows[|rows| - 1] := Cells(c')[rows[|rows| - 1]]]
  {
  }

  /** One more row on top of a rewrite, on the cells alone: `sp` is `s` rewritten at the ascending
      `prefix`, and `s'` is `sp` with the cell at `last`, past all of them, rewritten too. */
  lemma CellsStep(eval: Semantics, expr: seq<Expr>, s: seq<Value>, sp: seq<Value>, s': seq<Value>, prefix: seq<nat>, last: nat)
    requires |sp| == |s| && |s'| == |s| && last < |s|
    requires forall k :: 0 <= k < |prefix| ==> prefix[k] < last
    requires forall k :: 0 <= k < |prefix| ==> eval(expr, s[prefix[k]]) == Returns(Ok(sp[prefix[k]]))
    requires forall r :: 0 <= r < |s| && r !in prefix ==> sp[r] == s[r]
    requires eval(expr, sp[last]) == Returns(Ok(s'[last])) && s' == sp[last := s'[last]]
    ensures forall k :: 0 <= k < |prefix| + 1 ==>
      (prefix + [last])[k] < |s| && eval(expr, s[(prefix + [last])[k]]) == Returns(Ok(s'[(prefix + [last])[k]]))
    ensures forall r :: 0 <= r < |s| && r !in prefix + [last] ==> s'[r] == s[r]
  {
    var rows := prefix + [last];
    assert last !in prefix;
    forall k | 0 <= k < |prefix| + 1 ensures rows[k] < |s| && eval(expr, s[rows[k]]) == Returns(Ok(s'[rows[k]])) {
      if k < |prefix| {
        assert rows[k] == prefix[k];
      } else {
        assert rows[k] == last;
      }
    }
    forall r | 0 <= r < |s| && r !in rows ensures s'[r] == s[r] {
      assert r !in prefix && r != last;
    }
  }

  /** After a complete rewrite at distinct ascending rows, every rewritten cell holds the value of
      the expression on that cell's original value, and every other cell is unchanged. */
  lemma {:induction false} RewrittenCells(eval: Semantics, c: Column, expr: seq<Expr>, rows: seq<nat>, c': Column)
    requires StrictlyAscending(rows) && Rewritten(eval, c, expr, rows) == Leaves(c', Ok(()))
    ensures forall k :: 0 <= k < |rows| ==>
      rows[k] < Len(c) && eval(expr, Cells(c)[rows[k]]) == Returns(Ok(Cells(c')[rows[k]]))
    ensures forall r :: 0 <= r < Len(c) && r !in rows ==> Cells(c')[r] == Cells(c)[r]
    decreases |rows|
  {
    if rows != [] {
      var n := |rows|;
      var prefix, last := rows[..n - 1], rows[n - 1];
      assert rows == prefix + [last];
      RewrittenLastStep(eval, c, expr, rows, c');
      var cur := Rewritten(eval, c, expr, prefix).state;
      RewrittenCells(eval, c, expr, prefix, cur);
      forall k | 0 <= k < n - 1 ensures prefix[k] < last { assert rows[k] < rows[n - 1]; }
      CellsStep(eval, expr, Cells(c), Cells(cur), Cells(c'), prefix, last);
    }
  }

  /** `c'` is `c` with each cell at a position listed in `rows` replaced by the expression's
      value on it, and every other cell unchanged. */
  ghost predicate RewrittenAt(eval: Semantics, expr: seq<Expr>, c: Column, c': Column, rows: seq<nat>) {
    && ColumnType(c') == ColumnType(c)
    && Len(c') == Len(c)
    && forall r :: 0 <= r < Len(c) ==>
      && (r in rows ==> eval(expr, Cells(c)[r]) == Returns(Ok(Cells(c')[r])))
      && (r !in rows ==> Cells(c')[r] == Cells(c)[r])
  }

  lemma RewrittenAtRows(eval: Semantics, c: Column, expr: seq<Expr>, rows: seq<nat>, c': Column)
    requires StrictlyAscending(rows) && Rewritten(eval, c, expr, rows) == Leaves(c', Ok(()))
    ensures RewrittenAt(eval, expr, c, c', rows)
  {
    RewrittenCells(eval, c, expr, rows, c');
    forall r | 0 <= r < Len(c) && r in rows ensures eval(expr, Cells(c)[r]) == Returns(Ok(Cells(c')[r])) {
      var k :| 0 <= k < |rows| && rows[k] == r;
    }
  }

  /** `update_all` over a column: every cell is replaced by the expression's value on it. */
  lemma RewrittenEveryRow(eval: Semantics, c: Column, expr: seq<Expr>, c': Column)
    requires Rewritten(eval, c, expr, Range(Len(c))) == Leaves(c', Ok(()))
    ensures ColumnType(c') == ColumnType(c) && Len(c') == Len(c)
    ensures forall r :: 0 <= r < Len(c) ==> eval(expr, Cells(c)[r]) == Returns(Ok(Cells(c')[r]))
  {
    var rows := Range(Len(c));
    RewrittenCells(eval, c, expr, rows, c');
    forall r | 0 <= r < Len(c) ensures eval(expr, Cells(c)[r]) == Returns(Ok(Cells(c')[r])) {
      assert rows[r] == r;
    }
  }

  /** A rewrite that stopped on an evaluator error left exactly the complete rewrite of the rows
      before the failing one. */
  ghost predicate RowFailure(eval: Semantics, c: Column, expr: seq<Expr>, rows: seq<nat>, m: nat, c': Column, e: QueryError) {
    && m < |rows|
    && Rewritten(eval, c, expr, rows[..m]) == Leaves(c', Ok(()))
    && rows[m] < Len(c')
    && eval(expr, CellAt(c', rows[m])) == Returns(Err(e))
  }

  lemma {:induction false} RewrittenError(eval: Semantics, c: Column, expr: seq<Expr>, rows: seq<nat>, c': Column, e: QueryError)
    requires Rewritten(eval, c, expr, rows) == Leaves(c', Err(e))
    ensures exists m: nat :: RowFailure(eval, c, expr, rows, m, c', e)
    decreases |rows|
  {
    var n := |rows|;
    var prefix := rows[..n - 1];
    var before := Rewritten(eval, c, expr, prefix);
    if before.Leaves? && before.status.Err? {
      RewrittenError(eval, c, expr, prefix, c', e);
      var m: nat :| RowFailure(eval, c, expr, prefix, m, c', e);
      assert prefix[..m] == rows[..m];
      assert RowFailure(eval, c, expr, rows, m, c', e);
    } else {
      assert RowFailure(eval, c, expr, rows, n - 1, c', e);
    }
  }

  /** Columns that no target names come through unchanged. */
  lemma {:induction false} RetargetedUntouched(eval: Semantics, cols: seq<Column>, targets: seq<(nat, seq<Expr>)>, rs: Rows, cs: seq<Column>, status: Result<(), QueryError>)
    requires Retargeted(eval, cols, targets, rs) == Leaves(cs, status)
    ensures forall i :: 0 <= i < |cols| && (forall k :: 0 <= k < |targets| ==> targets[k].0 != i) ==> cs[i] == cols[i]
    decreases |targets|
  {
    if targets != [] {
      var prefix := targets[..|targets| - 1];
      var before := Retargeted(eval, cols, prefix, rs);
      RetargetedUntouched(eval, cols, prefix, rs, before.state, before.status);
      forall i | 0 <= i < |cols| && (forall k :: 0 <= k < |targets| ==> targets[k].0 != i) ensures cs[i] == cols[i] {
        assert forall k :: 0 <= k < |prefix| ==> prefix[k].0 != i by {
          forall k | 0 <= k < |prefix| ensures prefix[k].0 != i { assert prefix[k] == targets[k]; }
        }
        assert targets[|targets| - 1].0 != i;
      }
    }
  }

  /** An evaluator error on target `m` leaves the complete result of targets `0 .. m-1` with the
      partial rewrite of target `m` on top: earlier writes are not undone. */
  ghost predicate TargetFailure(eval: Semantics, cols: seq<Column>, targets: seq<(nat, seq<Expr>)>, rs: Rows, m: nat, cs: seq<Column>, e: QueryError) {
    && m < |targets|
    && var before := Retargeted(eval, cols, targets[..m], rs);
    && before.Leaves? && before.status.Ok?
    && var id := targets[m].0;
    && id < |before.state|
    && var step := Rewritten(eval, before.state[id], targets[m].1, RowsOf(rs, before.state[id]));
    && step.Leaves? && step.status == Err(e)
    && cs == before.state[id := step.state]
  }

  lemma {:induction false} RetargetedError(eval: Semantics, cols: seq<Column>, targets: seq<(nat, seq<Expr>)>, rs: Rows, cs: seq<Column>, e: QueryError)
    requires Retargeted(eval, cols, targets, rs) == Leaves(cs, Err(e))
    ensures exists m: nat :: TargetFailure(eval, cols, targets, rs, m, cs, e)
    decreases |targets|
  {
    var n := |targets|;
    var prefix := targets[..n - 1];
    var before := Retargeted(eval, cols, prefix, rs);
    if before.Leaves? && before.status.Err? {
      RetargetedError(eval, cols, prefix, rs, cs, e);
      var m: nat :| TargetFailure(eval, cols, prefix, rs, m, cs, e);
      assert prefix[..m] == targets[..m];
      assert prefix[m] == targets[m];
      assert TargetFailure(eval, cols, targets, rs, m, cs, e);
    } else {
      assert targets[..n - 1] == prefix;
      assert TargetFailure(eval, cols, targets, rs, n - 1, cs, e);
    }
  }

  /** A rewrite fails only with an error the evaluator returns. */
  lemma RewrittenErrors(fp: FloatArith, c: Column, expr: seq<Expr>, rows: seq<nat>, c': Column, e: QueryError)
    requires Rewritten(SemanticsOf(fp), c, expr, rows) == Leaves(c', Err(e))
    ensures e == TypeMismatch || e == StackUnderflow || e == NoOperation
  {
    RewrittenError(SemanticsOf(fp), c, expr, rows, c', e);
    var m: nat :| RowFailure(SemanticsOf(fp), c, expr, rows, m, c', e);
    assert Evaluation(fp, expr, CellAt(c', rows[m])) == Returns(Err(e));
  }

  lemma RetargetedErrors(fp: FloatArith, cols: seq<Column>, targets: seq<(nat, seq<Expr>)>, rs: Rows, cs: seq<Column>, e: QueryError)
    requires Retargeted(SemanticsOf(fp), cols, targets, rs) == Leaves(cs, Err(e))
    ensures e == TypeMismatch || e == StackUnderflow || e == NoOperation
  {
    RetargetedError(SemanticsOf(fp), cols, targets, rs, cs, e);
    var m: nat :| TargetFailure(SemanticsOf(fp), cols, targets, rs, m, cs, e);
    var before := Retargeted(SemanticsOf(fp), cols, targets[..m], rs).state;
    var id := targets[m].0;
    var step := Rewritten(SemanticsOf(fp), before[id], targets[m].1, RowsOf(rs, before[id]));
    RewrittenErrors(fp, before[id], targets[m].1, RowsOf(rs, before[id]), step.state, e);
  }

  /** Every column keeps its variant and its length through the rewrite. */
  lemma {:induction false} RetargetedShape(eval: Semantics, cols: seq<Column>, targets: seq<(nat, seq<Expr>)>, rs: Rows, cs: seq<Column>, status: Result<(), QueryError>)
    requires Retargeted(eval, cols, targets, rs) == Leaves(cs, status)
    ensures |cs| == |cols|
    ensures forall i :: 0 <= i < |cols| ==> ColumnType(cs[i]) == ColumnType(cols[i]) && Len(cs[i]) == Len(cols[i])
    decreases |targets|
  {
    if targets != [] {
      var before := Retargeted(eval, cols, targets[..|targets| - 1], rs);
      RetargetedShape(eval, cols, targets[..|targets| - 1], rs, before.state, before.status);
    }
  }

  /** The whole table after the rewrite: schema, column variants and row counts are kept. */
  lemma RetargetedKeepsShape(eval: Semantics, t: Table, targets: seq<(nat, seq<Expr>)>, rs: Rows, cs: seq<Column>, status: Result<(), QueryError>)
    requires Retargeted(eval, t.columns, targets, rs) == Leaves(cs, status)
    ensures Schematic(t) ==> Schematic(Table(cs, t.columnTypes))
    ensures Rectangular(t) ==> Rectangular(Table(cs, t.columnTypes))
    ensures RowCount(Table(cs, t.columnTypes)) == RowCount(t)
  {
    RetargetedShape(eval, t.columns, targets, rs, cs, status);
  }

  /** A rewrite, complete or stopped by an evaluator error, leaves every cell outside `rows` as it
      was. */
  lemma {:induction false} RewrittenKeepsOtherRows(eval: Semantics, c: Column, expr: seq<Expr>, rows: seq<nat>, c': Column, status: Result<(), QueryError>)
    requires Rewritten(eval, c, expr, rows) == Leaves(c', status)
    ensures forall r :: 0 <= r < Len(c) && r !in rows ==> Cells(c')[r] == Cells(c)[r]
    decreases |rows|
  {
    if rows != [] {
      var prefix, last := rows[..|rows| - 1], rows[|rows| - 1];
      var before := Rewritten(eval, c, expr, prefix);
      RewrittenKeepsOtherRows(eval, c, expr, prefix, before.state, before.status);
      forall r | 0 <= r < Len(c) && r !in rows ensures Cells(c')[r] == Cells(c)[r] {
        assert r !in prefix && r != last by { assert rows == prefix + [last]; }
      }
    }
  }

  /** `update` at rows `rows`: whatever the targets, and whether the run completes or stops on an
      evaluator error, every cell at a row outside `rows` keeps its value, in every column. */
  lemma {:induction false} RetargetedKeepsOtherRows(eval: Semantics, cols: seq<Column>, targets: seq<(nat, seq<Expr>)>, rows: seq<nat>, cs: seq<Column>, status: Result<(), QueryError>)
    requires Retargeted(eval, cols, targets, Chosen(rows)) == Leaves(cs, status)
    ensures forall j :: 0 <= j < |cols| ==> Len(cs[j]) == Len(cols[j])
    ensures forall j, r :: 0 <= j < |cols| && 0 <= r < Len(cols[j]) && r !in rows ==> Cells(cs[j])[r] == Cells(cols[j])[r]
    decreases |targets|
  {
    if targets != [] {
      var prefix, target := targets[..|targets| - 1], targets[|targets| - 1];
      var before := Retargeted(eval, cols, prefix, Chosen(rows));
      RetargetedKeepsOtherRows(eval, cols, prefix, rows, before.state, before.status);
      RetargetedShape(eval, cols, prefix, Chosen(rows), before.state, before.status);
      if before.status.Ok? && target.0 < |cols| {
        var id := target.0;
        var step := Rewritten(eval, before.state[id], target.1, rows);
        RewrittenKeepsOtherRows(eval, before.state[id], target.1, rows, step.state, step.status);
      }
    }
  }

  /** Target ids that name no column twice. */
  predicate DistinctIds(targets: seq<(nat, seq<Expr>)>) {
    forall k, l :: 0 <= k < l < |targets| ==> targets[k].0 != targets[l].0
  }

  /** The step of RetargetedDistinct: one more target, whose id is new, rewrites its original
      column and leaves the columns of the earlier targets as they were. */
  lemma DistinctStep(eval: Semantics, cols: seq<Column>, prefix: seq<(nat, seq<Expr>)>, target: (nat, seq<Expr>), rs: Rows, bs: seq<Column>, cs: seq<Column>)
    requires |bs| == |cols| && ApplyTarget(eval, bs, target, rs) == Leaves(cs, Ok(()))
    requires forall k :: 0 <= k < |prefix| ==> prefix[k].0 != target.0
    requires forall k :: 0 <= k < |prefix| && prefix[k].0 < |cols| ==>
      Rewritten(eval, cols[prefix[k].0], prefix[k].1, RowsOf(rs, cols[prefix[k].0])) == Leaves(bs[prefix[k].0], Ok(()))
    requires target.0 < |cols| ==> bs[target.0] == cols[target.0]
    ensures forall k :: 0 <= k < |prefix + [target]| && (prefix + [target])[k].0 < |cols| ==>
      Rewritten(eval, cols[(prefix + [target])[k].0], (prefix + [target])[k].1, RowsOf(rs, cols[(prefix + [target])[k].0])) == Leaves(cs[(prefix + [target])[k].0], Ok(()))
  {
    var all := prefix + [target];
    forall k | 0 <= k < |all| && all[k].0 < |cols|
      ensures Rewritten(eval, cols[all[k].0], all[k].1, RowsOf(rs, cols[all[k].0])) == Leaves(cs[all[k].0], Ok(()))
    {
      if k < |prefix| {
        assert all[k] == prefix[k];
        assert cs[prefix[k].0] == bs[prefix[k].0];
      } else {
        assert all[k] == target;
      }
    }
  }

  /** With distinct target ids, a completed run leaves each named column as the complete rewrite
      of its original column: the targets do not see each other's writes. */
  lemma {:induction false} RetargetedDistinct(eval: Semantics, cols: seq<Column>, targets: seq<(nat, seq<Expr>)>, rs: Rows, cs: seq<Column>)
    requires Retargeted(eval, cols, targets, rs) == Leaves(cs, Ok(())) && DistinctIds(targets)
    ensures forall k :: 0 <= k < |targets| && targets[k].0 < |cols| ==>
      Rewritten(eval, cols[targets[k].0], targets[k].1, RowsOf(rs, cols[targets[k].0])) == Leaves(cs[targets[k].0], Ok(()))
    decreases |targets|
  {
    if targets != [] {
      var n := |targets|;
      var prefix, target := targets[..n - 1], targets[n - 1];
      assert targets == prefix + [target];
      var before := Retargeted(eval, cols, prefix, rs);
      assert before.Leaves? && before.status.Ok?;
      assert DistinctIds(prefix) by {
        forall k, l | 0 <= k < l < |prefix| ensures prefix[k].0 != prefix[l].0 {
          assert prefix[k] == targets[k] && prefix[l] == targets[l];
        }
      }
      assert forall k :: 0 <= k < |prefix| ==> prefix[k].0 != target.0 by {
        forall k | 0 <= k < |prefix| ensures prefix[k].0 != target.0 { assert prefix[k] == targets[k]; }
      }
      RetargetedDistinct(eval, cols, prefix, rs, before.state);
      RetargetedUntouched(eval, cols, prefix, rs, before.state, Ok(()));
      DistinctStep(eval, cols, prefix, target, rs, before.state, cs);
    }
  }
}
