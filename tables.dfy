/** Tables as parallel typed columns with a frozen schema, and the row scan that select, update
    and delete share (the `check!` macro of both database.rs files). */
module Tables {
  import opened Values
  import opened Outcomes
  import opened QueryErrors
  import opened Evaluator

  /** `Table { columns, column_types }`. */
  datatype Table = Table(columns: seq<Column>, columnTypes: seq<Types>)

  /** Invariants I1 and I2: one type tag per column, and each tag is its column's variant. */
  ghost predicate Schematic(t: Table) {
    && |t.columnTypes| == |t.columns|
    && forall i :: 0 <= i < |t.columns| ==> ColumnType(t.columns[i]) == t.columnTypes[i]
  }

  /** Invariant I3: all columns have the same number of rows. */
  ghost predicate Rectangular(t: Table) {
    forall i, j :: 0 <= i < |t.columns| && 0 <= j < |t.columns| ==> Len(t.columns[i]) == Len(t.columns[j])
  }

  /** The number of rows of a table (that of its first column). */
  function RowCount(t: Table): nat {
    if |t.columns| == 0 then 0 else Len(t.columns[0])
  }

  /** The schema `add_table` records: `columns.iter().map(|col| col.to_types()).collect()`. */
  function TypesOf(columns: seq<Column>): seq<Types> {
    seq(|columns|, i requires 0 <= i < |columns| => ColumnType(columns[i]))
  }

  /** The type tags of a row of values: `value.iter().map(|val| val.to_types()).collect()`. */
  function TypesOfValues(values: seq<Value>): seq<Types> {
    seq(|values|, i requires 0 <= i < |values| => TypeOf(values[i]))
  }

  /** The table `add_table` builds: its schema mirrors its columns' variants. */
  function NewTable(columns: seq<Column>): (t: Table)
    ensures t.columns == columns
    ensures Schematic(t)
  {
    Table(columns, TypesOf(columns))
  }

  // ----- the row scan -----

  predicate StrictlyAscending(rows: seq<nat>) {
    forall i, j :: 0 <= i < j < |rows| ==> rows[i] < rows[j]
  }

  /** Row `r` of `col` is kept: the condition evaluates to exactly `Bool(true)` on it. */
  ghost predicate Matches(fp: FloatArith, cond: seq<Expr>, col: Column, r: nat) {
    r < Len(col) && Evaluation(fp, cond, CellAt(col, r)) == Returns(Ok(Bool(true)))
  }

  /** The scan of rows `0 .. n-1` of the condition column: the kept row ids in order, or the
      first evaluator error. Results other than `Bool(true)` are dropped silently. */
  function Scan(fp: FloatArith, cond: seq<Expr>, col: Column, n: nat): (r: Outcome<seq<nat>, QueryError>)
    requires n <= Len(col)
    ensures r.Returns? && r.result.Ok? ==> |r.result.value| <= n && forall i :: 0 <= i < |r.result.value| ==> r.result.value[i] < n
    decreases n
  {
    if n == 0 then Returns(Ok([]))
    else
      match Scan(fp, cond, col, n - 1)
      case Returns(Ok(rows)) =>
        (match Evaluation(fp, cond, CellAt(col, n - 1))
         case Returns(Ok(v)) => Returns(Ok(if v == Bool(true) then rows + [n - 1] else rows))
         case Returns(Err(e)) => Returns(Err(e))
         case Panics => Panics)
      case other => other
  }

  /** The kept rows of a table for a condition on column `column`. When `column` is not a column
      position (`columns.get_mut(column)` is `None`) no row is kept. */
  function Kept(fp: FloatArith, t: Table, column: nat, cond: seq<Expr>): (r: Outcome<seq<nat>, QueryError>)
    ensures r.Returns? && r.result.Ok? ==>
      forall i :: 0 <= i < |r.result.value| ==> column < |t.columns| && r.result.value[i] < Len(t.columns[column])
    ensures r.Returns? && r.result.Err? ==> column < |t.columns|
  {
    if column < |t.columns| then Scan(fp, cond, t.columns[column], Len(t.columns[column]))
    else Returns(Ok([]))
  }

  /** `rows` is the ascending list of every kept row of `t` for `cond` on `column`. */
  ghost predicate KeptExactly(fp: FloatArith, t: Table, column: nat, cond: seq<Expr>, rows: seq<nat>) {
    && StrictlyAscending(rows)
    && forall r: nat :: r in rows <==> column < |t.columns| && Matches(fp, cond, t.columns[column], r)
  }

  /** A successful scan lists, in ascending order, exactly the rows whose evaluation is `Bool(true)`,
      and every row before `n` evaluated without error. */
  lemma {:induction false} ScanSound(fp: FloatArith, cond: seq<Expr>, col: Column, n: nat, rows: seq<nat>)
    requires n <= Len(col) && Scan(fp, cond, col, n) == Returns(Ok(rows))
    ensures StrictlyAscending(rows)
    ensures forall r :: r in rows ==> r < n
    ensures forall r: nat :: r in rows <==> r < n && Matches(fp, cond, col, r)
    ensures forall r :: 0 <= r < n ==> Evaluation(fp, cond, CellAt(col, r)).Returns? && Evaluation(fp, cond, CellAt(col, r)).result.Ok?
    decreases n
  {
    if n > 0 {
      var prev := Scan(fp, cond, col, n - 1);
      assert prev.Returns? && prev.result.Ok?;
      var before := prev.result.value;
      ScanSound(fp, cond, col, n - 1, before);
      if rows != before {
        assert rows == before + [n - 1];
        forall i, j | 0 <= i < j < |rows| ensures rows[i] < rows[j] {
          if j < |before| {
            assert rows[i] == before[i] && rows[j] == before[j];
          } else {
            assert rows[i] == before[i] && before[i] in before;
          }
        }
      }
    }
  }

  /** Once the scan has failed or panicked, scanning further rows changes nothing. */
  lemma {:induction false} ScanStuck(fp: FloatArith, cond: seq<Expr>, col: Column, m: nat, n: nat)
    requires m <= n <= Len(col)
    requires !(Scan(fp, cond, col, m).Returns? && Scan(fp, cond, col, m).result.Ok?)
    ensures Scan(fp, cond, col, n) == Scan(fp, cond, col, m)
    decreases n - m
  {
    if m < n {
      ScanStuck(fp, cond, col, m, n - 1);
    }
  }

  /** Row `r` is the first row before `n` whose evaluation fails, and it fails with `e`. */
  ghost predicate FirstFailure(fp: FloatArith, cond: seq<Expr>, col: Column, n: nat, r: nat, e: QueryError) {
    && r < n <= Len(col)
    && Evaluation(fp, cond, CellAt(col, r)) == Returns(Err(e))
    && forall q :: 0 <= q < r ==> Evaluation(fp, cond, CellAt(col, q)).Returns? && Evaluation(fp, cond, CellAt(col, q)).result.Ok?
  }

  /** A failed scan reports the error of the first row whose evaluation failed. */
  lemma {:induction false} ScanFirstError(fp: FloatArith, cond: seq<Expr>, col: Column, n: nat, e: QueryError)
    requires n <= Len(col) && Scan(fp, cond, col, n) == Returns(Err(e))
    ensures exists r :: FirstFailure(fp, cond, col, n, r, e)
    decreases n
  {
    var prev := Scan(fp, cond, col, n - 1);
    if prev.Returns? && prev.result.Ok? {
      ScanSound(fp, cond, col, n - 1, prev.result.value);
      assert FirstFailure(fp, cond, col, n, n - 1, e);
    } else {
      ScanFirstError(fp, cond, col, n - 1, e);
      var r :| FirstFailure(fp, cond, col, n - 1, r, e);
      assert FirstFailure(fp, cond, col, n, r, e);
    }
  }

  /** When every row evaluates without error and none to `Bool(true)`, nothing is kept. */
  lemma {:induction false} ScanNoneMatch(fp: FloatArith, cond: seq<Expr>, col: Column, n: nat)
    requires n <= Len(col)
    requires forall r :: 0 <= r < n ==>
      Evaluation(fp, cond, CellAt(col, r)).Returns? && Evaluation(fp, cond, CellAt(col, r)).result.Ok?
      && Evaluation(fp, cond, CellAt(col, r)).result.value != Bool(true)
    ensures Scan(fp, cond, col, n) == Returns(Ok([]))
    decreases n
  {
    if n > 0 {
      ScanNoneMatch(fp, cond, col, n - 1);
    }
  }

  /** With an empty condition the first row already fails with `NoOperation`; a column without
      rows keeps nothing and reports nothing. */
  lemma EmptyConditionScan(fp: FloatArith, col: Column, n: nat)
    requires n <= Len(col)
    ensures Scan(fp, [], col, n) == if n == 0 then Returns(Ok([])) else Returns(Err(NoOperation))
  {
    if n > 0 {
      LeafPrograms(fp, CellAt(col, 0), CellAt(col, 0));
      assert Scan(fp, [], col, 1) == Returns(Err(NoOperation));
      ScanStuck(fp, [], col, 1, n);
    }
  }

  /** A successful `Kept` is the ascending list of exactly the matching rows. */
  lemma KeptSound(fp: FloatArith, t: Table, column: nat, cond: seq<Expr>, rows: seq<nat>)
    requires Kept(fp, t, column, cond) == Returns(Ok(rows))
    ensures KeptExactly(fp, t, column, cond, rows)
    ensures column < |t.columns| ==> forall r :: r in rows ==> r < Len(t.columns[column])
    ensures column >= |t.columns| ==> rows == []
  {
    if column < |t.columns| {
      ScanSound(fp, cond, t.columns[column], Len(t.columns[column]), rows);
    }
  }

  /** A scan that reaches row `i` without error panics as a whole if that row's evaluation panics. */
  lemma ScanPanicsFrom(fp: FloatArith, cond: seq<Expr>, col: Column, i: nat)
    requires i < Len(col) && Scan(fp, cond, col, i).Returns? && Scan(fp, cond, col, i).result.Ok?
    ensures var e := Evaluation(fp, cond, CellAt(col, i));
      !(e.Returns? && e.result.Ok?) ==> Scan(fp, cond, col, Len(col)) == if e.Panics? then Panics else Returns(Err(e.result.error))
  {
    var e := Evaluation(fp, cond, CellAt(col, i));
    if !(e.Returns? && e.result.Ok?) {
      assert Scan(fp, cond, col, i + 1) == (if e.Panics? then Panics else Returns(Err(e.result.error)));
      ScanStuck(fp, cond, col, i + 1, Len(col));
    }
  }

  /** The `check!` loop: evaluates the condition on each row of the condition column in order,
      collecting the rows whose value is `Bool(true)` and returning the first error. */
  method CollectRows(fp: FloatArith, cond: seq<Expr>, col: Column) returns (r: Result<seq<nat>, QueryError>)
    requires !Scan(fp, cond, col, Len(col)).Panics?
    ensures r == Scan(fp, cond, col, Len(col)).result
  {
    var rows: seq<nat> := [];
    var i := 0;
    while i < Len(col)
      invariant 0 <= i <= Len(col)
      invariant Scan(fp, cond, col, i) == Returns(Ok(rows))
    {
      ScanPanicsFrom(fp, cond, col, i);
      var res := Evaluate(fp, cond, CellAt(col, i));
      if res.Err? {
        return Err(res.error);
      }
      if res.value == Bool(true) {
        rows := rows + [i];
      }
      i := i + 1;
    }
    return Ok(rows);
  }

  /** The kept rows of `t`: the scan of the condition column, or none when `column` is not a
      column position. */
  method KeptRows(fp: FloatArith, t: Table, column: nat, cond: seq<Expr>) returns (r: Result<seq<nat>, QueryError>)
    requires !Kept(fp, t, column, cond).Panics?
    ensures r == Kept(fp, t, column, cond).result
  {
    if column < |t.columns| {
      r := CollectRows(fp, cond, t.columns[column]);
    } else {
      r := Ok([]);
    }
  }

  // ----- insertion -----

  /** Each column `i` with `values[i]` pushed onto its end. */
  function AppendRow(t: Table, values: seq<Value>): (r: Table)
    requires |values| == |t.columns|
    requires forall i :: 0 <= i < |values| ==> TypeOf(values[i]) == ColumnType(t.columns[i])
    ensures r.columnTypes == t.columnTypes && |r.columns| == |t.columns|
    ensures forall i :: 0 <= i < |t.columns| ==>
      ColumnType(r.columns[i]) == ColumnType(t.columns[i]) && Cells(r.columns[i]) == Cells(t.columns[i]) + [values[i]]
  {
    Table(seq(|t.columns|, i requires 0 <= i < |t.columns| => Append(t.columns[i], values[i])), t.columnTypes)
  }

  /** The checks and the push of `insert`: `SizeMismatch` when the value count differs from the
      column count, else `TypeMismatch` when the values' tags differ from the schema, else one value
      pushed onto each column. */
  function Insertion(t: Table, values: seq<Value>): (r: Result<Table, QueryError>)
    requires Schematic(t)
    ensures r == Err(SizeMismatch) <==> |values| != |t.columns|
    ensures r == Err(TypeMismatch) <==> |values| == |t.columns| && TypesOfValues(values) != t.columnTypes
    ensures r.Ok? ==> |values| == |t.columns| && forall i :: 0 <= i < |values| ==> TypeOf(values[i]) == ColumnType(t.columns[i])
  {
    if |values| != |t.columns| then Err(SizeMismatch)
    else if TypesOfValues(values) != t.columnTypes then Err(TypeMismatch)
    else
      assert forall i :: 0 <= i < |values| ==> TypeOf(values[i]) == ColumnType(t.columns[i]) by {
        forall i | 0 <= i < |values| ensures TypeOf(values[i]) == ColumnType(t.columns[i]) {
          assert TypesOfValues(values)[i] == TypeOf(values[i]);
        }
      }
      Ok(AppendRow(t, values))
  }

  /** The push loop of `insert`: `values[id]` pushed onto column `id`, for each `id` in order. */
  method PushRow(t: Table, values: seq<Value>) returns (t': Table)
    requires |values| == |t.columns|
    requires forall i :: 0 <= i < |values| ==> TypeOf(values[i]) == ColumnType(t.columns[i])
    ensures t' == AppendRow(t, values)
  {
    var cols := t.columns;
    var id := 0;
    while id < |values|
      invariant 0 <= id <= |values| && |cols| == |t.columns|
      invariant forall i :: 0 <= i < id ==> cols[i] == Append(t.columns[i], values[i])
      invariant forall i :: id <= i < |cols| ==> cols[i] == t.columns[i]
    {
      cols := cols[id := Append(cols[id], values[id])];
      id := id + 1;
    }
    t' := Table(cols, t.columnTypes);
    assert cols == AppendRow(t, values).columns;
  }

  /** Appending a row keeps the schema, grows every column by exactly its value, keeps a
      rectangular table rectangular, and adds one row (a table without columns has none). */
  lemma AppendRowGrows(t: Table, values: seq<Value>)
    requires |values| == |t.columns|
    requires forall i :: 0 <= i < |values| ==> TypeOf(values[i]) == ColumnType(t.columns[i])
    ensures var r := AppendRow(t, values);
      && |r.columns| == |t.columns| && r.columnTypes == t.columnTypes
      && (forall i :: 0 <= i < |t.columns| ==>
            ColumnType(r.columns[i]) == ColumnType(t.columns[i]) && Cells(r.columns[i]) == Cells(t.columns[i]) + [values[i]])
      && (Schematic(t) ==> Schematic(r))
      && (Rectangular(t) ==> Rectangular(r))
      && (|t.columns| > 0 ==> RowCount(r) == RowCount(t) + 1)
  {
    var r := AppendRow(t, values);
    assert forall i :: 0 <= i < |t.columns| ==> Len(r.columns[i]) == Len(t.columns[i]) + 1 by {
      forall i | 0 <= i < |t.columns| ensures Len(r.columns[i]) == Len(t.columns[i]) + 1 {
        assert |Cells(r.columns[i])| == |Cells(t.columns[i])| + 1;
      }
    }
  }
}
