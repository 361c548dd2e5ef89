/** Projection of a table onto its kept rows: the second half of `select` in both database.rs files. */
module Projection {
  import opened Values
  import opened Outcomes
  import opened QueryErrors
  import opened Evaluator
  import opened Tables

  /** Every listed row exists in column `c`. */
  predicate RowsIn(c: Column, rows: seq<nat>) {
    forall k :: 0 <= k < |rows| ==> rows[k] < Len(c)
  }

  /** The column restricted to `rows`, in the order given, built by pushing one value per row. */
  function Project(c: Column, rows: seq<nat>): (r: Column)
    requires RowsIn(c, rows)
    ensures ColumnType(r) == ColumnType(c)
    ensures |Cells(r)| == |rows|
    ensures forall k :: 0 <= k < |rows| ==> Cells(r)[k] == Cells(c)[rows[k]]
    decreases |rows|
  {
    if rows == [] then EmptyColumn(ColumnType(c))
    else
      var prefix := Project(c, rows[..|rows| - 1]);
      Append(prefix, CellAt(c, rows[|rows| - 1]))
  }

  /** Every listed row exists in every column (otherwise `col.get(row).unwrap()` panics). */
  predicate Projectable(t: Table, rows: seq<nat>) {
    forall i :: 0 <= i < |t.columns| ==> RowsIn(t.columns[i], rows)
  }

  /** The table of every column projected onto `rows`, sharing the source's `column_types`. */
  function ProjectTable(t: Table, rows: seq<nat>): (p: Table)
    requires Projectable(t, rows)
    ensures p.columnTypes == t.columnTypes && |p.columns| == |t.columns|
    ensures forall i :: 0 <= i < |t.columns| ==> ColumnType(p.columns[i]) == ColumnType(t.columns[i]) && Len(p.columns[i]) == |rows|
  {
    Table(seq(|t.columns|, i requires 0 <= i < |t.columns| => Project(t.columns[i], rows)), t.columnTypes)
  }

  /** The projection loops of `select`: for each column in order, the values at the kept rows are
      pushed onto a fresh column of the same variant. */
  method BuildProjection(t: Table, rows: seq<nat>) returns (p: Table)
    requires Projectable(t, rows)
    ensures p == ProjectTable(t, rows)
  {
    var newColumns: seq<Column> := [];
    var j := 0;
    while j < |t.columns|
      invariant 0 <= j <= |t.columns|
      invariant |newColumns| == j
      invariant forall i :: 0 <= i < j ==> newColumns[i] == Project(t.columns[i], rows)
    {
      var col := t.columns[j];
      var values := EmptyColumn(ColumnType(col));
      var k := 0;
      while k < |rows|
        invariant 0 <= k <= |rows|
        invariant values == Project(col, rows[..k])
      {
        assert rows[..k + 1][..k] == rows[..k];
        values := Append(values, CellAt(col, rows[k]));
        k := k + 1;
      }
      assert rows[..|rows|] == rows;
      newColumns := newColumns + [values];
      j := j + 1;
    }
    p := Table(newColumns, t.columnTypes);
  }

  /** The scan followed by the projection, as both `select`s do it once their checks passed. */
  function Selected(fp: FloatArith, t: Table, column: nat, cond: seq<Expr>): (r: Outcome<Table, QueryError>)
    ensures r.Returns? && r.result.Ok? ==> r.result.value.columnTypes == t.columnTypes && |r.result.value.columns| == |t.columns|
    ensures r.Returns? && r.result.Err? ==> column < |t.columns|
  {
    match Kept(fp, t, column, cond)
    case Returns(Ok(rows)) => if Projectable(t, rows) then Returns(Ok(ProjectTable(t, rows))) else Panics
    case Returns(Err(e)) => Returns(Err(e))
    case Panics => Panics
  }

  /** The i-th row of a projection is the `rows[i]`-th row of the source, column for column; the
      projection has the source's schema and is rectangular with `|rows|` rows. */
  lemma ProjectionFaithful(t: Table, rows: seq<nat>)
    requires Projectable(t, rows)
    ensures var p := ProjectTable(t, rows);
      && p.columnTypes == t.columnTypes && |p.columns| == |t.columns|
      && (forall i :: 0 <= i < |t.columns| ==>
            ColumnType(p.columns[i]) == ColumnType(t.columns[i]) && Len(p.columns[i]) == |rows|
            && forall k :: 0 <= k < |rows| ==> Cells(p.columns[i])[k] == Cells(t.columns[i])[rows[k]])
      && Rectangular(p)
      && (Schematic(t) ==> Schematic(p))
  {
  }

  /** A successful select returns the projection of the source onto the ascending list of
      exactly those rows whose condition evaluates to `Bool(true)`. */
  lemma SelectedKeepsMatchingRows(fp: FloatArith, t: Table, column: nat, cond: seq<Expr>, res: Table)
    requires Selected(fp, t, column, cond) == Returns(Ok(res))
    ensures exists rows :: KeptExactly(fp, t, column, cond, rows) && Projectable(t, rows) && res == ProjectTable(t, rows)
  {
    var rows := Kept(fp, t, column, cond).result.value;
    KeptSound(fp, t, column, cond, rows);
    assert KeptExactly(fp, t, column, cond, rows) && Projectable(t, rows) && res == ProjectTable(t, rows);
  }

  /** On a rectangular table, select panics only if an evaluation panics. */
  lemma SelectedPanicsOnlyInEvaluation(fp: FloatArith, t: Table, column: nat, cond: seq<Expr>)
    requires Rectangular(t) && !Kept(fp, t, column, cond).Panics?
    ensures !Selected(fp, t, column, cond).Panics?
  {
    match Kept(fp, t, column, cond)
    case Returns(Ok(rows)) =>
      KeptSound(fp, t, column, cond, rows);
      if column < |t.columns| {
        forall i, k | 0 <= i < |t.columns| && 0 <= k < |rows| ensures rows[k] < Len(t.columns[i]) {
          assert rows[k] in rows;
        }
      }
    case _ =>
  }

  /** A condition column past the last column keeps no row: every result column is empty, of the
      source column's variant, and the schema is copied. */
  lemma SelectedPastLastColumn(fp: FloatArith, t: Table, column: nat, cond: seq<Expr>)
    requires column >= |t.columns|
    ensures Selected(fp, t, column, cond) == Returns(Ok(Table(seq(|t.columns|, i requires 0 <= i < |t.columns| => EmptyColumn(ColumnType(t.columns[i]))), t.columnTypes)))
  {
    var p := ProjectTable(t, []);
    assert p.columns == seq(|t.columns|, i requires 0 <= i < |t.columns| => EmptyColumn(ColumnType(t.columns[i])));
  }
}
