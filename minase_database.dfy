/** The full executor (minase/src/db_core/database.rs): the table lookup with and without a column
    check, table creation and removal, `select`, `insert`, `update`, `update_all` and `delete`.
    Evaluator errors are carried into this crate's error enum by `Lift`. */
module MinaseDatabase {
  import opened Values
  import opened Outcomes
  import opened MinaseQueryErrors
  import L = QueryErrors
  import opened Evaluator
  import opened Tables
  import opened Projection
  import opened Rewrite
  import opened Removal
  import Legacy = LegacyDatabase

  /** `get_table_with_column_check`: `TableNotFound` past the last table, `ColumnNotFound` only
      when the column count is below `column`, so `column == len(columns)` is accepted. */
  function CheckedTable(tables: seq<Table>, id: nat, column: nat): (r: Result<Table, QueryError>)
    ensures r == Err(TableNotFound) <==> id >= |tables|
    ensures r == Err(ColumnNotFound) <==> id < |tables| && |tables[id].columns| < column
    ensures r.Ok? <==> id < |tables| && column <= |tables[id].columns|
    ensures r.Ok? ==> r.value == tables[id]
  {
    if id >= |tables| then Err(TableNotFound)
    else if |tables[id].columns| < column then Err(ColumnNotFound)
    else Ok(tables[id])
  }

  function LiftOutcome<T>(o: Outcome<T, L.QueryError>): Outcome<T, QueryError> {
    match o
    case Returns(Ok(v)) => Returns(Ok(v))
    case Returns(Err(e)) => Returns(Err(Lift(e)))
    case Panics => Panics
  }

  function LiftStatus(s: Result<(), L.QueryError>): Result<(), QueryError> {
    match s
    case Ok(_) => Ok(())
    case Err(e) => Err(Lift(e))
  }

  /** What `select` returns: the checked lookup, then the empty-condition check, then the scan
      and the projection. */
  function SelectOutcome(fp: FloatArith, tables: seq<Table>, table: nat, column: nat, cond: seq<Expr>): (r: Outcome<Table, QueryError>)
    ensures r.Returns? && r.result.Ok? ==>
      && table < |tables| && column <= |tables[table].columns| && cond != []
      && r.result.value.columnTypes == tables[table].columnTypes && |r.result.value.columns| == |tables[table].columns|
  {
    match CheckedTable(tables, table, column)
    case Err(e) => Returns(Err(e))
    case Ok(t) => if cond == [] then Returns(Err(NoOperation)) else LiftOutcome(Selected(fp, t, column, cond))
  }

  /** What `insert` does to the tables. */
  function InsertEffect(tables: seq<Table>, table: nat, values: seq<Value>): (r: Effect<seq<Table>, QueryError>)
    requires table < |tables| ==> Schematic(tables[table])
    ensures r.Leaves? && |r.state| == |tables|
    ensures r.status.Err? ==> r.state == tables
    ensures forall i :: 0 <= i < |tables| && i != table ==> r.state[i] == tables[i]
    ensures r.status.Ok? ==> table < |tables| && r.state[table].columnTypes == tables[table].columnTypes
  {
    if table >= |tables| then Leaves(tables, Err(TableNotFound))
    else match Insertion(tables[table], values)
      case Ok(t) => Leaves(tables[table := t], Ok(()))
      case Err(e) => Leaves(tables, Err(Lift(e)))
  }

  /** The rewritten columns written back into table `table`. */
  function Commit(tables: seq<Table>, table: nat, eff: Effect<seq<Column>, L.QueryError>): (r: Effect<seq<Table>, QueryError>)
    requires table < |tables|
    ensures r.Leaves? <==> eff.Leaves?
    ensures r.Leaves? ==>
      && |r.state| == |tables| && (forall i :: 0 <= i < |tables| && i != table ==> r.state[i] == tables[i])
      && r.state[table] == Table(eff.state, tables[table].columnTypes)
      && (r.status.Ok? <==> eff.status.Ok?)
  {
    match eff
    case Aborts => Aborts
    case Leaves(cs, status) => Leaves(tables[table := Table(cs, tables[table].columnTypes)], LiftStatus(status))
  }

  /** What `update` does to the tables: the checked lookup, the empty-condition check, the scan,
      then every target rewritten at the kept rows. */
  function UpdateEffect(fp: FloatArith, tables: seq<Table>, table: nat, column: nat, targets: seq<(nat, seq<Expr>)>, cond: seq<Expr>): (r: Effect<seq<Table>, QueryError>)
    ensures r.Leaves? ==> |r.state| == |tables| && forall i :: 0 <= i < |tables| && i != table ==> r.state[i] == tables[i]
    ensures r.Leaves? && (table >= |tables| || column > |tables[table].columns| || cond == []) ==> r.state == tables && r.status.Err?
  {
    match CheckedTable(tables, table, column)
    case Err(e) => Leaves(tables, Err(e))
    case Ok(t) =>
      if cond == [] then Leaves(tables, Err(NoOperation))
      else
        match Kept(fp, t, column, cond)
        case Returns(Ok(rows)) => Commit(tables, table, Retargeted(SemanticsOf(fp), t.columns, targets, Chosen(rows)))
        case Returns(Err(e)) => Leaves(tables, Err(Lift(e)))
        case Panics => Aborts
  }

  /** What `update_all` does to the tables: the lookup checked with column 0, then every target
      rewritten at every row. */
  function UpdateAllEffect(fp: FloatArith, tables: seq<Table>, table: nat, targets: seq<(nat, seq<Expr>)>): (r: Effect<seq<Table>, QueryError>)
    ensures r.Leaves? ==> |r.state| == |tables| && forall i :: 0 <= i < |tables| && i != table ==> r.state[i] == tables[i]
    ensures table >= |tables| ==> r == Leaves(tables, Err(TableNotFound))
  {
    match CheckedTable(tables, table, 0)
    case Err(e) => Leaves(tables, Err(e))
    case Ok(t) => Commit(tables, table, Retargeted(SemanticsOf(fp), t.columns, targets, Every))
  }

  /** What `delete` does to the tables: the checked lookup, then the scan and the removal. */
  function DeleteEffect(fp: FloatArith, tables: seq<Table>, table: nat, column: nat, cond: seq<Expr>): (r: Effect<seq<Table>, QueryError>)
    ensures r.Leaves? ==> |r.state| == |tables| && forall i :: 0 <= i < |tables| && i != table ==> r.state[i] == tables[i]
    ensures r.Leaves? && r.status.Err? ==> r.state == tables
  {
    match CheckedTable(tables, table, column)
    case Err(e) => Leaves(tables, Err(e))
    case Ok(t) =>
      match Deleted(fp, t, column, cond)
      case Aborts => Aborts
      case Leaves(t', status) => Leaves(tables[table := t'], LiftStatus(status))
  }

  class Database {
    var tables: seq<Table>

    /** Every table's schema mirrors its columns. */
    ghost predicate Valid()
      reads this
    {
      forall i :: 0 <= i < |tables| ==> Schematic(tables[i])
    }

    constructor ()
      ensures tables == [] && Valid()
    {
      tables := [];
    }

    method GetTable(id: nat) returns (r: Result<Table, QueryError>)
      ensures id < |tables| ==> r == Ok(tables[id])
      ensures id >= |tables| ==> r == Err(TableNotFound)
    {
      if id < |tables| {
        r := Ok(tables[id]);
      } else {
        r := Err(TableNotFound);
      }
    }

    method GetTableWithColumnCheck(id: nat, column: nat) returns (r: Result<Table, QueryError>)
      ensures r == CheckedTable(tables, id, column)
    {
      if id >= |tables| {
        return Err(TableNotFound);
      }
      if |tables[id].columns| < column {
        return Err(ColumnNotFound);
      }
      r := Ok(tables[id]);
    }

    method AddTable(columns: seq<Column>)
      requires Valid()
      modifies this
      ensures tables == old(tables) + [NewTable(columns)]
      ensures Valid()
    {
      tables := tables + [NewTable(columns)];
    }

    /** `Vec::remove` panics past the end, hence the precondition. */
    method DropTable(id: nat)
      requires id < |tables| && Valid()
      modifies this
      ensures tables == old(tables)[..id] + old(tables)[id + 1..]
      ensures Valid()
    {
      tables := tables[..id] + tables[id + 1..];
    }

    method Select(fp: FloatArith, table: nat, column: nat, cond: seq<Expr>) returns (r: Result<Table, QueryError>)
      requires !SelectOutcome(fp, tables, table, column, cond).Panics?
      ensures r == SelectOutcome(fp, tables, table, column, cond).result
    {
      var found := GetTableWithColumnCheck(table, column);
      if found.Err? {
        return Err(found.error);
      }
      var t := found.value;
      if |cond| == 0 {
        return Err(NoOperation);
      }
      var kept := KeptRows(fp, t, column, cond);
      if kept.Err? {
        return Err(Lift(kept.error));
      }
      var p := BuildProjection(t, kept.value);
      return Ok(p);
    }

    method Insert(table: nat, values: seq<Value>) returns (r: Result<(), QueryError>)
      requires Valid()
      modifies this
      ensures Leaves(tables, r) == InsertEffect(old(tables), table, values)
      ensures Valid()
    {
      var found := GetTable(table);
      if found.Err? {
        return Err(found.error);
      }
      var t := found.value;
      if |values| != |t.columns| {
        return Err(SizeMismatch);
      }
      if TypesOfValues(values) != t.columnTypes {
        return Err(TypeMismatch);
      }
      assert Insertion(t, values).Ok?;
      var t' := PushRow(t, values);
      AppendRowGrows(t, values);
      tables := tables[table := t'];
      r := Ok(());
    }

    method Update(fp: FloatArith, table: nat, column: nat, targets: seq<(nat, seq<Expr>)>, cond: seq<Expr>) returns (r: Result<(), QueryError>)
      requires Valid() && !UpdateEffect(fp, tables, table, column, targets, cond).Aborts?
      modifies this
      ensures Leaves(tables, r) == UpdateEffect(fp, old(tables), table, column, targets, cond)
      ensures Valid()
    {
      var found := GetTableWithColumnCheck(table, column);
      if found.Err? {
        return Err(found.error);
      }
      var t := found.value;
      if |cond| == 0 {
        return Err(NoOperation);
      }
      var kept := KeptRows(fp, t, column, cond);
      if kept.Err? {
        return Err(Lift(kept.error));
      }
      var cs, status := RewriteColumns(fp, SemanticsOf(fp), t.columns, targets, Chosen(kept.value));
      RetargetedKeepsShape(SemanticsOf(fp), t, targets, Chosen(kept.value), cs, status);
      tables := tables[table := Table(cs, t.columnTypes)];
      r := LiftStatus(status);
    }

    method UpdateAll(fp: FloatArith, table: nat, targets: seq<(nat, seq<Expr>)>) returns (r: Result<(), QueryError>)
      requires Valid() && !UpdateAllEffect(fp, tables, table, targets).Aborts?
      modifies this
      ensures Leaves(tables, r) == UpdateAllEffect(fp, old(tables), table, targets)
      ensures Valid()
    {
      var found := GetTableWithColumnCheck(table, 0);
      if found.Err? {
        return Err(found.error);
      }
      var t := found.value;
      var cs, status := RewriteColumns(fp, SemanticsOf(fp), t.columns, targets, Every);
      RetargetedKeepsShape(SemanticsOf(fp), t, targets, Every, cs, status);
      tables := tables[table := Table(cs, t.columnTypes)];
      r := LiftStatus(status);
    }

    method Delete(fp: FloatArith, table: nat, column: nat, cond: seq<Expr>) returns (r: Result<(), QueryError>)
      requires Valid() && !DeleteEffect(fp, tables, table, column, cond).Aborts?
      modifies this
      ensures Leaves(tables, r) == DeleteEffect(fp, old(tables), table, column, cond)
      ensures Valid()
    {
      var found := GetTableWithColumnCheck(table, column);
      if found.Err? {
        return Err(found.error);
      }
      var t := found.value;
      var kept := KeptRows(fp, t, column, cond);
      if kept.Err? {
        assert tables[table := t] == tables;
        return Err(Lift(kept.error));
      }
      var desc := Reverse(kept.value);
      var t' := RemoveFromAll(t, desc);
      DeletedRemovesMatchingRows(fp, t, column, cond, t');
      tables := tables[table := t'];
      r := Ok(());
    }
  }

  // ----- select -----

  /** Where both executors accept the request, they agree: once the checked lookup passes and
      the condition is not empty, `select` returns what the older `select` returns. */
  lemma SelectsAgree(fp: FloatArith, tables: seq<Table>, table: nat, column: nat, cond: seq<Expr>)
    requires table < |tables| && column <= |tables[table].columns| && cond != []
    ensures SelectOutcome(fp, tables, table, column, cond) == LiftOutcome(Legacy.SelectOutcome(fp, tables, table, column, cond))
  {
  }

  /** Where they differ: a column past `len(columns)` is `ColumnNotFound` here and an empty result
      in the older `select`; an empty condition is `NoOperation` here even on a table without
      rows, where the older `select` succeeds. */
  lemma SelectsDiffer(fp: FloatArith, tables: seq<Table>, table: nat, column: nat, cond: seq<Expr>)
    requires table < |tables|
    ensures column > |tables[table].columns| ==>
      && SelectOutcome(fp, tables, table, column, cond) == Returns(Err(ColumnNotFound))
      && Legacy.SelectOutcome(fp, tables, table, column, cond) == Returns(Ok(ProjectTable(tables[table], [])))
    ensures column <= |tables[table].columns| ==> SelectOutcome(fp, tables, table, column, []) == Returns(Err(NoOperation))
    ensures column < |tables[table].columns| && Len(tables[table].columns[column]) == 0 ==>
      Legacy.SelectOutcome(fp, tables, table, column, []) == Returns(Ok(ProjectTable(tables[table], [])))
  {
    var t := tables[table];
    if column < |t.columns| {
      EmptyConditionScan(fp, t.columns[column], Len(t.columns[column]));
    }
  }

  /** The column check accepts `column == len(columns)`; no row is then kept and every result
      column is empty, of its source column's variant, under the copied schema. */
  lemma SelectPastLastColumn(fp: FloatArith, tables: seq<Table>, table: nat, cond: seq<Expr>)
    requires table < |tables| && cond != []
    ensures var t := tables[table];
      SelectOutcome(fp, tables, table, |t.columns|, cond) ==
        Returns(Ok(Table(seq(|t.columns|, i requires 0 <= i < |t.columns| => EmptyColumn(ColumnType(t.columns[i]))), t.columnTypes)))
  {
    SelectedPastLastColumn(fp, tables[table], |tables[table].columns|, cond);
  }

  // ----- insert -----

  /** Both executors insert alike: the same tables afterwards and the same error, lifted. */
  lemma InsertsAgree(tables: seq<Table>, table: nat, values: seq<Value>)
    requires table < |tables| ==> Schematic(tables[table])
    ensures InsertEffect(tables, table, values).Leaves? && Legacy.InsertEffect(tables, table, values).Leaves?
    ensures InsertEffect(tables, table, values).state == Legacy.InsertEffect(tables, table, values).state
    ensures InsertEffect(tables, table, values).status == LiftStatus(Legacy.InsertEffect(tables, table, values).status)
  {
  }

  // ----- update and update_all -----

  /** Whatever the targets, and whether it succeeds or stops on an error, `update` changes no
      other table and no schema, no column that no target names, and no cell at a row the
      condition does not keep. */
  lemma UpdateKeepsUnmatchedCells(fp: FloatArith, tables: seq<Table>, table: nat, column: nat, targets: seq<(nat, seq<Expr>)>, cond: seq<Expr>, after: seq<Table>, status: Result<(), QueryError>)
    requires UpdateEffect(fp, tables, table, column, targets, cond) == Leaves(after, status)
    ensures |after| == |tables| && forall i :: 0 <= i < |tables| && i != table ==> after[i] == tables[i]
    ensures table < |tables| ==>
      var t, t' := tables[table], after[table];
      && t'.columnTypes == t.columnTypes && |t'.columns| == |t.columns|
      && (forall j :: 0 <= j < |t.columns| ==> ColumnType(t'.columns[j]) == ColumnType(t.columns[j]) && Len(t'.columns[j]) == Len(t.columns[j]))
      && (forall j :: 0 <= j < |t.columns| && (forall k :: 0 <= k < |targets| ==> targets[k].0 != j) ==> t'.columns[j] == t.columns[j])
      && (forall j, r :: 0 <= j < |t.columns| && 0 <= r < Len(t.columns[j]) && !(column < |t.columns| && Matches(fp, cond, t.columns[column], r)) ==>
            Cells(t'.columns[j])[r] == Cells(t.columns[j])[r])
  {
    if table < |tables| && column <= |tables[table].columns| && cond != [] {
      var t := tables[table];
      var kept := Kept(fp, t, column, cond);
      if kept.Returns? && kept.result.Ok? {
        var rows := kept.result.value;
        KeptSound(fp, t, column, cond, rows);
        var eff := Retargeted(SemanticsOf(fp), t.columns, targets, Chosen(rows));
        RetargetedShape(SemanticsOf(fp), t.columns, targets, Chosen(rows), eff.state, eff.status);
        RetargetedUntouched(SemanticsOf(fp), t.columns, targets, Chosen(rows), eff.state, eff.status);
        RetargetedKeepsOtherRows(SemanticsOf(fp), t.columns, targets, rows, eff.state, eff.status);
        forall j, r {:trigger Cells(after[table].columns[j])[r]} | 0 <= j < |t.columns| && 0 <= r < Len(t.columns[j]) && !(column < |t.columns| && Matches(fp, cond, t.columns[column], r))
          ensures Cells(after[table].columns[j])[r] == Cells(t.columns[j])[r]
        {
          assert r !in rows;
        }
      }
    }
  }

  /** A successful `update` whose targets name distinct columns rewrites, in each named column,
      exactly the kept rows, each to its expression's value on the cell's old value. */
  lemma UpdateDistinctTargets(fp: FloatArith, tables: seq<Table>, table: nat, column: nat, targets: seq<(nat, seq<Expr>)>, cond: seq<Expr>, after: seq<Table>)
    requires UpdateEffect(fp, tables, table, column, targets, cond) == Leaves(after, Ok(())) && DistinctIds(targets)
    ensures table < |tables| && |after| == |tables| && |after[table].columns| == |tables[table].columns|
    ensures exists rows ::
      && KeptExactly(fp, tables[table], column, cond, rows)
      && forall k :: 0 <= k < |targets| && targets[k].0 < |tables[table].columns| ==>
        RewrittenAt(SemanticsOf(fp), targets[k].1, tables[table].columns[targets[k].0], after[table].columns[targets[k].0], rows)
  {
    var t, cs := tables[table], after[table].columns;
    var rows := Kept(fp, t, column, cond).result.value;
    KeptSound(fp, t, column, cond, rows);
    RetargetedDistinct(SemanticsOf(fp), t.columns, targets, Chosen(rows), cs);
    forall k | 0 <= k < |targets| && targets[k].0 < |t.columns|
      ensures RewrittenAt(SemanticsOf(fp), targets[k].1, t.columns[targets[k].0], cs[targets[k].0], rows)
    {
      RewrittenAtRows(SemanticsOf(fp), t.columns[targets[k].0], targets[k].1, rows, cs[targets[k].0]);
    }
  }

  /** When the scan succeeded but a rewrite fails, the table keeps every write made before the
      failing row: all earlier targets completely, the failing target up to that row. */
  lemma UpdateKeepsEarlierWrites(fp: FloatArith, tables: seq<Table>, table: nat, column: nat, targets: seq<(nat, seq<Expr>)>, cond: seq<Expr>, after: seq<Table>, e: QueryError)
    requires UpdateEffect(fp, tables, table, column, targets, cond) == Leaves(after, Err(e))
    requires table < |tables| && column <= |tables[table].columns| && cond != []
    requires Kept(fp, tables[table], column, cond).Returns? && Kept(fp, tables[table], column, cond).result.Ok?
    ensures |after| == |tables| && forall i :: 0 <= i < |tables| && i != table ==> after[i] == tables[i]
    ensures exists m: nat, e': L.QueryError ::
      Lift(e') == e && TargetFailure(SemanticsOf(fp), tables[table].columns, targets, Chosen(Kept(fp, tables[table], column, cond).result.value), m, after[table].columns, e')
  {
    var t := tables[table];
    var rs := Chosen(Kept(fp, t, column, cond).result.value);
    var eff := Retargeted(SemanticsOf(fp), t.columns, targets, rs);
    var e' := eff.status.error;
    RetargetedError(SemanticsOf(fp), t.columns, targets, rs, eff.state, e');
    var m: nat :| TargetFailure(SemanticsOf(fp), t.columns, targets, rs, m, eff.state, e');
    assert Lift(e') == e && TargetFailure(SemanticsOf(fp), t.columns, targets, rs, m, after[table].columns, e');
  }

  /** Whether it succeeds or stops on an error, `update_all` changes no other table and no
      schema, and no column that no target names. */
  lemma UpdateAllKeepsOtherColumns(fp: FloatArith, tables: seq<Table>, table: nat, targets: seq<(nat, seq<Expr>)>, after: seq<Table>, status: Result<(), QueryError>)
    requires UpdateAllEffect(fp, tables, table, targets) == Leaves(after, status)
    ensures |after| == |tables| && forall i :: 0 <= i < |tables| && i != table ==> after[i] == tables[i]
    ensures table < |tables| ==>
      var t, t' := tables[table], after[table];
      && t'.columnTypes == t.columnTypes && |t'.columns| == |t.columns|
      && (forall j :: 0 <= j < |t.columns| && (forall k :: 0 <= k < |targets| ==> targets[k].0 != j) ==> t'.columns[j] == t.columns[j])
  {
    if table < |tables| {
      var t := tables[table];
      var eff := Retargeted(SemanticsOf(fp), t.columns, targets, Every);
      RetargetedUntouched(SemanticsOf(fp), t.columns, targets, Every, eff.state, eff.status);
    }
  }

  /** A successful `update_all` whose targets name distinct columns replaces every cell of each
      named column by its expression's value on the cell's old value. */
  lemma UpdateAllDistinctTargets(fp: FloatArith, tables: seq<Table>, table: nat, targets: seq<(nat, seq<Expr>)>, after: seq<Table>)
    requires UpdateAllEffect(fp, tables, table, targets) == Leaves(after, Ok(())) && DistinctIds(targets)
    ensures table < |tables| && |after| == |tables| && |after[table].columns| == |tables[table].columns|
    ensures var t, t' := tables[table], after[table];
      forall k :: 0 <= k < |targets| && targets[k].0 < |t.columns| ==>
        RewrittenAt(SemanticsOf(fp), targets[k].1, t.columns[targets[k].0], t'.columns[targets[k].0], Range(Len(t.columns[targets[k].0])))
  {
    var t, cs := tables[table], after[table].columns;
    RetargetedDistinct(SemanticsOf(fp), t.columns, targets, Every, cs);
    forall k | 0 <= k < |targets| && targets[k].0 < |t.columns|
      ensures RewrittenAt(SemanticsOf(fp), targets[k].1, t.columns[targets[k].0], cs[targets[k].0], Range(Len(t.columns[targets[k].0])))
    {
      var c := t.columns[targets[k].0];
      RewrittenAtRows(SemanticsOf(fp), c, targets[k].1, Range(Len(c)), cs[targets[k].0]);
    }
  }

  /** The lookup of `update_all` is checked with column 0, which every table has room for: it can
      only fail with `TableNotFound`, and the rewrite only with an evaluator error. */
  lemma UpdateAllErrors(fp: FloatArith, tables: seq<Table>, table: nat, targets: seq<(nat, seq<Expr>)>, after: seq<Table>, e: QueryError)
    requires UpdateAllEffect(fp, tables, table, targets) == Leaves(after, Err(e))
    ensures e == TableNotFound || e == TypeMismatch || e == StackUnderflow || e == NoOperation
    ensures e == TableNotFound ==> after == tables
  {
    if table < |tables| {
      var t := tables[table];
      var eff := Retargeted(SemanticsOf(fp), t.columns, targets, Every);
      RetargetedErrors(fp, t.columns, targets, Every, eff.state, eff.status.error);
    }
  }

  // ----- delete -----

  /** A successful delete filters exactly the matching rows out of every column of the table and
      keeps the other tables; a failed one changes nothing. */
  lemma DeleteRemovesMatchingRows(fp: FloatArith, tables: seq<Table>, table: nat, column: nat, cond: seq<Expr>, after: seq<Table>, status: Result<(), QueryError>)
    requires DeleteEffect(fp, tables, table, column, cond) == Leaves(after, status)
    ensures status.Err? ==> after == tables
    ensures status.Ok? ==>
      && table < |tables| && |after| == |tables|
      && (forall i :: 0 <= i < |tables| && i != table ==> after[i] == tables[i])
      && (exists rows :: KeptExactly(fp, tables[table], column, cond, rows) && RowsRemoved(tables[table], after[table], rows))
      && (Rectangular(tables[table]) ==> Rectangular(after[table]))
  {
    if table < |tables| && column <= |tables[table].columns| {
      var eff := Deleted(fp, tables[table], column, cond);
      if status.Ok? {
        DeletedRemovesMatchingRows(fp, tables[table], column, cond, eff.state);
      } else {
        assert tables[table := tables[table]] == tables;
      }
    }
  }

  /** Without an empty-condition check, `delete` with an empty condition fails with `NoOperation`
      only when the condition column has rows; otherwise it succeeds and changes nothing. */
  lemma DeleteEmptyCondition(fp: FloatArith, tables: seq<Table>, table: nat, column: nat)
    requires table < |tables| && column <= |tables[table].columns|
    ensures column < |tables[table].columns| && Len(tables[table].columns[column]) > 0 ==>
      DeleteEffect(fp, tables, table, column, []) == Leaves(tables, Err(NoOperation))
    ensures column == |tables[table].columns| || Len(tables[table].columns[column]) == 0 ==>
      DeleteEffect(fp, tables, table, column, []) == Leaves(tables, Ok(()))
  {
    Removal.DeleteEmptyCondition(fp, tables[table], column);
    assert tables[table := tables[table]] == tables;
  }

  /** After a successful delete, a `select` with the same condition on the same column finds
      nothing: its result has the table's columns, all empty. */
  lemma DeleteThenSelectFindsNothing(fp: FloatArith, tables: seq<Table>, table: nat, column: nat, cond: seq<Expr>, after: seq<Table>)
    requires DeleteEffect(fp, tables, table, column, cond) == Leaves(after, Ok(())) && cond != []
    ensures table < |after| && SelectOutcome(fp, after, table, column, cond) == Returns(Ok(ProjectTable(after[table], [])))
  {
    var t' := Deleted(fp, tables[table], column, cond).state;
    DeleteThenNothingMatches(fp, tables[table], column, cond, t');
  }
}
