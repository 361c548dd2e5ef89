/** The older executor of the database crate (database/src/db_core/database.rs): tables, their
    lookup, creation and removal, `select` and `insert`. Its `select` checks neither the condition
    column nor the condition's length. */
module LegacyDatabase {
  import opened Values
  import opened Outcomes
  import opened QueryErrors
  import opened Evaluator
  import opened Tables
  import opened Projection

  /** What the older `select` returns: the table lookup, then the scan and the projection. */
  function SelectOutcome(fp: FloatArith, tables: seq<Table>, table: nat, column: nat, cond: seq<Expr>): (r: Outcome<Table, QueryError>)
    ensures r.Returns? && r.result.Ok? ==>
      table < |tables| && r.result.value.columnTypes == tables[table].columnTypes && |r.result.value.columns| == |tables[table].columns|
    ensures r.Returns? && r.result.Err? && table < |tables| ==> column < |tables[table].columns|
  {
    if table < |tables| then Selected(fp, tables[table], column, cond) else Returns(Err(TableNotFound))
  }

  /** What `insert` does to the tables: the lookup, then the checks and the push. */
  function InsertEffect(tables: seq<Table>, table: nat, values: seq<Value>): (r: Effect<seq<Table>, QueryError>)
    requires table < |tables| ==> Schematic(tables[table])
    ensures r.Leaves? && |r.state| == |tables|
    ensures r.status.Err? ==> r.state == tables
    ensures forall i :: 0 <= i < |tables| && i != table ==> r.state[i] == tables[i]
    ensures r.status.Ok? ==> table < |tables| && r.state[table].columnTypes == tables[table].columnTypes
  {
    if table >= |tables| then Leaves(tables, Err(TableNotFound))
    else match Insertion(tables[table], values)
      case Ok(t) => Leaves(tables[table := t], Ok(()))
      case Err(e) => Leaves(tables, Err(e))
  }

  class Database {
    var tables: seq<Table>

    /** Every table's schema mirrors its columns. */
    ghost predicate Valid()
      reads this
    {
      forall i :: 0 <= i < |tables| ==> Schematic(tables[i])
    }

    constructor ()
      ensures tables == [] && Valid()
    {
      tables := [];
    }

    method GetTable(id: nat) returns (r: Result<Table, QueryError>)
      ensures id < |tables| ==> r == Ok(tables[id])
      ensures id >= |tables| ==> r == Err(TableNotFound)
    {
      if id < |tables| {
        r := Ok(tables[id]);
      } else {
        r := Err(TableNotFound);
      }
    }

    method AddTable(columns: seq<Column>)
      requires Valid()
      modifies this
      ensures tables == old(tables) + [NewTable(columns)]
      ensures Valid()
    {
      tables := tables + [NewTable(columns)];
    }

    /** `Vec::remove` panics past the end, hence the precondition. */
    method DropTable(id: nat)
      requires id < |tables| && Valid()
      modifies this
      ensures tables == old(tables)[..id] + old(tables)[id + 1..]
      ensures Valid()
    {
      tables := tables[..id] + tables[id + 1..];
    }

    method Select(fp: FloatArith, table: nat, column: nat, cond: seq<Expr>) returns (r: Result<Table, QueryError>)
      requires !SelectOutcome(fp, tables, table, column, cond).Panics?
      ensures r == SelectOutcome(fp, tables, table, column, cond).result
    {
      var found := GetTable(table);
      if found.Err? {
        return Err(found.error);
      }
      var t := found.value;
      var kept := KeptRows(fp, t, column, cond);
      if kept.Err? {
        return Err(kept.error);
      }
      var p := BuildProjection(t, kept.value);
      return Ok(p);
    }

    method Insert(table: nat, values: seq<Value>) returns (r: Result<(), QueryError>)
      requires Valid()
      modifies this
      ensures Leaves(tables, r) == InsertEffect(old(tables), table, values)
      ensures Valid()
    {
      var found := GetTable(table);
      if found.Err? {
        return Err(found.error);
      }
      var t := found.value;
      if |values| != |t.columns| {
        return Err(SizeMismatch);
      }
      if TypesOfValues(values) != t.columnTypes {
        return Err(TypeMismatch);
      }
      assert Insertion(t, values).Ok?;
      var t' := PushRow(t, values);
      AppendRowGrows(t, values);
      tables := tables[table := t'];
      r := Ok(());
    }
  }

  /** A successful insert grows the target table by one row holding `values` and leaves every
      other table as it was; a failed one changes nothing. */
  lemma InsertAppendsOneRow(tables: seq<Table>, table: nat, values: seq<Value>, after: seq<Table>, status: Result<(), QueryError>)
    requires table < |tables| && Schematic(tables[table])
    requires InsertEffect(tables, table, values) == Leaves(after, status)
    ensures status.Err? ==> after == tables
    ensures status.Ok? ==> |after| == |tables| && forall i :: 0 <= i < |tables| && i != table ==> after[i] == tables[i]
    ensures status.Ok? ==> var t, t' := tables[table], after[table];
      && |values| == |t.columns| && t'.columnTypes == t.columnTypes && |t'.columns| == |t.columns|
      && (forall i :: 0 <= i < |t.columns| ==> Cells(t'.columns[i]) == Cells(t.columns[i]) + [values[i]])
      && Schematic(t') && (Rectangular(t) ==> Rectangular(t'))
  {
    if status.Ok? {
      AppendRowGrows(tables[table], values);
    }
  }

  /** Without an empty-condition check, an empty condition fails with `NoOperation` on the first
      row of the condition column, and succeeds with an empty projection when it has no rows. */
  lemma SelectEmptyCondition(fp: FloatArith, tables: seq<Table>, table: nat, column: nat)
    requires table < |tables| && column < |tables[table].columns|
    ensures Len(tables[table].columns[column]) > 0 ==> SelectOutcome(fp, tables, table, column, []) == Returns(Err(NoOperation))
    ensures Len(tables[table].columns[column]) == 0 ==> SelectOutcome(fp, tables, table, column, []) == Returns(Ok(ProjectTable(tables[table], [])))
  {
    var t := tables[table];
    EmptyConditionScan(fp, t.columns[column], Len(t.columns[column]));
  }

  /** Without a column check, a condition column at or past the column count keeps no row: the
      result has one empty column per source column, of the same variant, and the copied schema. */
  lemma SelectPastLastColumn(fp: FloatArith, tables: seq<Table>, table: nat, column: nat, cond: seq<Expr>)
    requires table < |tables| && column >= |tables[table].columns|
    ensures var t := tables[table];
      SelectOutcome(fp, tables, table, column, cond) ==
        Returns(Ok(Table(seq(|t.columns|, i requires 0 <= i < |t.columns| => EmptyColumn(ColumnType(t.columns[i]))), t.columnTypes)))
  {
    SelectedPastLastColumn(fp, tables[table], column, cond);
  }
}
