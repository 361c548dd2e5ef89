/** Row removal as `delete` does it (minase/src/db_core/database.rs): the ascending kept rows are
    reversed and `Vec::remove` is called for each of them, on every column. */
module Removal {
  import opened Values
  import opened Outcomes
  import opened QueryErrors
  import opened Evaluator
  import opened Tables

  /** Reference definition: `s` with the positions listed in `rows` filtered out, order kept. */
  function Without<T>(s: seq<T>, rows: seq<nat>): (r: seq<T>)
    ensures |r| <= |s|
    decreases |s|
  {
    if s == [] then []
    else Without(s[..|s| - 1], rows) + (if |s| - 1 in rows then [] else [s[|s| - 1]])
  }

  /** Positions at or past `m` are kept when no listed row reaches `m`. */
  lemma {:induction false} WithoutPrefix<T>(s: seq<T>, rows: seq<nat>, m: nat)
    requires m <= |s| && forall r :: r in rows ==> r < m
    ensures Without(s, rows) == Without(s[..m], rows) + s[m..]
    decreases |s| - m
  {
    if |s| == m {
      assert s[..m] == s;
    } else {
      var init := s[..|s| - 1];
      WithoutPrefix(init, rows, m);
      assert init[..m] == s[..m];
      assert init[m..] + [s[|s| - 1]] == s[m..];
    }
  }

  /** Only the listed positions inside `s` matter. */
  lemma {:induction false} WithoutAgree<T>(s: seq<T>, a: seq<nat>, b: seq<nat>)
    requires forall j: nat :: j < |s| ==> (j in a <==> j in b)
    ensures Without(s, a) == Without(s, b)
    decreases |s|
  {
    if s != [] {
      WithoutAgree(s[..|s| - 1], a, b);
    }
  }

  /** `x` is the element at some position of `s` that `rows` does not list. */
  ghost predicate SurvivesFrom<T>(s: seq<T>, rows: seq<nat>, x: T) {
    exists j :: 0 <= j < |s| && j !in rows && x == s[j]
  }

  /** Every element that survives comes from an unlisted position of `s`. */
  lemma {:induction false} WithoutElement<T>(s: seq<T>, rows: seq<nat>)
    ensures forall k :: 0 <= k < |Without(s, rows)| ==> SurvivesFrom(s, rows, Without(s, rows)[k])
    decreases |s|
  {
    if s != [] {
      var init := s[..|s| - 1];
      WithoutElement(init, rows);
      var w, wi := Without(s, rows), Without(init, rows);
      forall k | 0 <= k < |w| ensures SurvivesFrom(s, rows, w[k]) {
        if k < |wi| {
          assert SurvivesFrom(init, rows, wi[k]);
          var j :| 0 <= j < |init| && j !in rows && wi[k] == init[j];
          assert w[k] == s[j];
        } else {
          assert w[k] == s[|s| - 1];
        }
      }
    }
  }

  /** `row_ids.reverse()`. */
  function Reverse(rows: seq<nat>): (r: seq<nat>)
    ensures |r| == |rows|
    ensures forall i :: 0 <= i < |rows| ==> r[i] == rows[|rows| - 1 - i]
    decreases |rows|
  {
    if rows == [] then [] else [rows[|rows| - 1]] + Reverse(rows[..|rows| - 1])
  }

  /** `col.remove(row)` for each row of `desc` in turn; `None` when an index is past the end (the
      panic of `Vec::remove`). */
  function RemoveEach(c: Column, desc: seq<nat>): (r: Option<Column>)
    ensures r.Some? ==> ColumnType(r.value) == ColumnType(c) && Len(r.value) + |desc| == Len(c)
    ensures r.Some? && desc != [] ==> desc[0] < Len(c)
    decreases |desc|
  {
    if desc == [] then Some(c)
    else if desc[0] >= Len(c) then None
    else RemoveEach(RemoveAt(c, desc[0]), desc[1..])
  }

  /** Filtering out ascending rows whose last is `last`: what precedes `last` is filtered by the
      other rows, and everything after `last` is kept. */
  lemma WithoutLast<T>(s: seq<T>, prefix: seq<nat>, last: nat)
    requires last < |s| && forall k :: 0 <= k < |prefix| ==> prefix[k] < last
    ensures Without(s, prefix + [last]) == Without(s[..last], prefix) + s[last + 1..]
  {
    var rows := prefix + [last];
    assert forall r :: r in prefix ==> r < last by {
      forall r | r in prefix ensures r < last {
        var k :| 0 <= k < |prefix| && prefix[k] == r;
      }
    }
    assert forall r :: r in rows ==> r < last + 1;
    WithoutPrefix(s, rows, last + 1);
    var t := s[..last + 1];
    assert t[..|t| - 1] == s[..last] && last in rows;
    assert Without(t, rows) == Without(s[..last], rows);
    assert forall j: nat :: j < last ==> (j in rows <==> j in prefix);
    WithoutAgree(s[..last], rows, prefix);
  }

  /** Removing the rows in descending order removes the last one first. */
  lemma RemoveLastFirst(c: Column, prefix: seq<nat>, last: nat)
    requires last < Len(c)
    ensures RemoveEach(c, Reverse(prefix + [last])) == RemoveEach(RemoveAt(c, last), Reverse(prefix))
  {
    var rows := prefix + [last];
    assert rows[..|rows| - 1] == prefix;
    assert Reverse(rows)[1..] == Reverse(prefix);
  }

  /** Removing distinct ascending rows in descending order filters out exactly those positions. */
  lemma {:induction false} RemoveDescending(c: Column, rows: seq<nat>)
    requires StrictlyAscending(rows) && forall k :: 0 <= k < |rows| ==> rows[k] < Len(c)
    ensures RemoveEach(c, Reverse(rows)).Some?
    ensures Cells(RemoveEach(c, Reverse(rows)).value) == Without(Cells(c), rows)
    ensures Len(RemoveEach(c, Reverse(rows)).value) == Len(c) - |rows|
    decreases |rows|
  {
    var s := Cells(c);
    if rows == [] {
      WithoutPrefix(s, rows, 0);
      assert s[..0] == [] && s[0..] == s;
    } else {
      var n := |rows|;
      var prefix, last := rows[..n - 1], rows[n - 1];
      assert rows == prefix + [last];
      var c1 := RemoveAt(c, last);
      forall k | 0 <= k < |prefix| ensures prefix[k] < last { assert rows[k] < rows[n - 1]; }
      RemoveDescending(c1, prefix);
      RemoveLastFirst(c, prefix, last);
      var s1 := Cells(c1);
      WithoutPrefix(s1, prefix, last);
      assert s1[..last] == s[..last] && s1[last..] == s[last + 1..];
      WithoutLast(s, prefix, last);
    }
  }

  /** Every column survives the removal (no `Vec::remove` panics). */
  predicate Removable(t: Table, desc: seq<nat>) {
    forall i :: 0 <= i < |t.columns| ==> RemoveEach(t.columns[i], desc).Some?
  }

  function Removal(t: Table, desc: seq<nat>): (r: Table)
    requires Removable(t, desc)
    ensures r.columnTypes == t.columnTypes && |r.columns| == |t.columns|
    ensures forall i :: 0 <= i < |t.columns| ==>
      ColumnType(r.columns[i]) == ColumnType(t.columns[i]) && Len(r.columns[i]) + |desc| == Len(t.columns[i])
  {
    Table(seq(|t.columns|, i requires 0 <= i < |t.columns| => RemoveEach(t.columns[i], desc).value), t.columnTypes)
  }

  /** `col.remove(*row)` for each row of `desc`, in order. */
  method RemoveRows(c: Column, desc: seq<nat>) returns (c': Column)
    requires RemoveEach(c, desc).Some?
    ensures Some(c') == RemoveEach(c, desc)
  {
    c' := c;
    var j := 0;
    while j < |desc|
      invariant 0 <= j <= |desc|
      invariant RemoveEach(c', desc[j..]) == RemoveEach(c, desc)
    {
      assert desc[j..][0] == desc[j] && desc[j..][1..] == desc[j + 1..];
      c' := RemoveAt(c', desc[j]);
      j := j + 1;
    }
  }

  /** The loop over every column of the table (`columns.iter_mut()`). */
  method RemoveFromAll(t: Table, desc: seq<nat>) returns (t': Table)
    requires Removable(t, desc)
    ensures t' == Removal(t, desc)
  {
    var cols := t.columns;
    var i := 0;
    while i < |cols|
      invariant 0 <= i <= |cols| && |cols| == |t.columns|
      invariant forall k :: 0 <= k < i ==> cols[k] == RemoveEach(t.columns[k], desc).value
      invariant forall k :: i <= k < |cols| ==> cols[k] == t.columns[k]
    {
      var c := RemoveRows(cols[i], desc);
      cols := cols[i := c];
      i := i + 1;
    }
    t' := Table(cols, t.columnTypes);
    assert cols == Removal(t, desc).columns;
  }

  /** The effect of `delete`: an evaluator error in the scan leaves the table as it was; otherwise
      the kept rows are removed from every column, last first. */
  function Deleted(fp: FloatArith, t: Table, column: nat, cond: seq<Expr>): (r: Effect<Table, QueryError>)
    ensures r.Leaves? && r.status.Err? ==> r.state == t
    ensures r.Leaves? ==> r.state.columnTypes == t.columnTypes && |r.state.columns| == |t.columns|
  {
    match Kept(fp, t, column, cond)
    case Returns(Ok(rows)) =>
      var desc := Reverse(rows);
      if Removable(t, desc) then Leaves(Removal(t, desc), Ok(())) else Aborts
    case Returns(Err(e)) => Leaves(t, Err(e))
    case Panics => Aborts
  }

  /** `t'` is `t` with the positions `rows` filtered out of every column. */
  ghost predicate RowsRemoved(t: Table, t': Table, rows: seq<nat>) {
    && t'.columnTypes == t.columnTypes
    && |t'.columns| == |t.columns|
    && forall i :: 0 <= i < |t.columns| ==>
      && ColumnType(t'.columns[i]) == ColumnType(t.columns[i])
      && Cells(t'.columns[i]) == Without(Cells(t.columns[i]), rows)
      && Len(t'.columns[i]) == Len(t.columns[i]) - |rows|
  }

  /** A successful delete filters the rows its scan kept out of every column. */
  lemma DeletedRemovesKeptRows(fp: FloatArith, t: Table, column: nat, cond: seq<Expr>, t': Table)
    requires Deleted(fp, t, column, cond) == Leaves(t', Ok(()))
    ensures Kept(fp, t, column, cond).Returns? && Kept(fp, t, column, cond).result.Ok?
    ensures RowsRemoved(t, t', Kept(fp, t, column, cond).result.value)
  {
    var rows := Kept(fp, t, column, cond).result.value;
    KeptSound(fp, t, column, cond, rows);
    var desc := Reverse(rows);
    forall i | 0 <= i < |t.columns|
      ensures Cells(t'.columns[i]) == Without(Cells(t.columns[i]), rows)
      ensures Len(t'.columns[i]) == Len(t.columns[i]) - |rows|
    {
      var c := t.columns[i];
      if rows != [] {
        assert desc[0] < Len(c);
        forall k | 0 <= k < |rows| ensures rows[k] < Len(c) {
          assert rows[k] <= rows[|rows| - 1];
        }
      }
      RemoveDescending(c, rows);
    }
  }

  /** A successful delete removes exactly the matching rows from every column; the schema and
      rectangularity are kept and every column shrinks by the number of matching rows. */
  lemma DeletedRemovesMatchingRows(fp: FloatArith, t: Table, column: nat, cond: seq<Expr>, t': Table)
    requires Deleted(fp, t, column, cond) == Leaves(t', Ok(()))
    ensures exists rows :: KeptExactly(fp, t, column, cond, rows) && RowsRemoved(t, t', rows)
    ensures Schematic(t) ==> Schematic(t')
    ensures Rectangular(t) ==> Rectangular(t')
  {
    DeletedRemovesKeptRows(fp, t, column, cond, t');
    var rows := Kept(fp, t, column, cond).result.value;
    KeptSound(fp, t, column, cond, rows);
    assert KeptExactly(fp, t, column, cond, rows) && RowsRemoved(t, t', rows);
  }

  /** On a rectangular table delete aborts only if an evaluation panics. */
  lemma DeletedPanicsOnlyInEvaluation(fp: FloatArith, t: Table, column: nat, cond: seq<Expr>)
    requires Rectangular(t) && !Kept(fp, t, column, cond).Panics?
    ensures !Deleted(fp, t, column, cond).Aborts?
  {
    match Kept(fp, t, column, cond)
    case Returns(Ok(rows)) =>
      KeptSound(fp, t, column, cond, rows);
      forall i | 0 <= i < |t.columns| ensures RemoveEach(t.columns[i], Reverse(rows)).Some? {
        forall k | 0 <= k < |rows| ensures rows[k] < Len(t.columns[i]) {
          assert rows[k] in rows;
        }
        RemoveDescending(t.columns[i], rows);
      }
    case _ =>
  }

  /** Filtering the kept rows out of a column leaves none that the condition keeps. */
  lemma NothingLeftMatches(fp: FloatArith, cond: seq<Expr>, col: Column, rows: seq<nat>, col': Column)
    requires Scan(fp, cond, col, Len(col)) == Returns(Ok(rows))
    requires Cells(col') == Without(Cells(col), rows)
    ensures Scan(fp, cond, col', Len(col')) == Returns(Ok([]))
  {
    ScanSound(fp, cond, col, Len(col), rows);
    WithoutElement(Cells(col), rows);
    forall r | 0 <= r < Len(col')
      ensures Evaluation(fp, cond, CellAt(col', r)).Returns? && Evaluation(fp, cond, CellAt(col', r)).result.Ok?
        && Evaluation(fp, cond, CellAt(col', r)).result.value != Bool(true)
    {
      assert CellAt(col', r) == Cells(col')[r];
      assert SurvivesFrom(Cells(col), rows, Cells(col')[r]);
      var j :| 0 <= j < Len(col) && j !in rows && Cells(col')[r] == Cells(col)[j];
      assert !Matches(fp, cond, col, j);
    }
    ScanNoneMatch(fp, cond, col', Len(col'));
  }

  /** After a successful delete, the same condition on the same column matches no row. */
  lemma DeleteThenNothingMatches(fp: FloatArith, t: Table, column: nat, cond: seq<Expr>, t': Table)
    requires Deleted(fp, t, column, cond) == Leaves(t', Ok(()))
    ensures Kept(fp, t', column, cond) == Returns(Ok([]))
  {
    DeletedRemovesKeptRows(fp, t, column, cond, t');
    if column < |t.columns| {
      var rows := Kept(fp, t, column, cond).result.value;
      NothingLeftMatches(fp, cond, t.columns[column], rows, t'.columns[column]);
    }
  }

  /** Without an empty-condition check, an empty condition fails with `NoOperation` only when the
      condition column has rows; on an empty column, or a column past the last, nothing changes. */
  lemma DeleteEmptyCondition(fp: FloatArith, t: Table, column: nat)
    ensures column < |t.columns| && Len(t.columns[column]) > 0 ==> Deleted(fp, t, column, []) == Leaves(t, Err(NoOperation))
    ensures column >= |t.columns| || Len(t.columns[column]) == 0 ==> Deleted(fp, t, column, []) == Leaves(t, Ok(()))
  {
    if column < |t.columns| {
      EmptyConditionScan(fp, t.columns[column], Len(t.columns[column]));
    }
    if column >= |t.columns| || Len(t.columns[column]) == 0 {
      assert Removal(t, []).columns == t.columns;
    }
  }
}
