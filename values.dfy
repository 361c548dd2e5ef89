/** Scalar values, their type tags and typed columns (database/src/db_core/values.rs). */
module Values {

  /** Rust's `i32`. */
  type Int32 = x: int | -0x8000_0000 <= x < 0x8000_0000

  predicate InInt32Range(x: int) {
    -0x8000_0000 <= x < 0x8000_0000
  }

  /** Rust's `f32`, kept as its IEEE-754 bit pattern; its arithmetic is supplied by `FloatArith`. */
  type Float32 = bv32

  /** The host's `f32` operations. They are parameters of the model: rounding and NaN behaviour
      are not modelled, so nothing is proved about Float payloads beyond their type tag. */
  datatype FloatArith = FloatArith(
    add: (Float32, Float32) -> Float32,
    sub: (Float32, Float32) -> Float32,
    mul: (Float32, Float32) -> Float32,
    div: (Float32, Float32) -> Float32,
    gt: (Float32, Float32) -> bool,
    lt: (Float32, Float32) -> bool,
    ge: (Float32, Float32) -> bool,
    le: (Float32, Float32) -> bool,
    eq: (Float32, Float32) -> bool)

  /** `Types`: the four scalar type tags. */
  datatype Types = IntType | FloatType | StringType | BoolType

  /** `Value`: a tagged scalar. */
  datatype Value = Int(i: Int32) | Float(f: Float32) | String(s: string) | Bool(b: bool)

  /** `Column`: a homogeneous vector of scalars. */
  datatype Column =
    | IntColumn(ints: seq<Int32>)
    | FloatColumn(floats: seq<Float32>)
    | StringColumn(strings: seq<string>)
    | BoolColumn(bools: seq<bool>)

  /** `to_types` for `Value`. */
  function TypeOf(v: Value): (t: Types)
    ensures t == IntType <==> v.Int?
    ensures t == FloatType <==> v.Float?
    ensures t == StringType <==> v.String?
    ensures t == BoolType <==> v.Bool?
  {
    match v
    case Int(_) => IntType
    case Float(_) => FloatType
    case String(_) => StringType
    case Bool(_) => BoolType
  }

  /** `to_types` for `Column`. */
  function ColumnType(c: Column): (t: Types)
    ensures t == IntType <==> c.IntColumn?
    ensures t == FloatType <==> c.FloatColumn?
    ensures t == StringType <==> c.StringColumn?
    ensures t == BoolType <==> c.BoolColumn?
  {
    match c
    case IntColumn(_) => IntType
    case FloatColumn(_) => FloatType
    case StringColumn(_) => StringType
    case BoolColumn(_) => BoolType
  }

  /** Number of rows in a column. */
  function Len(c: Column): nat {
    match c
    case IntColumn(xs) => |xs|
    case FloatColumn(xs) => |xs|
    case StringColumn(xs) => |xs|
    case BoolColumn(xs) => |xs|
  }

  /** The value at row `r`, wrapped in the variant of the column (`Value::T(col[r].clone())`). */
  function CellAt(c: Column, r: nat): (v: Value)
    requires r < Len(c)
    ensures TypeOf(v) == ColumnType(c)
  {
    match c
    case IntColumn(xs) => Int(xs[r])
    case FloatColumn(xs) => Float(xs[r])
    case StringColumn(xs) => String(xs[r])
    case BoolColumn(xs) => Bool(xs[r])
  }

  /** The column viewed as a sequence of tagged values. */
  function Cells(c: Column): (s: seq<Value>)
    ensures |s| == Len(c)
  {
    seq(Len(c), r requires 0 <= r < Len(c) => CellAt(c, r))
  }

  /** An empty column of the given type (`vec![]` wrapped in a variant). */
  function EmptyColumn(t: Types): (c: Column)
    ensures ColumnType(c) == t && Cells(c) == []
  {
    match t
    case IntType => IntColumn([])
    case FloatType => FloatColumn([])
    case StringType => StringColumn([])
    case BoolType => BoolColumn([])
  }

  /** `values.push(v)` on the backing vector of a column of `v`'s own type. */
  function Append(c: Column, v: Value): (r: Column)
    requires TypeOf(v) == ColumnType(c)
    ensures ColumnType(r) == ColumnType(c)
    ensures Cells(r) == Cells(c) + [v]
  {
    var r := match c
      case IntColumn(xs) => IntColumn(xs + [v.i])
      case FloatColumn(xs) => FloatColumn(xs + [v.f])
      case StringColumn(xs) => StringColumn(xs + [v.s])
      case BoolColumn(xs) => BoolColumn(xs + [v.b]);
    assert Len(r) == Len(c) + 1;
    assert forall k | 0 <= k < Len(c) :: CellAt(r, k) == CellAt(c, k);
    r
  }

  /** `values[row] = v` on a column of `v`'s own type. */
  function SetCell(c: Column, row: nat, v: Value): (r: Column)
    requires row < Len(c) && TypeOf(v) == ColumnType(c)
    ensures ColumnType(r) == ColumnType(c)
    ensures Cells(r) == Cells(c)[row := v]
  {
    var r := match c
      case IntColumn(xs) => IntColumn(xs[row := v.i])
      case FloatColumn(xs) => FloatColumn(xs[row := v.f])
      case StringColumn(xs) => StringColumn(xs[row := v.s])
      case BoolColumn(xs) => BoolColumn(xs[row := v.b]);
    assert Len(r) == Len(c);
    assert forall k | 0 <= k < Len(c) && k != row :: CellAt(r, k) == CellAt(c, k);
    r
  }

  /** `values.remove(row)`: later rows shift down by one. */
  function RemoveAt(c: Column, row: nat): (r: Column)
    requires row < Len(c)
    ensures ColumnType(r) == ColumnType(c)
    ensures Cells(r) == Cells(c)[..row] + Cells(c)[row + 1..]
  {
    var r := match c
      case IntColumn(xs) => IntColumn(xs[..row] + xs[row + 1..])
      case FloatColumn(xs) => FloatColumn(xs[..row] + xs[row + 1..])
      case StringColumn(xs) => StringColumn(xs[..row] + xs[row + 1..])
      case BoolColumn(xs) => BoolColumn(xs[..row] + xs[row + 1..]);
    assert Len(r) == Len(c) - 1;
    ghost var s, s' := Cells(c), Cells(r);
    forall k | 0 <= k < |s'| ensures s'[k] == (s[..row] + s[row + 1..])[k] {
      if k < row {
        assert CellAt(r, k) == CellAt(c, k);
      } else {
        assert CellAt(r, k) == CellAt(c, k + 1);
      }
    }
    r
  }
}
