/** The postfix (RPN) expression evaluator `ExprEvaluator::evaluate`
    (database/src/db_core/values.rs). */
module Evaluator {
  import opened Values
  import opened Outcomes
  import opened QueryErrors

  /** `Expr`: one instruction of a postfix program. `Lit(v)` is `Expr::Value(v)`. */
  datatype Expr = Lit(v: Value) | Cell | Add | Sub | Mul | Div | Gt | Lt | GtEq | LtEq | Eq | Neq | Not
  {
    predicate IsBinary() {
      !Lit? && !Cell? && !Not?
    }

    predicate IsArithmetic() {
      Add? || Sub? || Mul? || Div?
    }
  }

  /** The operator typing table: which operand type an operator accepts (both operands must
      have that same type). */
  function Accepts(op: Expr, t: Types): bool {
    match op
    case Add => t == IntType || t == FloatType || t == StringType
    case Sub | Mul | Div | Gt | Lt | GtEq | LtEq => t == IntType || t == FloatType
    case Eq | Neq => true
    case Not => t == BoolType
    case _ => false
  }

  /** The type of an operator's result, given its operand type. */
  function ResultType(op: Expr, t: Types): Types {
    if op.IsArithmetic() then t else BoolType
  }

  function Abs(x: int): nat {
    if x < 0 then -x else x
  }

  /** Rust's `i32 / i32`: the quotient truncated toward zero. `q * b` is the multiple of `b`
      nearest to `a` on the side of zero, so the remainder keeps the sign of `a`. */
  function Quot(a: int, b: int): (q: int)
    requires b != 0
    ensures Abs(q * b) <= Abs(a) < Abs(q * b) + Abs(b)
    ensures q * b == 0 || (q * b < 0) == (a < 0)
    ensures a >= 0 && b > 0 ==> q == a / b
  {
    var n := Abs(a) / Abs(b);
    QuotParts(a, b, n);
    if (a < 0) == (b < 0) then n else -n
  }

  lemma QuotParts(a: int, b: int, n: nat)
    requires b != 0 && n == Abs(a) / Abs(b)
    ensures n * Abs(b) <= Abs(a) < n * Abs(b) + Abs(b)
    ensures Abs(n * b) == n * Abs(b) && Abs(-(n as int) * b) == n * Abs(b)
    ensures n * b == 0 || (n * b < 0) == (b < 0)
    ensures -(n as int) * b == 0 || (-(n as int) * b < 0) == (b > 0)
  {
    var m := Abs(b);
    assert Abs(a) == n * m + Abs(a) % m;
    if b < 0 {
      assert n * b == -(n * m);
    } else {
      assert n * b == n * m;
    }
    assert -(n as int) * b == -(n * b);
  }

  /** `i32` arithmetic: a result outside the `i32` range, or a division by zero, panics. */
  function IntArith(op: Expr, a: Int32, b: Int32): (r: Outcome<Value, QueryError>)
    requires op.IsArithmetic()
    ensures r.Returns? ==> r.result.Ok? && r.result.value.Int?
    ensures op.Add? && InInt32Range(a + b) ==> r == Returns(Ok(Int(a + b)))
    ensures op.Sub? && InInt32Range(a - b) ==> r == Returns(Ok(Int(a - b)))
    ensures op.Mul? && InInt32Range(a * b) ==> r == Returns(Ok(Int(a * b)))
    ensures op.Div? && b != 0 && InInt32Range(Quot(a, b)) ==> r == Returns(Ok(Int(Quot(a, b))))
    ensures op.Div? && b == 0 ==> r.Panics?
  {
    if op.Div? && b == 0 then Panics
    else
      var x := if op.Add? then a + b else if op.Sub? then a - b else if op.Mul? then a * b else Quot(a, b);
      if InInt32Range(x) then Returns(Ok(Int(x))) else Panics
  }

  /** `Sub`, `Mul` and `Div` (and `Add` on numbers): same-typed Int or Float operands. */
  function Numeric(op: Expr, floatOp: (Float32, Float32) -> Float32, left: Value, right: Value): Outcome<Value, QueryError>
    requires op.IsArithmetic()
  {
    if left.Int? && right.Int? then IntArith(op, left.i, right.i)
    else if left.Float? && right.Float? then Returns(Ok(Float(floatOp(left.f, right.f))))
    else Returns(Err(TypeMismatch))
  }

  /** `Gt`, `Lt`, `GtEq` and `LtEq`: same-typed Int or Float operands, a Bool result. */
  function Compare(intCmp: (int, int) -> bool, floatCmp: (Float32, Float32) -> bool, left: Value, right: Value): Outcome<Value, QueryError> {
    if left.Int? && right.Int? then Returns(Ok(Bool(intCmp(left.i, right.i))))
    else if left.Float? && right.Float? then Returns(Ok(Bool(floatCmp(left.f, right.f))))
    else Returns(Err(TypeMismatch))
  }

  /** `Eq` (and, negated, `Neq`): any two values of the same variant; f32 equality is the host's. */
  function Equal(fp: FloatArith, left: Value, right: Value): Outcome<Value, QueryError> {
    if TypeOf(left) != TypeOf(right) then Returns(Err(TypeMismatch))
    else if left.Float? then Returns(Ok(Bool(fp.eq(left.f, right.f))))
    else Returns(Ok(Bool(left == right)))
  }

  /** The `operation!` macro: a binary operator applied to its left and right operands. */
  function Apply(fp: FloatArith, op: Expr, left: Value, right: Value): (r: Outcome<Value, QueryError>)
    requires op.IsBinary()
    ensures (r.Returns? && r.result.Err?) <==> !(TypeOf(left) == TypeOf(right) && Accepts(op, TypeOf(left)))
    ensures r.Returns? && r.result.Err? ==> r.result.error == TypeMismatch
    ensures r.Returns? && r.result.Ok? ==> TypeOf(r.result.value) == ResultType(op, TypeOf(left))
    ensures r.Panics? ==> left.Int? && right.Int? && op.IsArithmetic()
    ensures op.Add? && left.String? && right.String? ==> r == Returns(Ok(String(left.s + right.s)))
    ensures op.IsArithmetic() && left.Int? && right.Int? ==> r == IntArith(op, left.i, right.i)
    ensures (op.Eq? || op.Neq?) && TypeOf(left) == TypeOf(right) && !left.Float? ==>
      r == Returns(Ok(Bool((left == right) == op.Eq?)))
  {
    if op.Add? then
      if left.String? && right.String? then Returns(Ok(String(left.s + right.s)))
      else Numeric(op, fp.add, left, right)
    else if op.Sub? then Numeric(op, fp.sub, left, right)
    else if op.Mul? then Numeric(op, fp.mul, left, right)
    else if op.Div? then Numeric(op, fp.div, left, right)
    else if op.Gt? then Compare((a, b) => a > b, fp.gt, left, right)
    else if op.Lt? then Compare((a, b) => a < b, fp.lt, left, right)
    else if op.GtEq? then Compare((a, b) => a >= b, fp.ge, left, right)
    else if op.LtEq? then Compare((a, b) => a <= b, fp.le, left, right)
    else if op.Eq? then Equal(fp, left, right)
    else
      match Equal(fp, left, right)
      case Returns(Ok(Bool(same))) => Returns(Ok(Bool(!same)))
      case other => other
  }

  /** How many values an instruction pops: two for a binary operator, one for `Not`. */
  function Arity(part: Expr): nat {
    if part.IsBinary() then 2 else if part.Not? then 1 else 0
  }

  /** One iteration of the `for part in query` loop, on the stack (top at the end). It underflows
      exactly when fewer values than the instruction's arity are on the stack. */
  function Step(fp: FloatArith, part: Expr, stack: seq<Value>): (r: Outcome<seq<Value>, QueryError>)
    ensures r == Returns(Err(StackUnderflow)) <==> |stack| < Arity(part)
  {
    match part
    case Lit(v) => Returns(Ok(stack + [v]))
    case Cell => Returns(Err(CellValueNotSet))
    case Not =>
      if |stack| < 1 then Returns(Err(StackUnderflow))
      else
        var top := stack[|stack| - 1];
        if top.Bool? then Returns(Ok(stack[..|stack| - 1] + [Bool(!top.b)]))
        else Returns(Err(TypeMismatch))
    case _ =>
      if |stack| < 2 then Returns(Err(StackUnderflow))
      else
        match Apply(fp, part, stack[|stack| - 2], stack[|stack| - 1])
        case Returns(Ok(v)) => Returns(Ok(stack[..|stack| - 2] + [v]))
        case Returns(Err(e)) => Returns(Err(e))
        case Panics => Panics
  }

  /** The whole loop: the stack left by running `prog` from `stack`, or the first error. */
  function Run(fp: FloatArith, prog: seq<Expr>, stack: seq<Value>): (r: Outcome<seq<Value>, QueryError>)
    ensures r.Returns? && r.result.Err? && (forall i :: 0 <= i < |prog| ==> !prog[i].Cell?) ==>
      r.result.error in {TypeMismatch, StackUnderflow}
    decreases |prog|
  {
    if prog == [] then Returns(Ok(stack))
    else
      match Step(fp, prog[0], stack)
      case Returns(Ok(next)) => Run(fp, prog[1..], next)
      case other => other
  }

  /** The check after the loop: exactly one value must be left. */
  function Finish(o: Outcome<seq<Value>, QueryError>): (r: Outcome<Value, QueryError>)
    ensures r.Panics? <==> o.Panics?
    ensures r.Returns? && r.result.Ok? <==> o.Returns? && o.result.Ok? && |o.result.value| == 1
    ensures r.Returns? && r.result.Ok? ==> r.result.value == o.result.value[0]
    ensures o.Returns? && o.result.Err? ==> r == Returns(Err(o.result.error))
  {
    match o
    case Returns(Ok(stack)) => if |stack| == 1 then Returns(Ok(stack[0])) else Returns(Err(NoOperation))
    case Returns(Err(e)) => Returns(Err(e))
    case Panics => Panics
  }

  /** The substitution done before the loop: every `Cell` becomes the bound value. */
  function Bind(query: seq<Expr>, value: Value): (prog: seq<Expr>)
    ensures |prog| == |query|
    ensures forall i :: 0 <= i < |prog| ==> !prog[i].Cell?
    ensures forall i :: 0 <= i < |prog| && query[i].Cell? ==> prog[i] == Lit(value)
    ensures forall i :: 0 <= i < |prog| && !query[i].Cell? ==> prog[i] == query[i]
  {
    seq(|query|, i requires 0 <= i < |query| => if query[i].Cell? then Lit(value) else query[i])
  }

  /** What `evaluate(query, value)` comes to. */
  function Evaluation(fp: FloatArith, query: seq<Expr>, value: Value): (r: Outcome<Value, QueryError>)
    ensures r != Returns(Err(CellValueNotSet))
    ensures r.Returns? && r.result.Err? ==> r.result.error in {TypeMismatch, StackUnderflow, NoOperation}
  {
    Finish(Run(fp, Bind(query, value), []))
  }

  /** `ExprEvaluator::evaluate`: a stack machine over the bound program. */
  method Evaluate(fp: FloatArith, query: seq<Expr>, value: Value) returns (r: Result<Value, QueryError>)
    requires !Evaluation(fp, query, value).Panics?
    ensures r == Evaluation(fp, query, value).result
  {
    var program := Bind(query, value);
    var stack: seq<Value> := [];
    var i := 0;
    while i < |program|
      invariant 0 <= i <= |program|
      invariant Finish(Run(fp, program[i..], stack)) == Evaluation(fp, query, value)
    {
      var part := program[i];
      assert program[i..][0] == part && program[i..][1..] == program[i + 1..];
      match part {
        case Lit(v) =>
          stack := stack + [v];
        case Cell =>
          return Err(CellValueNotSet);
        case Not =>
          if |stack| < 1 {
            return Err(StackUnderflow);
          }
          var right := stack[|stack| - 1];
          stack := stack[..|stack| - 1];
          if !right.Bool? {
            return Err(TypeMismatch);
          }
          stack := stack + [Bool(!right.b)];
        case _ =>
          if |stack| < 2 {
            return Err(StackUnderflow);
          }
          var right := stack[|stack| - 1];
          var left := stack[|stack| - 2];
          stack := stack[..|stack| - 2];
          var applied := Apply(fp, part, left, right);
          if applied.Panics? {
            assert false;
          }
          if applied.result.Err? {
            return Err(applied.result.error);
          }
          stack := stack + [applied.result.value];
      }
      i := i + 1;
    }
    if |stack| != 1 {
      r := Err(NoOperation);
    } else {
      r := Ok(stack[0]);
    }
  }

  /** Running two programs one after the other. */
  lemma {:induction false} RunAppend(fp: FloatArith, p: seq<Expr>, q: seq<Expr>, stack: seq<Value>)
    ensures Run(fp, p + q, stack) ==
      match Run(fp, p, stack)
      case Returns(Ok(mid)) => Run(fp, q, mid)
      case other => other
    decreases |p|
  {
    if p == [] {
      assert p + q == q;
    } else {
      assert (p + q)[0] == p[0] && (p + q)[1..] == p[1..] + q;
      match Step(fp, p[0], stack)
      case Returns(Ok(next)) => RunAppend(fp, p[1..], q, next);
      case _ =>
    }
  }

  /** An operator reached with fewer operands on the stack than it takes yields `StackUnderflow`:
      two for a binary operator, one for `Not`. */
  lemma StackUnderflowAfter(fp: FloatArith, prefix: seq<Expr>, op: Expr, suffix: seq<Expr>,
                            value: Value, stack: seq<Value>)
    requires Run(fp, Bind(prefix, value), []) == Returns(Ok(stack))
    requires (op.IsBinary() && |stack| < 2) || (op.Not? && |stack| < 1)
    ensures Evaluation(fp, prefix + [op] + suffix, value) == Returns(Err(StackUnderflow))
  {
    var whole := prefix + [op] + suffix;
    var tail := [op] + Bind(suffix, value);
    assert Bind(whole, value) == Bind(prefix, value) + tail;
    RunAppend(fp, Bind(prefix, value), tail, []);
    assert Run(fp, tail, stack) == Returns(Err(StackUnderflow)) by {
      assert tail[0] == op && Step(fp, op, stack) == Returns(Err(StackUnderflow));
    }
  }

  /** The result is `Ok(v)` exactly when the program leaves the single value `v` on the stack;
      any other number of values left gives `NoOperation`. */
  lemma ResultIsTheOnlyValueLeft(fp: FloatArith, query: seq<Expr>, value: Value, stack: seq<Value>)
    requires Run(fp, Bind(query, value), []) == Returns(Ok(stack))
    ensures Evaluation(fp, query, value).Returns?
    ensures Evaluation(fp, query, value).result.Ok? <==> |stack| == 1
    ensures |stack| == 1 ==> Evaluation(fp, query, value).result.value == stack[0]
    ensures |stack| != 1 ==> Evaluation(fp, query, value).result == Err(NoOperation)
  {
  }

  /** The empty program gives `NoOperation`; a lone value or a lone cell evaluates to that value. */
  lemma LeafPrograms(fp: FloatArith, v: Value, value: Value)
    ensures Evaluation(fp, [], value) == Returns(Err(NoOperation))
    ensures Evaluation(fp, [Lit(v)], value) == Returns(Ok(v))
    ensures Evaluation(fp, [Cell], value) == Returns(Ok(value))
  {
    assert Bind([Cell], value) == [Lit(value)];
    assert Bind([Lit(v)], value) == [Lit(v)];
    assert [Lit(v)][1..] == [] && [Lit(value)][1..] == [];
    var empty: seq<Value> := [];
    assert empty + [v] == [v] && empty + [value] == [value];
    assert Step(fp, Lit(v), empty) == Returns(Ok([v]));
    assert Step(fp, Lit(value), empty) == Returns(Ok([value]));
    assert Run(fp, [Lit(v)], []) == Run(fp, [], [v]);
    assert Run(fp, [Lit(value)], []) == Run(fp, [], [value]);
  }

  /** Operands pop right then left: `[a, b, op]` applies `op` to `a` on the left and `b` on the right. */
  lemma OperandOrder(fp: FloatArith, a: Value, b: Value, op: Expr, value: Value)
    requires op.IsBinary()
    ensures Evaluation(fp, [Lit(a), Lit(b), op], value) == Apply(fp, op, a, b)
  {
    var prog := [Lit(a), Lit(b), op];
    assert Bind(prog, value) == prog;
    assert prog[1..] == [Lit(b), op] && [Lit(b), op][1..] == [op] && [op][1..] == [];
    var empty: seq<Value> := [];
    assert empty + [a] == [a] && [a] + [b] == [a, b];
    assert Step(fp, Lit(a), empty) == Returns(Ok([a]));
    assert Run(fp, prog, []) == Run(fp, [Lit(b), op], [a]);
    assert Run(fp, [Lit(b), op], [a]) == Run(fp, [op], [a, b]);
    assert [a, b][..0] + [Value.Int(0)] == [Value.Int(0)];
    match Apply(fp, op, a, b)
    case Returns(Ok(x)) =>
      assert [a, b][..0] + [x] == [x];
      assert Run(fp, [op], [a, b]) == Run(fp, [], [x]);
    case _ =>
  }

  /** `[a, b, Sub]` computes a - b, `[a, b, Lt]` computes a < b, and `[x, y, Add]` on strings
      is x followed by y. */
  lemma SubAndLtOrder(fp: FloatArith, a: Int32, b: Int32, x: string, y: string, value: Value)
    ensures InInt32Range(a - b) ==> Evaluation(fp, [Lit(Int(a)), Lit(Int(b)), Sub], value) == Returns(Ok(Int(a - b)))
    ensures Evaluation(fp, [Lit(Int(a)), Lit(Int(b)), Lt], value) == Returns(Ok(Bool(a < b)))
    ensures Evaluation(fp, [Lit(String(x)), Lit(String(y)), Add], value) == Returns(Ok(String(x + y)))
  {
    OperandOrder(fp, Int(a), Int(b), Sub, value);
    OperandOrder(fp, Int(a), Int(b), Lt, value);
    OperandOrder(fp, String(x), String(y), Add, value);
  }

  /** Division truncates toward zero, as Rust's does: `-7 / 2` is `-3` (a floor would give `-4`). */
  lemma DivTruncates(fp: FloatArith, value: Value)
    ensures Evaluation(fp, [Lit(Int(-7)), Lit(Int(2)), Div], value) == Returns(Ok(Int(-3)))
    ensures Evaluation(fp, [Lit(Int(7)), Lit(Int(-2)), Div], value) == Returns(Ok(Int(-3)))
  {
    OperandOrder(fp, Int(-7), Int(2), Div, value);
    OperandOrder(fp, Int(7), Int(-2), Div, value);
  }

  /** `Not` negates a Bool and rejects every other variant with `TypeMismatch`. */
  lemma NotTyping(fp: FloatArith, v: Value, value: Value)
    ensures Evaluation(fp, [Lit(v), Not], value) ==
      if v.Bool? then Returns(Ok(Bool(!v.b))) else Returns(Err(TypeMismatch))
  {
    var prog := [Lit(v), Not];
    assert Bind(prog, value) == prog;
    assert prog[1..] == [Not] && [Not][1..] == [];
    assert Run(fp, prog, []) == Run(fp, [Not], [v]);
    if v.Bool? {
      assert [v][..0] + [Bool(!v.b)] == [Bool(!v.b)];
      assert Run(fp, [Not], [v]) == Run(fp, [], [Bool(!v.b)]);
    }
  }
}
