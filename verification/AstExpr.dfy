/** AST expressions and their value as C code. */
module AstExpr {
  import opened Arith

  type Env = map<string, int>

  datatype OpType =
    | And | AndThen | Or | OrElse | Max | Min | Minus | Add | Sub | Mul | Div
    | FdivQ | PdivQ | PdivR | ZdivR | Cond | Select | Eq | Le | Lt | Ge | Gt
    | Call | Access | Member | AddressOf

  datatype Expr =
    | Op(op: OpType, args: seq<Expr>)
    | Id(name: string)
    | Int(v: int)

  function Lookup(env: Env, name: string): int { if name in env then env[name] else 0 }

  function Truth(b: bool): int { if b then 1 else 0 }

  function MinOf(a: int, b: int): int { if a < b then a else b }
  function MaxOf(a: int, b: int): int { if a > b then a else b }

  // The minimum (or maximum) of a non-empty list.
  function Extremum(values: seq<int>, isMin: bool): (r: int)
    requires values != []
    ensures r in values
    ensures forall i :: 0 <= i < |values| ==> if isMin then r <= values[i] else r >= values[i]
  {
    var n := |values| - 1;
    if n == 0 then values[0]
    else
      var rest := Extremum(values[..n], isMin);
      if isMin then MinOf(rest, values[n]) else MaxOf(rest, values[n])
  }

  // How many arguments an arithmetic or logical operation takes (0 for min and max:
  // any positive number).
  function Arity(op: OpType): nat {
    match op
    case Minus => 1
    case Cond | Select => 3
    case Max | Min => 0
    case _ => 2
  }

  predicate IsArithmetic(op: OpType) {
    !op.Call? && !op.Access? && !op.Member? && !op.AddressOf?
  }

  // The value C gives the operation.
  function Apply(op: OpType, v: seq<int>): int {
    if !IsArithmetic(op) || v == [] || (Arity(op) != 0 && |v| != Arity(op)) then 0
    else
      match op
      case Max => Extremum(v, false)
      case Min => Extremum(v, true)
      case Minus => -v[0]
      case Cond | Select => if v[0] != 0 then v[1] else v[2]
      case And | AndThen => Truth(v[0] != 0 && v[1] != 0)
      case Or | OrElse => Truth(v[0] != 0 || v[1] != 0)
      case Add => v[0] + v[1]
      case Sub => v[0] - v[1]
      case Mul => v[0] * v[1]
      case Div | PdivQ => TruncDiv(v[0], v[1])
      case PdivR | ZdivR => TruncRem(v[0], v[1])
      case FdivQ => if v[1] == 0 then 0 else FloorDiv(v[0], v[1])
      case Eq => Truth(v[0] == v[1])
      case Le => Truth(v[0] <= v[1])
      case Lt => Truth(v[0] < v[1])
      case Ge => Truth(v[0] >= v[1])
      case Gt => Truth(v[0] > v[1])
      case _ => 0
  }

  function Eval(e: Expr, env: Env): int
    decreases e, 1
  {
    match e
    case Int(v) => v
    case Id(name) => Lookup(env, name)
    case Op(op, args) => Apply(op, EvalAll(args, env))
  }

  function EvalAll(es: seq<Expr>, env: Env): (values: seq<int>)
    ensures |values| == |es|
    decreases es, 0
  {
    if es == [] then [] else [Eval(es[0], env)] + EvalAll(es[1..], env)
  }

  // Every operation that C would evaluate gets arguments it is meant for: pdiv_q and
  // pdiv_r a non-negative dividend, div an exact division, and all of them a
  // positive divisor.  The untaken side of &&, || and select is not evaluated.
  ghost predicate Safe(e: Expr, env: Env) {
    match e
    case Int(_) => true
    case Id(_) => true
    case Op(op, args) =>
      && IsArithmetic(op) && args != [] && (Arity(op) == 0 || |args| == Arity(op))
      && if op.And? || op.AndThen? then
           Safe(args[0], env) && (Eval(args[0], env) != 0 ==> Safe(args[1], env))
         else if op.Or? || op.OrElse? then
           Safe(args[0], env) && (Eval(args[0], env) == 0 ==> Safe(args[1], env))
         else if op.Cond? || op.Select? then
           Safe(args[0], env) && if Eval(args[0], env) != 0 then Safe(args[1], env) else Safe(args[2], env)
         else
           && (forall i :: 0 <= i < |args| ==> Safe(args[i], env))
           && (op.PdivQ? || op.PdivR? ==> Eval(args[0], env) >= 0)
           && (op.PdivQ? || op.PdivR? || op.FdivQ? || op.ZdivR? || op.Div? ==> Eval(args[1], env) > 0)
           && (op.Div? ==> Eval(args[0], env) % Eval(args[1], env) == 0)
  }

  // `e` can be evaluated and has value `v`.
  ghost predicate Means(e: Expr, env: Env, v: int) {
    Safe(e, env) && Eval(e, env) == v
  }

  lemma EvalUnary(op: OpType, a: Expr, env: Env)
    ensures Eval(Op(op, [a]), env) == Apply(op, [Eval(a, env)])
  {
    assert EvalAll([a], env) == [Eval(a, env)];
  }

  lemma EvalBinary(op: OpType, a: Expr, b: Expr, env: Env)
    ensures Eval(Op(op, [a, b]), env) == Apply(op, [Eval(a, env), Eval(b, env)])
  {
    assert [a, b][1..] == [b];
    assert EvalAll([b], env) == [Eval(b, env)];
    assert EvalAll([a, b], env) == [Eval(a, env), Eval(b, env)];
  }

  lemma EvalSelect(c: Expr, a: Expr, b: Expr, env: Env)
    ensures Eval(Op(Select, [c, a, b]), env) == if Eval(c, env) != 0 then Eval(a, env) else Eval(b, env)
  {
    assert [c, a, b][1..] == [a, b] && [a, b][1..] == [b];
    assert EvalAll([b], env) == [Eval(b, env)];
    assert EvalAll([a, b], env) == [Eval(a, env), Eval(b, env)];
    assert EvalAll([c, a, b], env) == [Eval(c, env), Eval(a, env), Eval(b, env)];
  }

  lemma {:induction false} EvalAllAt(es: seq<Expr>, env: Env)
    ensures forall i :: 0 <= i < |es| ==> EvalAll(es, env)[i] == Eval(es[i], env)
  {
    if es != [] { EvalAllAt(es[1..], env); }
  }
}
