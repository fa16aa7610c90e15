/** Printing expressions as C, and reading them back by C's grammar. */
module CPrint {
  import opened Arith
  import opened AstExpr
  import opened Wrappers

  /** The printer. */

  // A lexeme of C text.  A minus sign is one token, whether unary or binary.
  datatype Token =
    | Num(n: nat) | Word(name: string) | Infix(op: BinOp) | MinusSign | Ampersand
    | LParen | RParen | LBracket | RBracket | Comma | Question | Colon | Dot | Space

  datatype BinOp = AndB | OrB | AddB | MulB | DivB | ModB | EqB | LeB | LtB | GeB | GtB

  type Text = seq<Token>

  // Lowest value means highest precedence.
  function Prec(op: OpType): int {
    match op
    case Max | Min | FdivQ | Call | Access | Member => 2
    case Minus | AddressOf => 3
    case Mul | Div | PdivQ | PdivR | ZdivR => 5
    case Add | Sub => 6
    case Le | Lt | Ge | Gt => 8
    case Eq => 9
    case And | AndThen => 13
    case Or | OrElse => 14
    case Cond | Select => 15
  }

  predicate IsLeft(op: OpType) { !op.Minus? && !op.Cond? && !op.Select? && !op.AddressOf? }
  predicate IsAnd(op: OpType) { op.And? || op.AndThen? }
  predicate IsOr(op: OpType) { op.Or? || op.OrElse? }
  predicate IsAddSub(op: OpType) { op.Add? || op.Sub? }
  predicate IsDivMod(op: OpType) { op.Div? || op.PdivR? || op.ZdivR? }
  predicate IsMinMax(op: OpType) { op.Min? || op.Max? }
  predicate IsCond(op: OpType) { op.Cond? || op.Select? }

  // sub_expr_need_parens
  predicate NeedsParens(op: OpType, e: Expr, left: bool) {
    e.Op? &&
    (Prec(e.op) > Prec(op)
     || (Prec(e.op) == Prec(op) && left != IsLeft(op))
     || (IsOr(op) && IsAnd(e.op))
     || (op.Mul? && !e.op.Mul? && Prec(e.op) == Prec(op))
     || (IsAddSub(op) && IsDivMod(e.op)))
  }

  function OpName(op: OpType): string {
    if op.Min? then "min" else if op.Max? then "max" else "floord"
  }

  // The token of an operator between its operands, or before its operand.
  function OpToken(op: OpType): Token {
    match op
    case And | AndThen => Infix(AndB)
    case Or | OrElse => Infix(OrB)
    case Minus | Sub => MinusSign
    case Add => Infix(AddB)
    case Mul => Infix(MulB)
    case PdivQ | Div => Infix(DivB)
    case PdivR | ZdivR => Infix(ModB)
    case Eq => Infix(EqB)
    case Le => Infix(LeB)
    case Lt => Infix(LtB)
    case Ge => Infix(GeB)
    case Gt => Infix(GtB)
    case Member => Dot
    case AddressOf => Ampersand
    case _ => Word(OpName(op))
  }

  function Sp(spaced: bool): Text { if spaced then [Space] else [] }

  // print_ast_expr_c, with or without the spaces
  function Print(e: Expr, spaced: bool): Text
    decreases e, 1
  {
    match e
    case Int(v) => if v >= 0 then [Num(v)] else [MinusSign, Num(-v)]
    case Id(name) => [Word(name)]
    case Op(op, args) =>
      if args == [] then []
      else if op.Call? then
        Print(args[0], spaced) + [LParen] + PrintArgs(args[1..], spaced) + [RParen]
      else if op.Access? then
        Print(args[0], spaced) + PrintIndices(args[1..], spaced)
      else if |args| == 1 then
        [OpToken(op)] + PrintSub(op, args[0], false, spaced)
      else if op.FdivQ? then
        Applied(OpName(op), Print(args[0], spaced), Print(args[1], spaced), spaced)
      else if IsMinMax(op) then
        PrintNested(OpName(op), args, spaced)
      else if IsCond(op) then
        if |args| != 3 then []
        else
          Print(args[0], spaced) + Sp(spaced) + [Question] + Sp(spaced) + Print(args[1], spaced) +
          Sp(spaced) + [Colon] + Sp(spaced) + Print(args[2], spaced)
      else if |args| != 2 then []
      else
        Between(PrintSub(op, args[0], true, spaced), op, PrintSub(op, args[1], false, spaced), spaced)
  }

  // The operator between its printed operands
  function Between(x: Text, op: OpType, y: Text, spaced: bool): Text {
    var space := if op.Member? then [] else Sp(spaced);
    x + space + [OpToken(op)] + space + y
  }

  function PrintSub(op: OpType, e: Expr, left: bool, spaced: bool): Text
    decreases e, 2
  {
    if NeedsParens(op, e, left) then [LParen] + Print(e, spaced) + [RParen] else Print(e, spaced)
  }

  function PrintArgs(args: seq<Expr>, spaced: bool): Text
    decreases args, 0
  {
    if args == [] then []
    else if |args| == 1 then Print(args[0], spaced)
    else Print(args[0], spaced) + [Comma] + Sp(spaced) + PrintArgs(args[1..], spaced)
  }

  function PrintIndices(args: seq<Expr>, spaced: bool): Text
    decreases args, 0
  {
    if args == [] then []
    else [LBracket] + Print(args[0], spaced) + [RBracket] + PrintIndices(args[1..], spaced)
  }

  // f(f(a0, a1), a2), for a reduction with a binary function
  function PrintNested(f: string, args: seq<Expr>, spaced: bool): Text
    requires args != []
    decreases args, 0
  {
    var n := |args| - 1;
    if n == 0 then Print(args[0], spaced)
    else Applied(f, PrintNested(f, args[..n], spaced), Print(args[n], spaced), spaced)
  }

  // A call of f with two printed arguments
  function Applied(f: string, x: Text, y: Text, spaced: bool): Text {
    [Word(f), LParen] + x + [Comma] + Sp(spaced) + y + [RParen]
  }

  function Opened(f: string, k: nat): Text {
    if k == 0 then [] else Opened(f, k - 1) + [Word(f), LParen]
  }

  // print_min_max_c: all calls are opened first, then closed one by one.
  method PrintMinMax(op: OpType, args: seq<Expr>, spaced: bool) returns (p: Text)
    requires IsMinMax(op) && args != []
    ensures p == PrintNested(OpName(op), args, spaced)
  {
    var n, f := |args|, OpName(op);
    p := [];
    for i := 1 to n
      invariant p == Opened(f, i - 1)
    {
      p := p + [Word(f)] + [LParen];
    }
    p := p + Print(args[0], spaced);
    for i := 1 to n
      invariant p == Opened(f, n - i) + PrintNested(f, args[..i], spaced)
    {
      var inner, e := PrintNested(f, args[..i], spaced), Print(args[i], spaced);
      CloseOne(Opened(f, n - i - 1), f, inner, e, spaced);
      assert args[..i + 1][..i] == args[..i];
      p := p + [Comma] + Sp(spaced) + e + [RParen];
    }
    assert args[..n] == args;
    assert [] + PrintNested(f, args, spaced) == PrintNested(f, args, spaced);
  }

  lemma CloseOne(x: Text, f: string, inner: Text, e: Text, spaced: bool)
    ensures x + [Word(f), LParen] + inner + [Comma] + Sp(spaced) + e + [RParen] ==
            x + ([Word(f), LParen] + inner + [Comma] + Sp(spaced) + e + [RParen])
  {
  }

  /** The grammar of section 6.5 of ISO/IEC 9899:2011, as far as it is needed: one level
      for each precedence, binary operators associate to the left. */

  datatype Tree =
    | Literal(n: nat)
    | Variable(name: string)
    | Unary(op: Token, arg: Tree)
    | Binary(op: Token, left: Tree, right: Tree)
    | Invoke(f: Tree, args: seq<Tree>)
    | Subscript(base: Tree, index: Tree)
    | Field(base: Tree, name: string)
    | Conditional(test: Tree, then_: Tree, else_: Tree)

  // The level of a binary operator; 0 for other tokens.
  function LevelOf(t: Token): int {
    match t
    case MinusSign => 6
    case Infix(op) =>
      (match op
       case MulB | DivB | ModB => 5
       case AddB => 6
       case LeB | LtB | GeB | GtB => 8
       case EqB => 9
       case AndB => 13
       case OrB => 14)
    case _ => 0
  }

  // An expression of the given level: 2 postfix, 3 unary, 15 conditional.
  function Parse(p: nat, ts: Text): (r: Parsed<Tree, Token>)
    requires 2 <= p <= 15
    ensures r.Read? ==> |r.rest| < |ts|
    decreases |ts|, p
  {
    if p == 2 then
      var first := ParsePrimary(ts);
      if first.Failed? then Failed else ParseRest(2, first.value, first.rest)
    else if p == 3 && ts != [] && (ts[0].MinusSign? || ts[0].Ampersand?) then
      var arg := Parse(3, ts[1..]);
      if arg.Failed? then Failed else Read(Unary(ts[0], arg.value), arg.rest)
    else
      var first := Parse(p - 1, ts);
      if first.Failed? then Failed
      else if p < 15 then ParseRest(p, first.value, first.rest)
      else if first.rest != [] && first.rest[0].Question? then
        var a := Parse(15, first.rest[1..]);
        if a.Failed? || a.rest == [] || !a.rest[0].Colon? then Failed
        else
          var b := Parse(15, a.rest[1..]);
          if b.Failed? then Failed else Read(Conditional(first.value, a.value, b.value), b.rest)
      else first
  }

  function ParsePrimary(ts: Text): (r: Parsed<Tree, Token>)
    ensures r.Read? ==> |r.rest| < |ts|
    decreases |ts|, 1
  {
    if ts == [] then Failed
    else
      match ts[0]
      case Num(n) => Read(Literal(n), ts[1..])
      case Word(name) => Read(Variable(name), ts[1..])
      case LParen =>
        var e := Parse(15, ts[1..]);
        if e.Failed? || e.rest == [] || !e.rest[0].RParen? then Failed else Read(e.value, e.rest[1..])
      case _ => Failed
  }

  // What follows an expression of the level: postfix operators, or operators of the
  // level with their right operands.
  function ParseRest(p: nat, left: Tree, ts: Text): (r: Parsed<Tree, Token>)
    requires 2 <= p < 15
    ensures r.Read? ==> |r.rest| <= |ts|
    decreases |ts|, p
  {
    if ts == [] then Read(left, ts)
    else if p == 2 then
      match ts[0]
      case LParen =>
        var args := ParseArgs(ts[1..]);
        if args.Failed? then Failed else ParseRest(2, Invoke(left, args.value), args.rest)
      case LBracket =>
        var i := Parse(15, ts[1..]);
        if i.Failed? || i.rest == [] || !i.rest[0].RBracket? then Failed
        else ParseRest(2, Subscript(left, i.value), i.rest[1..])
      case Dot =>
        if |ts| < 2 || !ts[1].Word? then Failed else ParseRest(2, Field(left, ts[1].name), ts[2..])
      case _ => Read(left, ts)
    else if LevelOf(ts[0]) == p then
      var right := Parse(p - 1, ts[1..]);
      if right.Failed? then Failed else ParseRest(p, Binary(ts[0], left, right.value), right.rest)
    else Read(left, ts)
  }

  // The arguments of a call, with the closing parenthesis.
  function ParseArgs(ts: Text): (r: Parsed<seq<Tree>, Token>)
    ensures r.Read? ==> |r.rest| < |ts|
    decreases |ts|, 17
  {
    if ts != [] && ts[0].RParen? then Read([], ts[1..]) else ParseMoreArgs(ts)
  }

  function ParseMoreArgs(ts: Text): (r: Parsed<seq<Tree>, Token>)
    ensures r.Read? ==> |r.rest| < |ts|
    decreases |ts|, 16
  {
    var first := Parse(15, ts);
    if first.Failed? || first.rest == [] then Failed
    else if first.rest[0].RParen? then Read([first.value], first.rest[1..])
    else if first.rest[0].Comma? then
      var more := ParseMoreArgs(first.rest[1..]);
      if more.Failed? then Failed else Read([first.value] + more.value, more.rest)
    else Failed
  }

  /** The tree that an expression stands for. */

  function ToTree(e: Expr): Tree
    decreases e, 1
  {
    match e
    case Int(v) => if v >= 0 then Literal(v) else Unary(MinusSign, Literal(-v))
    case Id(name) => Variable(name)
    case Op(op, args) =>
      if args == [] then Literal(0)
      else if op.Call? then Invoke(ToTree(args[0]), ToTrees(args[1..]))
      else if op.Access? then Subscripts(args)
      else if |args| == 1 then Unary(OpToken(op), ToTree(args[0]))
      else if op.FdivQ? then Invoke(Variable(OpName(op)), [ToTree(args[0]), ToTree(args[1])])
      else if IsMinMax(op) then Nested(OpName(op), args)
      else if IsCond(op) then
        if |args| != 3 then Literal(0) else Conditional(ToTree(args[0]), ToTree(args[1]), ToTree(args[2]))
      else if op.Member? then
        if args[1].Id? then Field(ToTree(args[0]), args[1].name) else Literal(0)
      else Binary(OpToken(op), ToTree(args[0]), ToTree(args[1]))
  }

  function ToTrees(es: seq<Expr>): (ts: seq<Tree>)
    ensures |ts| == |es|
    decreases es, 0
  {
    if es == [] then [] else [ToTree(es[0])] + ToTrees(es[1..])
  }

  function Subscripts(args: seq<Expr>): Tree
    requires args != []
    decreases args, 0
  {
    var n := |args| - 1;
    if n == 0 then ToTree(args[0]) else Subscript(Subscripts(args[..n]), ToTree(args[n]))
  }

  function Nested(f: string, args: seq<Expr>): Tree
    requires args != []
    decreases args, 0
  {
    var n := |args| - 1;
    if n == 0 then ToTree(args[0]) else Invoke(Variable(f), [Nested(f, args[..n]), ToTree(args[n])])
  }

  /** Which expressions can be printed: their operations have their arguments, there is no
      minus sign right after another, no conditional as the test of another, and what is
      called, subscripted or selected from needs no parentheses that are not printed. */

  function PrecOf(e: Expr): int {
    match e
    case Op(op, _) => Prec(op)
    case Int(v) => if v >= 0 then 2 else 3
    case Id(_) => 2
  }

  predicate Printable(e: Expr)
    decreases e
  {
    e.Op? ==>
      && e.args != []
      && (forall i :: 0 <= i < |e.args| ==> Printable(e.args[i]))
      && match e.op
         case Call | Access => PrecOf(e.args[0]) == 2
         case Min | Max => |e.args| >= 2
         case Minus => |e.args| == 1 && !StartsWithMinus(e.args[0])
         case AddressOf => |e.args| == 1 && !(e.args[0].Op? && e.args[0].op.AddressOf?)
         case Cond | Select => |e.args| == 3 && !(e.args[0].Op? && IsCond(e.args[0].op))
         case Member => |e.args| == 2 && e.args[1].Id? && !e.args[0].Int?
         case _ => |e.args| == 2
  }

  // -x or a negative number
  predicate StartsWithMinus(e: Expr) { (e.Op? && e.op.Minus?) || (e.Int? && e.v < 0) }
}
