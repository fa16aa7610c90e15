/** The printed characters are read as the lexemes that were printed. */
module CPrintLexing {
  import opened AstExpr
  import opened CPrint
  import opened Wrappers
  import opened CPrintProof

  /** Removing the spaces. */

  function Strip(ts: Text): Text {
    if ts == [] then [] else (if ts[0].Space? then [] else [ts[0]]) + Strip(ts[1..])
  }

  lemma {:induction false} StripJoin(x: Text, y: Text)
    ensures Strip(x + y) == Strip(x) + Strip(y)
  {
    if x == [] {
      assert x + y == y;
    } else {
      assert (x + y)[1..] == x[1..] + y;
      StripJoin(x[1..], y);
    }
  }

  lemma StripToken(x: Text, t: Token)
    ensures Strip(x + [t]) == if t.Space? then Strip(x) else Strip(x) + [t]
  {
    StripJoin(x, [t]);
    assert [t][1..] == [];
    assert Strip([t]) == if t.Space? then [] else [t];
  }

  lemma StripOne(t: Token)
    requires !t.Space?
    ensures Strip([t]) == [t]
  {
    assert [t][1..] == [];
  }

  lemma {:induction false} StripPrint(e: Expr)
    ensures Strip(Print(e, true)) == Print(e, false)
    decreases e, 2
  {
    match e
    case Int(v) =>
      if v >= 0 { StripOne(Num(v)); } else { StripOne(MinusSign); StripToken([MinusSign], Num(-v)); }
    case Id(name) => StripOne(Word(name));
    case Op(op, args) => if args != [] { StripOp(op, args); }
  }

  lemma StripOp(op: OpType, args: seq<Expr>)
    requires args != []
    ensures Strip(Print(Op(op, args), true)) == Print(Op(op, args), false)
    decreases args, 1
  {
    var x := Print(args[0], true);
    StripPrint(args[0]);
    if op.Call? {
      StripArgs(args[1..]);
      StripToken(x, LParen);
      StripJoin(x + [LParen], PrintArgs(args[1..], true));
      StripToken(x + [LParen] + PrintArgs(args[1..], true), RParen);
    } else if op.Access? {
      StripIndices(args[1..]);
      StripJoin(x, PrintIndices(args[1..], true));
    } else if |args| == 1 {
      StripSub(op, args[0], false);
      StripOne(OpToken(op));
      StripJoin([OpToken(op)], PrintSub(op, args[0], false, true));
    } else if op.FdivQ? {
      StripPrint(args[1]);
      StripCall(OpName(op), x, Print(args[1], true));
    } else if IsMinMax(op) {
      StripNested(OpName(op), args);
    } else if IsCond(op) {
      if |args| == 3 { StripConditional(args); }
    } else if |args| == 2 {
      StripSub(op, args[0], true);
      StripSub(op, args[1], false);
      StripBetween(PrintSub(op, args[0], true, true), op, PrintSub(op, args[1], false, true));
    }
  }

  lemma StripCall(f: string, x: Text, y: Text)
    ensures Strip(Applied(f, x, y, true)) == Applied(f, Strip(x), Strip(y), false)
  {
    var h := [Word(f), LParen];
    StripOne(Word(f));
    StripToken([Word(f)], LParen);
    assert h == [Word(f)] + [LParen];
    StripJoin(h, x);
    StripToken(h + x, Comma);
    StripToken(h + x + [Comma], Space);
    StripJoin(h + x + [Comma] + Sp(true), y);
    StripToken(h + x + [Comma] + Sp(true) + y, RParen);
    assert Strip(h + x) + [Comma] + Sp(false) == Strip(h + x) + [Comma];
  }

  lemma StripAround(x: Text, t: Token, y: Text)
    requires !t.Space?
    ensures Strip(x + Sp(true) + [t] + Sp(true) + y) == Strip(x) + Sp(false) + [t] + Sp(false) + Strip(y)
  {
    StripToken(x, Space);
    StripToken(x + Sp(true), t);
    StripToken(x + Sp(true) + [t], Space);
    StripJoin(x + Sp(true) + [t] + Sp(true), y);
    assert Strip(x) + Sp(false) == Strip(x) && Strip(x) + [t] + Sp(false) == Strip(x) + [t];
  }

  lemma StripConditional(args: seq<Expr>)
    requires |args| == 3
    ensures var c, a, b, s := args[0], args[1], args[2], Sp(true);
            Strip(Print(c, true) + s + [Question] + s + Print(a, true) + s + [Colon] + s + Print(b, true)) ==
            Print(c, false) + Sp(false) + [Question] + Sp(false) + Print(a, false) + Sp(false) + [Colon] + Sp(false) +
                Print(b, false)
    decreases args, 0
  {
    StripPrint(args[0]);
    StripPrint(args[1]);
    StripPrint(args[2]);
    StripAround(Print(args[0], true), Question, Print(args[1], true));
    StripAround(Print(args[0], true) + Sp(true) + [Question] + Sp(true) + Print(args[1], true), Colon,
        Print(args[2], true));
  }

  lemma StripBetween(x: Text, op: OpType, y: Text)
    ensures Strip(Between(x, op, y, true)) == Between(Strip(x), op, Strip(y), false)
  {
    if op.Member? {
      StripToken(x, OpToken(op));
      StripJoin(x + [OpToken(op)], y);
      assert x + [] + [OpToken(op)] + [] == x + [OpToken(op)];
      assert Strip(x) + [] + [OpToken(op)] + [] == Strip(x) + [OpToken(op)];
    } else {
      StripAround(x, OpToken(op), y);
    }
  }

  lemma StripSub(op: OpType, e: Expr, left: bool)
    ensures Strip(PrintSub(op, e, left, true)) == PrintSub(op, e, left, false)
    decreases e, 3
  {
    StripPrint(e);
    if NeedsParens(op, e, left) {
      StripOne(LParen);
      StripJoin([LParen], Print(e, true));
      StripToken([LParen] + Print(e, true), RParen);
    }
  }

  lemma {:induction false} StripArgs(args: seq<Expr>)
    ensures Strip(PrintArgs(args, true)) == PrintArgs(args, false)
    decreases args, 0
  {
    if args != [] {
      var x := Print(args[0], true);
      StripPrint(args[0]);
      if |args| > 1 {
        StripArgs(args[1..]);
        StripToken(x, Comma);
        StripToken(x + [Comma], Space);
        StripJoin(x + [Comma] + Sp(true), PrintArgs(args[1..], true));
        assert Strip(x) + [Comma] + Sp(false) == Strip(x) + [Comma];
      }
    }
  }

  lemma {:induction false} StripIndices(args: seq<Expr>)
    ensures Strip(PrintIndices(args, true)) == PrintIndices(args, false)
    decreases args, 0
  {
    if args != [] {
      StripPrint(args[0]);
      StripIndices(args[1..]);
      StripOne(LBracket);
      StripJoin([LBracket], Print(args[0], true));
      StripToken([LBracket] + Print(args[0], true), RBracket);
      StripJoin([LBracket] + Print(args[0], true) + [RBracket], PrintIndices(args[1..], true));
    }
  }

  lemma {:induction false} StripNested(f: string, args: seq<Expr>)
    requires args != []
    ensures Strip(PrintNested(f, args, true)) == PrintNested(f, args, false)
    decreases args, 0
  {
    var n := |args| - 1;
    if n == 0 {
      StripPrint(args[0]);
    } else {
      StripNested(f, args[..n]);
      StripPrint(args[n]);
      StripCall(f, PrintNested(f, args[..n], true), Print(args[n], true));
    }
  }

  /** No two neighbouring lexemes run together. */

  // Lexemes with nothing in between that C would read as one: `--`, `&&`, or one word.
  predicate Fuses(a: Token, b: Token) {
    (a.MinusSign? && b.MinusSign?) || (a.Ampersand? && b.Ampersand?) || (IsWord(a) && IsWord(b))
  }

  predicate IsWord(t: Token) { t.Num? || t.Word? }

  predicate Separated(ts: Text) { forall i :: 0 <= i < |ts| - 1 ==> !Fuses(ts[i], ts[i + 1]) }

  // Neither fuses with anything: punctuation, infix operators and space.
  predicate Neutral(t: Token) { !t.MinusSign? && !t.Ampersand? && !IsWord(t) }

  lemma SepJoin(x: Text, y: Text)
    requires Separated(x) && Separated(y) && (x == [] || y == [] || !Fuses(x[|x| - 1], y[0]))
    ensures Separated(x + y)
  {
  }

  lemma SepNeutral(x: Text, t: Token, y: Text)
    requires Separated(x) && Separated(y) && Neutral(t)
    ensures Separated(x + [t] + y)
  {
    SepJoin(x, [t]);
    SepJoin(x + [t], y);
  }

  lemma SepAround(x: Text, t: Token, y: Text)
    requires Separated(x) && Separated(y)
    ensures Separated(x + [Space] + [t] + [Space] + y)
  {
    SepNeutral(x, Space, [t]);
    SepNeutral(x + [Space] + [t], Space, y);
  }

  lemma SepCall(f: string, x: Text, y: Text)
    requires Separated(x) && Separated(y)
    ensures Separated(Applied(f, x, y, true))
  {
    SepJoin([Word(f), LParen], x);
    SepNeutral([Word(f), LParen] + x, Comma, [Space]);
    SepJoin([Word(f), LParen] + x + [Comma] + Sp(true), y);
    SepNeutral([Word(f), LParen] + x + [Comma] + Sp(true) + y, RParen, []);
    assert [Word(f), LParen] + x + [Comma] + Sp(true) + y + [RParen] + [] ==
           [Word(f), LParen] + x + [Comma] + Sp(true) + y + [RParen];
  }

  /** The text of a printable expression is separated. */
  lemma {:induction false} PrintSeparated(e: Expr)
    requires Printable(e)
    ensures Separated(Print(e, true))
    decreases e, 2
  {
    if e.Op? { OpSeparated(e.op, e.args); }
  }

  lemma OpSeparated(op: OpType, args: seq<Expr>)
    requires Printable(Op(op, args))
    ensures Separated(Print(Op(op, args), true))
    decreases args, 1
  {
    var x := Print(args[0], true);
    PrintSeparated(args[0]);
    if op.Call? {
      ArgsSeparated(args[1..]);
      SepNeutral(x, LParen, PrintArgs(args[1..], true));
      SepNeutral(x + [LParen] + PrintArgs(args[1..], true), RParen, []);
      assert x + [LParen] + PrintArgs(args[1..], true) + [RParen] + [] ==
             x + [LParen] + PrintArgs(args[1..], true) + [RParen];
    } else if op.Access? {
      IndicesSeparated(args[1..]);
      SepJoin(x, PrintIndices(args[1..], true));
    } else if |args| == 1 {
      UnarySeparated(op, args[0]);
    } else if op.FdivQ? {
      PrintSeparated(args[1]);
      SepCall(OpName(op), x, Print(args[1], true));
    } else if IsMinMax(op) {
      NestedSeparated(OpName(op), args);
    } else if IsCond(op) {
      PrintSeparated(args[1]);
      PrintSeparated(args[2]);
      SepAround(x, Question, Print(args[1], true));
      SepAround(x + Sp(true) + [Question] + Sp(true) + Print(args[1], true), Colon, Print(args[2], true));
    } else {
      SubSeparated(op, args[0], true);
      SubSeparated(op, args[1], false);
      BinarySeparated(op, PrintSub(op, args[0], true, true), PrintSub(op, args[1], false, true));
    }
  }

  lemma BinarySeparated(op: OpType, x: Text, y: Text)
    requires Separated(x) && Separated(y)
    ensures Separated(Between(x, op, y, true))
  {
    SepAround(x, OpToken(op), y);
    if op.Member? {
      assert x + [] + [OpToken(op)] + [] == x + [OpToken(op)];
      SepNeutral(x, OpToken(op), y);
    }
  }

  lemma SubSeparated(op: OpType, e: Expr, left: bool)
    requires Printable(e)
    ensures Separated(PrintSub(op, e, left, true))
    decreases e, 3
  {
    PrintSeparated(e);
    if NeedsParens(op, e, left) {
      SepJoin([LParen], Print(e, true));
      SepNeutral([LParen] + Print(e, true), RParen, []);
      assert [LParen] + Print(e, true) + [RParen] + [] == [LParen] + Print(e, true) + [RParen];
    }
  }

  // No minus sign is printed directly after a minus sign.
  lemma UnarySeparated(op: OpType, a: Expr)
    requires Printable(Op(op, [a])) && (op.Minus? || op.AddressOf?)
    ensures Separated([OpToken(op)] + PrintSub(op, a, false, true))
    decreases a, 4
  {
    assert [a][0] == a;
    SubSeparated(op, a, false);
    FirstOfOperand(op, a);
    SepJoin([OpToken(op)], PrintSub(op, a, false, true));
  }

  lemma FirstOfOperand(op: OpType, a: Expr)
    requires Printable(Op(op, [a])) && (op.Minus? || op.AddressOf?)
    ensures PrintSub(op, a, false, true) != [] && !Fuses(OpToken(op), PrintSub(op, a, false, true)[0])
  {
    assert [a][0] == a;
    Starts(a, true);
    var ts := Print(a, true);
    if NeedsParens(op, a, false) {
      assert PrintSub(op, a, false, true)[0] == LParen;
    } else if a.Op? && Prec(a.op) == 3 {
      assert ts[0] == OpToken(a.op);
    }
  }

  lemma {:induction false} ArgsSeparated(args: seq<Expr>)
    requires forall i :: 0 <= i < |args| ==> Printable(args[i])
    ensures Separated(PrintArgs(args, true))
    decreases args, 0
  {
    if args != [] {
      PrintSeparated(args[0]);
      if |args| > 1 {
        ArgsSeparated(args[1..]);
        SepNeutral(Print(args[0], true), Comma, [Space]);
        SepJoin(Print(args[0], true) + [Comma] + Sp(true), PrintArgs(args[1..], true));
      }
    }
  }

  lemma {:induction false} IndicesSeparated(args: seq<Expr>)
    requires forall i :: 0 <= i < |args| ==> Printable(args[i])
    ensures Separated(PrintIndices(args, true))
    ensures args != [] ==> PrintIndices(args, true) != [] && PrintIndices(args, true)[0] == LBracket
    decreases args, 0
  {
    if args != [] {
      PrintSeparated(args[0]);
      IndicesSeparated(args[1..]);
      SepJoin([LBracket], Print(args[0], true));
      SepNeutral([LBracket] + Print(args[0], true), RBracket, PrintIndices(args[1..], true));
    }
  }

  lemma {:induction false} NestedSeparated(f: string, args: seq<Expr>)
    requires args != [] && forall i :: 0 <= i < |args| ==> Printable(args[i])
    ensures Separated(PrintNested(f, args, true))
    decreases args, 0
  {
    var n := |args| - 1;
    if n == 0 {
      PrintSeparated(args[0]);
    } else {
      NestedSeparated(f, args[..n]);
      PrintSeparated(args[n]);
      SepCall(f, PrintNested(f, args[..n], true), Print(args[n], true));
    }
  }

  /** The text with its spaces has separate lexemes, and without its spaces it is read
      as the tree of the expression, with the expression's value. */
  lemma TextMeans(e: Expr, env: Env)
    requires Printable(e)
    ensures Separated(Print(e, true)) && Parse(15, Strip(Print(e, true))) == Read(ToTree(e), [])
    ensures OnlyArithmetic(e) ==> TreeValue(ToTree(e), env) == Eval(e, env)
  {
    PrintSeparated(e);
    StripPrint(e);
    PrintReads(e);
    if OnlyArithmetic(e) { ValueOfTree(e, env); }
  }

  /** Without these conditions the text would be read as something else. */

  // A minus sign right after a minus sign is the lexeme `--`.
  lemma MinusMinusFuses(x: string)
    ensures !Separated(Print(Op(Minus, [Op(Minus, [Id(x)])]), true))
  {
    var inner := Op(Minus, [Id(x)]);
    assert PrintSub(Minus, Id(x), false, true) == [Word(x)];
    assert Print(inner, true) == [MinusSign, Word(x)];
    assert [Id(x)][0] == Id(x) && [inner][0] == inner;
    assert PrintSub(Minus, inner, false, true) == [MinusSign, Word(x)];
    var ts := Print(Op(Minus, [inner]), true);
    assert ts == [MinusSign] + [MinusSign, Word(x)];
    assert ts == [MinusSign, MinusSign, Word(x)];
    assert Fuses(ts[0], ts[0 + 1]);
  }

  // A select that tests a select is printed like one that is nested in the other branch.
  lemma NestedTestAmbiguous(a: Expr, b: Expr, c: Expr, d: Expr, e: Expr)
    ensures Print(Op(Select, [Op(Select, [a, b, c]), d, e]), true) ==
            Print(Op(Select, [a, b, Op(Select, [c, d, e])]), true)
  {
    var s := Sp(true);
    var ta, tb, tc, td, te := Print(a, true), Print(b, true), Print(c, true), Print(d, true), Print(e, true);
    AppendConditional(ta + s + [Question] + s + tb + s + [Colon] + s, tc, td, te, s);
    assert Print(Op(Select, [a, b, c]), true) == ta + s + [Question] + s + tb + s + [Colon] + s + tc;
    assert Print(Op(Select, [c, d, e]), true) == tc + s + [Question] + s + td + s + [Colon] + s + te;
  }

  lemma AppendConditional(p: Text, x: Text, d: Text, e: Text, s: Text)
    ensures p + (x + s + [Question] + s + d + s + [Colon] + s + e) ==
            p + x + s + [Question] + s + d + s + [Colon] + s + e
  {
    Group(p, x + s + [Question] + s + d + s + [Colon] + s, e);
    Group(p, x + s + [Question] + s + d + s + [Colon], s);
    Group(p, x + s + [Question] + s + d + s, [Colon]);
    Group(p, x + s + [Question] + s + d, s);
    Group(p, x + s + [Question] + s, d);
    Group(p, x + s + [Question], s);
    Group(p, x + s, [Question]);
    Group(p, x, s);
  }
}
