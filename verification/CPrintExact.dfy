/** Exactly which arithmetic expressions survive printing and reading back. */
module CPrintExact {
  import opened AstExpr
  import opened CPrint
  import opened CPrintProof
  import opened CPrintLexing
  import opened Wrappers

  // Arithmetic operations with their number of arguments; min and max of at least two.
  predicate WellFormed(e: Expr)
    decreases e
  {
    e.Op? ==>
      && IsArithmetic(e.op)
      && (if IsMinMax(e.op) then |e.args| >= 2 else |e.args| == Arity(e.op))
      && forall i :: 0 <= i < |e.args| ==> WellFormed(e.args[i])
  }

  // No minus sign is applied to -x or to a negative number.
  predicate NoDoubleMinus(e: Expr)
    decreases e
  {
    e.Op? ==>
      && (e.op.Minus? && |e.args| == 1 ==> !StartsWithMinus(e.args[0]))
      && forall i :: 0 <= i < |e.args| ==> NoDoubleMinus(e.args[i])
  }

  predicate IsConditional(e: Expr) { e.Op? && IsCond(e.op) }

  // No conditional is the test of another.
  predicate NoNestedTest(e: Expr)
    decreases e
  {
    e.Op? ==>
      && (IsCond(e.op) && |e.args| == 3 ==> !IsConditional(e.args[0]))
      && forall i :: 0 <= i < |e.args| ==> NoNestedTest(e.args[i])
  }

  lemma {:induction false} PrintableIff(e: Expr)
    requires WellFormed(e)
    ensures Printable(e) <==> NoDoubleMinus(e) && NoNestedTest(e)
    decreases e
  {
    if e.Op? {
      forall i | 0 <= i < |e.args|
          ensures Printable(e.args[i]) <==> NoDoubleMinus(e.args[i]) && NoNestedTest(e.args[i]) {
        PrintableIff(e.args[i]);
      }
    }
  }

  /** Two minus signs in a row are one lexeme wherever they occur. */

  lemma SepParts(x: Text, y: Text)
    requires Separated(x + y)
    ensures Separated(x) && Separated(y)
  {
    forall i | 0 <= i < |x| - 1 ensures !Fuses(x[i], x[i + 1]) { assert !Fuses((x + y)[i], (x + y)[i + 1]); }
    forall i | 0 <= i < |y| - 1 ensures !Fuses(y[i], y[i + 1]) {
      assert (x + y)[|x| + i] == y[i] && (x + y)[|x| + i + 1] == y[i + 1];
      assert !Fuses((x + y)[|x| + i], (x + y)[|x| + i + 1]);
    }
  }

  lemma SubPart(op: OpType, e: Expr, left: bool)
    requires Separated(PrintSub(op, e, left, true))
    ensures Separated(Print(e, true))
  {
    if NeedsParens(op, e, left) {
      SepParts([LParen] + Print(e, true), [RParen]);
      SepParts([LParen], Print(e, true));
    }
  }

  lemma AppliedParts(f: string, x: Text, y: Text)
    requires Separated(Applied(f, x, y, true))
    ensures Separated(x) && Separated(y)
  {
    var h := [Word(f), LParen];
    SepParts(h + x + [Comma] + Sp(true) + y, [RParen]);
    SepParts(h + x + [Comma] + Sp(true), y);
    SepParts(h + x + [Comma], Sp(true));
    SepParts(h + x, [Comma]);
    SepParts(h, x);
  }

  lemma {:induction false} NestedParts(f: string, args: seq<Expr>, i: nat)
    requires i < |args| && Separated(PrintNested(f, args, true))
    ensures Separated(Print(args[i], true))
  {
    var n := |args| - 1;
    if n > 0 {
      AppliedParts(f, PrintNested(f, args[..n], true), Print(args[n], true));
      if i < n { NestedParts(f, args[..n], i); }
    }
  }

  lemma CondParts(c: Text, a: Text, b: Text)
    requires Separated(c + Sp(true) + [Question] + Sp(true) + a + Sp(true) + [Colon] + Sp(true) + b)
    ensures Separated(c) && Separated(a) && Separated(b)
  {
    var h := c + Sp(true) + [Question] + Sp(true);
    SepParts(h + a + Sp(true) + [Colon] + Sp(true), b);
    SepParts(h + a + Sp(true) + [Colon], Sp(true));
    SepParts(h + a + Sp(true), [Colon]);
    SepParts(h + a, Sp(true));
    SepParts(h, a);
    SepParts(c + Sp(true) + [Question], Sp(true));
    SepParts(c + Sp(true), [Question]);
    SepParts(c, Sp(true));
  }

  lemma BetweenParts(x: Text, op: OpType, y: Text)
    requires Separated(Between(x, op, y, true)) && !op.Member?
    ensures Separated(x) && Separated(y)
  {
    SepParts(x + Sp(true) + [OpToken(op)] + Sp(true), y);
    SepParts(x + Sp(true) + [OpToken(op)], Sp(true));
    SepParts(x + Sp(true), [OpToken(op)]);
    SepParts(x, Sp(true));
  }

  // The text of every argument is part of the text of the operation.
  lemma ArgPart(e: Expr, i: nat)
    requires WellFormed(e) && e.Op? && i < |e.args| && Separated(Print(e, true))
    ensures Separated(Print(e.args[i], true))
  {
    var op, args := e.op, e.args;
    if op.Minus? {
      SepParts([OpToken(op)], PrintSub(op, args[0], false, true));
      SubPart(op, args[0], false);
    } else if op.FdivQ? {
      AppliedParts(OpName(op), Print(args[0], true), Print(args[1], true));
    } else if IsMinMax(op) {
      NestedParts(OpName(op), args, i);
    } else if IsCond(op) {
      CondParts(Print(args[0], true), Print(args[1], true), Print(args[2], true));
    } else {
      BetweenParts(PrintSub(op, args[0], true, true), op, PrintSub(op, args[1], false, true));
      SubPart(op, args[0], true);
      SubPart(op, args[1], false);
    }
  }

  // -x and negative numbers are printed without parentheses after a minus sign.
  lemma MinusMinus(a: Expr)
    requires WellFormed(a) && StartsWithMinus(a)
    ensures !Separated(Print(Op(Minus, [a]), true))
  {
    var x := Print(a, true);
    assert x[0] == MinusSign;
    assert PrintSub(Minus, a, false, true) == x;
    var y := Print(Op(Minus, [a]), true);
    assert y == [MinusSign] + x;
    assert Fuses(y[0], y[0 + 1]);
  }

  lemma {:induction false} DoubleMinusFuses(e: Expr)
    requires WellFormed(e) && !NoDoubleMinus(e)
    ensures !Separated(Print(e, true))
    decreases e
  {
    if e.op.Minus? && StartsWithMinus(e.args[0]) {
      assert e == Op(Minus, [e.args[0]]);
      MinusMinus(e.args[0]);
    } else {
      var i :| 0 <= i < |e.args| && !NoDoubleMinus(e.args[i]);
      DoubleMinusFuses(e.args[i]);
      if Separated(Print(e, true)) { ArgPart(e, i); }
    }
  }

  /** A conditional that is the test of another has the text of one that is its else
      branch. */

  // (t ? a : b), with the conditionals in t moved out of its test
  function Rotate(op: OpType, t: Expr, a: Expr, b: Expr): (r: Expr)
    ensures IsCond(op) ==> IsConditional(r)
    decreases t
  {
    if IsConditional(t) && |t.args| == 3 then Op(t.op, [t.args[0], t.args[1], Rotate(op, t.args[2], a, b)])
    else Op(op, [t, a, b])
  }

  function Rotated(e: Expr): Expr
    decreases e, 1
  {
    if !e.Op? then e
    else
      var args := RotatedAll(e.args);
      if IsCond(e.op) && |args| == 3 then Rotate(e.op, args[0], args[1], args[2]) else Op(e.op, args)
  }

  function RotatedAll(es: seq<Expr>): (rs: seq<Expr>)
    ensures |rs| == |es| && forall i :: 0 <= i < |es| ==> rs[i] == Rotated(es[i])
    decreases es, 0
  {
    if es == [] then [] else [Rotated(es[0])] + RotatedAll(es[1..])
  }

  function CondText(c: Text, a: Text, b: Text): Text {
    c + Sp(true) + [Question] + Sp(true) + a + Sp(true) + [Colon] + Sp(true) + b
  }

  lemma CondTextNests(c: Text, a: Text, b: Text, d: Text, e: Text)
    ensures CondText(CondText(c, a, b), d, e) == CondText(c, a, CondText(b, d, e))
  {
    var h := c + Sp(true) + [Question] + Sp(true) + a + Sp(true) + [Colon] + Sp(true);
    RegroupSuffix(h, b, Sp(true) + [Question] + Sp(true) + d + Sp(true) + [Colon] + Sp(true) + e);
    SuffixText(h + b, d, e);
    SuffixText(b, d, e);
  }

  lemma RegroupSuffix(h: Text, b: Text, s: Text)
    ensures h + b + s == h + (b + s)
  {
  }

  lemma SuffixText(c: Text, d: Text, e: Text)
    ensures CondText(c, d, e) == c + (Sp(true) + [Question] + Sp(true) + d + Sp(true) + [Colon] + Sp(true) + e)
  {
  }

  lemma {:induction false} RotateText(op: OpType, t: Expr, a: Expr, b: Expr)
    requires IsCond(op)
    ensures Print(Rotate(op, t, a, b), true) == CondText(Print(t, true), Print(a, true), Print(b, true))
    decreases t
  {
    if IsConditional(t) && |t.args| == 3 {
      RotateText(op, t.args[2], a, b);
      CondTextNests(Print(t.args[0], true), Print(t.args[1], true), Print(t.args[2], true), Print(a, true),
          Print(b, true));
    }
  }

  // What an operation around it sees of an expression.
  predicate Alike(e: Expr, r: Expr) {
    && Print(e, true) == Print(r, true)
    && (StartsWithMinus(e) <==> StartsWithMinus(r))
    && (e.Op? <==> r.Op?)
    && (e.Op? ==> e.op == r.op || (IsCond(e.op) && IsCond(r.op)))
  }

  lemma SubAlike(op: OpType, e: Expr, r: Expr, left: bool)
    requires Alike(e, r)
    ensures PrintSub(op, e, left, true) == PrintSub(op, r, left, true)
  {
  }

  lemma {:induction false} NestedAlike(f: string, es: seq<Expr>, rs: seq<Expr>)
    requires es != [] && |es| == |rs| && forall i :: 0 <= i < |es| ==> Alike(es[i], rs[i])
    ensures PrintNested(f, es, true) == PrintNested(f, rs, true)
  {
    var n := |es| - 1;
    assert Alike(es[n], rs[n]);
    if n > 0 { NestedAlike(f, es[..n], rs[..n]); }
  }

  lemma OpAlike(op: OpType, es: seq<Expr>, rs: seq<Expr>)
    requires WellFormed(Op(op, es)) && !IsCond(op) && |es| == |rs|
    requires forall i :: 0 <= i < |es| ==> Alike(es[i], rs[i])
    ensures Print(Op(op, es), true) == Print(Op(op, rs), true)
  {
    assert Alike(es[0], rs[0]);
    if op.Minus? {
      SubAlike(op, es[0], rs[0], false);
    } else if IsMinMax(op) {
      NestedAlike(OpName(op), es, rs);
    } else {
      assert Alike(es[1], rs[1]);
      SubAlike(op, es[0], rs[0], true);
      SubAlike(op, es[1], rs[1], false);
    }
  }

  lemma {:induction false} RotatedText(e: Expr)
    requires WellFormed(e)
    ensures Alike(e, Rotated(e))
    decreases e
  {
    if e.Op? {
      var rs := RotatedAll(e.args);
      forall i | 0 <= i < |e.args| ensures Alike(e.args[i], rs[i]) { RotatedText(e.args[i]); }
      if IsCond(e.op) {
        assert Alike(e.args[0], rs[0]) && Alike(e.args[1], rs[1]) && Alike(e.args[2], rs[2]);
        RotateText(e.op, rs[0], rs[1], rs[2]);
      } else {
        OpAlike(e.op, e.args, rs);
      }
    }
  }

  lemma {:induction false} RotatePrintable(op: OpType, t: Expr, a: Expr, b: Expr)
    requires IsCond(op) && Printable(t) && Printable(a) && Printable(b)
    ensures Printable(Rotate(op, t, a, b))
    decreases t
  {
    if IsConditional(t) && |t.args| == 3 { RotatePrintable(op, t.args[2], a, b); }
  }

  lemma {:induction false} RotatedPrintable(e: Expr)
    requires WellFormed(e) && NoDoubleMinus(e)
    ensures Printable(Rotated(e))
    decreases e
  {
    if e.Op? {
      var rs := RotatedAll(e.args);
      forall i | 0 <= i < |e.args| ensures Printable(rs[i]) { RotatedPrintable(e.args[i]); }
      if IsCond(e.op) {
        RotatePrintable(e.op, rs[0], rs[1], rs[2]);
      } else if e.op.Minus? {
        RotatedText(e.args[0]);
      }
    }
  }

  lemma {:induction false} RotateWellFormed(op: OpType, t: Expr, a: Expr, b: Expr)
    requires IsCond(op) && WellFormed(t) && WellFormed(a) && WellFormed(b)
    ensures WellFormed(Rotate(op, t, a, b))
    decreases t
  {
    if IsConditional(t) && |t.args| == 3 { RotateWellFormed(op, t.args[2], a, b); }
  }

  lemma {:induction false} RotatedWellFormed(e: Expr)
    requires WellFormed(e)
    ensures WellFormed(Rotated(e))
    decreases e
  {
    if e.Op? {
      var rs := RotatedAll(e.args);
      forall i | 0 <= i < |e.args| ensures WellFormed(rs[i]) { RotatedWellFormed(e.args[i]); }
      if IsCond(e.op) { RotateWellFormed(e.op, rs[0], rs[1], rs[2]); }
    }
  }

  /** The two readings differ. */

  predicate NoConditionalTest(t: Tree)
    decreases t
  {
    match t
    case Literal(_) => true
    case Variable(_) => true
    case Unary(_, a) => NoConditionalTest(a)
    case Binary(_, l, r) => NoConditionalTest(l) && NoConditionalTest(r)
    case Invoke(f, args) => NoConditionalTest(f) && forall i :: 0 <= i < |args| ==> NoConditionalTest(args[i])
    case Subscript(b, i) => NoConditionalTest(b) && NoConditionalTest(i)
    case Field(b, _) => NoConditionalTest(b)
    case Conditional(c, a, b) => !c.Conditional? && NoConditionalTest(c) && NoConditionalTest(a) && NoConditionalTest(b)
  }

  lemma {:induction false} NestedTests(f: string, args: seq<Expr>)
    requires args != []
    ensures NoConditionalTest(Nested(f, args)) <==> forall i :: 0 <= i < |args| ==> NoConditionalTest(ToTree(args[i]))
  {
    var n := |args| - 1;
    if n > 0 {
      NestedTests(f, args[..n]);
      var ts := [Nested(f, args[..n]), ToTree(args[n])];
      assert Nested(f, args) == Invoke(Variable(f), ts);
      assert NoConditionalTest(Nested(f, args)) <==> NoConditionalTest(ts[0]) && NoConditionalTest(ts[1]);
    }
  }

  lemma {:induction false} TreeTests(e: Expr)
    requires WellFormed(e)
    ensures NoConditionalTest(ToTree(e)) <==> NoNestedTest(e)
    ensures ToTree(e).Conditional? <==> IsConditional(e)
    decreases e
  {
    if e.Op? {
      var op, args := e.op, e.args;
      forall i | 0 <= i < |args|
        ensures NoConditionalTest(ToTree(args[i])) <==> NoNestedTest(args[i])
        ensures ToTree(args[i]).Conditional? <==> IsConditional(args[i])
      {
        TreeTests(args[i]);
      }
      if IsMinMax(op) {
        NestedTests(OpName(op), args);
      } else if op.FdivQ? {
        var ts := [ToTree(args[0]), ToTree(args[1])];
        assert ToTree(e) == Invoke(Variable(OpName(op)), ts);
        assert NoConditionalTest(ToTree(e)) <==> NoConditionalTest(ts[0]) && NoConditionalTest(ts[1]);
      }
    }
  }

  /** The text of an arithmetic expression can be split into its lexemes and read back as
      the expression exactly when the expression is printable. */
  lemma TextExact(e: Expr)
    requires WellFormed(e)
    ensures Separated(Print(e, true)) && Parse(15, Strip(Print(e, true))) == Read(ToTree(e), []) <==> Printable(e)
  {
    if Printable(e) {
      TextMeans(e, map[]);
    } else {
      PrintableIff(e);
      if !NoDoubleMinus(e) {
        DoubleMinusFuses(e);
      } else {
        OtherReading(e);
      }
    }
  }

  // What is read instead, when a conditional is the test of another.
  lemma OtherReading(e: Expr)
    requires WellFormed(e) && NoDoubleMinus(e) && !NoNestedTest(e)
    ensures Parse(15, Strip(Print(e, true))) == Read(ToTree(Rotated(e)), []) && ToTree(Rotated(e)) != ToTree(e)
  {
    var r := Rotated(e);
    RotatedText(e);
    RotatedPrintable(e);
    TextMeans(r, map[]);
    TreeTests(e);
    RotatedWellFormed(e);
    PrintableIff(r);
    TreeTests(r);
  }

  // (1 ? 0 : 1) ? 2 : 3 is 3, but it is printed, and read, as 1 ? 0 : (1 ? 2 : 3), which is 0.
  lemma NestedTestValues(env: Env)
    ensures var e := Op(Select, [Op(Select, [Int(1), Int(0), Int(1)]), Int(2), Int(3)]);
            && Eval(e, env) == 3
            && Parse(15, Strip(Print(e, true))).Read?
            && TreeValue(Parse(15, Strip(Print(e, true))).value, env) == 0
  {
    var inner := Op(Select, [Int(1), Int(0), Int(1)]);
    var other := Op(Select, [Int(1), Int(0), Op(Select, [Int(1), Int(2), Int(3)])]);
    EvalSelect(Int(1), Int(0), Int(1), env);
    EvalSelect(inner, Int(2), Int(3), env);
    EvalSelect(Int(1), Int(0), other.args[2], env);
    NestedTestAmbiguous(Int(1), Int(0), Int(1), Int(2), Int(3));
    TextMeans(other, env);
  }
}
