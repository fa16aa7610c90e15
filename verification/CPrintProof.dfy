/** The printed text has the tree and the value of the expression. */
module CPrintProof {
  import opened Arith
  import opened AstExpr
  import opened CPrint
  import opened Wrappers

  // Nothing in `rest` continues an expression of level q or less.
  predicate Stops(q: int, rest: Text) {
    rest != [] ==>
      && (q >= 2 ==> !rest[0].LParen? && !rest[0].LBracket? && !rest[0].Dot?)
      && (LevelOf(rest[0]) == 0 || LevelOf(rest[0]) > q)
      && (q >= 15 ==> !rest[0].Question?)
  }

  predicate StartsUnary(ts: Text) { ts != [] && (ts[0].MinusSign? || ts[0].Ampersand?) }

  predicate StartsWell(ts: Text) {
    ts != [] && (ts[0].Num? || ts[0].Word? || ts[0].LParen? || ts[0].MinusSign? || ts[0].Ampersand?)
  }

  lemma RestStops(p: nat, t: Tree, rest: Text)
    requires 2 <= p < 15 && Stops(p, rest)
    ensures ParseRest(p, t, rest) == Read(t, rest)
  {
  }

  // What is read at a level is read at every looser level.
  lemma {:induction false} Climb(ts: Text, t: Tree, rest: Text, p: nat, q: nat)
    requires 2 <= p <= q < 15 && Parse(p, ts) == ParseRest(p, t, rest) && Stops(q - 1, rest)
    requires p >= 3 || !StartsUnary(ts)
    ensures Parse(q, ts) == ParseRest(q, t, rest)
  {
    if p < q {
      Climb(ts, t, rest, p, q - 1);
      RestStops(q - 1, t, rest);
    }
  }

  lemma ClimbTop(ts: Text, t: Tree, rest: Text, p: nat)
    requires 2 <= p < 15 && Parse(p, ts) == ParseRest(p, t, rest) && Stops(15, rest)
    requires p >= 3 || !StartsUnary(ts)
    ensures Parse(15, ts) == Read(t, rest)
  {
    Climb(ts, t, rest, p, 14);
    RestStops(14, t, rest);
  }

  /** Regrouping text. */

  lemma Group(x: Text, y: Text, z: Text)
    ensures x + y + z == x + (y + z)
  {
  }

  lemma GroupToken(x: Text, t: Token, y: Text, rest: Text)
    ensures x + [t] + y + rest == x + ([t] + (y + rest))
    ensures x + [t] + Sp(false) + y + rest == x + ([t] + (y + rest))
    ensures x + Sp(false) + [t] + Sp(false) + y + rest == x + ([t] + (y + rest))
    ensures ([t] + (y + rest))[1..] == y + rest
  {
    assert x + [t] + Sp(false) == x + [t] && x + Sp(false) == x;
  }

  lemma GroupBetween(x: Text, op: OpType, y: Text, rest: Text)
    ensures Between(x, op, y, false) + rest == x + ([OpToken(op)] + (y + rest))
  {
    GroupToken(x, OpToken(op), y, rest);
    assert x + [] + [OpToken(op)] + [] == x + [OpToken(op)];
  }

  lemma FirstOf(x: Text, y: Text)
    requires StartsWell(x)
    ensures StartsWell(x + y) && (StartsUnary(x + y) <==> StartsUnary(x))
  {
  }

  /** How printed text starts. */

  ghost predicate GoodStart(ts: Text, prec: int) { StartsWell(ts) && (prec == 2 ==> !StartsUnary(ts)) }

  lemma {:induction false} Starts(e: Expr, spaced: bool)
    requires Printable(e)
    ensures GoodStart(Print(e, spaced), PrecOf(e))
    decreases e, 0
  {
    if e.Op? {
      var a := e.args[0];
      Starts(a, spaced);
      match e.op {
        case Call | Access => StartsPostfix(e, spaced);
        case Min | Max => NestedStarts(OpName(e.op), e.args, spaced);
        case FdivQ =>
        case Minus | AddressOf =>
        case Cond | Select => StartsCond(e, spaced);
        case _ => StartsBinary(e, spaced);
      }
    }
  }

  lemma StartsPostfix(e: Expr, spaced: bool)
    requires Printable(e) && e.Op? && (e.op.Call? || e.op.Access?) && GoodStart(Print(e.args[0], spaced), 2)
    ensures GoodStart(Print(e, spaced), 2)
  {
    var x := Print(e.args[0], spaced);
    if e.op.Call? {
      FirstOf(x, [LParen]);
      FirstOf(x + [LParen], PrintArgs(e.args[1..], spaced));
      FirstOf(x + [LParen] + PrintArgs(e.args[1..], spaced), [RParen]);
    } else {
      FirstOf(x, PrintIndices(e.args[1..], spaced));
    }
  }

  lemma StartsCond(e: Expr, spaced: bool)
    requires Printable(e) && e.Op? && IsCond(e.op) && StartsWell(Print(e.args[0], spaced))
    ensures StartsWell(Print(e, spaced))
  {
    var x, s := Print(e.args[0], spaced), Sp(spaced);
    var y := x + s + [Question] + s + Print(e.args[1], spaced);
    FirstOf(x, s);
    FirstOf(x + s, [Question]);
    FirstOf(x + s + [Question], s);
    FirstOf(x + s + [Question] + s, Print(e.args[1], spaced));
    FirstOf(y, s);
    FirstOf(y + s, [Colon]);
    FirstOf(y + s + [Colon], s);
    FirstOf(y + s + [Colon] + s, Print(e.args[2], spaced));
  }

  lemma StartsBinary(e: Expr, spaced: bool)
    requires Printable(e) && e.Op? && |e.args| == 2 && !IsMinMax(e.op) && !IsCond(e.op)
    requires !e.op.Call? && !e.op.Access? && !e.op.FdivQ?
    requires GoodStart(Print(e.args[0], spaced), PrecOf(e.args[0]))
    ensures GoodStart(Print(e, spaced), Prec(e.op))
  {
    var x := PrintSub(e.op, e.args[0], true, spaced);
    assert GoodStart(x, Prec(e.op)) by {
      if NeedsParens(e.op, e.args[0], true) {
        assert x[0] == LParen;
      }
    }
    BetweenStarts(x, e.op, PrintSub(e.op, e.args[1], false, spaced), spaced);
  }

  lemma BetweenStarts(x: Text, op: OpType, y: Text, spaced: bool)
    requires StartsWell(x)
    ensures StartsWell(Between(x, op, y, spaced)) && (StartsUnary(Between(x, op, y, spaced)) <==> StartsUnary(x))
  {
    var s := if op.Member? then [] else Sp(spaced);
    FirstOf(x, s);
    FirstOf(x + s, [OpToken(op)]);
    FirstOf(x + s + [OpToken(op)], s);
    FirstOf(x + s + [OpToken(op)] + s, y);
  }

  lemma NestedStarts(f: string, args: seq<Expr>, spaced: bool)
    requires |args| >= 2
    ensures |PrintNested(f, args, spaced)| >= 2 && PrintNested(f, args, spaced)[..2] == [Word(f), LParen]
    ensures PrintNested(f, args, spaced)[0] == Word(f)
  {
  }

  lemma ArgsStart(args: seq<Expr>)
    requires args != [] && forall i :: 0 <= i < |args| ==> Printable(args[i])
    ensures StartsWell(PrintArgs(args, false))
  {
    Starts(args[0], false);
    if |args| > 1 {
      FirstOf(Print(args[0], false), [Comma]);
      FirstOf(Print(args[0], false) + [Comma], Sp(false));
      FirstOf(Print(args[0], false) + [Comma] + Sp(false), PrintArgs(args[1..], false));
    }
  }

  /** Reading an expression that is followed by something else. */

  lemma {:induction false} Reads(e: Expr, p: nat, rest: Text)
    requires Printable(e) && PrecOf(e) <= p && 2 <= p < 15 && Stops(p - 1, rest)
    ensures Parse(p, Print(e, false) + rest) == ParseRest(p, ToTree(e), rest)
    decreases e, 4, p
  {
    var q := PrecOf(e);
    ReadsExactly(e, rest);
    Starts(e, false);
    if q < p { Climb(Print(e, false) + rest, ToTree(e), rest, q, p); }
  }

  lemma {:induction false} ReadsTop(e: Expr, rest: Text)
    requires Printable(e) && Stops(15, rest)
    ensures Parse(15, Print(e, false) + rest) == Read(ToTree(e), rest)
    decreases e, 5
  {
    Starts(e, false);
    if PrecOf(e) < 15 {
      Reads(e, 14, rest);
      ClimbTop(Print(e, false) + rest, ToTree(e), rest, 14);
    } else {
      ReadsConditional(e, rest);
    }
  }

  lemma ReadsConditional(e: Expr, rest: Text)
    requires Printable(e) && e.Op? && IsCond(e.op) && Stops(15, rest)
    ensures Parse(15, Print(e, false) + rest) == Read(ToTree(e), rest)
    decreases e, 3
  {
    var c, a, b := e.args[0], e.args[1], e.args[2];
    var r2 := [Colon] + (Print(b, false) + rest);
    var r1 := [Question] + (Print(a, false) + r2);
    JoinConditional(Print(c, false), Print(a, false), Print(b, false), rest);
    Reads(c, 14, r1);
    RestStops(14, ToTree(c), r1);
    Starts(c, false);
    Climb(Print(c, false) + r1, ToTree(c), r1, 14, 14);
    ReadsTop(a, r2);
    ReadsTop(b, rest);
  }

  lemma JoinConditional(c: Text, a: Text, b: Text, rest: Text)
    ensures var r2 := [Colon] + (b + rest);
            var r1 := [Question] + (a + r2);
            && c + Sp(false) + [Question] + Sp(false) + a + Sp(false) + [Colon] + Sp(false) + b + rest == c + r1
            && r1[1..] == a + r2 && r2[1..] == b + rest
  {
    GroupToken(c + Sp(false) + [Question] + Sp(false) + a, Colon, b, rest);
    GroupToken(c, Question, a, [Colon] + (b + rest));
  }

  lemma ReadsExactly(e: Expr, rest: Text)
    requires Printable(e) && PrecOf(e) < 15 && Stops(PrecOf(e) - 1, rest)
    ensures Parse(PrecOf(e), Print(e, false) + rest) == ParseRest(PrecOf(e), ToTree(e), rest)
    decreases e, 3
  {
    match e
    case Int(v) => ReadsInt(v, rest);
    case Id(name) => assert ([Word(name)] + rest)[1..] == rest;
    case Op(op, args) =>
      match op {
        case Call => ReadsCall(e, rest);
        case Access => ReadsAccess(args, rest);
        case FdivQ => ReadsFloord(e, rest);
        case Min | Max => ReadsNested(OpName(op), args, rest);
        case Minus | AddressOf => ReadsUnary(e, rest);
        case Member => ReadsMember(e, rest);
        case _ => ReadsBinary(e, rest);
      }
  }

  lemma ReadsInt(v: int, rest: Text)
    requires Stops(PrecOf(Int(v)) - 1, rest)
    ensures Parse(PrecOf(Int(v)), Print(Int(v), false) + rest) == ParseRest(PrecOf(Int(v)), ToTree(Int(v)), rest)
  {
    if v >= 0 {
      assert ([Num(v)] + rest)[1..] == rest;
    } else {
      var ts := [Num(-v)] + rest;
      assert ([MinusSign, Num(-v)] + rest)[1..] == ts && ts[1..] == rest;
      RestStops(2, Literal(-v), rest);
      assert Parse(2, ts) == Read(Literal(-v), rest);
      Climb(ts, Literal(-v), rest, 2, 3);
      NoLevel(3, Literal(-v), rest);
      NoLevel(3, Unary(MinusSign, Literal(-v)), rest);
    }
  }

  // There are no binary operators of level 3.
  lemma NoLevel(p: nat, t: Tree, rest: Text)
    requires p == 3
    ensures ParseRest(p, t, rest) == Read(t, rest)
  {
  }

  lemma ReadsUnary(e: Expr, rest: Text)
    requires Printable(e) && e.Op? && (e.op.Minus? || e.op.AddressOf?) && Stops(2, rest)
    ensures Parse(3, Print(e, false) + rest) == ParseRest(3, ToTree(e), rest)
    decreases e, 2
  {
    var a := e.args[0];
    var ts := PrintSub(e.op, a, false, false) + rest;
    assert (Print(e, false) + rest)[1..] == ts && (Print(e, false) + rest)[0] == OpToken(e.op);
    ReadsSub(e.op, a, false, 3, rest);
    NoLevel(3, ToTree(a), rest);
    NoLevel(3, ToTree(e), rest);
  }

  // An operand, with or without parentheses.
  lemma ReadsSub(op: OpType, a: Expr, left: bool, q: nat, rest: Text)
    requires Printable(a) && 2 <= q < 15 && Stops(q - 1, rest) && (NeedsParens(op, a, left) || PrecOf(a) <= q)
    ensures Parse(q, PrintSub(op, a, left, false) + rest) == ParseRest(q, ToTree(a), rest)
    decreases a, 6
  {
    if NeedsParens(op, a, left) {
      var ts := PrintSub(op, a, left, false) + rest;
      assert ts[1..] == Print(a, false) + ([RParen] + rest);
      ReadsTop(a, [RParen] + rest);
      assert ([RParen] + rest)[1..] == rest;
      Climb(ts, ToTree(a), rest, 2, q);
    } else {
      Reads(a, q, rest);
    }
  }

  // What is printed and meant for an operator between two operands
  lemma BinaryParts(e: Expr)
    requires Printable(e) && e.Op? && 5 <= Prec(e.op) < 15
    ensures |e.args| == 2 && Printable(e.args[0]) && Printable(e.args[1]) && LevelOf(OpToken(e.op)) == Prec(e.op)
    ensures Print(e, false) == Between(PrintSub(e.op, e.args[0], true, false), e.op,
            PrintSub(e.op, e.args[1], false, false), false)
    ensures ToTree(e) == Binary(OpToken(e.op), ToTree(e.args[0]), ToTree(e.args[1]))
  {
  }

  lemma ParseInfix(p: nat, t: Token, left: Tree, y: Text, right: Tree, rest: Text)
    requires 5 <= p < 15 && LevelOf(t) == p && Stops(p - 1, rest)
    requires Parse(p - 1, y + rest) == ParseRest(p - 1, right, rest)
    ensures ParseRest(p, left, [t] + (y + rest)) == ParseRest(p, Binary(t, left, right), rest)
  {
    assert ([t] + (y + rest))[1..] == y + rest;
    RestStops(p - 1, right, rest);
  }

  lemma ReadsBinary(e: Expr, rest: Text)
    requires Printable(e) && e.Op? && 5 <= Prec(e.op) < 15 && Stops(Prec(e.op) - 1, rest)
    ensures Parse(Prec(e.op), Print(e, false) + rest) == ParseRest(Prec(e.op), ToTree(e), rest)
    decreases e, 2
  {
    BinaryParts(e);
    var op, l, r, p := e.op, e.args[0], e.args[1], Prec(e.op);
    var y := PrintSub(op, r, false, false);
    GroupBetween(PrintSub(op, l, true, false), op, y, rest);
    ReadsSub(op, l, true, p, [OpToken(op)] + (y + rest));
    ReadsSub(op, r, false, p - 1, rest);
    ParseInfix(p, OpToken(op), ToTree(l), y, ToTree(r), rest);
  }

  lemma MemberParts(e: Expr)
    requires Printable(e) && e.Op? && e.op.Member?
    ensures |e.args| == 2 && Printable(e.args[0]) && e.args[1].Id? &&
            (NeedsParens(e.op, e.args[0], true) || PrecOf(e.args[0]) <= 2)
    ensures Print(e, false) == Between(PrintSub(e.op, e.args[0], true, false), e.op, [Word(e.args[1].name)], false)
    ensures ToTree(e) == Field(ToTree(e.args[0]), e.args[1].name)
  {
    assert PrintSub(e.op, e.args[1], false, false) == [Word(e.args[1].name)];
  }

  lemma ParseField(t: Tree, name: string, rest: Text)
    ensures ParseRest(2, t, [Dot] + ([Word(name)] + rest)) == ParseRest(2, Field(t, name), rest)
  {
    assert ([Dot] + ([Word(name)] + rest))[2..] == rest;
  }

  lemma ReadsMember(e: Expr, rest: Text)
    requires Printable(e) && e.Op? && e.op.Member?
    ensures Parse(2, Print(e, false) + rest) == ParseRest(2, ToTree(e), rest)
    decreases e, 2
  {
    MemberParts(e);
    var l, name := e.args[0], e.args[1].name;
    GroupBetween(PrintSub(e.op, l, true, false), e.op, [Word(name)], rest);
    ReadsSub(e.op, l, true, 2, [Dot] + ([Word(name)] + rest));
    ParseField(ToTree(l), name, rest);
  }

  /** Calls, subscripts and reductions. */

  lemma {:induction false} ReadsMoreArgs(args: seq<Expr>, rest: Text)
    requires args != [] && forall i :: 0 <= i < |args| ==> Printable(args[i])
    ensures ParseMoreArgs(PrintArgs(args, false) + ([RParen] + rest)) == Read(ToTrees(args), rest)
    decreases args, 0
  {
    var a := args[0];
    if |args| == 1 {
      ReadsTop(a, [RParen] + rest);
      assert ([RParen] + rest)[1..] == rest;
      assert ToTrees(args) == [ToTree(a)];
    } else {
      var r := [Comma] + (PrintArgs(args[1..], false) + ([RParen] + rest));
      GroupToken(Print(a, false), Comma, PrintArgs(args[1..], false), [RParen] + rest);
      ReadsTop(a, r);
      ReadsMoreArgs(args[1..], rest);
    }
  }

  lemma ReadsArgs(args: seq<Expr>, rest: Text)
    requires forall i :: 0 <= i < |args| ==> Printable(args[i])
    ensures ParseArgs(PrintArgs(args, false) + ([RParen] + rest)) == Read(ToTrees(args), rest)
    decreases args, 1
  {
    if args == [] {
      assert ([RParen] + rest)[1..] == rest;
      assert PrintArgs(args, false) + ([RParen] + rest) == [RParen] + rest;
    } else {
      ArgsStart(args);
      FirstOf(PrintArgs(args, false), [RParen] + rest);
      ReadsMoreArgs(args, rest);
    }
  }

  lemma ReadsCall(e: Expr, rest: Text)
    requires Printable(e) && e.Op? && e.op.Call?
    ensures Parse(2, Print(e, false) + rest) == ParseRest(2, ToTree(e), rest)
    decreases e, 2
  {
    var f, args := e.args[0], e.args[1..];
    var r0 := [LParen] + (PrintArgs(args, false) + ([RParen] + rest));
    Group(Print(f, false) + [LParen] + PrintArgs(args, false), [RParen], rest);
    GroupToken(Print(f, false), LParen, PrintArgs(args, false), [RParen] + rest);
    Reads(f, 2, r0);
    ReadsArgs(args, rest);
  }

  lemma ReadsFloord(e: Expr, rest: Text)
    requires Printable(e) && e.Op? && e.op.FdivQ?
    ensures Parse(2, Print(e, false) + rest) == ParseRest(2, ToTree(e), rest)
    decreases e, 2
  {
    var a, b := e.args[0], e.args[1];
    TwoArgs(OpName(e.op), Print(a, false), ToTree(a), b, rest);
    var r := [Comma] + (Print(b, false) + ([RParen] + rest));
    ReadsTop(a, r);
    Starts(a, false);
    JoinCall(OpName(e.op), Print(a, false), Print(b, false), rest);
  }

  lemma JoinCall(f: string, x: Text, y: Text, rest: Text)
    ensures [Word(f), LParen] + x + [Comma] + Sp(false) + y + [RParen] + rest ==
            [Word(f), LParen] + (x + ([Comma] + (y + ([RParen] + rest))))
  {
    Group([Word(f), LParen] + x + [Comma] + Sp(false) + y, [RParen], rest);
    GroupToken([Word(f), LParen] + x, Comma, y, [RParen] + rest);
    Group([Word(f), LParen], x, [Comma] + (y + ([RParen] + rest)));
  }

  // f(x, b), when the text x is read as the tree t.
  lemma TwoArgs(f: string, x: Text, t: Tree, b: Expr, rest: Text)
    requires Printable(b)
    ensures var r := [Comma] + (Print(b, false) + ([RParen] + rest));
            StartsWell(x) && Parse(15, x + r) == Read(t, r) ==>
              Parse(2, [Word(f), LParen] + (x + r)) == ParseRest(2, Invoke(Variable(f), [t, ToTree(b)]), rest)
    decreases b, 6
  {
    var r := [Comma] + (Print(b, false) + ([RParen] + rest));
    if StartsWell(x) && Parse(15, x + r) == Read(t, r) {
      var ts := [Word(f), LParen] + (x + r);
      assert ts[1..] == [LParen] + (x + r) && ts[1..][1..] == x + r;
      assert r[1..] == Print(b, false) + ([RParen] + rest);
      ReadsTop(b, [RParen] + rest);
      assert ([RParen] + rest)[1..] == rest;
      assert ParseMoreArgs(r[1..]) == Read([ToTree(b)], rest);
      assert ParseMoreArgs(x + r) == Read([t] + [ToTree(b)], rest);
      assert [t] + [ToTree(b)] == [t, ToTree(b)];
      assert ParseArgs(x + r) == ParseMoreArgs(x + r);
    }
  }

  lemma {:induction false} ReadsNested(f: string, args: seq<Expr>, rest: Text)
    requires |args| >= 2 && forall i :: 0 <= i < |args| ==> Printable(args[i])
    ensures Parse(2, PrintNested(f, args, false) + rest) == ParseRest(2, Nested(f, args), rest)
    decreases args, 0
  {
    var n := |args| - 1;
    var b, x := args[n], PrintNested(f, args[..n], false);
    var r := [Comma] + (Print(b, false) + ([RParen] + rest));
    if n == 1 {
      ReadsTop(args[0], r);
      Starts(args[0], false);
    } else {
      ReadsNested(f, args[..n], r);
      NestedStarts(f, args[..n], false);
      FirstOf(x, r);
      ClimbTop(x + r, Nested(f, args[..n]), r, 2);
    }
    TwoArgs(f, x, Nested(f, args[..n]), b, rest);
    JoinCall(f, x, Print(b, false), rest);
  }

  lemma {:induction false} IndicesAppend(args: seq<Expr>, e: Expr, spaced: bool)
    ensures PrintIndices(args + [e], spaced) == PrintIndices(args, spaced) + [LBracket] + Print(e, spaced) + [RBracket]
  {
    if args == [] {
      assert [e][1..] == [];
    } else {
      IndicesAppend(args[1..], e, spaced);
      assert (args + [e])[1..] == args[1..] + [e];
      AppendAfter([LBracket] + Print(args[0], spaced) + [RBracket], PrintIndices(args[1..], spaced), Print(e, spaced));
    }
  }

  lemma AppendAfter(first: Text, i: Text, x: Text)
    ensures first + (i + [LBracket] + x + [RBracket]) == first + i + [LBracket] + x + [RBracket]
  {
  }

  lemma {:induction false} ReadsAccess(args: seq<Expr>, rest: Text)
    requires args != [] && PrecOf(args[0]) == 2 && forall i :: 0 <= i < |args| ==> Printable(args[i])
    ensures Parse(2, Print(args[0], false) + PrintIndices(args[1..], false) + rest) ==
            ParseRest(2, Subscripts(args), rest)
    decreases args, 0
  {
    var n := |args| - 1;
    if n == 0 {
      Reads(args[0], 2, rest);
      assert Print(args[0], false) + [] == Print(args[0], false);
    } else {
      var e, before := args[n], Print(args[0], false) + PrintIndices(args[..n][1..], false);
      var r0 := [LBracket] + (Print(e, false) + ([RBracket] + rest));
      ReadsAccess(args[..n], r0);
      assert args[1..] == args[..n][1..] + [e];
      IndicesAppend(args[..n][1..], e, false);
      JoinIndex(Print(args[0], false), PrintIndices(args[..n][1..], false), Print(e, false), rest);
      ReadsTop(e, [RBracket] + rest);
      ParseIndex(Subscripts(args[..n]), Print(e, false), ToTree(e), rest);
    }
  }

  lemma ParseIndex(t: Tree, x: Text, i: Tree, rest: Text)
    requires Parse(15, x + ([RBracket] + rest)) == Read(i, [RBracket] + rest)
    ensures ParseRest(2, t, [LBracket] + (x + ([RBracket] + rest))) == ParseRest(2, Subscript(t, i), rest)
  {
    assert ([LBracket] + (x + ([RBracket] + rest)))[1..] == x + ([RBracket] + rest);
    assert ([RBracket] + rest)[1..] == rest;
  }

  lemma JoinIndex(b: Text, i: Text, x: Text, rest: Text)
    ensures var r0 := [LBracket] + (x + ([RBracket] + rest));
            b + (i + [LBracket] + x + [RBracket]) + rest == b + i + r0
  {
    assert b + (i + [LBracket] + x + [RBracket]) == b + i + [LBracket] + x + [RBracket];
    Group(b + i + [LBracket] + x, [RBracket], rest);
    GroupToken(b + i, LBracket, x, [RBracket] + rest);
  }

  /** Reading the printed text gives the tree of the expression and nothing is left. */
  lemma PrintReads(e: Expr)
    requires Printable(e)
    ensures Parse(15, Print(e, false)) == Read(ToTree(e), [])
  {
    ReadsTop(e, []);
    assert Print(e, false) + [] == Print(e, false);
  }

  /** The value that C gives the tree. */

  function BinaryValue(op: Token, l: int, r: int): int {
    match op
    case MinusSign => l - r
    case Infix(b) =>
      (match b
       case AndB => Truth(l != 0 && r != 0)
       case OrB => Truth(l != 0 || r != 0)
       case AddB => l + r
       case MulB => l * r
       case DivB => TruncDiv(l, r)
       case ModB => TruncRem(l, r)
       case EqB => Truth(l == r)
       case LeB => Truth(l <= r)
       case LtB => Truth(l < r)
       case GeB => Truth(l >= r)
       case GtB => Truth(l > r))
    case _ => 0
  }

  function FunctionValue(f: string, a: int, b: int): int {
    if f == "min" then MinOf(a, b)
    else if f == "max" then MaxOf(a, b)
    else if f == "floord" then if b == 0 then 0 else FloorDiv(a, b)
    else 0
  }

  function TreeValue(t: Tree, env: Env): int {
    match t
    case Literal(n) => n
    case Variable(name) => Lookup(env, name)
    case Unary(op, arg) => if op.MinusSign? then -TreeValue(arg, env) else 0
    case Binary(op, l, r) => BinaryValue(op, TreeValue(l, env), TreeValue(r, env))
    case Invoke(f, args) =>
      if f.Variable? && |args| == 2 then FunctionValue(f.name, TreeValue(args[0], env), TreeValue(args[1], env)) else 0
    case Conditional(c, a, b) => if TreeValue(c, env) != 0 then TreeValue(a, env) else TreeValue(b, env)
    case _ => 0
  }

  // No calls, accesses, members or addresses, whose values are not modelled.
  predicate OnlyArithmetic(e: Expr)
    decreases e
  {
    e.Op? ==> IsArithmetic(e.op) && forall i :: 0 <= i < |e.args| ==> OnlyArithmetic(e.args[i])
  }

  lemma ExtremumStep(values: seq<int>, isMin: bool, op: OpType)
    requires |values| > 1 && isMin == op.Min? && IsMinMax(op)
    ensures var n := |values| - 1;
            Extremum(values, isMin) == FunctionValue(OpName(op), Extremum(values[..n], isMin), values[n])
  {
  }

  lemma {:induction false} NestedValue(op: OpType, args: seq<Expr>, values: seq<int>, env: Env)
    requires IsMinMax(op) && args != [] && |values| == |args|
    requires forall i :: 0 <= i < |args| ==> TreeValue(ToTree(args[i]), env) == values[i]
    ensures TreeValue(Nested(OpName(op), args), env) == Extremum(values, op.Min?)
  {
    var n := |args| - 1;
    if n > 0 {
      NestedValue(op, args[..n], values[..n], env);
      ExtremumStep(values, op.Min?, op);
      InvokeValue(OpName(op), Nested(OpName(op), args[..n]), ToTree(args[n]), env);
    }
  }

  lemma InvokeValue(f: string, a: Tree, b: Tree, env: Env)
    ensures TreeValue(Invoke(Variable(f), [a, b]), env) == FunctionValue(f, TreeValue(a, env), TreeValue(b, env))
  {
  }

  predicate IsInfix(op: OpType) {
    IsArithmetic(op) && !IsMinMax(op) && !IsCond(op) && !op.FdivQ? && !op.Minus?
  }

  lemma InfixValue(op: OpType, x: int, y: int)
    requires IsInfix(op)
    ensures BinaryValue(OpToken(op), x, y) == Apply(op, [x, y])
  {
  }

  lemma BinaryTreeValue(op: OpType, a: Expr, b: Expr, env: Env)
    requires IsInfix(op) && TreeValue(ToTree(a), env) == Eval(a, env) && TreeValue(ToTree(b), env) == Eval(b, env)
    ensures TreeValue(ToTree(Op(op, [a, b])), env) == Eval(Op(op, [a, b]), env)
  {
    EvalBinary(op, a, b, env);
    InfixValue(op, Eval(a, env), Eval(b, env));
    assert ToTree(Op(op, [a, b])) == Binary(OpToken(op), ToTree(a), ToTree(b));
  }

  lemma FloordTreeValue(a: Expr, b: Expr, env: Env)
    requires TreeValue(ToTree(a), env) == Eval(a, env) && TreeValue(ToTree(b), env) == Eval(b, env)
    ensures TreeValue(ToTree(Op(FdivQ, [a, b])), env) == Eval(Op(FdivQ, [a, b]), env)
  {
    EvalBinary(FdivQ, a, b, env);
    InvokeValue("floord", ToTree(a), ToTree(b), env);
    assert ToTree(Op(FdivQ, [a, b])) == Invoke(Variable("floord"), [ToTree(a), ToTree(b)]);
  }

  lemma CondTreeValue(op: OpType, c: Expr, a: Expr, b: Expr, env: Env)
    requires IsCond(op) && TreeValue(ToTree(c), env) == Eval(c, env)
    requires TreeValue(ToTree(a), env) == Eval(a, env) && TreeValue(ToTree(b), env) == Eval(b, env)
    ensures TreeValue(ToTree(Op(op, [c, a, b])), env) == Eval(Op(op, [c, a, b]), env)
  {
    var args := [c, a, b];
    EvalAllAt(args, env);
    assert EvalAll(args, env) == [Eval(c, env), Eval(a, env), Eval(b, env)];
    assert ToTree(Op(op, args)) == Conditional(ToTree(c), ToTree(a), ToTree(b));
  }

  lemma {:induction false} ValueOfTree(e: Expr, env: Env)
    requires Printable(e) && OnlyArithmetic(e)
    ensures TreeValue(ToTree(e), env) == Eval(e, env)
    decreases e
  {
    if e.Op? {
      var op, args := e.op, e.args;
      forall i | 0 <= i < |args| ensures TreeValue(ToTree(args[i]), env) == Eval(args[i], env) {
        ValueOfTree(args[i], env);
      }
      OperationValue(op, args, env);
    }
  }

  lemma OperationValue(op: OpType, args: seq<Expr>, env: Env)
    requires Printable(Op(op, args)) && IsArithmetic(op)
    requires forall i :: 0 <= i < |args| ==> TreeValue(ToTree(args[i]), env) == Eval(args[i], env)
    ensures TreeValue(ToTree(Op(op, args)), env) == Eval(Op(op, args), env)
  {
    if IsMinMax(op) {
      ReductionValue(op, args, env);
    } else if op.Minus? {
      assert args == [args[0]];
      MinusValue(args[0], env);
    } else if op.FdivQ? {
      assert args == [args[0], args[1]];
      FloordTreeValue(args[0], args[1], env);
    } else if IsCond(op) {
      assert args == [args[0], args[1], args[2]];
      CondTreeValue(op, args[0], args[1], args[2], env);
    } else {
      assert args == [args[0], args[1]];
      BinaryTreeValue(op, args[0], args[1], env);
    }
  }

  lemma ReductionValue(op: OpType, args: seq<Expr>, env: Env)
    requires IsMinMax(op) && |args| >= 2
    requires forall i :: 0 <= i < |args| ==> TreeValue(ToTree(args[i]), env) == Eval(args[i], env)
    ensures TreeValue(ToTree(Op(op, args)), env) == Eval(Op(op, args), env)
  {
    EvalAllAt(args, env);
    NestedValue(op, args, EvalAll(args, env), env);
    assert ToTree(Op(op, args)) == Nested(OpName(op), args);
  }

  lemma MinusValue(a: Expr, env: Env)
    requires TreeValue(ToTree(a), env) == Eval(a, env)
    ensures TreeValue(ToTree(Op(Minus, [a])), env) == Eval(Op(Minus, [a]), env)
  {
    EvalUnary(Minus, a, env);
    assert ToTree(Op(Minus, [a])) == Unary(MinusSign, ToTree(a));
  }

  /** The text, read as C, has the value of the expression in every environment. */
  lemma PrintedValue(e: Expr, env: Env)
    requires Printable(e) && OnlyArithmetic(e)
    ensures Parse(15, Print(e, false)).Read? && Parse(15, Print(e, false)).rest == []
    ensures TreeValue(Parse(15, Print(e, false)).value, env) == Eval(e, env)
  {
    PrintReads(e);
    ValueOfTree(e, env);
  }
}
