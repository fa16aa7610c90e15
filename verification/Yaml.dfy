/** ASTs as YAML documents: printing in isl format and reading back. */
module Yaml {
  import opened AstExpr
  import opened Wrappers

  // What the YAML streams exchange.  Separators and layout are left to the streams.
  datatype Event = MapStart | MapEnd | SeqStart | SeqEnd | Scalar(text: string) | Name(id: string) | Number(v: int)

  type Events = seq<Event>

  datatype AstNode =
    | For(counter: string, loop: Bounds, body: Option<AstNode>)
    | Mark(id: string, node: AstNode)
    | User(expr: Expr)
    | If(guard: Expr, thenNode: Option<AstNode>, elseNode: Option<AstNode>)
    | Block(children: seq<AstNode>)

  // A degenerate loop has a single value.
  datatype Bounds = Degenerate(value: Expr) | Regular(init: Expr, cond: Expr, inc: Expr)

  /** The names of the operations. */

  const OPERATIONS: seq<OpType> := [
    And, AndThen, Or, OrElse, Max, Min, Minus, Add, Sub, Mul, Div, FdivQ, PdivQ, PdivR, ZdivR,
    Cond, Select, Eq, Le, Lt, Ge, Gt, Call, Access, Member, AddressOf
  ]

  function OpStr(op: OpType): string {
    match op
    case And => "and"
    case AndThen => "and_then"
    case Or => "or"
    case OrElse => "or_else"
    case Max => "max"
    case Min => "min"
    case Minus => "minus"
    case Add => "add"
    case Sub => "sub"
    case Mul => "mul"
    case Div => "div"
    case FdivQ => "fdiv_q"
    case PdivQ => "pdiv_q"
    case PdivR => "pdiv_r"
    case ZdivR => "zdiv_r"
    case Cond => "cond"
    case Select => "select"
    case Eq => "eq"
    case Le => "le"
    case Lt => "lt"
    case Ge => "ge"
    case Gt => "gt"
    case Call => "call"
    case Access => "access"
    case Member => "member"
    case AddressOf => "address_of"
  }

  // The names, in the order in which the operations are enumerated.
  const NAMES: seq<string> := [
    "and", "and_then", "or", "or_else", "max", "min", "minus", "add", "sub", "mul", "div",
    "fdiv_q", "pdiv_q", "pdiv_r", "zdiv_r", "cond", "select", "eq", "le", "lt", "ge", "gt",
    "call", "access", "member", "address_of"
  ]

  lemma NamesInOrder(op: OpType)
    ensures |NAMES| == |OPERATIONS| && OpStr(op) == NAMES[IndexOf(op)]
  {
  }

  // The loop of extract_key: the first operation with the given name.
  function FindOp(name: string, from: nat): (r: Option<OpType>)
    requires from <= |OPERATIONS|
    decreases |OPERATIONS| - from
  {
    if from == |OPERATIONS| then None
    else if OpStr(OPERATIONS[from]) == name then Some(OPERATIONS[from])
    else FindOp(name, from + 1)
  }

  function IndexOf(op: OpType): (k: nat)
    ensures k < |OPERATIONS| && OPERATIONS[k] == op
  {
    match op
    case And => 0
    case AndThen => 1
    case Or => 2
    case OrElse => 3
    case Max => 4
    case Min => 5
    case Minus => 6
    case Add => 7
    case Sub => 8
    case Mul => 9
    case Div => 10
    case FdivQ => 11
    case PdivQ => 12
    case PdivR => 13
    case ZdivR => 14
    case Cond => 15
    case Select => 16
    case Eq => 17
    case Le => 18
    case Lt => 19
    case Ge => 20
    case Gt => 21
    case Call => 22
    case Access => 23
    case Member => 24
    case AddressOf => 25
  }

  // Enough characters to tell all names apart.
  function Signature(s: string): (int, char, char, char) {
    if |s| < 2 then (|s|, ' ', ' ', ' ') else (|s|, s[0], s[1], s[|s| - 1])
  }

  lemma OpStrInjective(a: OpType, b: OpType)
    requires OpStr(a) == OpStr(b)
    ensures a == b
  {
    assert Signature(OpStr(a)) == Signature(OpStr(b));
  }

  lemma {:induction false} FindsOp(op: OpType, from: nat)
    requires from <= IndexOf(op)
    ensures FindOp(OpStr(op), from) == Some(op)
    decreases IndexOf(op) - from
  {
    if OpStr(OPERATIONS[from]) == OpStr(op) {
      OpStrInjective(OPERATIONS[from], op);
    } else {
      FindsOp(op, from + 1);
    }
  }

  /** Printing. */

  function PrintExpr(e: Expr): Events
    decreases e, 1
  {
    match e
    case Op(op, args) => [MapStart, Scalar("op"), Scalar(OpStr(op))] + PrintArguments(args) + [MapEnd]
    case Id(name) => [MapStart, Scalar("id"), Name(name), MapEnd]
    case Int(v) => [MapStart, Scalar("val"), Number(v), MapEnd]
  }

  // Nothing at all without arguments.
  function PrintArguments(args: seq<Expr>): Events
    decreases args, 1
  {
    if args == [] then [] else [Scalar("args"), SeqStart] + PrintExprs(args) + [SeqEnd]
  }

  function PrintExprs(es: seq<Expr>): Events
    decreases es, 0
  {
    if es == [] then [] else PrintExpr(es[0]) + PrintExprs(es[1..])
  }

  function PrintNode(n: AstNode): Events
    decreases n, 1
  {
    match n
    case For(counter, loop, body) =>
      [MapStart, Scalar("iterator")] + PrintExpr(Id(counter)) + PrintBounds(loop) + PrintField("body", body) + [MapEnd]
    case Mark(id, node) => [MapStart, Scalar("mark"), Name(id), Scalar("node")] + PrintNode(node) + [MapEnd]
    case User(expr) => [MapStart, Scalar("user")] + PrintExpr(expr) + [MapEnd]
    case If(guard, thenNode, elseNode) =>
      [MapStart, Scalar("guard")] + PrintExpr(guard) + PrintField("then", thenNode) + PrintField("else", elseNode) +
          [MapEnd]
    case Block(children) => [SeqStart] + PrintNodes(children) + [SeqEnd]
  }

  function PrintBounds(loop: Bounds): Events {
    match loop
    case Degenerate(value) => [Scalar("value")] + PrintExpr(value)
    case Regular(init, cond, inc) =>
      [Scalar("init")] + PrintExpr(init) + [Scalar("cond")] + PrintExpr(cond) + [Scalar("inc")] + PrintExpr(inc)
  }

  function PrintField(key: string, n: Option<AstNode>): Events
    decreases n, 2
  {
    if n.None? then [] else [Scalar(key)] + PrintNode(n.value)
  }

  function PrintNodes(ns: seq<AstNode>): Events
    decreases ns, 0
  {
    if ns == [] then [] else PrintNode(ns[0]) + PrintNodes(ns[1..])
  }

  /** Reading. */

  // eat_key
  predicate IsKey(s: Events, key: string) { s != [] && s[0] == Scalar(key) }

  function EndMapping<T>(value: T, s: Events): (r: Parsed<T, Event>)
    ensures r.Read? ==> |r.rest| < |s|
  {
    if s != [] && s[0].MapEnd? then Read(value, s[1..]) else Failed
  }

  function ReadExpr(s: Events): (r: Parsed<Expr, Event>)
    ensures r.Read? ==> |r.rest| < |s|
    decreases |s|, 1
  {
    if |s| < 3 || !s[0].MapStart? then Failed
    else if IsKey(s[1..], "op") then ReadOp(s[2..])
    else if IsKey(s[1..], "id") && s[2].Name? then EndMapping(Id(s[2].id), s[3..])
    else if IsKey(s[1..], "val") && s[2].Number? then EndMapping(Int(s[2].v), s[3..])
    else Failed
  }

  // The operation, the key "args" and the arguments.
  function ReadOp(s: Events): (r: Parsed<Expr, Event>)
    requires s != []
    ensures r.Read? ==> |r.rest| < |s|
    decreases |s|, 2
  {
    var op := if s[0].Scalar? then FindOp(s[0].text, 0) else None;
    if op.None? || !IsKey(s[1..], "args") || |s| < 3 || !s[2].SeqStart? then Failed
    else
      var args := ReadExprs(s[3..]);
      if args.Failed? then Failed else EndMapping(Op(op.value, args.value), args.rest)
  }

  // The elements of a sequence up to its end.
  function ReadExprs(s: Events): (r: Parsed<seq<Expr>, Event>)
    ensures r.Read? ==> |r.rest| < |s|
    decreases |s|, 2
  {
    if s == [] then Failed
    else if s[0].SeqEnd? then Read([], s[1..])
    else
      var e := ReadExpr(s);
      if e.Failed? then Failed
      else
        var more := ReadExprs(e.rest);
        if more.Failed? then Failed else Read([e.value] + more.value, more.rest)
  }

  function ReadNode(s: Events): (r: Parsed<AstNode, Event>)
    ensures r.Read? ==> |r.rest| < |s|
    decreases |s|, 1
  {
    if s == [] then Failed
    else if s[0].SeqStart? then
      var children := ReadNodes(s[1..]);
      if children.Failed? then Failed else Read(Block(children.value), children.rest)
    else if |s| < 3 || !s[0].MapStart? then Failed
    else if IsKey(s[1..], "iterator") then ReadFor(s[2..])
    else if IsKey(s[1..], "mark") then ReadMark(s[2..])
    else if IsKey(s[1..], "user") then
      var e := ReadExpr(s[2..]);
      if e.Failed? then Failed else EndMapping(User(e.value), e.rest)
    else if IsKey(s[1..], "guard") then ReadIf(s[2..])
    else Failed
  }

  function ReadFor(s: Events): (r: Parsed<AstNode, Event>)
    ensures r.Read? ==> |r.rest| < |s|
    decreases |s|, 2
  {
    var id := ReadExpr(s);
    if id.Failed? || !id.value.Id? then Failed
    else
      var loop := ReadBounds(id.rest);
      if loop.Failed? then Failed
      else
        var body := ReadField("body", loop.rest);
        if body.Failed? then Failed else EndMapping(For(id.value.name, loop.value, body.value), body.rest)
  }

  // "value" makes the loop degenerate; otherwise there are three expressions.
  function ReadBounds(s: Events): (r: Parsed<Bounds, Event>)
    ensures r.Read? ==> |r.rest| < |s|
  {
    if IsKey(s, "value") then
      var value := ReadExpr(s[1..]);
      if value.Failed? then Failed else Read(Degenerate(value.value), value.rest)
    else if !IsKey(s, "init") then Failed
    else
      var init := ReadExpr(s[1..]);
      if init.Failed? || !IsKey(init.rest, "cond") then Failed
      else
        var cond := ReadExpr(init.rest[1..]);
        if cond.Failed? || !IsKey(cond.rest, "inc") then Failed
        else
          var inc := ReadExpr(cond.rest[1..]);
          if inc.Failed? then Failed else Read(Regular(init.value, cond.value, inc.value), inc.rest)
  }

  // The node under the key, unless this is the end of the mapping.
  function ReadField(key: string, s: Events): (r: Parsed<Option<AstNode>, Event>)
    ensures r.Read? ==> |r.rest| <= |s|
    decreases |s|, 3
  {
    if s == [] then Failed
    else if s[0].MapEnd? then Read(None, s)
    else if !IsKey(s, key) then Failed
    else
      var n := ReadNode(s[1..]);
      if n.Failed? then Failed else Read(Some(n.value), n.rest)
  }

  function ReadMark(s: Events): (r: Parsed<AstNode, Event>)
    ensures r.Read? ==> |r.rest| < |s|
    decreases |s|, 2
  {
    if |s| < 2 || !s[0].Name? || !IsKey(s[1..], "node") then Failed
    else
      var n := ReadNode(s[2..]);
      if n.Failed? then Failed else EndMapping(Mark(s[0].id, n.value), n.rest)
  }

  // Without "then" there is no "else".
  function ReadIf(s: Events): (r: Parsed<AstNode, Event>)
    ensures r.Read? ==> |r.rest| < |s|
    decreases |s|, 4
  {
    var guard := ReadExpr(s);
    if guard.Failed? then Failed
    else
      var thenNode := ReadField("then", guard.rest);
      if thenNode.Failed? then Failed
      else if thenNode.value.None? then EndMapping(If(guard.value, None, None), thenNode.rest)
      else
        var elseNode := ReadField("else", thenNode.rest);
        if elseNode.Failed? then Failed
        else EndMapping(If(guard.value, thenNode.value, elseNode.value), elseNode.rest)
  }

  function ReadNodes(s: Events): (r: Parsed<seq<AstNode>, Event>)
    ensures r.Read? ==> |r.rest| < |s|
    decreases |s|, 2
  {
    if s == [] then Failed
    else if s[0].SeqEnd? then Read([], s[1..])
    else
      var n := ReadNode(s);
      if n.Failed? then Failed
      else
        var more := ReadNodes(n.rest);
        if more.Failed? then Failed else Read([n.value] + more.value, more.rest)
  }

  /** What can be read back: operations with at least one argument, and no else branch
      without a then branch. */

  predicate ReadableExpr(e: Expr)
    decreases e
  {
    e.Op? ==> e.args != [] && forall i :: 0 <= i < |e.args| ==> ReadableExpr(e.args[i])
  }

  predicate ReadableBounds(loop: Bounds) {
    match loop
    case Degenerate(value) => ReadableExpr(value)
    case Regular(init, cond, inc) => ReadableExpr(init) && ReadableExpr(cond) && ReadableExpr(inc)
  }

  predicate Readable(n: AstNode)
    decreases n
  {
    match n
    case For(_, loop, body) => ReadableBounds(loop) && (body.Some? ==> Readable(body.value))
    case Mark(_, node) => Readable(node)
    case User(expr) => ReadableExpr(expr)
    case If(guard, thenNode, elseNode) =>
      && ReadableExpr(guard)
      && (thenNode.Some? ==> Readable(thenNode.value))
      && (elseNode.Some? ==> thenNode.Some? && Readable(elseNode.value))
    case Block(children) => forall i :: 0 <= i < |children| ==> Readable(children[i])
  }

  // What reading `text` should give when what was printed can (or cannot) be read back.
  function Expected<T, S>(readable: bool, value: T, rest: seq<S>): Parsed<T, S> {
    if readable then Read(value, rest) else Failed
  }

  lemma Group(x: Events, y: Events, z: Events)
    ensures x + y + z == x + (y + z)
  {
  }

  lemma Headed(h: Events, x: Events, e: Event, rest: Events)
    ensures h + x + [e] + rest == h + (x + ([e] + rest)) && ([e] + rest)[1..] == rest
  {
    Group(h + x, [e], rest);
    Group(h, x, [e] + rest);
  }

  lemma {:induction false} ExprRead(e: Expr, rest: Events)
    ensures ReadExpr(PrintExpr(e) + rest) == Expected(ReadableExpr(e), e, rest)
    decreases e, 1
  {
    match e
    case Id(name) =>
      var s := PrintExpr(e) + rest;
      assert s[1] == Scalar("id") && s[2] == Name(name) && s[3..] == [MapEnd] + rest && ([MapEnd] + rest)[1..] == rest;
    case Int(v) =>
      var s := PrintExpr(e) + rest;
      assert s[1] == Scalar("val") && s[2] == Number(v) && s[3..] == [MapEnd] + rest && ([MapEnd] + rest)[1..] == rest;
    case Op(op, args) => OpRead(op, args, rest);
  }

  lemma OpRead(op: OpType, args: seq<Expr>, rest: Events)
    ensures ReadExpr(PrintExpr(Op(op, args)) + rest) == Expected(ReadableExpr(Op(op, args)), Op(op, args), rest)
    decreases args, 1
  {
    if args == [] {
      NoArgumentsRead(op, rest);
    } else {
      var x := PrintExprs(args);
      ArgumentsLayout(op, x, rest);
      ArgumentsRead(op, x + ([SeqEnd] + ([MapEnd] + rest)));
      ExprsRead(args, [MapEnd] + rest);
      ReadableOp(op, args);
    }
  }

  lemma ReadableOp(op: OpType, args: seq<Expr>)
    ensures ReadableExpr(Op(op, args)) <==> args != [] && AllReadable(args)
  {
  }

  lemma NoArgumentsRead(op: OpType, rest: Events)
    ensures ReadExpr(PrintExpr(Op(op, [])) + rest).Failed?
  {
    var s := [MapStart, Scalar("op"), Scalar(OpStr(op)), MapEnd] + rest;
    assert PrintExpr(Op(op, [])) == [MapStart, Scalar("op"), Scalar(OpStr(op))] + [] + [MapEnd];
    assert PrintExpr(Op(op, [])) + rest == s;
    assert s[2..][1] == MapEnd;
  }

  // Reading an operation comes down to reading its arguments.
  lemma ArgumentsRead(op: OpType, x: Events)
    ensures ReadExpr([MapStart, Scalar("op"), Scalar(OpStr(op)), Scalar("args"), SeqStart] + x) ==
            var args := ReadExprs(x);
            if args.Failed? then Failed else EndMapping(Op(op, args.value), args.rest)
  {
    var s := [MapStart, Scalar("op"), Scalar(OpStr(op)), Scalar("args"), SeqStart] + x;
    FindsOp(op, 0);
    assert s[2..][0] == Scalar(OpStr(op)) && s[2..][1] == Scalar("args") && s[2..][2] == SeqStart && s[2..][3..] == x;
  }

  lemma ArgumentsLayout(op: OpType, x: Events, rest: Events)
    ensures [MapStart, Scalar("op"), Scalar(OpStr(op))] + ([Scalar("args"), SeqStart] + x + [SeqEnd]) + [MapEnd] +
            rest ==
            [MapStart, Scalar("op"), Scalar(OpStr(op)), Scalar("args"), SeqStart] + (x + ([SeqEnd] + ([MapEnd] + rest)))
    ensures ([MapEnd] + rest)[1..] == rest
  {
    var h := [MapStart, Scalar("op"), Scalar(OpStr(op))];
    Group(h + ([Scalar("args"), SeqStart] + x + [SeqEnd]), [MapEnd], rest);
    Group(h, [Scalar("args"), SeqStart] + x + [SeqEnd], [MapEnd] + rest);
    Headed([Scalar("args"), SeqStart], x, SeqEnd, [MapEnd] + rest);
  }

  lemma ExprStarts(e: Expr)
    ensures PrintExpr(e) != [] && PrintExpr(e)[0] == MapStart
  {
  }

  predicate AllReadable(es: seq<Expr>) { forall i :: 0 <= i < |es| ==> ReadableExpr(es[i]) }

  lemma {:induction false} ExprsRead(es: seq<Expr>, rest: Events)
    ensures ReadExprs(PrintExprs(es) + ([SeqEnd] + rest)) == Expected(AllReadable(es), es, rest)
    decreases es, 0
  {
    var r := [SeqEnd] + rest;
    assert r[1..] == rest;
    if es == [] {
      assert PrintExprs(es) + r == r;
    } else {
      var x, more := PrintExpr(es[0]), PrintExprs(es[1..]);
      Group(x, more, r);
      ExprStarts(es[0]);
      ExprRead(es[0], more + r);
      ExprsRead(es[1..], rest);
      assert es == [es[0]] + es[1..];
      AllReadableStep(es);
    }
  }

  lemma AllReadableStep(es: seq<Expr>)
    requires es != []
    ensures AllReadable(es) <==> ReadableExpr(es[0]) && AllReadable(es[1..])
  {
    if ReadableExpr(es[0]) && AllReadable(es[1..]) {
      forall i | 0 <= i < |es| ensures ReadableExpr(es[i]) { assert i > 0 ==> es[i] == es[1..][i - 1]; }
    }
  }

  /** Nodes. */

  lemma KeyRead(key: string, x: Events, rest: Events)
    ensures [Scalar(key)] + x + rest == [Scalar(key)] + (x + rest)
    ensures ([Scalar(key)] + (x + rest))[1..] == x + rest
  {
    Group([Scalar(key)], x, rest);
  }

  // What is below a key is not mistaken for the end of the mapping, or for another key.
  lemma BoundsRead(loop: Bounds, rest: Events)
    ensures ReadBounds(PrintBounds(loop) + rest) == Expected(ReadableBounds(loop), loop, rest)
  {
    match loop
    case Degenerate(value) =>
      KeyRead("value", PrintExpr(value), rest);
      ExprRead(value, rest);
    case Regular(init, cond, inc) =>
      var r2 := [Scalar("inc")] + (PrintExpr(inc) + rest);
      var r1 := [Scalar("cond")] + (PrintExpr(cond) + r2);
      BoundsLayout(PrintExpr(init), PrintExpr(cond), PrintExpr(inc), rest);
      ExprRead(init, r1);
      ExprRead(cond, r2);
      ExprRead(inc, rest);
  }

  lemma BoundsLayout(a: Events, b: Events, c: Events, rest: Events)
    ensures var r2 := [Scalar("inc")] + (c + rest);
            var r1 := [Scalar("cond")] + (b + r2);
            && [Scalar("init")] + a + [Scalar("cond")] + b + [Scalar("inc")] + c + rest == [Scalar("init")] + (a + r1)
            && ([Scalar("init")] + (a + r1))[1..] == a + r1 && r1[1..] == b + r2 && r2[1..] == c + rest
  {
    var h := [Scalar("init")] + a + [Scalar("cond")] + b;
    Group(h + [Scalar("inc")], c, rest);
    Group(h, [Scalar("inc")], c + rest);
    Group([Scalar("init")] + a + [Scalar("cond")], b, [Scalar("inc")] + (c + rest));
    Group([Scalar("init")] + a, [Scalar("cond")], b + ([Scalar("inc")] + (c + rest)));
    Group([Scalar("init")], a, [Scalar("cond")] + (b + ([Scalar("inc")] + (c + rest))));
  }

  // The field may be missing: then the mapping ends here or goes on with another key.
  lemma FieldRead(key: string, n: Option<AstNode>, rest: Events)
    requires rest != [] && (n.None? ==> rest[0] != Scalar(key))
    ensures ReadField(key, PrintField(key, n) + rest) ==
            if n.None? then (if rest[0].MapEnd? then Read(None, rest) else Failed)
            else Expected(Readable(n.value), n, rest)
    decreases n, 3
  {
    if n.None? {
      assert [] + rest == rest;
    } else {
      KeyRead(key, PrintNode(n.value), rest);
      NodeRead(n.value, rest);
    }
  }

  lemma {:induction false} NodeRead(n: AstNode, rest: Events)
    ensures ReadNode(PrintNode(n) + rest) == Expected(Readable(n), n, rest)
    decreases n, 2
  {
    match n
    case For(_, _, _) => ForRead(n, rest);
    case Mark(_, _) => MarkRead(n, rest);
    case User(expr) => UserRead(expr, rest);
    case If(_, _, _) => IfRead(n, rest);
    case Block(children) =>
      Headed([SeqStart], PrintNodes(children), SeqEnd, rest);
      assert ([SeqStart] + (PrintNodes(children) + ([SeqEnd] + rest)))[1..] == PrintNodes(children) + ([SeqEnd] + rest);
      NodesRead(children, rest);
  }

  // { key: x } is entered at x.
  lemma MappingLayout(key: string, x: Events, rest: Events)
    requires x != []
    ensures var s, r := [MapStart, Scalar(key)] + x + [MapEnd] + rest, [MapEnd] + rest;
            && |s| >= 3 && s[0] == MapStart && s[1] == Scalar(key) && s[2..] == x + r && r[1..] == rest
  {
    Headed([MapStart, Scalar(key)], x, MapEnd, rest);
  }

  lemma UserRead(expr: Expr, rest: Events)
    ensures ReadNode(PrintNode(User(expr)) + rest) == Expected(ReadableExpr(expr), User(expr), rest)
  {
    ExprStarts(expr);
    MappingLayout("user", PrintExpr(expr), rest);
    ExprRead(expr, [MapEnd] + rest);
  }

  lemma MarkRead(n: AstNode, rest: Events)
    requires n.Mark?
    ensures ReadNode(PrintNode(n) + rest) == Expected(Readable(n), n, rest)
    decreases n, 1
  {
    MarkLayout(n.id, PrintNode(n.node), rest);
    NodeRead(n.node, [MapEnd] + rest);
  }

  lemma MarkLayout(id: string, x: Events, rest: Events)
    ensures var s, r := [MapStart, Scalar("mark"), Name(id), Scalar("node")] + x + [MapEnd] + rest, [MapEnd] + rest;
            && |s| >= 4 && s[0] == MapStart && s[1] == Scalar("mark") && s[2] == Name(id) && s[3] == Scalar("node")
            && s[2..][2..] == x + r && s[2..][1..][0] == Scalar("node") && r[1..] == rest
  {
    Headed([MapStart, Scalar("mark"), Name(id), Scalar("node")], x, MapEnd, rest);
  }

  lemma ForRead(n: AstNode, rest: Events)
    requires n.For?
    ensures ReadNode(PrintNode(n) + rest) == Expected(Readable(n), n, rest)
    decreases n, 1
  {
    var r := [MapEnd] + rest;
    var i, l, b := PrintExpr(Id(n.counter)), PrintBounds(n.loop), PrintField("body", n.body);
    ForLayout(i, l, b, rest);
    ExprRead(Id(n.counter), l + (b + r));
    BoundsRead(n.loop, b + r);
    FieldRead("body", n.body, r);
  }

  lemma ForLayout(i: Events, l: Events, b: Events, rest: Events)
    requires i != []
    ensures var s, r := [MapStart, Scalar("iterator")] + i + l + b + [MapEnd] + rest, [MapEnd] + rest;
            && |s| >= 3 && s[0] == MapStart && s[1] == Scalar("iterator") && s[2..] == i + (l + (b + r)) &&
                 r[1..] == rest
  {
    var h := [MapStart, Scalar("iterator")];
    assert h + i + l + b == h + (i + l + b) by { Group(h + i, l, b); Group(h, i, l + b); Group(i, l, b); }
    MappingLayout("iterator", i + l + b, rest);
    Group(i + l, b, [MapEnd] + rest);
    Group(i, l, b + ([MapEnd] + rest));
  }

  // What ReadIf makes of the guard and the two branches.
  lemma IfAssembled(n: AstNode, s: Events, t: Events, e: Events, rest: Events, g: bool, a: bool, b: bool)
    requires n.If? && ReadExpr(s) == Expected(g, n.guard, t)
    requires ReadField("then", t) ==
             if n.thenNode.None? then (if n.elseNode.None? then Read(None, e) else Failed)
                 else Expected(a, n.thenNode, e)
    requires ReadField("else", e) == if n.elseNode.None? then Read(None, e)
             else Expected(b, n.elseNode, [MapEnd] + rest)
    requires n.elseNode.None? ==> e == [MapEnd] + rest
    ensures ReadIf(s) == Expected(g && (n.thenNode.Some? ==> a) && (n.elseNode.Some? ==> n.thenNode.Some? && b), n,
            rest)
  {
    assert ([MapEnd] + rest)[1..] == rest;
  }

  lemma IfRead(n: AstNode, rest: Events)
    requires n.If?
    ensures ReadNode(PrintNode(n) + rest) == Expected(Readable(n), n, rest)
    decreases n, 1
  {
    var r := [MapEnd] + rest;
    var g, t, e := PrintExpr(n.guard), PrintField("then", n.thenNode), PrintField("else", n.elseNode);
    ExprStarts(n.guard);
    IfLayout(g, t, e, rest);
    ExprRead(n.guard, t + (e + r));
    assert n.elseNode.None? ==> e + r == r;
    FieldRead("then", n.thenNode, e + r);
    FieldRead("else", n.elseNode, r);
    IfAssembled(n, g + (t + (e + r)), t + (e + r), e + r, rest, ReadableExpr(n.guard),
                n.thenNode.Some? && Readable(n.thenNode.value), n.elseNode.Some? && Readable(n.elseNode.value));
    GuardEntered(PrintNode(n) + rest);
  }

  lemma {:induction false} GuardEntered(s: Events)
    requires |s| >= 3 && s[0] == MapStart && s[1] == Scalar("guard")
    ensures ReadNode(s) == ReadIf(s[2..])
  {
  }

  lemma IfLayout(g: Events, t: Events, e: Events, rest: Events)
    requires g != []
    ensures var s, r := [MapStart, Scalar("guard")] + g + t + e + [MapEnd] + rest, [MapEnd] + rest;
            && |s| >= 3 && s[0] == MapStart && s[1] == Scalar("guard") && s[2..] == g + (t + (e + r)) && r[1..] == rest
  {
    var h := [MapStart, Scalar("guard")];
    assert h + g + t + e == h + (g + t + e) by { Group(h + g, t, e); Group(h, g, t + e); Group(g, t, e); }
    MappingLayout("guard", g + t + e, rest);
    Group(g + t, e, [MapEnd] + rest);
    Group(g, t, e + ([MapEnd] + rest));
  }

  lemma NodeStarts(n: AstNode)
    ensures PrintNode(n) != [] && (PrintNode(n)[0] == MapStart || PrintNode(n)[0] == SeqStart)
  {
  }

  predicate AllNodesReadable(ns: seq<AstNode>) { forall i :: 0 <= i < |ns| ==> Readable(ns[i]) }

  lemma {:induction false} NodesRead(ns: seq<AstNode>, rest: Events)
    ensures ReadNodes(PrintNodes(ns) + ([SeqEnd] + rest)) == Expected(AllNodesReadable(ns), ns, rest)
    decreases ns, 0
  {
    var r := [SeqEnd] + rest;
    assert r[1..] == rest;
    if ns == [] {
      assert PrintNodes(ns) + r == r;
    } else {
      var x, more := PrintNode(ns[0]), PrintNodes(ns[1..]);
      Group(x, more, r);
      NodeStarts(ns[0]);
      NodeRead(ns[0], more + r);
      NodesRead(ns[1..], rest);
      assert ns == [ns[0]] + ns[1..];
      AllNodesReadableStep(ns);
    }
  }

  lemma AllNodesReadableStep(ns: seq<AstNode>)
    requires ns != []
    ensures AllNodesReadable(ns) <==> Readable(ns[0]) && AllNodesReadable(ns[1..])
  {
    if Readable(ns[0]) && AllNodesReadable(ns[1..]) {
      forall i | 0 <= i < |ns| ensures Readable(ns[i]) { assert i > 0 ==> ns[i] == ns[1..][i - 1]; }
    }
  }

  /** A printed tree is read back exactly when it is readable; otherwise reading fails. */
  lemma RoundTrip(n: AstNode)
    ensures ReadNode(PrintNode(n)) == if Readable(n) then Read(n, []) else Failed
  {
    NodeRead(n, []);
    assert PrintNode(n) + [] == PrintNode(n);
  }

  lemma ExprRoundTrip(e: Expr)
    ensures ReadExpr(PrintExpr(e)) == if ReadableExpr(e) then Read(e, []) else Failed
  {
    ExprRead(e, []);
    assert PrintExpr(e) + [] == PrintExpr(e);
  }

  // Printing does not lose anything that can be read back.
  lemma PrintInjective(n: AstNode, n': AstNode)
    requires Readable(n) && PrintNode(n) == PrintNode(n')
    ensures n == n'
  {
    RoundTrip(n);
    RoundTrip(n');
  }
}
