/** Guarded code assembly: turning guards into if nodes, and merging guarded lists. */
module Graft {
  import opened QuasiAffine
  import opened AstExpr
  import opened AstBuild
  import opened Wrappers
  import opened AstFromSet

  datatype Node =
    | User(id: nat)
    | If(cond: Expr, thenNode: Node, elseNode: Option<Node>)
    | Block(children: seq<Node>)

  datatype Graft = Graft(guard: Set, node: Node)

  /** What runs: the user statements, in order. */

  function Run(n: Node, env: Env): seq<nat>
    decreases n, 1
  {
    match n
    case User(id) => [id]
    case If(cond, thenNode, elseNode) =>
      if Eval(cond, env) != 0 then Run(thenNode, env)
      else if elseNode.Some? then Run(elseNode.value, env) else []
    case Block(children) => RunAll(children, env)
  }

  function RunAll(ns: seq<Node>, env: Env): seq<nat>
    decreases ns, 0
  {
    if ns == [] then [] else Run(ns[0], env) + RunAll(ns[1..], env)
  }

  function Nodes(gs: seq<Graft>): (ns: seq<Node>)
    ensures |ns| == |gs| && forall i :: 0 <= i < |gs| ==> ns[i] == gs[i].node
  {
    seq(|gs|, i requires 0 <= i < |gs| => gs[i].node)
  }

  // What the guards stand for: at x, a graft runs when x is in its guard.
  ghost function RunGuarded(g: Graft, ls: LocalSpace, x: Vec, env: Env): seq<nat> {
    if Contains(ls, g.guard, x) then Run(g.node, env) else []
  }

  ghost function RunGrafts(gs: seq<Graft>, ls: LocalSpace, x: Vec, env: Env): seq<nat> {
    if gs == [] then [] else RunGrafts(gs[..|gs| - 1], ls, x, env) + RunGuarded(gs[|gs| - 1], ls, x, env)
  }

  ghost predicate ValidGrafts(ls: LocalSpace, gs: seq<Graft>) {
    forall i :: 0 <= i < |gs| ==> ValidSet(ls, gs[i].guard)
  }

  lemma {:induction false} RunAllAppend(a: seq<Node>, b: seq<Node>, env: Env)
    ensures RunAll(a + b, env) == RunAll(a, env) + RunAll(b, env)
  {
    if a == [] {
      assert a + b == b;
    } else {
      assert (a + b)[1..] == a[1..] + b;
      RunAllAppend(a[1..], b, env);
    }
  }

  lemma RunAllLast(ns: seq<Node>, env: Env)
    requires ns != []
    ensures RunAll(ns, env) == RunAll(ns[..|ns| - 1], env) + Run(ns[|ns| - 1], env)
  {
    var n := |ns| - 1;
    assert ns == ns[..n] + [ns[n]];
    RunAllAppend(ns[..n], [ns[n]], env);
    assert RunAll([ns[n]], env) == Run(ns[n], env);
  }

  /** Extending a branch of an if node that is the last thing to run in a tree.

      The C code keeps pointers to such if nodes.  Here a node is named by its path:
      starting from the root, take a branch and its last node, again and again. */

  datatype Branch = Then | Else
  type Path = seq<Branch>

  function BodyOf(n: Node, d: Branch): Option<Node>
    requires n.If?
  {
    if d.Then? then Some(n.thenNode) else n.elseNode
  }

  function WithBody(n: Node, d: Branch, body: Node): Node
    requires n.If?
  {
    if d.Then? then n.(thenNode := body) else n.(elseNode := Some(body))
  }

  function LastOf(body: Node): Node {
    if body.Block? && body.children != [] then body.children[|body.children| - 1] else body
  }

  function WithLast(body: Node, n: Node): Node {
    if body.Block? && body.children != [] then Block(body.children[|body.children| - 1 := n]) else n
  }

  // Does the path lead to an if node?
  predicate Located(n: Node, path: Path)
    decreases |path|
  {
    n.If? && (path != [] ==> BodyOf(n, path[0]).Some? && Located(LastOf(BodyOf(n, path[0]).value), path[1..]))
  }

  // Is branch d of the if node at the path taken?
  predicate Reaches(n: Node, path: Path, d: Branch, env: Env)
    requires Located(n, path)
    decreases |path|
  {
    var taken := if Eval(n.cond, env) != 0 then Then else Else;
    if path == [] then taken == d
    else taken == path[0] && Reaches(LastOf(BodyOf(n, path[0]).value), path[1..], d, env)
  }

  // extend_body: the branch may be missing, a block, or a single node.
  function ExtendBody(body: Option<Node>, n: Node): Node {
    if body.None? then n
    else if body.value.Block? then Block(body.value.children + [n])
    else Block([body.value, n])
  }

  function ExtendAt(root: Node, path: Path, d: Branch, n: Node): Node
    requires Located(root, path)
    decreases |path|
  {
    if path == [] then WithBody(root, d, ExtendBody(BodyOf(root, d), n))
    else
      var body := BodyOf(root, path[0]).value;
      WithBody(root, path[0], WithLast(body, ExtendAt(LastOf(body), path[1..], d, n)))
  }

  lemma RunExtendBody(body: Option<Node>, n: Node, env: Env)
    ensures Run(ExtendBody(body, n), env) == (if body.Some? then Run(body.value, env) else []) + Run(n, env)
  {
    if body.Some? {
      assert RunAll([n], env) == Run(n, env);
      if body.value.Block? {
        RunAllAppend(body.value.children, [n], env);
      } else {
        assert [body.value, n][1..] == [n];
      }
    }
  }

  lemma RunWithLast(body: Node, n: Node, extra: seq<nat>, env: Env)
    requires Run(n, env) == Run(LastOf(body), env) + extra
    ensures Run(WithLast(body, n), env) == Run(body, env) + extra
  {
    if body.Block? && body.children != [] {
      var k := |body.children| - 1;
      RunAllLast(body.children, env);
      RunAllLast(body.children[k := n], env);
      assert body.children[k := n][..k] == body.children[..k];
    }
  }

  // The node that is added runs last, exactly when its branch is reached.
  lemma {:induction false} RunExtendAt(root: Node, path: Path, d: Branch, n: Node, env: Env)
    requires Located(root, path)
    ensures Run(ExtendAt(root, path, d, n), env) ==
            Run(root, env) + (if Reaches(root, path, d, env) then Run(n, env) else [])
    decreases |path|
  {
    if path == [] {
      RunExtendBody(BodyOf(root, d), n, env);
    } else {
      var body := BodyOf(root, path[0]).value;
      var extra := if Reaches(LastOf(body), path[1..], d, env) then Run(n, env) else [];
      RunExtendAt(LastOf(body), path[1..], d, n, env);
      RunWithLast(body, ExtendAt(LastOf(body), path[1..], d, n), extra, env);
    }
  }

  lemma LastOfWithLast(body: Node, n: Node)
    requires LastOf(body).If? && n.If?
    ensures LastOf(WithLast(body, n)) == n
  {
  }

  // Adding a node keeps every if node on the way, and what reaches it.
  lemma {:induction false} ExtendKeeps(root: Node, path: Path, d: Branch, n: Node, k: nat)
    requires Located(root, path) && k <= |path|
    ensures Located(root, path[..k]) && Located(ExtendAt(root, path, d, n), path[..k])
    ensures forall e, env :: Reaches(ExtendAt(root, path, d, n), path[..k], e, env) == Reaches(root, path[..k], e, env)
    decreases |path|
  {
    var r := ExtendAt(root, path, d, n);
    if k > 0 {
      var body := BodyOf(root, path[0]).value;
      var inner := ExtendAt(LastOf(body), path[1..], d, n);
      ExtendKeeps(LastOf(body), path[1..], d, n, k - 1);
      LastOfWithLast(body, inner);
      assert path[..k][0] == path[0] && path[..k][1..] == path[1..][..k - 1];
      assert LastOf(BodyOf(r, path[0]).value) == inner;
    }
  }

  // An if node that is added can be extended in turn.
  lemma {:induction false} ExtendLocates(root: Node, path: Path, d: Branch, n: Node)
    requires Located(root, path) && n.If?
    ensures Located(ExtendAt(root, path, d, n), path + [d])
    ensures forall e, env :: Reaches(ExtendAt(root, path, d, n), path + [d], e, env) ==
              (Reaches(root, path, d, env) && (Eval(n.cond, env) != 0) == e.Then?)
    decreases |path|
  {
    var r := ExtendAt(root, path, d, n);
    if path == [] {
      assert LastOf(BodyOf(r, d).value) == n;
      assert ([] + [d])[1..] == [];
    } else {
      var body := BodyOf(root, path[0]).value;
      var inner := ExtendAt(LastOf(body), path[1..], d, n);
      ExtendLocates(LastOf(body), path[1..], d, n);
      LastOfWithLast(body, inner);
      assert (path + [d])[0] == path[0] && (path + [d])[1..] == path[1..] + [d];
      assert LastOf(BodyOf(r, path[0]).value) == inner;
    }
  }

  /** Inserting the pending guards. */

  // An if node that can still be extended: the branch of the previous one that it is
  // in, its guard, and the part of that branch's points outside the guard.
  datatype IfNode = IfNode(within: Branch, guard: Set, complement: Set)

  function PathTo(stack: seq<IfNode>): (p: Path)
    requires stack != []
    ensures |p| == |stack| - 1 && forall i :: 0 <= i < |p| ==> p[i] == stack[i + 1].within
  {
    seq(|stack| - 1, i requires 0 <= i < |stack| - 1 => stack[i + 1].within)
  }

  function BranchSet(e: IfNode, d: Branch): Set { if d.Then? then e.guard else e.complement }

  predicate IsPlainUniverse(s: Set) {
    exists i :: 0 <= i < |s| && s[i] == []
  }

  // An if node around `node`, unless there is obviously nothing to test.
  function InsertIf(node: Node, guard: Set, b: Build): Node
    requires b.Valid() && ValidSet(b.ls, guard)
  {
    if IsPlainUniverse(guard) then node else If(FromSet(guard, b), node, None)
  }

  ghost predicate ValidStack(ls: LocalSpace, stack: seq<IfNode>) {
    forall i :: 0 <= i < |stack| ==> ValidSet(ls, stack[i].guard) && ValidSet(ls, stack[i].complement)
  }

  // The stack describes if nodes of the last graft, and the branches of each are
  // taken exactly at its guard and its complement.
  ghost predicate StackAt(res: seq<Graft>, stack: seq<IfNode>, b: Build, x: Vec, env: Env) {
    stack != [] ==> res != [] && StackFits(res[|res| - 1].node, stack, b, x, env)
  }

  ghost predicate StackFits(root: Node, stack: seq<IfNode>, b: Build, x: Vec, env: Env) {
    forall k: nat :: k < |stack| ==> EntryAt(root, stack, k, b, x, env)
  }

  ghost predicate EntryAt(root: Node, stack: seq<IfNode>, k: nat, b: Build, x: Vec, env: Env)
    requires k < |stack|
  {
    var path := PathTo(stack[..k + 1]);
    && Located(root, path)
    && (Reaches(root, path, Then, env) <==> Contains(b.ls, stack[k].guard, x))
    && (Reaches(root, path, Else, env) <==> Contains(b.ls, stack[k].complement, x))
  }

  // The list built so far runs what the first grafts should run.
  ghost predicate ProgressAt(res: seq<Graft>, stack: seq<IfNode>, input: seq<Graft>, b: Build, x: Vec, env: Env) {
    RunAll(Nodes(res), env) == RunGrafts(input, b.ls, x, env) && StackAt(res, stack, b, x, env)
  }

  ghost predicate Progress(res: seq<Graft>, stack: seq<IfNode>, input: seq<Graft>, b: Build) {
    forall x, env :: b.At(x, env) ==> ProgressAt(res, stack, input, b, x, env)
  }

  // A stack cut at an entry that stays.
  lemma CutStack(root: Node, stack: seq<IfNode>, n: nat, b: Build, x: Vec, env: Env)
    requires StackFits(root, stack, b, x, env) && n <= |stack|
    ensures StackFits(root, stack[..n], b, x, env)
  {
    forall k: nat | k < n ensures EntryAt(root, stack[..n], k, b, x, env) {
      assert stack[..n][..k + 1] == stack[..k + 1];
      assert EntryAt(root, stack, k, b, x, env);
    }
  }

  // The if node (if any) that becomes extendable: inserted within `branchSet`.
  function NewEntry(d: Branch, branchSet: Set, guard: Set, b: Build): IfNode {
    IfNode(d, guard, b.ops.subtract(branchSet, guard))
  }

  // A guard simplified within the branch it is nested in.
  function Simplified(guard: Set, branchSet: Set, b: Build): Set { b.ops.gist(guard, branchSet) }

  // Where the branch is taken, the inserted node runs exactly when x is in the guard.
  lemma InsertIfRuns(node: Node, guard: Set, branchSet: Set, b: Build, x: Vec, env: Env)
    requires b.Valid() && ValidSet(b.ls, guard) && ValidSet(b.ls, branchSet) && b.At(x, env)
    requires Contains(b.ls, branchSet, x)
    ensures ValidSet(b.ls, Simplified(guard, branchSet, b))
    ensures var n := InsertIf(node, Simplified(guard, branchSet, b), b);
            && Run(n, env) == (if Contains(b.ls, guard, x) then Run(node, env) else [])
            && (n != node ==> n.If? && (Eval(n.cond, env) != 0 <==> Contains(b.ls, guard, x)))
  {
    InsertRuns(node, Simplified(guard, branchSet, b), b, x, env);
  }

  lemma UniverseContains(ls: LocalSpace, s: Set, x: Vec)
    requires ls.Valid() && ValidSet(ls, s) && |x| == ls.nvar && IsPlainUniverse(s)
    ensures Contains(ls, s, x)
  {
    var i :| 0 <= i < |s| && s[i] == [];
    assert InBasic(ls, s[i], x);
  }

  lemma InsertRuns(node: Node, guard: Set, b: Build, x: Vec, env: Env)
    requires b.Valid() && ValidSet(b.ls, guard) && b.At(x, env)
    ensures var n := InsertIf(node, guard, b);
            && Run(n, env) == (if Contains(b.ls, guard, x) then Run(node, env) else [])
            && (n != node ==> n.If? && (Eval(n.cond, env) != 0 <==> Contains(b.ls, guard, x)))
  {
    FromSetDecides(guard, b, x, env);
    if IsPlainUniverse(guard) { UniverseContains(b.ls, guard, x); }
  }

  lemma NodesAppend(res: seq<Graft>, g: Graft, env: Env)
    ensures RunAll(Nodes(res + [g]), env) == RunAll(Nodes(res), env) + Run(g.node, env)
  {
    assert Nodes(res + [g]) == Nodes(res) + [g.node];
    RunAllAppend(Nodes(res), [g.node], env);
    assert RunAll([g.node], env) == Run(g.node, env);
  }

  lemma NodesReplaceLast(res: seq<Graft>, g: Graft, extra: seq<nat>, env: Env)
    requires res != [] && Run(g.node, env) == Run(res[|res| - 1].node, env) + extra
    ensures RunAll(Nodes(res[|res| - 1 := g]), env) == RunAll(Nodes(res), env) + extra
  {
    var n := |res| - 1;
    NodesAppend(res[..n], res[n], env);
    NodesAppend(res[..n], g, env);
    assert res == res[..n] + [res[n]] && res[n := g] == res[..n] + [g];
  }

  /** One step: the graft goes to the end of the list, ... */

  lemma AppendStep(res: seq<Graft>, g: Graft, node: Node, stack: seq<IfNode>, input: seq<Graft>, b: Build, x: Vec,
                   env: Env)
    requires b.Valid() && ValidSet(b.ls, g.guard) && b.At(x, env)
    requires RunAll(Nodes(res), env) == RunGrafts(input, b.ls, x, env)
    requires node == InsertIf(g.node, g.guard, b)
    requires stack == [] || (node != g.node && stack == [NewEntry(Then, b.domain, g.guard, b)])
    ensures ProgressAt(res + [Graft(g.guard, node)], stack, input + [g], b, x, env)
  {
    InsertRuns(g.node, g.guard, b, x, env);
    NodesAppend(res, Graft(g.guard, node), env);
    RunLast(input, g, b.ls, x, env);
    if stack != [] { FirstEntry(node, stack[0], b, x, env); }
  }

  lemma FirstEntry(node: Node, e: IfNode, b: Build, x: Vec, env: Env)
    requires node.If?
    requires Eval(node.cond, env) != 0 <==> Contains(b.ls, e.guard, x)
    requires Eval(node.cond, env) == 0 <==> Contains(b.ls, e.complement, x)
    ensures StackFits(node, [e], b, x, env)
  {
    var stack := [e];
    assert stack[..1] == stack && PathTo(stack) == [];
    assert EntryAt(node, stack, 0, b, x, env);
  }

  /** ... or into a branch of the if node on top of the (cut) stack. */

  // The last graft with the node added to branch d of the top if node.
  function ExtendLast(res: seq<Graft>, stack: seq<IfNode>, d: Branch, n: Node): seq<Graft>
    requires res != [] && stack != [] && Located(res[|res| - 1].node, PathTo(stack))
  {
    var last := res[|res| - 1];
    res[|res| - 1 := last.(node := ExtendAt(last.node, PathTo(stack), d, n))]
  }

  lemma ExtendRuns(res: seq<Graft>, g: Graft, node: Node, stack: seq<IfNode>, d: Branch, input: seq<Graft>, b: Build,
                   x: Vec, env: Env)
    requires b.Valid() && ValidSet(b.ls, g.guard) && b.At(x, env) && stack != [] && ValidStack(b.ls, stack)
    requires res != [] && Located(res[|res| - 1].node, PathTo(stack)) &&
             StackFits(res[|res| - 1].node, stack, b, x, env)
    requires RunAll(Nodes(res), env) == RunGrafts(input, b.ls, x, env)
    requires Contains(b.ls, g.guard, x) ==> Contains(b.ls, BranchSet(stack[|stack| - 1], d), x)
    requires node == InsertIf(g.node, Simplified(g.guard, BranchSet(stack[|stack| - 1], d), b), b)
    ensures RunAll(Nodes(ExtendLast(res, stack, d, node)), env) == RunGrafts(input + [g], b.ls, x, env)
  {
    var root, path, top := res[|res| - 1].node, PathTo(stack), |stack| - 1;
    assert EntryAt(root, stack, top, b, x, env) && stack[..top + 1] == stack;
    var taken := BranchSet(stack[top], d);
    RunExtendAt(root, path, d, node, env);
    if Contains(b.ls, taken, x) { InsertIfRuns(g.node, g.guard, taken, b, x, env); }
    var extra := if Reaches(root, path, d, env) then Run(node, env) else [];
    NodesReplaceLast(res, ExtendLast(res, stack, d, node)[|res| - 1], extra, env);
    assert (input + [g])[..|input|] == input;
  }

  // The entries of the stack still describe the extended tree, ...
  lemma ExtendFits(root: Node, stack: seq<IfNode>, d: Branch, node: Node, b: Build, x: Vec, env: Env)
    requires stack != [] && Located(root, PathTo(stack)) && StackFits(root, stack, b, x, env)
    ensures StackFits(ExtendAt(root, PathTo(stack), d, node), stack, b, x, env)
  {
    forall k: nat | k < |stack| ensures EntryAt(ExtendAt(root, PathTo(stack), d, node), stack, k, b, x, env) {
      assert EntryAt(root, stack, k, b, x, env);
      ExtendKeeps(root, PathTo(stack), d, node, k);
      assert PathTo(stack)[..k] == PathTo(stack[..k + 1]);
    }
  }

  // ... and so does the entry of a new if node.
  lemma ExtendPush(root: Node, stack: seq<IfNode>, d: Branch, g: Graft, node: Node, b: Build, x: Vec, env: Env)
    requires b.Valid() && ValidSet(b.ls, g.guard) && b.At(x, env) && stack != [] && ValidStack(b.ls, stack)
    requires Located(root, PathTo(stack)) && StackFits(root, stack, b, x, env)
    requires Contains(b.ls, g.guard, x) ==> Contains(b.ls, BranchSet(stack[|stack| - 1], d), x)
    requires node == InsertIf(g.node, Simplified(g.guard, BranchSet(stack[|stack| - 1], d), b), b) && node != g.node
    ensures StackFits(ExtendAt(root, PathTo(stack), d, node),
                      stack + [NewEntry(d, BranchSet(stack[|stack| - 1], d), g.guard, b)], b, x, env)
  {
    var path, top := PathTo(stack), |stack| - 1;
    var taken, root' := BranchSet(stack[top], d), ExtendAt(root, PathTo(stack), d, node);
    var stack' := stack + [NewEntry(d, taken, g.guard, b)];
    ExtendFits(root, stack, d, node, b, x, env);
    assert EntryAt(root, stack, top, b, x, env) && stack[..top + 1] == stack;
    if Contains(b.ls, taken, x) { InsertIfRuns(g.node, g.guard, taken, b, x, env); }
    ExtendLocates(root, path, d, node);
    assert PathTo(stack') == path + [d];
    forall k: nat | k < |stack'| ensures EntryAt(root', stack', k, b, x, env) {
      if k <= top {
        assert stack'[..k + 1] == stack[..k + 1];
        assert EntryAt(root', stack, k, b, x, env);
      } else {
        assert stack'[..k + 1] == stack';
      }
    }
  }

  /** insert_pending_guard_nodes. */

  // Where the points `test` of a graft fit: the topmost if node one of whose branches
  // holds them all.
  datatype Place = Nowhere | At(j: nat, d: Branch)

  ghost predicate Fitting(b: Build, stack: seq<IfNode>, test: Set, p: Place) {
    p.At? ==>
      && p.j < |stack| && Included(b.ls, test, BranchSet(stack[p.j], p.d))
      && (p.d.Else? ==> !Included(b.ls, test, stack[p.j].guard))
  }

  // No if node further in has a branch that holds them all.
  ghost predicate Innermost(b: Build, stack: seq<IfNode>, test: Set, p: Place, allowElse: bool) {
    && Fitting(b, stack, test, p)
    && (p.At? && p.d.Else? ==> allowElse)
    && forall k :: (if p.At? then p.j else -1) < k < |stack| ==>
         !Included(b.ls, test, stack[k].guard) && (allowElse ==> !Included(b.ls, test, stack[k].complement))
  }

  method FindPlace(stack: seq<IfNode>, test: Set, allowElse: bool, b: Build) returns (p: Place)
    requires b.Valid() && ValidStack(b.ls, stack) && ValidSet(b.ls, test)
    ensures Innermost(b, stack, test, p, allowElse)
  {
    var j := |stack| - 1;
    while j >= 0
      invariant -1 <= j < |stack|
      invariant forall k :: j < k < |stack| ==>
                  !Included(b.ls, test, stack[k].guard) && (allowElse ==> !Included(b.ls, test, stack[k].complement))
    {
      if b.ops.isSubset(test, stack[j].guard) { return At(j, Then); }
      if allowElse && b.ops.isSubset(test, stack[j].complement) { return At(j, Else); }
      j := j - 1;
    }
    return Nowhere;
  }

  // Puts the graft at the end of the list; the stack is replaced.
  method AppendGraft(res: seq<Graft>, stack: seq<IfNode>, g: Graft, push: bool, ghost input: seq<Graft>, b: Build)
    returns (res': seq<Graft>, stack': seq<IfNode>)
    requires b.Valid() && ValidSet(b.ls, g.guard) && Progress(res, stack, input, b)
    ensures var node := InsertIf(g.node, g.guard, b);
            && res' == res + [Graft(g.guard, node)]
            && stack' == if node != g.node && push then [NewEntry(Then, b.domain, g.guard, b)] else []
    ensures ValidStack(b.ls, stack')
    ensures stack' != [] ==> res' != [] && Located(res'[|res'| - 1].node, PathTo(stack'))
    ensures Progress(res', stack', input + [g], b)
  {
    var node := InsertIf(g.node, g.guard, b);
    res' := res + [Graft(g.guard, node)];
    stack' := if node != g.node && push then [NewEntry(Then, b.domain, g.guard, b)] else [];
    forall x, env | b.At(x, env) ensures ProgressAt(res', stack', input + [g], b, x, env) {
      assert ProgressAt(res, stack, input, b, x, env);
      AppendStep(res, g, node, stack', input, b, x, env);
    }
  }

  /** Where every graft ends up. */

  // A graft becomes an element of the list, or the last node of a branch of the if node of
  // graft `place.j`.  `around` are the points of that branch, `path` leads to the graft's own
  // if node, `chain` lists the grafts around it and itself, and `node` is what is put there.
  datatype Spot = Spot(place: Place, around: Set, path: Path, chain: seq<nat>, node: Node)

  function BranchOf(list: seq<Graft>, spots: seq<Spot>, j: nat, d: Branch, b: Build): Set
    requires j < |list| && j < |spots|
  {
    if d.Then? then list[j].guard else b.ops.subtract(spots[j].around, list[j].guard)
  }

  // The grafts with an if node that can be extended by graft i, outermost first: the chain
  // of the previous graft, without that graft if it got no if node.
  function Open(list: seq<Graft>, spots: seq<Spot>, i: nat): seq<nat>
    requires i <= |list| && i <= |spots|
  {
    if i == 0 || spots[i - 1].chain == [] then []
    else
      var chain := spots[i - 1].chain;
      if spots[i - 1].node != list[i - 1].node then chain else chain[..|chain| - 1]
  }

  // Could graft i be put in one of the branches of graft k?
  ghost predicate FitsIn(list: seq<Graft>, spots: seq<Spot>, i: nat, k: nat, d: Branch, allowElse: bool, b: Build) {
    && i < |list| && k < |list| && k < |spots|
    && (d.Else? ==> allowElse)
    && Included(b.ls, b.ops.intersect(list[i].guard, b.domain), BranchOf(list, spots, k, d, b))
  }

  /** Graft i goes into the innermost open if node that has a branch with all its points,
      into the then branch if it can, and becomes a new element only if there is none. */
  ghost predicate WellPlaced(list: seq<Graft>, spots: seq<Spot>, i: nat, allowElse: bool, b: Build)
    requires i < |list| && i < |spots|
  {
    var open, p := Open(list, spots, i), spots[i].place;
    && (forall k, d :: k in open && (p.At? ==> p.j < k) ==> !FitsIn(list, spots, i, k, d, allowElse, b))
    && (p.At? ==>
         && p.j < i && p.j in open && FitsIn(list, spots, i, p.j, p.d, allowElse, b)
         && (p.d.Else? ==> !FitsIn(list, spots, i, p.j, Then, allowElse, b)))
  }

  // The rest of the spot follows from the place.
  ghost predicate WellDescribed(list: seq<Graft>, spots: seq<Spot>, i: nat, b: Build)
    requires b.Valid() && i < |list| && i < |spots|
  {
    var s := spots[i];
    && s.chain != [] && (forall k :: k in s.chain ==> k <= i)
    && if s.place.At? then
         && s.place.j < i && s.around == BranchOf(list, spots, s.place.j, s.place.d, b)
         && s.path == spots[s.place.j].path + [s.place.d] && s.chain == spots[s.place.j].chain + [i]
         && ValidSet(b.ls, Simplified(list[i].guard, s.around, b))
         && s.node == InsertIf(list[i].node, Simplified(list[i].guard, s.around, b), b)
       else
         && s.around == b.domain && s.path == [] && s.chain == [i]
         && ValidSet(b.ls, list[i].guard) && s.node == InsertIf(list[i].node, list[i].guard, b)
  }

  ghost predicate Placed(list: seq<Graft>, spots: seq<Spot>, allowElse: bool, b: Build)
    requires b.Valid()
  {
    && |spots| <= |list|
    && forall i: nat :: i < |spots| ==> WellPlaced(list, spots, i, allowElse, b) && WellDescribed(list, spots, i, b)
  }

  // The node is added to the branch of the if node at the path in the last graft.
  function Extended(res: seq<Graft>, path: Path, d: Branch, n: Node): seq<Graft> {
    if res == [] || !Located(res[|res| - 1].node, path) then res
    else
      var last := res[|res| - 1];
      res[|res| - 1 := last.(node := ExtendAt(last.node, path, d, n))]
  }

  // The list with every graft at its spot.
  function Assembled(list: seq<Graft>, spots: seq<Spot>): seq<Graft>
    requires |spots| == |list|
  {
    if list == [] then []
    else
      var n := |list| - 1;
      var before, s := Assembled(list[..n], spots[..n]), spots[n];
      if s.place.Nowhere? || s.path == [] then before + [Graft(list[n].guard, s.node)]
      else Extended(before, s.path[..|s.path| - 1], s.place.d, s.node)
  }

  function NewElements(spots: seq<Spot>): nat {
    if spots == [] then 0
    else NewElements(spots[..|spots| - 1]) + if spots[|spots| - 1].place.Nowhere? then 1 else 0
  }

  // The entry of the stack describes the if node of graft k.
  ghost predicate Describes(list: seq<Graft>, spots: seq<Spot>, stack: seq<IfNode>, open: seq<nat>, k: nat, b: Build)
    requires k < |stack| == |open|
  {
    && open[k] < |spots| <= |list|
    && stack[k].guard == BranchOf(list, spots, open[k], Then, b)
    && stack[k].complement == BranchOf(list, spots, open[k], Else, b)
    && spots[open[k]].chain == open[..k + 1]
    && spots[open[k]].path == PathTo(stack[..k + 1])
  }

  ghost predicate Mirrors(list: seq<Graft>, spots: seq<Spot>, stack: seq<IfNode>, open: seq<nat>, b: Build) {
    |stack| == |open| && forall k: nat :: k < |stack| ==> Describes(list, spots, stack, open, k, b)
  }

  lemma MirrorsSize(list: seq<Graft>, spots: seq<Spot>, stack: seq<IfNode>, open: seq<nat>, b: Build)
    requires Mirrors(list, spots, stack, open, b)
    ensures |stack| == |open| && forall k :: 0 <= k < |open| ==> open[k] < |spots| <= |list|
  {
    forall k: nat | k < |open| ensures open[k] < |spots| <= |list| { assert Describes(list, spots, stack, open, k, b); }
  }

  // The spot of the next graft.
  function NextSpot(list: seq<Graft>, stack: seq<IfNode>, open: seq<nat>, i: nat, p: Place, b: Build): Spot
    requires b.Valid() && i < |list| && |stack| == |open| && (p.At? ==> p.j < |stack|)
    requires ValidSet(b.ls, list[i].guard)
    requires p.At? ==> ValidSet(b.ls, Simplified(list[i].guard, BranchSet(stack[p.j], p.d), b))
  {
    if p.At? then
      var around := BranchSet(stack[p.j], p.d);
      Spot(At(open[p.j], p.d), around, PathTo(stack[..p.j + 1]) + [p.d], open[..p.j + 1] + [i],
           InsertIf(list[i].node, Simplified(list[i].guard, around, b), b))
    else
      Spot(Nowhere, b.domain, [], [i], InsertIf(list[i].node, list[i].guard, b))
  }

  // What has been said of the earlier grafts does not depend on the next one.
  lemma EarlierPlaced(list: seq<Graft>, spots: seq<Spot>, s: Spot, i: nat, allowElse: bool, b: Build)
    requires b.Valid() && Placed(list, spots, allowElse, b) && i < |spots| < |list|
    ensures WellPlaced(list, spots + [s], i, allowElse, b)
  {
    hide InsertIf, Included, IsPlainUniverse;
    var spots', open := spots + [s], Open(list, spots, i);
    assert Open(list, spots', i) == open;
    forall k | k in open ensures k < i {
      assert WellDescribed(list, spots, i - 1, b);
      assert k in spots[i - 1].chain;
    }
    forall k: nat, d: Branch | k < i
        ensures FitsIn(list, spots', i, k, d, allowElse, b) <==> FitsIn(list, spots, i, k, d, allowElse, b) {
      assert BranchOf(list, spots', k, d, b) == BranchOf(list, spots, k, d, b);
    }
    assert WellPlaced(list, spots, i, allowElse, b);
  }

  lemma EarlierDescribed(list: seq<Graft>, spots: seq<Spot>, s: Spot, i: nat, allowElse: bool, b: Build)
    requires b.Valid() && Placed(list, spots, allowElse, b) && i < |spots| < |list|
    ensures WellDescribed(list, spots + [s], i, b)
  {
    hide InsertIf, WellPlaced;
    assert WellDescribed(list, spots, i, b);
  }

  // The open if nodes, by their entries in the stack
  lemma OpenBranches(list: seq<Graft>, spots: seq<Spot>, stack: seq<IfNode>, s: Spot, allowElse: bool, b: Build)
    requires b.Valid() && Placed(list, spots, allowElse, b) && |spots| < |list|
    requires Mirrors(list, spots, stack, Open(list, spots, |spots|), b)
    ensures var open := Open(list, spots, |spots|);
            && Open(list, spots + [s], |spots|) == open && |open| == |stack|
            && (forall k :: 0 <= k < |open| ==> open[k] < |spots|)
            && forall k: nat, d: Branch :: k < |open| ==>
                 BranchOf(list, spots + [s], open[k], d, b) == BranchSet(stack[k], d)
  {
    hide WellPlaced, WellDescribed;
    var open := Open(list, spots, |spots|);
    MirrorsSize(list, spots, stack, open, b);
    forall k: nat, d: Branch | k < |open|
        ensures BranchOf(list, spots + [s], open[k], d, b) == BranchSet(stack[k], d) {
      assert Describes(list, spots, stack, open, k, b);
    }
  }

  lemma NextWellPlaced(list: seq<Graft>, spots: seq<Spot>, stack: seq<IfNode>, p: Place, s: Spot, allowElse: bool,
                       b: Build)
    requires b.Valid() && Placed(list, spots, allowElse, b) && |spots| < |list|
    requires Mirrors(list, spots, stack, Open(list, spots, |spots|), b)
    requires Innermost(b, stack, b.ops.intersect(list[|spots|].guard, b.domain), p, allowElse)
    requires p.At? ==> p.j < |Open(list, spots, |spots|)|
    requires s.place == if p.At? then At(Open(list, spots, |spots|)[p.j], p.d) else Nowhere
    ensures WellPlaced(list, spots + [s], |spots|, allowElse, b)
  {
    hide Included, PathTo, Mirrors, Placed, Open, BranchOf, BranchSet, Sound;
    var i, open, spots' := |spots|, Open(list, spots, |spots|), spots + [s];
    OpenBranches(list, spots, stack, s, allowElse, b);
    OpenRising(list, spots, stack, allowElse, b);
    forall k, d | k in open && (p.At? ==> s.place.j < k) ensures !FitsIn(list, spots', i, k, d, allowElse, b) {
      var l :| 0 <= l < |open| && open[l] == k;
      assert p.At? ==> p.j < l;
      NotFitting(list, spots', i, open[l], d, allowElse, stack, l, p, b);
    }
    if p.At? {
      assert BranchOf(list, spots', open[p.j], p.d, b) == BranchSet(stack[p.j], p.d);
      assert BranchOf(list, spots', open[p.j], Then, b) == BranchSet(stack[p.j], Then);
      ThenBranch(stack[p.j]);
    }
  }

  lemma ThenBranch(e: IfNode)
    ensures BranchSet(e, Then) == e.guard
  {
  }

  lemma NotFitting(list: seq<Graft>, spots: seq<Spot>, i: nat, k: nat, d: Branch, allowElse: bool, stack: seq<IfNode>,
                   l: nat, p: Place, b: Build)
    requires i < |list| && k < |list| && k < |spots| && l < |stack| && (p.At? ==> p.j < l)
    requires Innermost(b, stack, b.ops.intersect(list[i].guard, b.domain), p, allowElse)
    requires BranchOf(list, spots, k, d, b) == BranchSet(stack[l], d)
    ensures !FitsIn(list, spots, i, k, d, allowElse, b)
  {
    hide Included, BranchOf, Fitting;
  }

  lemma NextDescribed(list: seq<Graft>, spots: seq<Spot>, stack: seq<IfNode>, p: Place, s: Spot, allowElse: bool,
                      b: Build)
    requires b.Valid() && Placed(list, spots, allowElse, b) && ValidGrafts(b.ls, list) && |spots| < |list|
    requires Mirrors(list, spots, stack, Open(list, spots, |spots|), b)
    requires |stack| == |Open(list, spots, |spots|)| && (p.At? ==> p.j < |stack|)
    requires p.At? ==> ValidSet(b.ls, Simplified(list[|spots|].guard, BranchSet(stack[p.j], p.d), b))
    requires s == NextSpot(list, stack, Open(list, spots, |spots|), |spots|, p, b)
    ensures WellDescribed(list, spots + [s], |spots|, b)
  {
    OpenBranches(list, spots, stack, s, allowElse, b);
    hide InsertIf, PathTo, Placed, Simplified;
    var open := Open(list, spots, |spots|);
    if p.At? {
      assert Describes(list, spots, stack, open, p.j, b);
      assert BranchOf(list, spots + [s], open[p.j], p.d, b) == BranchSet(stack[p.j], p.d);
      forall k | k in s.chain ensures k <= |spots| {
        if k != |spots| { var l :| 0 <= l < p.j + 1 && open[l] == k; }
      }
    }
  }

  lemma NextPlaced(list: seq<Graft>, spots: seq<Spot>, stack: seq<IfNode>, p: Place, s: Spot, allowElse: bool,
                   b: Build)
    requires b.Valid() && Placed(list, spots, allowElse, b) && ValidGrafts(b.ls, list) && |spots| < |list|
    requires Mirrors(list, spots, stack, Open(list, spots, |spots|), b)
    requires Innermost(b, stack, b.ops.intersect(list[|spots|].guard, b.domain), p, allowElse)
    requires |stack| == |Open(list, spots, |spots|)| && (p.At? ==> p.j < |stack|)
    requires p.At? ==> ValidSet(b.ls, Simplified(list[|spots|].guard, BranchSet(stack[p.j], p.d), b))
    requires s == NextSpot(list, stack, Open(list, spots, |spots|), |spots|, p, b)
    ensures Placed(list, spots + [s], allowElse, b)
  {
    hide WellPlaced, WellDescribed, Mirrors, Open, Innermost, Simplified, InsertIf, Sound;
    NextWellPlaced(list, spots, stack, p, s, allowElse, b);
    NextDescribed(list, spots, stack, p, s, allowElse, b);
    forall k: nat | k < |spots|
        ensures WellPlaced(list, spots + [s], k, allowElse, b) && WellDescribed(list, spots + [s], k, b) {
      EarlierPlaced(list, spots, s, k, allowElse, b);
      EarlierDescribed(list, spots, s, k, allowElse, b);
    }
  }

  // Inner if nodes belong to later grafts.
  lemma OpenRising(list: seq<Graft>, spots: seq<Spot>, stack: seq<IfNode>, allowElse: bool, b: Build)
    requires b.Valid() && Placed(list, spots, allowElse, b)
    requires Mirrors(list, spots, stack, Open(list, spots, |spots|), b)
    ensures var open := Open(list, spots, |spots|);
            forall k, l :: 0 <= k <= l < |open| ==> open[k] <= open[l]
  {
    var open := Open(list, spots, |spots|);
    forall k, l | 0 <= k <= l < |open| ensures open[k] <= open[l] {
      assert Describes(list, spots, stack, open, l, b);
      assert WellDescribed(list, spots, open[l], b);
      assert open[..l + 1][k] == open[k] && open[k] in spots[open[l]].chain;
    }
  }

  // The stack after the next graft.
  function NextStack(list: seq<Graft>, stack: seq<IfNode>, p: Place, i: nat, s: Spot, b: Build): seq<IfNode>
    requires i < |list| && (p.At? ==> p.j < |stack|)
  {
    var cut := if p.At? then stack[..p.j + 1] else [];
    var d := if p.At? then p.d else Then;
    if s.node != list[i].node then cut + [NewEntry(d, s.around, list[i].guard, b)] else cut
  }

  lemma NextMirrors(list: seq<Graft>, spots: seq<Spot>, stack: seq<IfNode>, p: Place, s: Spot, allowElse: bool,
                    b: Build)
    requires b.Valid() && Placed(list, spots, allowElse, b) && ValidGrafts(b.ls, list)
    requires |spots| < |list| && Mirrors(list, spots, stack, Open(list, spots, |spots|), b)
    requires p.At? ==> p.j < |stack|
    requires p.At? ==> ValidSet(b.ls, Simplified(list[|spots|].guard, BranchSet(stack[p.j], p.d), b))
    requires s == NextSpot(list, stack, Open(list, spots, |spots|), |spots|, p, b)
    ensures Mirrors(list, spots + [s], NextStack(list, stack, p, |spots|, s, b),
                    Open(list, spots + [s], |spots| + 1), b)
  {
    hide InsertIf, Sound;
    var i, open, spots' := |spots|, Open(list, spots, |spots|), spots + [s];
    var stack', open' := NextStack(list, stack, p, i, s, b), Open(list, spots', i + 1);
    var n := if p.At? then p.j + 1 else 0;
    assert open' == if s.node != list[i].node then open[..n] + [i] else open[..n];
    forall k: nat | k < |stack'| ensures Describes(list, spots', stack', open', k, b) {
      if k < n {
        assert Describes(list, spots, stack, open, k, b);
        assert stack'[..k + 1] == stack[..k + 1] && open'[..k + 1] == open[..k + 1];
        assert BranchOf(list, spots', open[k], Else, b) == BranchOf(list, spots, open[k], Else, b);
      } else {
        assert stack'[..k + 1] == stack' && open'[..k + 1] == s.chain;
        if p.At? {
          assert PathTo(stack') == PathTo(stack[..n]) + [p.d];
        } else {
          assert PathTo(stack') == [];
        }
      }
    }
  }

  lemma NextAssembled(list: seq<Graft>, spots: seq<Spot>, i: nat, s: Spot)
    requires i == |spots| < |list|
    ensures var before := Assembled(list[..i], spots);
            Assembled(list[..i + 1], spots + [s]) ==
            if s.place.Nowhere? || s.path == [] then before + [Graft(list[i].guard, s.node)]
            else Extended(before, s.path[..|s.path| - 1], s.place.d, s.node)
  {
    assert list[..i + 1][..i] == list[..i] && (spots + [s])[..i] == spots;
  }

  // What the loop keeps about the spots
  ghost predicate SpotsKept(list: seq<Graft>, i: nat, res: seq<Graft>, stack: seq<IfNode>, spots: seq<Spot>,
                            allowElse: bool, b: Build)
    requires b.Valid()
  {
    && i == |spots| <= |list|
    && Placed(list, spots, allowElse, b) && res == Assembled(list[..i], spots)
    && (i < |list| ==> Mirrors(list, spots, stack, Open(list, spots, i), b))
  }

  lemma SpotsStep(list: seq<Graft>, i: nat, res: seq<Graft>, stack: seq<IfNode>, spots: seq<Spot>, allowElse: bool,
                  b: Build, p: Place, res': seq<Graft>, stack': seq<IfNode>) returns (s: Spot)
    requires b.Valid() && ValidGrafts(b.ls, list) && i < |list| && SpotsKept(list, i, res, stack, spots, allowElse, b)
    requires Innermost(b, stack, b.ops.intersect(list[i].guard, b.domain), p, allowElse)
    requires p.At? ==>
               && p.j < |stack| && ValidSet(b.ls, Simplified(list[i].guard, BranchSet(stack[p.j], p.d), b))
               && res != [] && Located(res[|res| - 1].node, PathTo(stack[..p.j + 1]))
    requires var g := list[i];
             var around := if p.At? then BranchSet(stack[p.j], p.d) else b.domain;
             var node := InsertIf(g.node, if p.At? then Simplified(g.guard, around, b) else g.guard, b);
             var cut := if p.At? then stack[..p.j + 1] else [];
             && res' == (if p.At? then ExtendLast(res, cut, p.d, node) else res + [Graft(g.guard, node)])
             && stack' == if node != g.node && i != |list| - 1
                          then cut + [NewEntry(if p.At? then p.d else Then, around, g.guard, b)] else cut
    ensures SpotsKept(list, i + 1, res', stack', spots + [s], allowElse, b)
  {
    hide Innermost, Placed, Located, InsertIf, ExtendAt, Mirrors, Open;
    var open := Open(list, spots, i);
    MirrorsSize(list, spots, stack, open, b);
    s := NextSpot(list, stack, open, i, p, b);
    NextPlaced(list, spots, stack, p, s, allowElse, b);
    NextMirrors(list, spots, stack, p, s, allowElse, b);
    NextAssembled(list, spots, i, s);
  }

  // Puts the next graft in its place.
  method PlaceGraft(list: seq<Graft>, res: seq<Graft>, stack: seq<IfNode>, ghost spots: seq<Spot>, i: nat,
                    allowElse: bool, b: Build)
    returns (res': seq<Graft>, stack': seq<IfNode>, ghost s: Spot)
    requires b.Valid() && ValidGrafts(b.ls, list) && i < |list| && SpotsKept(list, i, res, stack, spots, allowElse, b)
    requires ValidStack(b.ls, stack) && (stack != [] ==> res != [] && Located(res[|res| - 1].node, PathTo(stack)))
    requires Progress(res, stack, list[..i], b)
    ensures ValidStack(b.ls, stack') && (stack' != [] ==> res' != [] && Located(res'[|res'| - 1].node, PathTo(stack')))
    ensures Progress(res', stack', list[..i + 1], b)
    ensures SpotsKept(list, i + 1, res', stack', spots + [s], allowElse, b)
    ensures |stack'| <= |stack| + if i != |list| - 1 then 1 else 0
  {
    hide SpotsKept, Located, PathTo, Contains, Progress, Included, InsertIf, ExtendAt;
    var g := list[i];
    var place := Nowhere;
    if stack != [] {
      place := FindPlace(stack, b.ops.intersect(g.guard, b.domain), allowElse, b);
    }
    match place {
      case Nowhere => res', stack' := AppendGraft(res, stack, g, i != |list| - 1, list[..i], b);
      case At(j, d) => res', stack' := ExtendWith(res, stack, j, d, g, i != |list| - 1, list[..i], b);
    }
    assert list[..i + 1] == list[..i] + [g];
    s := SpotsStep(list, i, res, stack, spots, allowElse, b, place, res', stack');
  }

  /** The list that is built runs, at every point of the build domain, exactly the nodes
      whose guards hold there, in the order of the input, and every graft is at its spot. */
  method InsertPendingGuardNodes(list: seq<Graft>, allowElse: bool, b: Build)
    returns (res: seq<Graft>, ghost spots: seq<Spot>)
    requires b.Valid() && ValidGrafts(b.ls, list)
    ensures forall x, env :: b.At(x, env) ==> RunAll(Nodes(res), env) == RunGrafts(list, b.ls, x, env)
    ensures |spots| == |list| && Placed(list, spots, allowElse, b) && res == Assembled(list, spots)
    ensures |res| == NewElements(spots)
    ensures !allowElse && NoElses(list) ==> NoElses(res)
  {
    hide Located, PathTo, Contains, Mirrors, Placed, Progress;
    res, spots := [], [];
    var stack: seq<IfNode> := [];
    StartPlaced(list, allowElse, b);
    for i := 0 to |list|
      invariant |stack| <= i && (list != [] ==> |stack| <= |list| - 1)  // room for n - 1 if nodes is enough
      invariant ValidStack(b.ls, stack)
      invariant stack != [] ==> res != [] && Located(res[|res| - 1].node, PathTo(stack))
      invariant Progress(res, stack, list[..i], b)
      invariant SpotsKept(list, i, res, stack, spots, allowElse, b)
    {
      ghost var s;
      res, stack, s := PlaceGraft(list, res, stack, spots, i, allowElse, b);
      spots := spots + [s];
    }
    assert list[..|list|] == list;
    Finished(res, stack, list, b);
    AssembledSize(list, spots, allowElse, b);
    if !allowElse && NoElses(list) { AssembledElseFree(list, spots, b); }
  }

  lemma AssembledSize(list: seq<Graft>, spots: seq<Spot>, allowElse: bool, b: Build)
    requires b.Valid() && Placed(list, spots, allowElse, b) && |spots| == |list|
    ensures |Assembled(list, spots)| == NewElements(spots)
  {
    forall i | 0 <= i < |spots| && spots[i].place.At? ensures spots[i].path != [] {
      assert WellDescribed(list, spots, i, b);
    }
    SizeOfAssembled(list, spots);
  }

  lemma {:induction false} SizeOfAssembled(list: seq<Graft>, spots: seq<Spot>)
    requires |spots| == |list| && forall i :: 0 <= i < |spots| && spots[i].place.At? ==> spots[i].path != []
    ensures |Assembled(list, spots)| == NewElements(spots)
  {
    if list != [] {
      var n := |list| - 1;
      SizeOfAssembled(list[..n], spots[..n]);
    }
  }

  /** Without permission no else branches are built. */

  predicate ElseFree(n: Node) {
    match n
    case User(_) => true
    case If(_, thenNode, elseNode) => elseNode.None? && ElseFree(thenNode)
    case Block(children) => forall i :: 0 <= i < |children| ==> ElseFree(children[i])
  }

  predicate NoElses(gs: seq<Graft>) { forall i :: 0 <= i < |gs| ==> ElseFree(gs[i].node) }

  lemma {:induction false} ExtendElseFree(root: Node, path: Path, n: Node)
    requires Located(root, path) && ElseFree(root) && ElseFree(n)
    ensures ElseFree(ExtendAt(root, path, Then, n))
    decreases |path|
  {
    if path != [] {
      var body := BodyOf(root, path[0]).value;
      assert path[0] == Then && ElseFree(body);
      ExtendElseFree(LastOf(body), path[1..], n);
    }
  }

  lemma {:induction false} AllElseFree(list: seq<Graft>, spots: seq<Spot>)
    requires |spots| == |list|
    requires forall i :: 0 <= i < |spots| ==> ElseFree(spots[i].node) && (spots[i].place.At? ==> spots[i].place.d.Then?)
    ensures forall i :: 0 <= i < |Assembled(list, spots)| ==> ElseFree(Assembled(list, spots)[i].node)
  {
    if list != [] {
      var n := |list| - 1;
      var before, s := Assembled(list[..n], spots[..n]), spots[n];
      AllElseFree(list[..n], spots[..n]);
      if s.place.At? && s.path != [] && before != [] && Located(before[|before| - 1].node, s.path[..|s.path| - 1]) {
        ExtendElseFree(before[|before| - 1].node, s.path[..|s.path| - 1], s.node);
      }
    }
  }

  lemma AssembledElseFree(list: seq<Graft>, spots: seq<Spot>, b: Build)
    requires b.Valid() && Placed(list, spots, false, b) && |spots| == |list|
    requires NoElses(list)
    ensures NoElses(Assembled(list, spots))
  {
    forall i | 0 <= i < |spots|
        ensures ElseFree(spots[i].node) && (spots[i].place.At? ==> spots[i].place.d.Then?) {
      assert WellDescribed(list, spots, i, b) && WellPlaced(list, spots, i, false, b);
    }
    AllElseFree(list, spots);
  }

  // A graft right after one that got an if node goes into that node if it can.
  lemma NestsInPrevious(list: seq<Graft>, spots: seq<Spot>, i: nat, allowElse: bool, b: Build)
    requires b.Valid() && Placed(list, spots, allowElse, b) && i + 1 < |spots| && spots[i].node != list[i].node
    ensures FitsIn(list, spots, i + 1, i, Then, allowElse, b) ==> spots[i + 1].place == At(i, Then)
    ensures FitsIn(list, spots, i + 1, i, Else, allowElse, b) && !FitsIn(list, spots, i + 1, i, Then, allowElse, b) ==>
              spots[i + 1].place == At(i, Else)
  {
    hide InsertIf, FitsIn, Sound;
    assert WellDescribed(list, spots, i, b) && WellPlaced(list, spots, i + 1, allowElse, b);
    var open := Open(list, spots, i + 1);
    assert i in spots[i].chain by { assert spots[i].chain[|spots[i].chain| - 1] == i; }
    assert i in open;
  }

  lemma StartPlaced(list: seq<Graft>, allowElse: bool, b: Build)
    requires b.Valid()
    ensures Placed(list, [], allowElse, b) && Mirrors(list, [], [], Open(list, [], 0), b)
    ensures Progress([], [], list[..0], b)
  {
  }

  lemma Finished(res: seq<Graft>, stack: seq<IfNode>, list: seq<Graft>, b: Build)
    requires Progress(res, stack, list, b)
    ensures forall x, env :: b.At(x, env) ==> RunAll(Nodes(res), env) == RunGrafts(list, b.ls, x, env)
  {
    forall x, env | b.At(x, env) ensures RunAll(Nodes(res), env) == RunGrafts(list, b.ls, x, env) {
      assert ProgressAt(res, stack, list, b, x, env);
    }
  }

  lemma ExtendProgress(res: seq<Graft>, stack: seq<IfNode>, j: nat, d: Branch, g: Graft, node: Node, push: bool,
                       input: seq<Graft>,
                       b: Build, x: Vec, env: Env)
    requires b.Valid() && ValidSet(b.ls, g.guard) && ValidStack(b.ls, stack) && j < |stack| && b.At(x, env)
    requires res != [] && Located(res[|res| - 1].node, PathTo(stack)) &&
             Located(res[|res| - 1].node, PathTo(stack[..j + 1]))
    requires ProgressAt(res, stack, input, b, x, env)
    requires Included(b.ls, b.ops.intersect(g.guard, b.domain), BranchSet(stack[j], d))
    requires node == InsertIf(g.node, Simplified(g.guard, BranchSet(stack[j], d), b), b) && (push ==> node != g.node)
    ensures var cut := stack[..j + 1];
            ProgressAt(ExtendLast(res, cut, d, node),
                if push then cut + [NewEntry(d, BranchSet(stack[j], d), g.guard, b)] else cut,
                       input + [g], b, x, env)
  {
    var cut, root := stack[..j + 1], res[|res| - 1].node;
    CutStack(root, stack, j + 1, b, x, env);
    assert Contains(b.ls, g.guard, x) ==> Contains(b.ls, b.ops.intersect(g.guard, b.domain), x);
    ExtendRuns(res, g, node, cut, d, input, b, x, env);
    if push {
      ExtendPush(root, cut, d, g, node, b, x, env);
    } else {
      ExtendFits(root, cut, d, node, b, x, env);
    }
  }

  // Cuts the stack at entry j and puts the graft into branch d of that if node.
  method ExtendWith(res: seq<Graft>, stack: seq<IfNode>, j: nat, d: Branch, g: Graft, push: bool,
                    ghost input: seq<Graft>, b: Build)
    returns (res': seq<Graft>, stack': seq<IfNode>)
    requires b.Valid() && ValidSet(b.ls, g.guard) && ValidStack(b.ls, stack) && j < |stack|
    requires res != [] && Located(res[|res| - 1].node, PathTo(stack)) && Progress(res, stack, input, b)
    requires Included(b.ls, b.ops.intersect(g.guard, b.domain), BranchSet(stack[j], d))
    ensures b.Valid() && ValidSet(b.ls, Simplified(g.guard, BranchSet(stack[j], d), b))
    ensures Located(res[|res| - 1].node, PathTo(stack[..j + 1]))
    ensures var cut, node := stack[..j + 1], InsertIf(g.node, Simplified(g.guard, BranchSet(stack[j], d), b), b);
            && res' == ExtendLast(res, cut, d, node)
            && stack' == if node != g.node && push then cut + [NewEntry(d, BranchSet(stack[j], d), g.guard, b)] else cut
    ensures ValidStack(b.ls, stack')
    ensures res' != [] && (stack' != [] ==> Located(res'[|res'| - 1].node, PathTo(stack')))
    ensures Progress(res', stack', input + [g], b)
  {
    var cut := stack[..j + 1];
    var root := res[|res| - 1].node;
    CutLocated(root, stack, j + 1);
    var taken := BranchSet(stack[j], d);
    var node := InsertIf(g.node, Simplified(g.guard, taken, b), b);
    res' := ExtendLast(res, cut, d, node);
    stack' := if node != g.node && push then cut + [NewEntry(d, taken, g.guard, b)] else cut;
    forall x, env | b.At(x, env) ensures ProgressAt(res', stack', input + [g], b, x, env) {
      assert ProgressAt(res, stack, input, b, x, env);
      ExtendProgress(res, stack, j, d, g, node, node != g.node && push, input, b, x, env);
    }
    TopLocated(root, cut, d, node);
    if node != g.node && push { NewLocated(root, cut, d, node, NewEntry(d, taken, g.guard, b)); }
  }

  lemma TopLocated(root: Node, stack: seq<IfNode>, d: Branch, node: Node)
    requires stack != [] && Located(root, PathTo(stack))
    ensures Located(ExtendAt(root, PathTo(stack), d, node), PathTo(stack))
  {
    ExtendKeeps(root, PathTo(stack), d, node, |stack| - 1);
    assert PathTo(stack)[..|stack| - 1] == PathTo(stack);
  }

  lemma NewLocated(root: Node, stack: seq<IfNode>, d: Branch, node: Node, e: IfNode)
    requires stack != [] && Located(root, PathTo(stack)) && node.If? && e.within == d
    ensures Located(ExtendAt(root, PathTo(stack), d, node), PathTo(stack + [e]))
  {
    ExtendLocates(root, PathTo(stack), d, node);
    assert PathTo(stack + [e]) == PathTo(stack) + [d];
  }

  lemma CutLocated(root: Node, stack: seq<IfNode>, n: nat)
    requires stack != [] && Located(root, PathTo(stack)) && 0 < n <= |stack|
    ensures Located(root, PathTo(stack[..n]))
  {
    ExtendKeeps(root, PathTo(stack), Then, User(0), n - 1);
    assert PathTo(stack[..n]) == PathTo(stack)[..n - 1];
  }

  /** Merging lists of grafts. */

  // Comparison of guards by their description, and the guard that is hoisted out of
  // two grafts that are fused.
  datatype MergeOps = MergeOps(compare: (Set, Set) -> int, hoist: (Set, Set) -> Set)

  ghost predicate SoundMerge(ls: LocalSpace, ops: MergeOps) {
    && (forall s, t {:trigger ops.compare(s, t)} :: ValidSet(ls, s) && ValidSet(ls, t) && ops.compare(s, t) == 0 ==>
          Included(ls, s, t) && Included(ls, t, s))
    && (forall s, t {:trigger ops.hoist(s, t)} :: ValidSet(ls, s) && ValidSet(ls, t) ==>
          ValidSet(ls, ops.hoist(s, t)) && Included(ls, s, ops.hoist(s, t)) && Included(ls, t, ops.hoist(s, t)))
  }

  lemma {:induction false} RunGraftsAppend(a: seq<Graft>, c: seq<Graft>, ls: LocalSpace, x: Vec, env: Env)
    ensures RunGrafts(a + c, ls, x, env) == RunGrafts(a, ls, x, env) + RunGrafts(c, ls, x, env)
  {
    hide RunGuarded;
    if c == [] {
      assert a + c == a;
    } else {
      var n := |c| - 1;
      assert (a + c)[..|a + c| - 1] == a + c[..n];
      RunGraftsAppend(a, c[..n], ls, x, env);
    }
  }

  lemma RunPair(g: Graft, h: Graft, ls: LocalSpace, x: Vec, env: Env)
    ensures RunGrafts([g, h], ls, x, env) == RunGuarded(g, ls, x, env) + RunGuarded(h, ls, x, env)
  {
    assert [g, h][..1] == [g] && [g][..0] == [];
    assert RunGrafts([g], ls, x, env) == RunGrafts([], ls, x, env) + RunGuarded(g, ls, x, env);
  }

  lemma RunLast(list: seq<Graft>, g: Graft, ls: LocalSpace, x: Vec, env: Env)
    ensures RunGrafts(list + [g], ls, x, env) == RunGrafts(list, ls, x, env) + RunGuarded(g, ls, x, env)
  {
    assert (list + [g])[..|list|] == list;
  }

  lemma RunSplit(list: seq<Graft>, j: nat, g: Graft, ls: LocalSpace, x: Vec, env: Env)
    requires j <= |list|
    ensures RunGrafts(list, ls, x, env) == RunGrafts(list[..j], ls, x, env) + RunGrafts(list[j..], ls, x, env)
    ensures RunGrafts(list[..j] + [g] + list[j..], ls, x, env) ==
            RunGrafts(list[..j], ls, x, env) + RunGuarded(g, ls, x, env) + RunGrafts(list[j..], ls, x, env)
  {
    RunInsert(list[..j], g, list[j..], ls, x, env);
    RunGraftsAppend(list[..j], list[j..], ls, x, env);
    assert list[..j] + list[j..] == list;
  }

  lemma RunInsert(before: seq<Graft>, g: Graft, after: seq<Graft>, ls: LocalSpace, x: Vec, env: Env)
    ensures RunGrafts(before + [g] + after, ls, x, env) ==
            RunGrafts(before, ls, x, env) + RunGuarded(g, ls, x, env) + RunGrafts(after, ls, x, env)
  {
    RunGraftsAppend(before + [g], after, ls, x, env);
    RunLast(before, g, ls, x, env);
  }

  lemma NotInBoth(ls: LocalSpace, s: Set, t: Set, x: Vec)
    requires Disjoint(ls, s, t) && Contains(ls, s, x)
    ensures !Contains(ls, t, x)
  {
  }

  // Grafts with guards disjoint from that of g do not run where g does.
  lemma {:induction false} SilentWith(g: Graft, gs: seq<Graft>, ls: LocalSpace, x: Vec, env: Env)
    requires forall k :: 0 <= k < |gs| ==> Disjoint(ls, g.guard, gs[k].guard)
    ensures RunGuarded(g, ls, x, env) == [] || RunGrafts(gs, ls, x, env) == []
  {
    if gs != [] {
      var n := |gs| - 1;
      SilentWith(g, gs[..n], ls, x, env);
      if Contains(ls, g.guard, x) { NotInBoth(ls, g.guard, gs[n].guard, x); }
    }
  }

  lemma SwapSilent(a: seq<nat>, t: seq<nat>, r: seq<nat>)
    requires t == [] || r == []
    ensures a + r + t == a + t + r
  {
  }

  // A graft may move up past grafts that do not run where it does.
  lemma MoveUp(list: seq<Graft>, j: nat, g: Graft, ls: LocalSpace, x: Vec, env: Env)
    requires j <= |list| && forall k :: j <= k < |list| ==> Disjoint(ls, g.guard, list[k].guard)
    ensures RunGrafts(list[..j] + [g] + list[j..], ls, x, env) ==
            RunGrafts(list, ls, x, env) + RunGuarded(g, ls, x, env)
  {
    SilentWith(g, list[j..], ls, x, env);
    SwapSilent(RunGrafts(list[..j], ls, x, env), RunGrafts(list[j..], ls, x, env), RunGuarded(g, ls, x, env));
    RunSplit(list, j, g, ls, x, env);
  }

  // The same, into the graft at position j.
  lemma FuseUp(list: seq<Graft>, j: nat, g: Graft, fused: Graft, ls: LocalSpace, x: Vec, env: Env)
    requires j < |list| && forall k :: j < k < |list| ==> Disjoint(ls, g.guard, list[k].guard)
    requires RunGuarded(fused, ls, x, env) == RunGuarded(list[j], ls, x, env) + RunGuarded(g, ls, x, env)
    ensures RunGrafts(list[j := fused], ls, x, env) == RunGrafts(list, ls, x, env) + RunGuarded(g, ls, x, env)
  {
    MoveUp(list, j + 1, g, ls, x, env);
    var tail := list[j + 1..];
    var before := list[..j];
    assert list[j := fused] == before + [fused] + tail;
    assert list[..j + 1] + [g] + tail == before + [list[j], g] + tail;
    RunGraftsAppend(before + [fused], tail, ls, x, env);
    RunGraftsAppend(before + [list[j], g], tail, ls, x, env);
    RunGraftsAppend(before, [list[j], g], ls, x, env);
    RunPair(list[j], g, ls, x, env);
    assert (before + [fused])[..j] == before;
  }

  function NodeOf(nodes: seq<Node>): Node {
    if |nodes| == 1 then nodes[0] else Block(nodes)
  }

  lemma RunNodeOf(nodes: seq<Node>, env: Env)
    ensures Run(NodeOf(nodes), env) == RunAll(nodes, env)
  {
    if |nodes| == 1 { assert nodes == [nodes[0]]; }
  }

  // On the build domain the guard of r is what is hoisted out of those of g and h.
  ghost predicate FusedGuard(r: Graft, g: Graft, h: Graft, b: Build, ops: MergeOps) {
    forall x :: Contains(b.ls, b.domain, x) ==>
      (Contains(b.ls, r.guard, x) <==> Contains(b.ls, ops.hoist(g.guard, h.guard), x))
  }

  // One graft for two: the hoisted guard around both nodes under what is left of their guards.
  method Fuse(g: Graft, h: Graft, allowElse: bool, b: Build, ops: MergeOps) returns (r: Graft)
    requires b.Valid() && ValidSet(b.ls, g.guard) && ValidSet(b.ls, h.guard) && SoundMerge(b.ls, ops)
    ensures ValidSet(b.ls, r.guard)
    ensures forall x, env :: b.At(x, env) ==>
              RunGuarded(r, b.ls, x, env) == RunGuarded(g, b.ls, x, env) + RunGuarded(h, b.ls, x, env)
    ensures FusedGuard(r, g, h, b, ops)
    ensures !allowElse && ElseFree(g.node) && ElseFree(h.node) ==> ElseFree(r.node)
  {
    var hoisted := ops.hoist(g.guard, h.guard);
    RestrictValid(b, hoisted);
    var inner := b.Restrict(hoisted);
    var g', h' := g.(guard := b.ops.gist(g.guard, hoisted)), h.(guard := b.ops.gist(h.guard, hoisted));
    var res, spots := InsertPendingGuardNodes([g', h'], allowElse, inner);
    r := Graft(b.ops.gist(hoisted, b.domain), NodeOf(Nodes(res)));
    forall x, env | b.At(x, env)
      ensures RunGuarded(r, b.ls, x, env) == RunGuarded(g, b.ls, x, env) + RunGuarded(h, b.ls, x, env)
    {
      RunNodeOf(Nodes(res), env);
      RunPair(g', h', b.ls, x, env);
      assert inner.At(x, env) <==> Contains(b.ls, hoisted, x);
    }
  }

  ghost predicate SameRun(merged: seq<Graft>, list1: seq<Graft>, list2: seq<Graft>, ls: LocalSpace, x: Vec, env: Env) {
    RunGrafts(merged, ls, x, env) == RunGrafts(list1, ls, x, env) + RunGrafts(list2, ls, x, env)
  }

  // A graft may move up past one with a larger guard that is disjoint from its own.
  ghost predicate Passes(g: Graft, h: Graft, b: Build, ops: MergeOps) {
    ops.compare(h.guard, g.guard) > 0 && Disjoint(b.ls, g.guard, h.guard)
  }

  // The graft moves up as far as it can, to `first` at most.
  ghost predicate Slot(list: seq<Graft>, first: nat, g: Graft, j: nat, b: Build, ops: MergeOps) {
    && first <= j <= |list| && (forall k :: j <= k < |list| ==> Passes(g, list[k], b, ops))
    && (j > first ==> !Passes(g, list[j - 1], b, ops))
  }

  // It is fused with the graft before its slot when their guards compare equal.
  predicate FusesAt(list: seq<Graft>, first: nat, g: Graft, j: nat, ops: MergeOps) {
    first < j <= |list| && ops.compare(list[j - 1].guard, g.guard) == 0
  }

  method FindSlot(list: seq<Graft>, first: nat, g: Graft, b: Build, ops: MergeOps) returns (j: nat, cmp: int)
    requires b.Valid() && ValidGrafts(b.ls, list) && ValidSet(b.ls, g.guard) && first <= |list|
    ensures Slot(list, first, g, j, b, ops) && cmp <= 0
    ensures cmp == 0 <==> FusesAt(list, first, g, j, ops)
  {
    j, cmp := |list|, 1;
    while cmp > 0
      invariant first <= j <= |list|
      invariant forall k :: j <= k < |list| ==> Passes(g, list[k], b, ops)
      invariant cmp <= 0 && j > first ==> !Passes(g, list[j - 1], b, ops)
      invariant cmp <= 0 ==> (cmp == 0 <==> FusesAt(list, first, g, j, ops))
      decreases j, cmp
    {
      cmp := if j == first then -1 else ops.compare(list[j - 1].guard, g.guard);
      if cmp > 0 && !b.ops.isDisjoint(g.guard, list[j - 1].guard) { cmp := -1; }
      if cmp > 0 { j := j - 1; }
    }
  }

  // The graft is put into its slot, or fused with the one before it; `at` is where it is.
  ghost predicate MergesTo(list: seq<Graft>, first: nat, g: Graft, merged: seq<Graft>, at: nat, b: Build,
                           ops: MergeOps)
  {
    var fuses := FusesAt(list, first, g, at + 1, ops);
    && Slot(list, first, g, if fuses then at + 1 else at, b, ops) && at < |merged|
    && if fuses then merged == list[at := merged[at]] && FusedGuard(merged[at], list[at], g, b, ops)
       else merged == list[..at] + [g] + list[at..]
  }

  // Puts one graft of the second list in its place, at `first` or later.
  method MergeOne(list: seq<Graft>, first: nat, g: Graft, allowElse: bool, b: Build, ops: MergeOps)
    returns (merged: seq<Graft>, at: nat)
    requires b.Valid() && ValidGrafts(b.ls, list) && ValidSet(b.ls, g.guard) && SoundMerge(b.ls, ops) && first <= |list|
    ensures ValidGrafts(b.ls, merged) && first <= at < |merged| <= |list| + 1
    ensures MergesTo(list, first, g, merged, at, b, ops)
    ensures !allowElse && NoElses(list) && ElseFree(g.node) ==> NoElses(merged)
    ensures forall x, env :: b.At(x, env) ==>
              RunGrafts(merged, b.ls, x, env) == RunGrafts(list, b.ls, x, env) + RunGuarded(g, b.ls, x, env)
  {
    hide RunGrafts, RunGuarded, Disjoint;
    var j, cmp := FindSlot(list, first, g, b, ops);
    if cmp < 0 {
      merged, at := list[..j] + [g] + list[j..], j;
      forall x, env | b.At(x, env)
        ensures RunGrafts(merged, b.ls, x, env) == RunGrafts(list, b.ls, x, env) + RunGuarded(g, b.ls, x, env)
      {
        MoveUp(list, j, g, b.ls, x, env);
      }
    } else {
      at := j - 1;
      var fused := Fuse(list[at], g, allowElse, b, ops);
      merged := list[at := fused];
      forall x, env | b.At(x, env)
        ensures RunGrafts(merged, b.ls, x, env) == RunGrafts(list, b.ls, x, env) + RunGuarded(g, b.ls, x, env)
      {
        FuseUp(list, at, g, fused, b.ls, x, env);
      }
    }
  }

  // The lists between the steps of a merge.
  ghost predicate Merges(stages: seq<seq<Graft>>, list2: seq<Graft>, position: seq<nat>, b: Build, ops: MergeOps) {
    && |stages| == |position| + 1 && |position| <= |list2|
    && forall i: nat :: i < |position| ==> MergeStage(stages, list2, position, i, b, ops)
  }

  ghost predicate MergeStage(stages: seq<seq<Graft>>, list2: seq<Graft>, position: seq<nat>, i: nat, b: Build,
                             ops: MergeOps)
    requires |stages| == |position| + 1 && |position| <= |list2| && i < |position|
  {
    MergesTo(stages[i], if i == 0 then 0 else position[i - 1] + 1, list2[i], stages[i + 1], position[i], b, ops)
  }

  lemma NextStage(stages: seq<seq<Graft>>, list2: seq<Graft>, position: seq<nat>, merged: seq<Graft>, at: nat,
                  first: nat, b: Build, ops: MergeOps)
    requires Merges(stages, list2, position, b, ops) && |position| < |list2|
    requires first == if position == [] then 0 else position[|position| - 1] + 1
    requires MergesTo(stages[|position|], first, list2[|position|], merged, at, b, ops)
    ensures Merges(stages + [merged], list2, position + [at], b, ops)
  {
    hide MergesTo;
    var stages', position' := stages + [merged], position + [at];
    forall i: nat | i < |position'| ensures MergeStage(stages', list2, position', i, b, ops) {
      if i < |position| { assert MergeStage(stages, list2, position, i, b, ops); }
    }
  }

  /** Running the merged list is running list1 and then list2, at every point of the
      build domain; the elements of list2 stay in order, and each is merged into the list
      behind the one before it. */
  method Merge(list1: seq<Graft>, list2: seq<Graft>, allowElse: bool, b: Build, ops: MergeOps)
    returns (merged: seq<Graft>, ghost position: seq<nat>, ghost stages: seq<seq<Graft>>)
    requires b.Valid() && ValidGrafts(b.ls, list1) && ValidGrafts(b.ls, list2) && SoundMerge(b.ls, ops)
    ensures ValidGrafts(b.ls, merged)
    ensures forall x, env :: b.At(x, env) ==>
              RunGrafts(merged, b.ls, x, env) == RunGrafts(list1, b.ls, x, env) + RunGrafts(list2, b.ls, x, env)
    ensures |merged| <= |list1| + |list2|
    ensures |position| == |list2| && (forall i :: 0 <= i < |list2| ==> position[i] < |merged|)
    ensures forall i, k :: 0 <= i < k < |list2| ==> position[i] < position[k]
    ensures !allowElse && NoElses(list1) && NoElses(list2) ==> NoElses(merged)
    ensures list1 == [] ==> merged == list2
    ensures list1 != [] ==>
              Merges(stages, list2, position, b, ops) && stages[0] == list1 && stages[|list2|] == merged
  {
    if list2 == [] { return list1, [], [list1]; }
    if list1 == [] { return list2, seq(|list2|, i => i), []; }
    merged, position, stages := list1, [], [list1];
    var first := 0;
    for i := 0 to |list2|
      invariant ValidGrafts(b.ls, merged) && |merged| <= |list1| + i
      invariant forall x, env :: b.At(x, env) ==> SameRun(merged, list1, list2[..i], b.ls, x, env)
      invariant first <= |merged| && |position| == i
      invariant forall k :: 0 <= k < i ==> position[k] < first
      invariant forall k, l :: 0 <= k < l < i ==> position[k] < position[l]
      invariant first == if position == [] then 0 else position[|position| - 1] + 1
      invariant !allowElse && NoElses(list1) && NoElses(list2) ==> NoElses(merged)
      invariant Merges(stages, list2, position, b, ops) && stages[0] == list1 && stages[i] == merged
    {
      hide Merges, MergesTo;
      ghost var before := merged;
      var j;
      merged, j := MergeOne(merged, first, list2[i], allowElse, b, ops);
      NextStage(stages, list2, position, merged, j, first, b, ops);
      SameRunNext(before, merged, list1, list2, i, b);
      position, stages := position + [j], stages + [merged];
      first := j + 1;
    }
    assert list2[..|list2|] == list2;
    forall x, env | b.At(x, env)
      ensures RunGrafts(merged, b.ls, x, env) == RunGrafts(list1, b.ls, x, env) + RunGrafts(list2, b.ls, x, env)
    {
      assert SameRun(merged, list1, list2, b.ls, x, env);
    }
  }

  lemma SameRunNext(before: seq<Graft>, merged: seq<Graft>, list1: seq<Graft>, list2: seq<Graft>, i: nat, b: Build)
    requires i < |list2|
    requires forall x, env :: b.At(x, env) ==> SameRun(before, list1, list2[..i], b.ls, x, env)
    requires forall x, env :: b.At(x, env) ==>
               RunGrafts(merged, b.ls, x, env) == RunGrafts(before, b.ls, x, env) + RunGuarded(list2[i], b.ls, x, env)
    ensures forall x, env :: b.At(x, env) ==> SameRun(merged, list1, list2[..i + 1], b.ls, x, env)
  {
    hide RunGuarded;
    assert list2[..i + 1] == list2[..i] + [list2[i]];
    forall x, env | b.At(x, env) ensures SameRun(merged, list1, list2[..i + 1], b.ls, x, env) {
      assert SameRun(before, list1, list2[..i], b.ls, x, env);
      RunLast(list2[..i], list2[i], b.ls, x, env);
    }
  }
}
