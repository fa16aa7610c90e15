/** When may the iterations of a loop nest run in a different order?

    An iteration reads and writes sets of memory locations.  Two iterations conflict
    when one writes a location the other touches.  `ReorderPreservesMemory` is the
    semantic fact behind every legality test: a permutation of the iterations that
    keeps all conflicting pairs in order ends in the same memory.
  */
module Reordering {
  import opened LoopNest

  datatype Location = Location(base: string, index: seq<int>)
  type Memory = map<Location, int>

  // A loop body, with the locations each iteration may read and write.
  datatype Body = Body(
    exec: (Vec, Memory) -> Memory,
    reads_: Vec -> set<Location>,
    writes: Vec -> set<Location>
  ) {
    function Touches(x: Vec): set<Location> { reads_(x) + writes(x) }
  }

  ghost predicate SameAt(m: Memory, m': Memory, l: Location) {
    (l in m <==> l in m') && (l in m ==> m[l] == m'[l])
  }

  ghost predicate AgreeOn(m: Memory, m': Memory, locations: set<Location>) {
    forall l :: l in locations ==> SameAt(m, m', l)
  }

  ghost predicate AgreeOff(m: Memory, m': Memory, locations: set<Location>) {
    forall l :: l !in locations ==> SameAt(m, m', l)
  }

  // An iteration changes only what it writes, and what it leaves there depends
  // only on the locations it touches.
  ghost predicate Framed(body: Body) {
    && (forall x, m :: AgreeOff(m, body.exec(x, m), body.writes(x)))
    && (forall x, m, m' :: AgreeOn(m, m', body.Touches(x)) ==>
          AgreeOn(body.exec(x, m), body.exec(x, m'), body.writes(x)))
  }

  ghost predicate Conflict(body: Body, x: Vec, y: Vec) {
    !(body.writes(x) !! body.Touches(y)) || !(body.reads_(x) !! body.writes(y))
  }

  lemma MemoriesEqual(m: Memory, m': Memory)
    requires AgreeOff(m, m', {})
    ensures m == m'
  {
    forall l ensures (l in m <==> l in m') && (l in m ==> m[l] == m'[l]) {
      assert SameAt(m, m', l);
    }
  }

  lemma Commute(body: Body, x: Vec, y: Vec, m: Memory)
    requires Framed(body) && !Conflict(body, x, y)
    ensures body.exec(y, body.exec(x, m)) == body.exec(x, body.exec(y, m))
  {
    var mx, my := body.exec(x, m), body.exec(y, m);
    var mxy, myx := body.exec(y, mx), body.exec(x, my);
    assert AgreeOff(m, mx, body.writes(x)) && AgreeOff(m, my, body.writes(y));
    assert AgreeOff(mx, mxy, body.writes(y)) && AgreeOff(my, myx, body.writes(x));
    assert AgreeOn(m, my, body.Touches(x));
    assert AgreeOn(mx, myx, body.writes(x));
    assert AgreeOn(m, mx, body.Touches(y));
    assert AgreeOn(my, mxy, body.writes(y));
    forall l ensures SameAt(mxy, myx, l) {
      if l in body.writes(x) {
        assert SameAt(mx, myx, l) && SameAt(mx, mxy, l);
      } else if l in body.writes(y) {
        assert SameAt(my, mxy, l) && SameAt(my, myx, l);
      } else {
        assert SameAt(m, mx, l) && SameAt(mx, mxy, l) && SameAt(m, my, l) && SameAt(my, myx, l);
      }
    }
    MemoriesEqual(mxy, myx);
  }

  function Execute(body: Body, order: seq<Vec>, m: Memory): Memory {
    if order == [] then m else Execute(body, order[1..], body.exec(order[0], m))
  }

  ghost predicate Distinct(s: seq<Vec>) {
    forall i, j :: 0 <= i < j < |s| ==> s[i] != s[j]
  }

  lemma EmptyHasNoMember(s: seq<Vec>)
    ensures s == [] || exists x :: x in s
  {
    if s != [] { assert s[0] in s; }
  }

  // `s` and `t` list the same iterations.
  ghost predicate SameIterations(s: seq<Vec>, t: seq<Vec>) {
    Distinct(s) && Distinct(t) && forall x :: x in s <==> x in t
  }

  // Every conflicting pair of `s` occurs in the same order in `t`.
  ghost predicate KeepsConflicts(body: Body, s: seq<Vec>, t: seq<Vec>) {
    forall i, j, p, q ::
      0 <= i < j < |s| && 0 <= p < |t| && 0 <= q < |t| && s[i] == t[p] && s[j] == t[q] && Conflict(body, s[i], s[j]) ==>
        p < q
  }

  lemma ExecuteFirst(body: Body, x: Vec, rest: seq<Vec>, m: Memory)
    ensures Execute(body, [x] + rest, m) == Execute(body, rest, body.exec(x, m))
  {
    assert ([x] + rest)[1..] == rest;
  }

  // Sequences that differ in where element p is.
  lemma FrontShapes(t: seq<Vec>, p: nat)
    requires 0 < p < |t|
    ensures var rest := t[1..p] + t[p + 1..];
            && [t[1..][p - 1]] + t[1..][..p - 1] + t[1..][p..] == [t[p]] + rest
            && [t[p]] + t[..p] + t[p + 1..] == [t[p]] + ([t[0]] + rest)
            && t == [t[0]] + t[1..]
  {
  }

  // An iteration that conflicts with nothing before it may be run first.
  lemma {:induction false} MoveToFront(body: Body, t: seq<Vec>, p: nat, m: Memory)
    requires Framed(body) && p < |t|
    requires forall q :: 0 <= q < p ==> !Conflict(body, t[p], t[q])
    ensures Execute(body, t, m) == Execute(body, [t[p]] + t[..p] + t[p + 1..], m)
  {
    if p == 0 {
      assert [t[0]] + t[..0] + t[1..] == t;
    } else {
      var rest := t[1..p] + t[p + 1..];
      FrontShapes(t, p);
      MoveToFront(body, t[1..], p - 1, body.exec(t[0], m));
      ExecuteFirst(body, t[0], t[1..], m);
      ExecuteFirst(body, t[p], rest, body.exec(t[0], m));
      Commute(body, t[p], t[0], m);
      ExecuteFirst(body, t[p], [t[0]] + rest, m);
      ExecuteFirst(body, t[0], rest, body.exec(t[p], m));
    }
  }

  lemma {:induction false} ReorderPreservesMemory(body: Body, s: seq<Vec>, t: seq<Vec>, m: Memory)
    requires Framed(body)
    requires SameIterations(s, t) && KeepsConflicts(body, s, t)
    ensures Execute(body, s, m) == Execute(body, t, m)
  {
    if s == [] {
      EmptyHasNoMember(t);
    } else {
      var x := s[0];
      assert x in t;
      var p :| 0 <= p < |t| && t[p] == x;
      FirstHasNoPredecessor(body, s, t, p);
      MoveToFront(body, t, p, m);
      var t' := t[..p] + t[p + 1..];
      assert [x] + t' == [t[p]] + t[..p] + t[p + 1..];
      RemoveFirst(body, s, t, p);
      ReorderPreservesMemory(body, s[1..], t', body.exec(x, m));
    }
  }

  lemma FirstHasNoPredecessor(body: Body, s: seq<Vec>, t: seq<Vec>, p: nat)
    requires SameIterations(s, t) && KeepsConflicts(body, s, t)
    requires s != [] && p < |t| && t[p] == s[0]
    ensures forall q :: 0 <= q < p ==> !Conflict(body, t[p], t[q])
  {
    forall q | 0 <= q < p ensures !Conflict(body, t[p], t[q]) {
      assert t[q] in s;
      var j :| 0 <= j < |s| && s[j] == t[q];
      assert t[q] != t[p];
    }
  }

  lemma RemoveFirstSame(s: seq<Vec>, t: seq<Vec>, p: nat)
    requires SameIterations(s, t) && s != [] && p < |t| && t[p] == s[0]
    ensures SameIterations(s[1..], t[..p] + t[p + 1..])
  {
    var s', t' := s[1..], t[..p] + t[p + 1..];
    assert forall i :: 0 <= i < |t'| ==> t'[i] == t[if i < p then i else i + 1];
    forall x ensures x in s' <==> x in t' {
      if x in s' {
        var i :| 0 <= i < |s'| && s'[i] == x;
        assert s[i + 1] == x && x != s[0];
        assert x in t;
        var q :| 0 <= q < |t| && t[q] == x;
        assert t'[if q < p then q else q - 1] == x;
      }
      if x in t' {
        var q :| 0 <= q < |t'| && t'[q] == x;
        assert x != t[p] && x in s;
        var i :| 0 <= i < |s| && s[i] == x;
        assert s'[i - 1] == x;
      }
    }
  }

  lemma RemoveFirst(body: Body, s: seq<Vec>, t: seq<Vec>, p: nat)
    requires SameIterations(s, t) && KeepsConflicts(body, s, t)
    requires s != [] && p < |t| && t[p] == s[0]
    ensures SameIterations(s[1..], t[..p] + t[p + 1..])
    ensures KeepsConflicts(body, s[1..], t[..p] + t[p + 1..])
  {
    var s', t' := s[1..], t[..p] + t[p + 1..];
    RemoveFirstSame(s, t, p);
    forall i, j, a, b |
      0 <= i < j < |s'| && 0 <= a < |t'| && 0 <= b < |t'| && s'[i] == t'[a] && s'[j] == t'[b] &&
          Conflict(body, s'[i], s'[j])
      ensures a < b
    {
      assert s[i + 1] == t[if a < p then a else a + 1] && s[j + 1] == t[if b < p then b else b + 1];
    }
  }

  /** Straight-line bodies of loads, stores and register computations. */

  datatype Access = Access(base: string, subscripts: seq<AffineExpr>)

  datatype Instruction =
    | Load(dst: nat, from: Access)
    | Compute(dst: nat, f: map<nat, int> -> int)
    | Store(to: Access, src: nat)

  datatype MemoryAccess = MemoryAccess(isStore: bool, access: Access)

  function AccessOf(i: Instruction): seq<MemoryAccess> {
    match i
    case Load(_, from) => [MemoryAccess(false, from)]
    case Compute(_, _) => []
    case Store(to, _) => [MemoryAccess(true, to)]
  }

  // The accesses of a body in program order, as the dependence analysis sees them.
  method CollectMemoryAccesses(code: seq<Instruction>) returns (accesses: seq<MemoryAccess>)
    ensures accesses == Accesses(code)
  {
    accesses := [];
    for i := 0 to |code|
      invariant accesses + Accesses(code[i..]) == Accesses(code)
    {
      accesses := accesses + AccessOf(code[i]);
    }
  }

  function Accesses(code: seq<Instruction>): seq<MemoryAccess> {
    if code == [] then [] else AccessOf(code[0]) + Accesses(code[1..])
  }

  // An access without subscripts stands for element 0 of its base.
  function LocationOf(a: Access, env: Env): Location {
    if a.subscripts == [] then Location(a.base, [0])
    else Location(a.base, seq(|a.subscripts|, k requires 0 <= k < |a.subscripts| => Eval(a.subscripts[k], env)))
  }

  function Touched(accesses: seq<MemoryAccess>, stores: bool, env: Env): set<Location> {
    set a | a in accesses && a.isStore == stores :: LocationOf(a.access, env)
  }

  function ReadRegister(regs: map<nat, int>, r: nat): int { if r in regs then regs[r] else 0 }

  function ReadMemory(m: Memory, l: Location): int { if l in m then m[l] else 0 }

  function RunCode(code: seq<Instruction>, env: Env, regs: map<nat, int>, m: Memory): Memory
    decreases |code|
  {
    if code == [] then m
    else
      match code[0]
      case Load(dst, from) => RunCode(code[1..], env, regs[dst := ReadMemory(m, LocationOf(from, env))], m)
      case Compute(dst, f) => RunCode(code[1..], env, regs[dst := f(regs)], m)
      case Store(to, src) => RunCode(code[1..], env, regs, m[LocationOf(to, env) := ReadRegister(regs, src)])
  }

  // The body that runs `code` at each iteration of a nest over `ivs`.
  function StraightLine(code: seq<Instruction>, env: Env, ivs: seq<Symbol>): Body {
    var at := (x: Vec) => if |x| <= |ivs| then Bind(env, ivs, x) else env;
    Body((x, m) => RunCode(code, at(x), map[], m),
         x => Touched(Accesses(code), false, at(x)),
         x => Touched(Accesses(code), true, at(x)))
  }

  lemma TouchedHead(code: seq<Instruction>, stores: bool, env: Env)
    requires code != []
    ensures Touched(Accesses(code), stores, env) ==
            Touched(AccessOf(code[0]), stores, env) + Touched(Accesses(code[1..]), stores, env)
  {
  }

  lemma {:induction false} RunCodeWrites(code: seq<Instruction>, env: Env, regs: map<nat, int>, m: Memory)
    ensures AgreeOff(m, RunCode(code, env, regs, m), Touched(Accesses(code), true, env))
    decreases |code|
  {
    if code != [] {
      TouchedHead(code, true, env);
      match code[0]
      case Load(dst, from) =>
        RunCodeWrites(code[1..], env, regs[dst := ReadMemory(m, LocationOf(from, env))], m);
      case Compute(dst, f) =>
        RunCodeWrites(code[1..], env, regs[dst := f(regs)], m);
      case Store(to, src) =>
        assert MemoryAccess(true, to) in AccessOf(code[0]);
        RunCodeWrites(code[1..], env, regs, m[LocationOf(to, env) := ReadRegister(regs, src)]);
    }
  }

  lemma {:induction false} RunCodeReads(code: seq<Instruction>, env: Env, regs: map<nat, int>, m: Memory, m': Memory,
                                        seen: set<Location>)
    requires Touched(Accesses(code), false, env) <= seen && Touched(Accesses(code), true, env) <= seen
    requires AgreeOn(m, m', seen)
    ensures AgreeOn(RunCode(code, env, regs, m), RunCode(code, env, regs, m'), seen)
    decreases |code|
  {
    if code != [] {
      TouchedHead(code, false, env);
      TouchedHead(code, true, env);
      match code[0]
      case Load(dst, from) =>
        assert MemoryAccess(false, from) in AccessOf(code[0]);
        assert SameAt(m, m', LocationOf(from, env));
        RunCodeReads(code[1..], env, regs[dst := ReadMemory(m, LocationOf(from, env))], m, m', seen);
      case Compute(dst, f) =>
        RunCodeReads(code[1..], env, regs[dst := f(regs)], m, m', seen);
      case Store(to, src) =>
        var l, v := LocationOf(to, env), ReadRegister(regs, src);
        assert forall k :: SameAt(m, m', k) ==> SameAt(m[l := v], m'[l := v], k);
        RunCodeReads(code[1..], env, regs, m[l := v], m'[l := v], seen);
    }
  }

  // The collected accesses are all that a straight-line body depends on and changes.
  lemma StraightLineFramed(code: seq<Instruction>, env: Env, ivs: seq<Symbol>)
    ensures Framed(StraightLine(code, env, ivs))
  {
    var body := StraightLine(code, env, ivs);
    forall x, m ensures AgreeOff(m, body.exec(x, m), body.writes(x)) {
      var e := if |x| <= |ivs| then Bind(env, ivs, x) else env;
      RunCodeWrites(code, e, map[], m);
    }
    forall x, m, m' | AgreeOn(m, m', body.Touches(x))
      ensures AgreeOn(body.exec(x, m), body.exec(x, m'), body.writes(x))
    {
      var e := if |x| <= |ivs| then Bind(env, ivs, x) else env;
      RunCodeReads(code, e, map[], m, m', body.Touches(x));
    }
  }
}
