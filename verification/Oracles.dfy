/** The laws that the models demand of the libraries they call can be met: one oracle for
    each set of laws. */
module Oracles {
  import opened Arith
  import opened QuasiAffine
  import opened AstBuild
  import opened Wrappers
  import B = BasisReduction
  import E = ExtendHull
  import G = Graft

  /** Sets of integer points described by constraints. */

  // Points in both of two sets: every pair of disjuncts.
  function Meet(s: Set, t: Set): Set {
    if s == [] then [] else MeetBasic(s[0], t) + Meet(s[1..], t)
  }

  function MeetBasic(d: BasicSet, t: Set): (r: Set)
    ensures |r| == |t| && forall i :: 0 <= i < |t| ==> r[i] == d + t[i]
  {
    seq(|t|, i requires 0 <= i < |t| => d + t[i])
  }

  // The integer points where a constraint does not hold.
  function Opposite(c: Constraint): Set {
    var below := Constraint(false, Aff(1, -c.aff.cst - 1, ScaleVec(-1, c.aff.coef)));
    var above := Constraint(false, Aff(1, c.aff.cst - 1, c.aff.coef));
    if c.isEq then [[below], [above]] else [[below]]
  }

  function Complement(d: BasicSet): Set {
    if d == [] then [] else Opposite(d[0]) + Complement(d[1..])
  }

  function Minus(s: Set, t: Set): Set
    decreases |t|
  {
    if t == [] then s else Minus(Meet(s, Complement(t[0])), t[1..])
  }

  lemma InAppended(ls: LocalSpace, d: BasicSet, e: BasicSet, x: Vec)
    requires ls.Valid() && |x| == ls.nvar && ValidBasic(ls, d) && ValidBasic(ls, e)
    ensures ValidBasic(ls, d + e) && (InBasic(ls, d + e, x) <==> InBasic(ls, d, x) && InBasic(ls, e, x))
  {
    if InBasic(ls, d + e, x) {
      forall i | 0 <= i < |d| ensures Holds(ls, d[i], x) { assert Holds(ls, (d + e)[i], x); }
      forall i | 0 <= i < |e| ensures Holds(ls, e[i], x) { assert Holds(ls, (d + e)[|d| + i], x); }
    }
  }

  lemma InUnion(ls: LocalSpace, s: Set, t: Set, x: Vec)
    requires ls.Valid() && ValidSet(ls, s) && ValidSet(ls, t)
    ensures ValidSet(ls, s + t) && (Contains(ls, s + t, x) <==> Contains(ls, s, x) || Contains(ls, t, x))
  {
    if |x| == ls.nvar {
      if InSet(ls, s, x) {
        var i :| 0 <= i < |s| && InBasic(ls, s[i], x);
        assert InBasic(ls, (s + t)[i], x);
      }
      if InSet(ls, t, x) {
        var i :| 0 <= i < |t| && InBasic(ls, t[i], x);
        assert InBasic(ls, (s + t)[|s| + i], x);
      }
    }
  }

  lemma InMeetBasic(ls: LocalSpace, d: BasicSet, t: Set, x: Vec)
    requires ls.Valid() && ValidBasic(ls, d) && ValidSet(ls, t)
    ensures ValidSet(ls, MeetBasic(d, t)) &&
            (Contains(ls, MeetBasic(d, t), x) <==> Contains(ls, [d], x) && Contains(ls, t, x))
  {
    var r := MeetBasic(d, t);
    assert forall i :: 0 <= i < |r| ==> ValidBasic(ls, r[i]);
    if |x| == ls.nvar {
      forall i | 0 <= i < |t| ensures InBasic(ls, r[i], x) <==> InBasic(ls, d, x) && InBasic(ls, t[i], x) {
        InAppended(ls, d, t[i], x);
      }
      if InSet(ls, r, x) {
        var i :| 0 <= i < |r| && InBasic(ls, r[i], x);
        assert InBasic(ls, [d][0], x) && InBasic(ls, t[i], x);
      }
      if InSet(ls, [d], x) && InSet(ls, t, x) {
        var i :| 0 <= i < |t| && InBasic(ls, t[i], x);
        assert InBasic(ls, [d][0], x) && InBasic(ls, r[i], x);
      }
    }
  }

  lemma {:induction false} InMeet(ls: LocalSpace, s: Set, t: Set, x: Vec)
    requires ls.Valid() && ValidSet(ls, s) && ValidSet(ls, t)
    ensures ValidSet(ls, Meet(s, t)) && (Contains(ls, Meet(s, t), x) <==> Contains(ls, s, x) && Contains(ls, t, x))
  {
    if s != [] {
      assert ValidBasic(ls, s[0]) && ValidSet(ls, [s[0]]);
      InMeetBasic(ls, s[0], t, x);
      InMeet(ls, s[1..], t, x);
      InUnion(ls, MeetBasic(s[0], t), Meet(s[1..], t), x);
      assert s == [s[0]] + s[1..];
      InUnion(ls, [s[0]], s[1..], x);
    }
  }

  lemma OppositeHolds(ls: LocalSpace, c: Constraint, x: Vec)
    requires ls.Valid() && ValidConstraint(ls, c)
    ensures ValidSet(ls, Opposite(c))
    ensures |x| == ls.nvar ==> (Contains(ls, Opposite(c), x) <==> !Holds(ls, c, x))
  {
    var o := Opposite(c);
    assert forall i :: 0 <= i < |o| ==> |o[i]| == 1 && ValidConstraint(ls, o[i][0]);
    if |x| == ls.nvar {
      var y := Extend(ls, x);
      DotScale(-1, c.aff.coef, y);
      forall i | 0 <= i < |o| ensures InBasic(ls, o[i], x) <==> Holds(ls, o[i][0], x) {}
      assert Holds(ls, o[0][0], x) <==> Num(c.aff, y) < 0;
      if c.isEq { assert Holds(ls, o[1][0], x) <==> Num(c.aff, y) > 0; }
      if !Holds(ls, c, x) {
        assert InBasic(ls, o[if Num(c.aff, y) < 0 then 0 else 1], x);
      }
    }
  }

  lemma {:induction false} InComplement(ls: LocalSpace, d: BasicSet, x: Vec)
    requires ls.Valid() && ValidBasic(ls, d)
    ensures ValidSet(ls, Complement(d))
    ensures |x| == ls.nvar ==> (Contains(ls, Complement(d), x) <==> !InBasic(ls, d, x))
  {
    if d != [] {
      assert ValidConstraint(ls, d[0]);
      OppositeHolds(ls, d[0], x);
      InComplement(ls, d[1..], x);
      InUnion(ls, Opposite(d[0]), Complement(d[1..]), x);
      if |x| == ls.nvar {
        assert d == [d[0]] + d[1..] && ValidBasic(ls, [d[0]]);
        InAppended(ls, [d[0]], d[1..], x);
        if Holds(ls, d[0], x) { assert InBasic(ls, [d[0]], x); }
        if InBasic(ls, [d[0]], x) { assert Holds(ls, [d[0]][0], x); }
      }
    }
  }

  lemma {:induction false} InMinus(ls: LocalSpace, s: Set, t: Set, x: Vec)
    requires ls.Valid() && ValidSet(ls, s) && ValidSet(ls, t)
    ensures ValidSet(ls, Minus(s, t)) && (Contains(ls, Minus(s, t), x) <==> Contains(ls, s, x) && !Contains(ls, t, x))
    decreases |t|
  {
    if t != [] {
      assert ValidBasic(ls, t[0]) && ValidSet(ls, [t[0]]);
      InComplement(ls, t[0], x);
      InMeet(ls, s, Complement(t[0]), x);
      InMinus(ls, Meet(s, Complement(t[0])), t[1..], x);
      assert t == [t[0]] + t[1..];
      InUnion(ls, [t[0]], t[1..], x);
      if |x| == ls.nvar {
        if InBasic(ls, t[0], x) { assert InBasic(ls, [t[0]][0], x); }
        if InSet(ls, [t[0]], x) { assert InBasic(ls, [t[0]][0], x); }
      }
    }
  }

  // The greatest lower bound that is attained, when there is one.
  ghost predicate IsMinimum(ls: LocalSpace, s: Set, a: Aff, m: int)
    requires ls.Has(a)
  {
    BoundedBelow(ls, s, a, m) && !BoundedBelow(ls, s, a, m + 1)
  }

  ghost function Minimum(ls: LocalSpace, s: Set, a: Aff): int {
    if ls.Has(a) && exists m :: IsMinimum(ls, s, a, m) then var m :| IsMinimum(ls, s, a, m); m else 0
  }

  lemma {:induction false} MinimumExists(ls: LocalSpace, s: Set, a: Aff, k: int, x: Vec)
    requires ls.Has(a) && BoundedBelow(ls, s, a, k) && Contains(ls, s, x)
    ensures exists m :: IsMinimum(ls, s, a, m)
    decreases Num(a, Extend(ls, x)) - k
  {
    if BoundedBelow(ls, s, a, k + 1) {
      MinimumExists(ls, s, a, k + 1, x);
    } else {
      assert IsMinimum(ls, s, a, k);
    }
  }

  lemma MinimumMeans(ls: LocalSpace, s: Set, a: Aff, k: int, x: Vec)
    requires ls.Has(a) && BoundedBelow(ls, s, a, k) && Contains(ls, s, x)
    ensures k <= Minimum(ls, s, a) <= Num(a, Extend(ls, x))
  {
    MinimumExists(ls, s, a, k, x);
    var m := Minimum(ls, s, a);
    assert IsMinimum(ls, s, a, m);
    if k > m { WeakerBound(ls, s, a, k, m + 1); }
  }

  lemma WeakerBound(ls: LocalSpace, s: Set, a: Aff, k: int, l: int)
    requires ls.Has(a) && BoundedBelow(ls, s, a, k) && l <= k
    ensures BoundedBelow(ls, s, a, l)
  {
  }

  // Queries are decided by their meaning; nothing is simplified.
  ghost function PlainOps(ls: LocalSpace): SetOps {
    SetOps(
      (s, a) => ls.Has(a) && BoundedBelow(ls, s, a, 0),
      (s, a) => Minimum(ls, s, a),
      s => [],
      d => [],
      d => d,
      (d, e) => d,
      (s, t) => s,
      (s, t) => Meet(s, t),
      (s, t) => s + t,
      (s, t) => Minus(s, t),
      s => s,
      (s, t) => Included(ls, s, t),
      (s, t) => Disjoint(ls, s, t)
    )
  }

  lemma UniverseHolds(ls: LocalSpace, x: Vec)
    requires ls.Valid() && |x| == ls.nvar
    ensures ValidSet(ls, [[]]) && Contains(ls, [[]], x)
  {
    assert InBasic(ls, [[]][0], x);
  }

  lemma PlainQueries(ls: LocalSpace)
    requires ls.Valid()
    ensures SoundQueries(ls, PlainOps(ls))
  {
    forall s, a, k, x | ls.Has(a) && BoundedBelow(ls, s, a, k) && Contains(ls, s, x)
      ensures k <= PlainOps(ls).minVal(s, a) <= Num(a, Extend(ls, x))
    {
      MinimumMeans(ls, s, a, k, x);
    }
  }

  lemma PlainBasic(ls: LocalSpace)
    requires ls.Valid()
    ensures SoundBasic(ls, PlainOps(ls))
  {
    forall x | |x| == ls.nvar ensures ValidSet(ls, [[]]) && Contains(ls, [[]], x) { UniverseHolds(ls, x); }
  }

  lemma PlainMeet(ls: LocalSpace, s: Set, t: Set)
    requires ls.Valid() && ValidSet(ls, s) && ValidSet(ls, t)
    ensures ValidSet(ls, Meet(s, t))
    ensures forall x :: Contains(ls, Meet(s, t), x) <==> Contains(ls, s, x) && Contains(ls, t, x)
  {
    InMeet(ls, s, t, []);
    forall x ensures Contains(ls, Meet(s, t), x) <==> Contains(ls, s, x) && Contains(ls, t, x) { InMeet(ls, s, t, x); }
  }

  lemma PlainUnion(ls: LocalSpace, s: Set, t: Set)
    requires ls.Valid() && ValidSet(ls, s) && ValidSet(ls, t)
    ensures ValidSet(ls, s + t)
    ensures forall x :: Contains(ls, s + t, x) <==> Contains(ls, s, x) || Contains(ls, t, x)
  {
    InUnion(ls, s, t, []);
    forall x ensures Contains(ls, s + t, x) <==> Contains(ls, s, x) || Contains(ls, t, x) { InUnion(ls, s, t, x); }
  }

  lemma PlainMinus(ls: LocalSpace, s: Set, t: Set)
    requires ls.Valid() && ValidSet(ls, s) && ValidSet(ls, t)
    ensures ValidSet(ls, Minus(s, t))
    ensures forall x :: Contains(ls, Minus(s, t), x) <==> Contains(ls, s, x) && !Contains(ls, t, x)
  {
    InMinus(ls, s, t, []);
    forall x ensures Contains(ls, Minus(s, t), x) <==> Contains(ls, s, x) && !Contains(ls, t, x) {
      InMinus(ls, s, t, x);
    }
  }

  lemma PlainSets(ls: LocalSpace)
    requires ls.Valid()
    ensures SoundSets(ls, PlainOps(ls))
  {
    hide Contains, ValidSet, Meet, Minus;
    var ops := PlainOps(ls);
    forall s, t | ValidSet(ls, s) && ValidSet(ls, t)
      ensures ValidSet(ls, ops.intersect(s, t))
      ensures forall x :: Contains(ls, ops.intersect(s, t), x) <==> Contains(ls, s, x) && Contains(ls, t, x)
    {
      PlainMeet(ls, s, t);
    }
    forall s, t | ValidSet(ls, s) && ValidSet(ls, t)
      ensures ValidSet(ls, ops.union(s, t))
      ensures forall x :: Contains(ls, ops.union(s, t), x) <==> Contains(ls, s, x) || Contains(ls, t, x)
    {
      PlainUnion(ls, s, t);
    }
    forall s, t | ValidSet(ls, s) && ValidSet(ls, t)
      ensures ValidSet(ls, ops.subtract(s, t))
      ensures forall x :: Contains(ls, ops.subtract(s, t), x) <==> Contains(ls, s, x) && !Contains(ls, t, x)
    {
      PlainMinus(ls, s, t);
    }
  }

  /** The set operations that code generation and list minima rely on exist. */
  lemma SetOpsExist(ls: LocalSpace)
    requires ls.Valid()
    ensures exists ops :: Sound(ls, ops)
  {
    PlainQueries(ls);
    PlainBasic(ls);
    PlainSets(ls);
    assert Sound(ls, PlainOps(ls));
  }

  /** Merging: comparison by identity, and nothing to hoist. */
  lemma MergeOpsExist(ls: LocalSpace)
    requires ls.Valid()
    ensures exists ops :: G.SoundMerge(ls, ops)
  {
    var ops := G.MergeOps((s, t) => if s == t then 0 else 1, (s, t) => [[]]);
    forall x | |x| == ls.nvar ensures ValidSet(ls, [[]]) && Contains(ls, [[]], x) { UniverseHolds(ls, x); }
    assert ValidSet(ls, [[]]) by { UniverseHolds(ls, Zeros(ls.nvar)); }
    assert G.SoundMerge(ls, ops);
  }

  function PointSolver(): B.Solver {
    B.Solver((c, r, o) => B.Sample(0.0, 0.0), (c, r, o) => seq(|r|, _ => 0.0), k => 0.0, (c, r) => false,
        (c, r, o, p) => p == B.Sample(0.0, 0.0), (c, r, o, a) => true, (c, o) => 0.0, (c, o) => 0.0,
        x => x == Zeros(|x|))
  }

  lemma PointLaws(c: B.Rows, r: B.Rows, b: Vec, o: Vec, a: seq<real>, m: int, p: B.Sample)
    ensures var s := PointSolver();
            && s.width(c, r, o) >= 0.0 && B.SolveLaw(s, c, r, o) && B.RowLaw(s, c, r, b, o, m)
            && B.DualLaw(s, c, r, b, o, a, m) && B.ShiftLaw(s, c, r, b, o, a, m, p)
            && B.ZeroLaw(s, c, r, b, o) && B.CutLaw(s, c, b, r, o) && B.RangeLaw(s, c, r, o, p)
  {
    var s := PointSolver();
    assert p == B.Sample(0.0, 0.0) && |b| == |o| ==> p.MovesTo(p) && s.isSample(c, r, Combine(1, o, m, b), p);
  }

  lemma {:induction false} PointInside(c: B.Rows, o: Vec, x: Vec)
    ensures B.PointLaw(PointSolver(), c, o, x)
  {
    if PointSolver().Inside(c, x) && |o| == |x| {
      OnlyOrigin(c, x);
      DotAtOrigin(o, x);
    }
  }

  lemma {:induction false} OnlyOrigin(c: B.Rows, x: Vec)
    requires PointSolver().Inside(c, x)
    ensures x == Zeros(|x|)
    decreases |c|
  {
    if c != [] { OnlyOrigin(c[..|c| - 1], x); }
  }

  lemma {:induction false} DotAtOrigin(o: Vec, x: Vec)
    requires |o| <= |x| && x == Zeros(|x|)
    ensures Dot(o, x) == 0
  {
    if o != [] { DotAtOrigin(o[..|o| - 1], x); }
  }

  /** A polyhedron with a single point, the origin: all widths are zero. */
  lemma SolverExists()
    ensures exists s :: B.NonNegative(s) && B.Sound(s)
  {
    hide PointSolver, B.SolveLaw, B.RowLaw, B.DualLaw, B.ShiftLaw, B.ZeroLaw, B.CutLaw, B.RangeLaw, B.PointLaw;
    var s, z := PointSolver(), B.Sample(0.0, 0.0);
    forall c, r, o ensures s.width(c, r, o) >= 0.0 && B.SolveLaw(s, c, r, o) { PointLaws(c, r, [], o, [], 0, z); }
    forall c, r, b, o, m ensures B.RowLaw(s, c, r, b, o, m) { PointLaws(c, r, b, o, [], m, z); }
    forall c, r, b, o, a, m ensures B.DualLaw(s, c, r, b, o, a, m) { PointLaws(c, r, b, o, a, m, z); }
    forall c, r, b, o, a, m, p ensures B.ShiftLaw(s, c, r, b, o, a, m, p) { PointLaws(c, r, b, o, a, m, p); }
    forall c, r, b, o ensures B.ZeroLaw(s, c, r, b, o) { PointLaws(c, r, b, o, [], 0, z); }
    forall c, b, r, o ensures B.CutLaw(s, c, b, r, o) { PointLaws(c, r, b, o, [], 0, z); }
    forall c, r, o, p ensures B.RangeLaw(s, c, r, o, p) { PointLaws(c, r, [], o, [], 0, p); }
    forall c, o, x ensures B.PointLaw(s, c, o, x) { PointInside(c, o, x); }
    assert B.NonNegative(s) && B.Sound(s);
  }

  /** A set with a single point. */
  lemma SamplerExists(n: nat)
    requires n > 0
    ensures exists s :: E.Sound(s, n) && E.IsIn(s, [1] + Zeros(n - 1), n)
  {
    var p := [1] + Zeros(n - 1);
    var s := E.Solver(x => x == p, (a, e) => if E.Satisfies(a, p) && |e| <= |p| && Dot(e, p) >= 0 then Some(p)
        else None);
    assert E.Sound(s, n) && E.IsIn(s, p, n);
  }
}
