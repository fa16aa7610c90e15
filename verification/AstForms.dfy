/** The form of generated expressions: which constraints become stride tests, and which pieces
    become one minimum or maximum. */
module AstForms {
  import opened Arith
  import opened QuasiAffine
  import opened AstExpr
  import opened AstBuild
  import opened Wrappers
  import opened AstFromAff
  import opened AstFromSet
  import opened AstFromPwAff

  /** Strides. */

  // An equality e - d floor(e/d) == 0, in either direction, is written as zdiv_r(_, d) == 0.
  lemma StrideWritten(c: Constraint, b: Build, pos: nat)
    requires b.Valid() && ValidConstraint(b.ls, c) && c.isEq && pos < |b.ls.divs| && IsStride(b.ls, c.aff, pos)
    ensures exists arg, k: nat :: k < |b.ls.divs| && IsStride(b.ls, c.aff, k) &&
              FromConstraint(c, b) == StrideTestOf(arg, b.ls.divs[k].den)
  {
    hide FromAff;
    FirstStride(b.ls, c.aff, 0, pos);
    var k := FindStride(b.ls, c.aff, 0).value;
    var arg := FromAff(StrideArgument(b.ls, c.aff, k), b, |b.ls.divs|);
    assert FromConstraint(c, b) == StrideTestOf(arg, b.ls.divs[k].den);
  }

  function StrideTestOf(arg: Expr, d: int): Expr { Op(Eq, [Op(ZdivR, [arg, Int(d)]), Int(0)]) }

  lemma {:induction false} FirstStride(ls: LocalSpace, a: Aff, from: nat, pos: nat)
    requires ls.Valid() && ls.Has(a) && from <= pos < |ls.divs| && IsStride(ls, a, pos)
    ensures FindStride(ls, a, from).Some?
    decreases |ls.divs| - from
  {
    if from < pos && !IsStride(ls, a, from) { FirstStride(ls, a, from + 1, pos); }
  }

  /** Minima and maxima. */

  // On the points of the domain in s, a is at most a' (at least, for a maximum).
  ghost predicate Leads(b: Build, s: Set, a: Aff, a': Aff, isMin: bool)
    requires b.Valid() && b.ls.Has(a) && b.ls.Has(a')
  {
    forall x :: Contains(b.ls, b.domain, x) && Contains(b.ls, s, x) ==>
      var v, w := Num(a, Extend(b.ls, x)), Num(a', Extend(b.ls, x)); if isMin then v <= w else v >= w
  }

  // The test is that each expression leads all others on its own set.
  ghost predicate Competes(g: Group, domain: Set, a: Aff, isMin: bool, b: Build)
    requires b.Valid() && ValidGroup(b.ls, g) && b.ls.Has(a)
  {
    forall i :: 0 <= i < |g.sets| ==>
      Leads(b, g.sets[i], g.affs[i], a, isMin) && Leads(b, domain, a, g.affs[i], isMin)
  }

  lemma ExtendsIff(g: Group, domain: Set, a: Aff, isMin: bool, b: Build)
    requires b.Valid() && ValidGroup(b.ls, g) && b.ls.Has(a) && ValidSet(b.ls, domain) && !g.state.NoPiece?
    requires g.state.Single? || g.state == (if isMin then Minimum else Maximum)
    ensures Extends(g, domain, a, isMin, b) <==>
              b.detectMinMax && !IsRational(a) && !IsRational(g.affs[0]) && Competes(g, domain, a, isMin, b)
  {
    hide Sound;
    if !IsRational(a) && !IsRational(g.affs[0]) {
      forall i | 0 <= i < |g.sets|
        ensures ExtendsEntry(g, i, domain, a, isMin, b) <==>
                  Leads(b, g.sets[i], g.affs[i], a, isMin) && Leads(b, domain, a, g.affs[i], isMin)
      {
        LeadsIff(b, g.sets[i], g.affs[i], a, isMin);
        LeadsIff(b, domain, a, g.affs[i], isMin);
      }
    }
  }

  predicate ExtendsEntry(g: Group, i: nat, domain: Set, a: Aff, isMin: bool, b: Build)
    requires b.Valid() && ValidGroup(b.ls, g) && b.ls.Has(a) && i < |g.sets|
  {
    && Ahead(b, g.sets[i], g.affs[i], a, isMin)
    && Ahead(b, domain, a, g.affs[i], isMin)
  }

  // The set query behind `Leads`
  predicate Ahead(b: Build, s: Set, a: Aff, a': Aff, isMin: bool)
    requires b.Valid() && b.ls.Has(a) && b.ls.Has(a')
  {
    b.ops.isSubset(b.ops.intersect(b.domain, s), if isMin then GeSet(a', a) else GeSet(a, a'))
  }

  lemma LeadsIff(b: Build, s: Set, a: Aff, a': Aff, isMin: bool)
    requires b.Valid() && b.ls.Has(a) && b.ls.Has(a') && !IsRational(a) && !IsRational(a') && ValidSet(b.ls, s)
    ensures Ahead(b, s, a, a', isMin) <==> Leads(b, s, a, a', isMin)
  {
    var here, ge := b.ops.intersect(b.domain, s), if isMin then GeSet(a', a) else GeSet(a, a');
    GeSetAt(b.ls, a, a', Zeros(b.ls.nvar));
    GeSetAt(b.ls, a', a, Zeros(b.ls.nvar));
    forall x | |x| == b.ls.nvar
      ensures Contains(b.ls, ge, x) <==>
                var v, w := Num(a, Extend(b.ls, x)), Num(a', Extend(b.ls, x)); if isMin then v <= w else v >= w
    {
      GeSetAt(b.ls, a, a', x);
      GeSetAt(b.ls, a', a, x);
    }
    assert b.ops.isSubset(here, ge) <==> Included(b.ls, here, ge);
  }

  /** Two pieces that compete, and that are not merged because they are equal, become one
      minimum (or maximum) of the two expressions. */
  lemma ExtremumDetected(p: Piece, q: Piece, isMin: bool, b: Build)
    requires b.Valid() && ValidPw(b.ls, [p, q]) && b.detectMinMax && !IsRational(p.aff) && !IsRational(q.aff)
    requires ValidPiece(b.ls, p) && ValidPiece(b.ls, q)
    requires !b.ops.isSubset(q.domain, EqSet(q.aff, p.aff)) && !b.ops.isSubset(p.domain, EqSet(q.aff, p.aff))
    requires Leads(b, p.domain, p.aff, q.aff, isMin) && Leads(b, q.domain, q.aff, p.aff, isMin)
    requires !isMin ==> !(Leads(b, p.domain, p.aff, q.aff, true) && Leads(b, q.domain, q.aff, p.aff, true))
    ensures exists inside: Build :: inside.Valid() && inside.ls == b.ls &&
              FromPwAff([p, q], b) ==
              Op(if isMin then Min else Max, [FromAff(p.aff, inside, |b.ls.divs|), FromAff(q.aff, inside, |b.ls.divs|)])
  {
    hide Sound, FromAff, ExtendGroup, Leads, FromPwAff, ToChoice;
    PairExtends(p, q, isMin, b);
    var state := if isMin then Minimum else Maximum;
    OneGroup(p, q, state, b);
    ExtremumOf(p, q, isMin, b);
  }

  lemma PairExtends(p: Piece, q: Piece, isMin: bool, b: Build)
    requires b.Valid() && b.detectMinMax && !IsRational(p.aff) && !IsRational(q.aff)
    requires ValidPiece(b.ls, p) && ValidPiece(b.ls, q)
    requires !b.ops.isSubset(q.domain, EqSet(q.aff, p.aff)) && !b.ops.isSubset(p.domain, EqSet(q.aff, p.aff))
    requires Leads(b, p.domain, p.aff, q.aff, isMin) && Leads(b, q.domain, q.aff, p.aff, isMin)
    requires !isMin ==> !(Leads(b, p.domain, p.aff, q.aff, true) && Leads(b, q.domain, q.aff, p.aff, true))
    ensures var g := Group(Single, [p.domain], [p.aff]);
            ExtendGroup(g, q.domain, q.aff, b) ==
            Some(Extended(g, if isMin then Minimum else Maximum, q.domain, q.aff))
  {
    hide Sound, Extends, Leads;
    var g := Group(Single, [p.domain], [p.aff]);
    ExtendsIff(g, q.domain, q.aff, true, b);
    ExtendsIff(g, q.domain, q.aff, false, b);
    assert Competes(g, q.domain, q.aff, isMin, b);
    assert !isMin ==> !Competes(g, q.domain, q.aff, true, b) by { assert g.sets[0] == p.domain; }
  }

  lemma ExtremumOf(p: Piece, q: Piece, isMin: bool, b: Build)
    requires b.Valid() && ValidPiece(b.ls, p) && ValidPiece(b.ls, q)
    requires var h := Extended(Group(Single, [p.domain], [p.aff]), if isMin then Minimum else Maximum, q.domain, q.aff);
             ValidGroup(b.ls, h)
    ensures var h := Extended(Group(Single, [p.domain], [p.aff]), if isMin then Minimum else Maximum, q.domain, q.aff);
            exists inside: Build :: inside.Valid() && inside.ls == b.ls &&
              FromChoice(ToChoice(h, b), b) ==
              Op(if isMin then Min else Max, [FromAff(p.aff, inside, |b.ls.divs|), FromAff(q.aff, inside, |b.ls.divs|)])
  {
    hide Sound, FromAff;
    var h := Extended(Group(Single, [p.domain], [p.aff]), if isMin then Minimum else Maximum, q.domain, q.aff);
    var c := ToChoice(h, b);
    RestrictValid(b, c.domain);
    var inside := b.Restrict(c.domain);
    assert FromAffs(c.affs, inside) == [FromAff(p.aff, inside, |b.ls.divs|), FromAff(q.aff, inside, |b.ls.divs|)];
  }

  lemma OneGroup(p: Piece, q: Piece, state: State, b: Build)
    requires b.Valid() && ValidPw(b.ls, [p, q]) && ValidPiece(b.ls, p) && ValidPiece(b.ls, q)
    requires var g := Group(Single, [p.domain], [p.aff]);
             ExtendGroup(g, q.domain, q.aff, b) == Some(Extended(g, state, q.domain, q.aff))
    ensures var h := Extended(Group(Single, [p.domain], [p.aff]), state, q.domain, q.aff);
            ValidGroup(b.ls, h) && !h.state.NoPiece? && FromPwAff([p, q], b) == FromChoice(ToChoice(h, b), b)
  {
    hide Sound, ExtendGroup, FromChoice, Extended, ToChoice;
    var start, g := [Group(NoPiece, [], [])], Group(Single, [p.domain], [p.aff]);
    assert [p, q][1..] == [q] && [q][1..] == [];
    assert AddPiece(start, p.domain, p.aff, b) == [g];
    var h := ExtendGroup(g, q.domain, q.aff, b).value;
    assert AddPiece([g], q.domain, q.aff, b) == [h];
    assert AddPieces([h], [], b) == [h] && AddPieces([g], [q], b) == AddPieces([h], [], b);
    assert AddPieces(start, [p, q], b) == AddPieces([g], [q], b);
    assert [h][..0] == [] && ToChoices([], b) == [];
    assert ToChoices([h], b) == [ToChoice(h, b)];
    assert Sorted([ToChoice(h, b)]) == [ToChoice(h, b)];
  }
}
