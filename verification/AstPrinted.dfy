/** Every expression the compilers emit can be printed as C and read back, so the value of
    the C text is that of the affine expression or set it was generated from; and it only
    contains the operations that the options allow. */
module AstPrinted {
  import opened Arith
  import opened QuasiAffine
  import opened AstExpr
  import opened AstBuild
  import opened Wrappers
  import opened AstFromAff
  import opened AstFromAffProof
  import opened AstFromSet
  import opened AstFromPwAff
  import opened CPrint
  import opened CPrintProof
  import opened CPrintLexing
  import opened CPrintExact

  /** Which division operations are written.  `base` is the build an expression is generated
      for, up to its domain, which is `domain` if that is given. */
  datatype Scope = Scope(base: Build, domain: Option<Set>)

  predicate Allows(sc: Scope, s: Set) { sc.domain.None? || sc.domain.value == s }

  ghost predicate Covers(sc: Scope, b: Build) {
    Allows(sc, b.domain) && b == sc.base.(domain := b.domain)
  }

  predicate Everywhere(sc: Scope) { sc.domain.None? }

  function Anywhere(b: Build): Scope { Scope(b, None) }

  // A floor of a division that may be negative on the domain, and so may its opposite.
  ghost predicate FloorOf(e: Expr, b: Build, j: nat) {
    && b.Valid() && j < |b.ls.divs|
    && var a, d := DivArg(b.ls, j), b.ls.divs[j].den;
       && e == Op(FdivQ, [FromAff(a, b, j), Int(d)])
       && (b.preferPdiv ==> !b.ops.isNonneg(b.domain, a) && !b.ops.isNonneg(b.domain, OpposeDivArg(a, d)))
  }

  // pdiv_q and pdiv_r only occur when they are preferred; then fdiv_q does not occur unless
  // neither the argument of the division nor its opposite is non-negative.  Minima and maxima
  // only occur when they are to be detected.
  ghost predicate OpsFit(e: Expr, sc: Scope) {
    e.Op? ==>
      && (e.op.PdivQ? || e.op.PdivR? ==> sc.base.preferPdiv)
      && (e.op.Min? || e.op.Max? ==> sc.base.detectMinMax)
      && (e.op.FdivQ? ==> exists s, j :: Allows(sc, s) && FloorOf(e, sc.base.(domain := s), j))
      && forall i :: 0 <= i < |e.args| ==> OpsFit(e.args[i], sc)
  }

  ghost predicate Clean(e: Expr, sc: Scope) { WellFormed(e) && Printable(e) && OpsFit(e, sc) }

  // A minus sign may be put before it.
  ghost predicate Solid(e: Expr, sc: Scope) { Clean(e, sc) && !StartsWithMinus(e) }

  lemma CleanBinary(op: OpType, x: Expr, y: Expr, sc: Scope)
    requires IsArithmetic(op) && Arity(op) == 2 && Clean(x, sc) && Clean(y, sc)
    requires !op.FdivQ? && (op.PdivQ? || op.PdivR? ==> sc.base.preferPdiv)
    ensures Solid(Op(op, [x, y]), sc)
  {
  }

  lemma PrintableBinary(op: OpType, x: Expr, y: Expr)
    requires IsArithmetic(op) && Arity(op) == 2 && WellFormed(x) && WellFormed(y) && Printable(x) && Printable(y)
    ensures WellFormed(Op(op, [x, y])) && Printable(Op(op, [x, y])) && !StartsWithMinus(Op(op, [x, y]))
  {
  }

  lemma CleanFloor(b: Build, j: nat, e: Expr, sc: Scope)
    requires Covers(sc, b) && FloorOf(e, b, j) && Clean(e.args[0], sc)
    ensures Solid(e, sc)
  {
    hide FromAff, DivArg;
    var x, y := e.args[0], e.args[1];
    assert b == sc.base.(domain := b.domain) && e == Op(FdivQ, [x, y]);
    PrintableBinary(FdivQ, x, y);
    assert OpsFit(e, sc) by {
      forall i | 0 <= i < |e.args| ensures OpsFit(e.args[i], sc) { assert e.args[i] == x || e.args[i] == y; }
    }
  }

  lemma CleanMinus(x: Expr, sc: Scope)
    requires Solid(x, sc)
    ensures Clean(Op(Minus, [x]), sc)
  {
  }

  lemma CleanSelect(c: Expr, x: Expr, y: Expr, sc: Scope)
    requires Clean(c, sc) && Clean(x, sc) && Clean(y, sc) && !IsConditional(c)
    ensures Clean(Op(Select, [c, x, y]), sc)
  {
  }

  lemma CleanAdd(x: Expr, y: Expr, sc: Scope)
    requires Clean(x, sc) && Clean(y, sc)
    ensures Clean(AddExpr(x, y), sc) && (Solid(x, sc) && Solid(y, sc) ==> Solid(AddExpr(x, y), sc))
  {
    CleanBinary(Add, x, y, sc);
  }

  lemma CleanSub(x: Expr, y: Expr, sc: Scope)
    requires Clean(x, sc) && Solid(y, sc)
    ensures Clean(SubExpr(x, y), sc)
  {
    CleanBinary(Sub, x, y, sc);
    CleanMinus(y, sc);
  }

  lemma CleanAddInt(e: Expr, v: int, sc: Scope)
    requires Clean(e, sc)
    ensures Clean(AddInt(e, v), sc)
  {
    if v < 0 && !IsZero(e) { CleanSub(e, Int(-v), sc); } else { CleanAdd(e, Int(v), sc); }
  }

  lemma CleanScale(e: Expr, v: int, sc: Scope)
    requires Solid(e, sc)
    ensures Clean(Scale(e, v), sc) && (v >= 0 ==> Solid(Scale(e, v), sc))
  {
    CleanMinus(e, sc);
    CleanBinary(Mul, Int(v), e, sc);
  }

  /** Affine expressions. */

  ghost predicate CleanModulos(s: Modulos, sc: Scope) { Clean(s.pos, sc) && Solid(s.neg, sc) }

  lemma ModExprSolid(v: int, arg: Aff, d: int, b: Build, level: nat, sc: Scope)
    requires b.Valid() && Covers(sc, b) && b.preferPdiv && Fits(b, arg, level) && d > 0
    ensures Solid(ModExpr(v, arg, d, b, level), sc)
    decreases level, 0, 4, 0
  {
    FromAffClean(arg, b, level, sc);
    CleanBinary(PdivR, FromAff(arg, b, level), Int(d), sc);
    CleanBinary(Mul, Int(v), Op(PdivR, [FromAff(arg, b, level), Int(d)]), sc);
  }

  lemma MovedClean(b: Build, s: Modulos, i: nat, f: int, term: Aff, e: Expr, sc: Scope)
    requires b.ls.nvar + i < |s.aff.coef| && (s.add.Some? ==> |s.add.value.coef| == |term.coef|)
    requires CleanModulos(s, sc) && Solid(e, sc)
    ensures CleanModulos(Moved(b, s, i, f, term, e), sc)
  {
    CleanAdd(s.pos, e, sc);
    CleanAdd(s.neg, e, sc);
  }

  lemma ExtractTermClean(s: Modulos, i: nat, v: int, d: int, term: Aff, arg: Aff, b: Build, level: nat, inner: nat,
                         sc: Scope)
    requires b.Valid() && Covers(sc, b) && b.preferPdiv && d > 0 && inner < level && i < level
    requires FitsModulos(b, s, level)
    requires Fits(b, term, level) && Fits(b, arg, inner) && CleanModulos(s, sc)
    ensures CleanModulos(ExtractTermAndMod(s, i, v, d, term, arg, b, level, inner), sc)
    decreases level, 0, 0, 0
  {
    var even := d == 2 && arg.cst == -1;
    var term' := if even then OpposeDivArg(term, d) else term;
    var arg' := if even then arg.(cst := 0) else arg;
    var f := FloorDiv(if even then -v else v, d);
    ModExprSolid(Abs(f), arg', d, b, inner, sc);
    MovedClean(b, s, i, f, term', ModExpr(Abs(f), arg', d, b, inner), sc);
  }

  lemma ExtractNonnegClean(s: Modulos, i: nat, v: int, d: int, div: Aff, b: Build, level: nat, sc: Scope)
    requires b.Valid() && Covers(sc, b) && b.preferPdiv && d > 0 && i < level && FitsModulos(b, s, level)
    requires Fits(b, div, i) && CleanModulos(s, sc)
    ensures CleanModulos(ExtractNonnegMod(s, i, v, d, div, b, level), sc)
    decreases level, 0, 1, 0
  {
    var opposite := OpposeDivArg(div, d);
    ExtractTermClean(s, i, v, d, div, div, b, level, i, sc);
    ExtractTermClean(s, i, -v, d, opposite, opposite, b, level, i, sc);
  }

  lemma TryExtractClean(s: Modulos, i: nat, v: int, d: int, div: Aff, b: Build, level: nat, sc: Scope)
    requires b.Valid() && Covers(sc, b) && b.preferPdiv && d > 0 && i < level && FitsModulos(b, s, level)
    requires Fits(b, div, i) && CleanModulos(s, sc)
    ensures CleanModulos(TryExtractMod(s, i, v, d, div, b, level), sc)
    decreases level, 0, 2, 0
  {
    hide Sound;
    ExtractNonnegClean(s, i, v, d, div, b, level, sc);
    if !InvolvesDivs(b.ls, div) {
      var m := FindNonneg(Match(None, None, 0), HullConstraints(b), div, d, b.ls.nvar);
      FindNonnegFits(Match(None, None, 0), HullConstraints(b), div, d, b);
      if m.sign != 0 && m.nonneg.Some? {
        var arg := m.nonneg.value.(cst := FixedConstant(div.cst, m.nonneg.value.cst, d, m.sign));
        if m.sign < 0 {
          ExtractTermClean(s, i, -v, d, OpposeDivArg(div, d), arg, b, level, 0, sc);
        } else {
          ExtractTermClean(s, i, v, d, div, arg, b, level, 0, sc);
        }
      }
    }
  }

  lemma ModulosFromClean(s: Modulos, i: nat, b: Build, level: nat, sc: Scope)
    requires b.Valid() && Covers(sc, b) && b.preferPdiv && FitsModulos(b, s, level) && i <= |b.ls.divs|
    requires CleanModulos(s, sc)
    ensures CleanModulos(ExtractModulosFrom(s, i, b, level), sc)
    decreases level, 0, 3, |b.ls.divs| - i
  {
    if i < |b.ls.divs| {
      var v, d := s.aff.coef[b.ls.nvar + i], b.ls.divs[i].den;
      if v == 0 || v == 1 || v == -1 || v % d != 0 {
        ModulosFromClean(s, i + 1, b, level, sc);
      } else {
        TryExtractClean(s, i, v, d, DivArg(b.ls, i), b, level, sc);
        ModulosFromClean(TryExtractMod(s, i, v, d, DivArg(b.ls, i), b, level), i + 1, b, level, sc);
      }
    }
  }

  lemma ModulosClean(a: Aff, pos: Expr, neg: Expr, b: Build, level: nat, sc: Scope)
    requires b.Valid() && Covers(sc, b) && Fits(b, a, level) && Clean(pos, sc) && Solid(neg, sc)
    ensures CleanModulos(ExtractModulos(a, pos, neg, b, level), sc)
    decreases level, 0, 3, |b.ls.divs| + 1
  {
    if b.preferPdiv { ModulosFromClean(Modulos(a, pos, neg, None), 0, b, level, sc); }
  }

  lemma VarDivSolid(j: nat, v: int, cst: int, b: Build, sc: Scope)
    requires b.Valid() && Covers(sc, b) && j < |b.ls.divs|
    ensures Solid(VarDiv(j, v, cst, b).e, sc)
    decreases j, 2, 0, 0
  {
    var a, d := DivArg(b.ls, j), b.ls.divs[j].den;
    var opposite, stolen := OpposeDivArg(a, d), a.(cst := a.cst + Stolen(a, d, b) * d);
    FromAffClean(a, b, j, sc);
    FromAffClean(opposite, b, j, sc);
    FromAffClean(stolen, b, j, sc);
    hide Clean, Solid;
    VarDivCases(j, v, cst, b);
    var t := VarDiv(j, v, cst, b);
    if t.e.op.FdivQ? {
      CleanFloor(b, j, t.e, sc);
    } else {
      IntClean(d, sc);
      CleanBinary(PdivQ, t.e.args[0], Int(d), sc);
    }
  }

  lemma IntClean(v: int, sc: Scope)
    ensures Clean(Int(v), sc)
  {
  }

  /** Which operation a division is written with: fdiv_q exactly when pdiv_q is not wanted,
      or when neither the argument nor its opposite is non-negative, and adding the part of
      the constant term that may be taken does not make the argument so. */
  lemma VarDivForm(j: nat, v: int, cst: int, b: Build)
    requires b.Valid() && j < |b.ls.divs|
    ensures var a, d, e := DivArg(b.ls, j), b.ls.divs[j].den, VarDiv(j, v, cst, b).e;
            && e.Op? && (e.op.FdivQ? || e.op.PdivQ?)
            && (e.op.FdivQ? <==>
                  || !b.preferPdiv
                  || (&& !b.ops.isNonneg(b.domain, a) && !b.ops.isNonneg(b.domain, OpposeDivArg(a, d))
                      && !NonnegAfterStealing(a, d, v, cst, b)))
  {
    hide FromAff;
  }

  // The forms a division can take
  lemma VarDivCases(j: nat, v: int, cst: int, b: Build)
    requires b.Valid() && j < |b.ls.divs|
    ensures var a, d, e := DivArg(b.ls, j), b.ls.divs[j].den, VarDiv(j, v, cst, b).e;
            && e.Op? && (e.op.FdivQ? || e.op.PdivQ?)
            && (e.op.FdivQ? ==> FloorOf(e, b, j))
            && (e.op.PdivQ? ==>
                  && b.preferPdiv && |e.args| == 2 && e == Op(PdivQ, [e.args[0], Int(d)])
                  && (|| e.args[0] == FromAff(a, b, j) || e.args[0] == FromAff(OpposeDivArg(a, d), b, j)
                      || e.args[0] == FromAff(a.(cst := a.cst + Stolen(a, d, b) * d), b, j)))
  {
    hide FromAff;
    VarDivForm(j, v, cst, b);
  }

  lemma NameSolid(name: string, sc: Scope)
    ensures Solid(Id(name), sc)
  {
  }

  lemma AddTermClean(s: Sum, k: nat, v: int, b: Build, level: nat, sc: Scope)
    requires b.Valid() && Covers(sc, b) && level <= |b.ls.divs| && k < b.ls.nvar + level && Clean(s.e, sc)
    ensures Clean(AddTerm(s, k, v, b, level).e, sc)
    decreases level, 0, 1, 0
  {
    hide Clean, Solid, AddExpr, SubExpr, Scale;
    var t := VarTerm(k, v, s.cst, b, level);
    if k < b.ls.nvar { NameSolid(b.names[k], sc); }
    if k >= b.ls.nvar { VarDivSolid(k - b.ls.nvar, v, s.cst, b, sc); }
    CleanScale(t.e, t.v, sc);
    CleanScale(t.e, -t.v, sc);
    if t.v < 0 && !IsZero(s.e) { CleanSub(s.e, Scale(t.e, -t.v), sc); } else { CleanAdd(s.e, Scale(t.e, t.v), sc); }
  }

  lemma AddTermsClean(s: Sum, a: Aff, k: nat, b: Build, level: nat, sc: Scope)
    requires b.Valid() && Covers(sc, b) && Fits(b, a, level) && k <= b.ls.Dim() && Clean(s.e, sc)
    ensures Clean(AddTermsFrom(s, a, k, b, level).e, sc)
    decreases level, 0, 2, b.ls.Dim() - k
  {
    if k < b.ls.Dim() {
      if a.coef[k] == 0 {
        AddTermsClean(s, a, k + 1, b, level, sc);
      } else {
        AddTermClean(s, k, a.coef[k], b, level, sc);
        AddTermsClean(AddTerm(s, k, a.coef[k], b, level), a, k + 1, b, level, sc);
      }
    }
  }

  lemma FromIntegerAffClean(a: Aff, e: Expr, b: Build, level: nat, sc: Scope)
    requires b.Valid() && Covers(sc, b) && Fits(b, a, level) && Clean(e, sc)
    ensures Clean(FromIntegerAff(a, e, b, level), sc)
    decreases level, 0, 3, |b.ls.divs| + 2
  {
    ModulosClean(a, e, Int(0), b, level, sc);
    var s := ExtractModulos(a, e, Int(0), b, level);
    CleanSub(s.pos, s.neg, sc);
    var start := Sum(SubExpr(s.pos, s.neg), s.aff.cst);
    AddTermsClean(start, s.aff, 0, b, level, sc);
    var t := AddTermsFrom(start, s.aff, 0, b, level);
    CleanAddInt(t.e, t.cst, sc);
  }

  lemma FromAffClean(a: Aff, b: Build, level: nat, sc: Scope)
    requires b.Valid() && Covers(sc, b) && b.ls.Has(a) && level <= |b.ls.divs| && Below(b.ls, a, level)
    ensures Clean(FromAff(a, b, level), sc)
    decreases level, if a.den == 1 then 0 else 1, 3, |b.ls.divs| + 3
  {
    if a.den == 1 {
      FromIntegerAffClean(a, Int(0), b, level, sc);
    } else {
      var rational := FromAff(RationalPart(a), b, level);
      FromAffClean(RationalPart(a), b, level, sc);
      CleanBinary(Div, rational, Int(a.den), sc);
      FromIntegerAffClean(IntegerPart(a), Op(Div, [rational, Int(a.den)]), b, level, sc);
    }
  }

  /** Sets. */

  // What decides whether a point is in a set: no conditional.
  ghost predicate CleanTest(e: Expr, sc: Scope) { Clean(e, sc) && !IsConditional(e) }

  lemma BalanceClean(p: Expr, n: Expr, cst: int, sc: Scope)
    requires Clean(p, sc) && Clean(n, sc)
    ensures Clean(Balance(p, n, cst).0, sc) && Clean(Balance(p, n, cst).1, sc)
  {
    CleanAddInt(p, cst, sc);
    CleanAddInt(n, -cst, sc);
  }

  lemma ZeroSolid(sc: Scope)
    ensures Clean(Int(0), sc) && Solid(Int(0), sc)
  {
  }

  lemma ModulosSides(s: Modulos, sc: Scope)
    requires CleanModulos(s, sc)
    ensures Clean(s.pos, sc) && Clean(s.neg, sc)
  {
  }

  lemma SidesClean(a: Aff, b: Build, sc: Scope)
    requires b.Valid() && Covers(sc, b) && Everywhere(sc) && b.ls.Has(a) && a.den == 1
    ensures Clean(Sides(a, b).0, sc) && Clean(Sides(a, b).1, sc)
  {
    hide Clean, Solid;
    ZeroSolid(sc);
    var level := |b.ls.divs|;
    ModulosClean(a, Int(0), Int(0), b, level, sc);
    var s := ExtractModulos(a, Int(0), Int(0), b, level);
    ModulosSides(s, sc);
    AddTermsClean(Sum(s.pos, s.aff.cst), CoefficientsOfSign(s.aff, 1), 0, b, level, sc);
    var p := PositiveSum(s, b);
    AddTermsClean(Sum(s.neg, -p.cst), NegAff(CoefficientsOfSign(s.aff, -1)), 0, b, level, sc);
    var n := NegativeSum(s, -p.cst, b);
    BalanceClean(p.e, n.e, -n.cst, sc);
  }

  lemma StrideClean(a: Aff, pos: nat, b: Build, sc: Scope)
    requires b.Valid() && Covers(sc, b) && Everywhere(sc) && b.ls.Has(a) && a.den == 1 && pos < |b.ls.divs|
    ensures CleanTest(ExtractStride(a, pos, b), sc)
  {
    var e, d := FromAff(StrideArgument(b.ls, a, pos), b, |b.ls.divs|), Int(Abs(a.coef[b.ls.nvar + pos]));
    FromAffClean(StrideArgument(b.ls, a, pos), b, |b.ls.divs|, sc);
    CleanBinary(ZdivR, e, d, sc);
    CleanBinary(Eq, Op(ZdivR, [e, d]), Int(0), sc);
  }

  lemma FromConstraintClean(c: Constraint, b: Build, sc: Scope)
    requires b.Valid() && Covers(sc, b) && Everywhere(sc) && ValidConstraint(b.ls, c)
    ensures CleanTest(FromConstraint(c, b), sc)
  {
    hide Sound;
    var stride := if c.isEq then FindStride(b.ls, c.aff, 0) else None;
    if stride.Some? {
      StrideClean(c.aff, stride.value, b, sc);
    } else {
      SidesClean(c.aff, b, sc);
      var p, n := Sides(c.aff, b).0, Sides(c.aff, b).1;
      CleanBinary(if c.isEq then Eq else Le, n, p, sc);
      CleanBinary(if c.isEq then Eq else Ge, p, n, sc);
    }
  }

  lemma {:induction false} AndConstraintsClean(res: Expr, cs: BasicSet, b: Build, sc: Scope)
    requires b.Valid() && Covers(sc, b) && Everywhere(sc) && ValidBasic(b.ls, cs) && CleanTest(res, sc)
    ensures CleanTest(AndConstraints(res, cs, b), sc)
    decreases |cs|
  {
    if cs != [] {
      assert ValidConstraint(b.ls, cs[0]);
      RestrictTo(b, cs[0]);
      FromConstraintClean(cs[0], b, sc);
      CleanBinary(And, res, FromConstraint(cs[0], b), sc);
      AndConstraintsClean(Op(And, [res, FromConstraint(cs[0], b)]), cs[1..], b.Restrict([[cs[0]]]), sc);
    }
  }

  lemma FromBasicSetClean(bset: BasicSet, b: Build, sc: Scope)
    requires b.Valid() && Covers(sc, b) && Everywhere(sc) && ValidBasic(b.ls, bset)
    ensures CleanTest(FromBasicSet(bset, b), sc)
  {
    var cs := b.ops.sortConstraints(bset);
    SortedValid(bset, b);
    if cs != [] {
      assert ValidConstraint(b.ls, cs[0]);
      RestrictTo(b, cs[0]);
      FromConstraintClean(cs[0], b, sc);
      AndConstraintsClean(FromConstraint(cs[0], b), cs[1..], b.Restrict([[cs[0]]]), sc);
    }
  }

  lemma {:induction false} OrDisjunctsClean(res: Expr, previous: BasicSet, rest: Set, domain: Set, b: Build, sc: Scope)
    requires b.Valid() && Covers(sc, b) && Everywhere(sc) && ValidBasic(b.ls, previous) && ValidSet(b.ls, rest)
    requires ValidSet(b.ls, domain) && CleanTest(res, sc)
    ensures CleanTest(OrDisjuncts(res, previous, rest, domain, b), sc)
    decreases |rest|
  {
    if rest != [] {
      var domain' := Remaining(domain, previous, b);
      assert ValidBasic(b.ls, rest[0]);
      var bset := b.ops.gistBasic(rest[0], b.ops.simpleHull(domain'));
      FromBasicSetClean(bset, b, sc);
      CleanBinary(Or, res, FromBasicSet(bset, b), sc);
      OrDisjunctsClean(Op(Or, [res, FromBasicSet(bset, b)]), rest[0], rest[1..], domain', b, sc);
    }
  }

  lemma FromSetClean(s: Set, b: Build, sc: Scope)
    requires b.Valid() && Covers(sc, b) && Everywhere(sc) && ValidSet(b.ls, s)
    ensures CleanTest(FromSet(s, b), sc)
  {
    if s != [] {
      assert ValidBasic(b.ls, s[0]);
      FromBasicSetClean(s[0], b, sc);
      OrDisjunctsClean(FromBasicSet(s[0], b), s[0], s[1..], b.domain, b, sc);
    }
  }

  /** Piecewise expressions. */

  // Groups of several expressions only arise when minima and maxima are to be detected.
  predicate Fitting(s: State, b: Build) { s.Single? || (!s.NoPiece? && b.detectMinMax) }

  predicate GroupsFit(gs: seq<Group>, b: Build) {
    forall i :: 0 <= i < |gs| ==> gs[i].state.NoPiece? || Fitting(gs[i].state, b)
  }

  lemma {:induction false} AddedFit(gs: seq<Group>, pa: PwAff, b: Build)
    requires b.Valid() && ValidGroups(b.ls, gs) && ValidPw(b.ls, pa) && GroupsFit(gs, b)
    ensures GroupsFit(AddPieces(gs, pa, b), b)
    decreases |pa|
  {
    if pa != [] {
      assert ValidPiece(b.ls, pa[0]);
      AddedFit(AddPiece(gs, pa[0].domain, pa[0].aff, b), pa[1..], b);
    }
  }

  lemma FromChoiceClean(c: Choice, b: Build, sc: Scope)
    requires b.Valid() && Covers(sc, b) && Everywhere(sc) && ValidChoice(b.ls, c) && Fitting(c.state, b)
    ensures Clean(FromChoice(c, b), sc)
  {
    RestrictValid(b, c.domain);
    var inside := b.Restrict(c.domain);
    forall i | 0 <= i < |c.affs| ensures Clean(FromAff(c.affs[i], inside, |b.ls.divs|), sc) {
      FromAffClean(c.affs[i], inside, |b.ls.divs|, sc);
    }
  }

  predicate AllFit(cs: seq<Choice>, b: Build) { forall i :: 0 <= i < |cs| ==> Fitting(cs[i].state, b) }

  lemma {:induction false} BuildPiecesClean(cs: seq<Choice>, domain: Set, b: Build, sc: Scope)
    requires b.Valid() && Covers(sc, b) && Everywhere(sc) && cs != [] && ValidChoices(b.ls, cs)
    requires ValidSet(b.ls, domain) && AllFit(cs, b)
    ensures Clean(BuildPieces(cs, domain, b), sc)
    decreases |cs|
  {
    assert ValidChoice(b.ls, cs[0]);
    FromChoiceClean(cs[0], b, sc);
    if |cs| > 1 {
      FromSetClean(b.ops.gist(cs[0].domain, domain), b, sc);
      BuildPiecesClean(cs[1..], domain, b, sc);
      CleanSelect(FromSet(b.ops.gist(cs[0].domain, domain), b), FromChoice(cs[0], b), BuildPieces(cs[1..], domain, b),
                  sc);
    }
  }

  lemma FromPwAffClean(pa: PwAff, b: Build, sc: Scope)
    requires b.Valid() && Covers(sc, b) && Everywhere(sc) && pa != [] && ValidPw(b.ls, pa)
    ensures Clean(FromPwAff(pa, b), sc)
  {
    var gs := AddPieces([Group(NoPiece, [], [])], pa, b);
    var cs := ToChoices(gs, b);
    SortedChoices(cs, b.ls);
    var sorted := FinalChoices(pa, b);
    AddedFit([Group(NoPiece, [], [])], pa, b);
    forall i | 0 <= i < |sorted| ensures Fitting(sorted[i].state, b) { assert sorted[i] in cs; }
    BuildPiecesClean(sorted, DomainOf(pa, b), b, sc);
  }

  /** From the affine expression to the value of the C text. */

  // The text is split into its lexemes, read by the grammar of C as far as it goes, and
  // has the given value.
  ghost predicate TextHas(text: Text, env: Env, v: int) {
    && Separated(text)
    && var r := Parse(15, Strip(text));
       r.Read? && r.rest == [] && TreeValue(r.value, env) == v
  }

  lemma {:induction false} CleanArithmetic(e: Expr)
    requires WellFormed(e)
    ensures OnlyArithmetic(e)
    decreases e
  {
    if e.Op? {
      forall i | 0 <= i < |e.args| ensures OnlyArithmetic(e.args[i]) { CleanArithmetic(e.args[i]); }
    }
  }

  lemma CleanText(e: Expr, env: Env, sc: Scope)
    requires Clean(e, sc)
    ensures TextHas(Print(e, true), env, Eval(e, env))
  {
    CleanArithmetic(e);
    TextMeans(e, env);
  }

  lemma AffText(a: Aff, b: Build, x: Vec, env: Env)
    requires b.Valid() && b.ls.Has(a) && b.At(x, env) && QuasiAffine.Num(a, Extend(b.ls, x)) % a.den == 0
    ensures TextHas(Print(FromAff(a, b, |b.ls.divs|), true), env, QuasiAffine.Num(a, Extend(b.ls, x)) / a.den)
  {
    FromAffMeans(a, b, |b.ls.divs|, x, env);
    FromAffClean(a, b, |b.ls.divs|, Anywhere(b));
    CleanText(FromAff(a, b, |b.ls.divs|), env, Anywhere(b));
  }

  lemma SetText(s: Set, b: Build, x: Vec, env: Env)
    requires b.Valid() && ValidSet(b.ls, s) && b.At(x, env)
    ensures exists v :: TextHas(Print(FromSet(s, b), true), env, v) && (v != 0 <==> Contains(b.ls, s, x))
  {
    FromSetDecides(s, b, x, env);
    FromSetClean(s, b, Anywhere(b));
    CleanText(FromSet(s, b), env, Anywhere(b));
  }

  lemma PwAffText(pa: PwAff, b: Build, x: Vec, env: Env, q: int)
    requires b.Valid() && pa != [] && ValidPw(b.ls, pa) && b.At(x, env) && ValueAt(b.ls, pa, x, q)
    requires exists i :: 0 <= i < |pa| && Contains(b.ls, pa[i].domain, x)
    ensures TextHas(Print(FromPwAff(pa, b), true), env, q)
  {
    FromPwAffMeans(pa, b, x, env, q);
    FromPwAffClean(pa, b, Anywhere(b));
    CleanText(FromPwAff(pa, b), env, Anywhere(b));
  }

  /** The option that forbids pdiv_q and pdiv_r. */

  predicate Occurs(op: OpType, e: Expr) {
    e.Op? && (e.op == op || exists i :: 0 <= i < |e.args| && Occurs(op, e.args[i]))
  }

  ghost predicate WithoutPdiv(e: Expr) { !Occurs(PdivQ, e) && !Occurs(PdivR, e) }

  lemma {:induction false} FittingWithoutPdiv(e: Expr, sc: Scope)
    requires OpsFit(e, sc) && !sc.base.preferPdiv
    ensures WithoutPdiv(e)
    decreases e
  {
    if e.Op? {
      forall i | 0 <= i < |e.args| ensures WithoutPdiv(e.args[i]) { FittingWithoutPdiv(e.args[i], sc); }
    }
  }

  lemma AffWithoutPdiv(a: Aff, b: Build, level: nat)
    requires b.Valid() && b.ls.Has(a) && level <= |b.ls.divs| && Below(b.ls, a, level) && !b.preferPdiv
    ensures WithoutPdiv(FromAff(a, b, level))
  {
    FromAffClean(a, b, level, Anywhere(b));
    FittingWithoutPdiv(FromAff(a, b, level), Anywhere(b));
  }

  lemma SetWithoutPdiv(s: Set, b: Build)
    requires b.Valid() && ValidSet(b.ls, s) && !b.preferPdiv
    ensures WithoutPdiv(FromSet(s, b))
  {
    FromSetClean(s, b, Anywhere(b));
    FittingWithoutPdiv(FromSet(s, b), Anywhere(b));
  }

  lemma PwAffWithoutPdiv(pa: PwAff, b: Build)
    requires b.Valid() && pa != [] && ValidPw(b.ls, pa) && !b.preferPdiv
    ensures WithoutPdiv(FromPwAff(pa, b))
  {
    FromPwAffClean(pa, b, Anywhere(b));
    FittingWithoutPdiv(FromPwAff(pa, b), Anywhere(b));
  }

  /** The option that asks for minima and maxima. */

  lemma {:induction false} FittingWithoutMinMax(e: Expr, sc: Scope)
    requires OpsFit(e, sc) && !sc.base.detectMinMax
    ensures !Occurs(Min, e) && !Occurs(Max, e)
    decreases e
  {
    if e.Op? {
      forall i | 0 <= i < |e.args| ensures !Occurs(Min, e.args[i]) && !Occurs(Max, e.args[i]) {
        FittingWithoutMinMax(e.args[i], sc);
      }
    }
  }

  lemma PwAffWithoutMinMax(pa: PwAff, b: Build)
    requires b.Valid() && pa != [] && ValidPw(b.ls, pa) && !b.detectMinMax
    ensures !Occurs(Min, FromPwAff(pa, b)) && !Occurs(Max, FromPwAff(pa, b))
  {
    FromPwAffClean(pa, b, Anywhere(b));
    FittingWithoutMinMax(FromPwAff(pa, b), Anywhere(b));
  }

  /** With pdiv preferred, every fdiv_q that occurs is the floor of a division of the local
      space that is negative somewhere in the domain, and so is its opposite. */

  ghost predicate IsPart(f: Expr, e: Expr) {
    f == e || (e.Op? && exists i :: 0 <= i < |e.args| && IsPart(f, e.args[i]))
  }

  lemma {:induction false} FittingFloors(f: Expr, e: Expr, sc: Scope)
    requires OpsFit(e, sc) && IsPart(f, e)
    ensures OpsFit(f, sc)
    decreases e
  {
    if f != e {
      var i :| 0 <= i < |e.args| && IsPart(f, e.args[i]);
      FittingFloors(f, e.args[i], sc);
    }
  }

  lemma FloorsAreNeeded(a: Aff, b: Build, level: nat, f: Expr)
    requires b.Valid() && b.ls.Has(a) && level <= |b.ls.divs| && Below(b.ls, a, level)
    requires IsPart(f, FromAff(a, b, level)) && f.Op? && f.op.FdivQ?
    ensures exists j :: FloorOf(f, b, j)
  {
    var sc := Scope(b, Some(b.domain));
    FromAffClean(a, b, level, sc);
    FittingFloors(f, FromAff(a, b, level), sc);
    var s, j :| Allows(sc, s) && FloorOf(f, sc.base.(domain := s), j);
    assert b.(domain := s) == b;
  }
}
