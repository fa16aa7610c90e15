/** Where remainders are written: multiples of an integer division whose argument can be made
    non-negative become a remainder. */
module AstDivisions {
  import Arith
  import opened QuasiAffine
  import opened AstExpr
  import opened AstBuild
  import opened Wrappers
  import opened AstFromAff

  // Does pdiv_r by d occur in the expression?
  predicate HasRemainder(e: Expr, d: int) {
    && e.Op?
    && ((e.op.PdivR? && |e.args| == 2 && e.args[1] == Int(d)) ||
        exists i :: 0 <= i < |e.args| && HasRemainder(e.args[i], d))
  }

  predicate OnOneSide(s: Modulos, d: int) { HasRemainder(s.pos, d) || HasRemainder(s.neg, d) }

  lemma RemainderInArgument(op: OpType, args: seq<Expr>, i: nat, d: int)
    requires i < |args| && HasRemainder(args[i], d)
    ensures HasRemainder(Op(op, args), d)
  {
  }

  lemma RemainderInSum(x: Expr, y: Expr, d: int)
    ensures HasRemainder(x, d) || HasRemainder(y, d) ==>
              HasRemainder(AddExpr(x, y), d) && HasRemainder(SubExpr(x, y), d)
  {
    if HasRemainder(x, d) {
      RemainderInArgument(Add, [x, y], 0, d);
      RemainderInArgument(Sub, [x, y], 0, d);
    }
    if HasRemainder(y, d) {
      RemainderInArgument(Add, [x, y], 1, d);
      RemainderInArgument(Sub, [x, y], 1, d);
      RemainderInArgument(Minus, [y], 0, d);
    }
  }

  lemma RemainderInModExpr(v: int, arg: Aff, d: int, b: Build, level: nat)
    requires b.Valid() && Fits(b, arg, level) && d > 0
    ensures HasRemainder(ModExpr(v, arg, d, b, level), d)
  {
    hide FromAff;
    var e := Op(PdivR, [FromAff(arg, b, level), Int(d)]);
    RemainderInArgument(Mul, [Int(v), e], 1, d);
  }

  // The multiple of division i has gone, and a remainder has come.
  ghost predicate Extracted(s: Modulos, r: Modulos, p: nat, d: int)
    requires p < |s.aff.coef|
  {
    && r.aff.coef == s.aff.coef[p := 0] && OnOneSide(r, d)
    && forall d' :: OnOneSide(s, d') ==> OnOneSide(r, d')
  }

  lemma MovedExtracts(b: Build, s: Modulos, i: nat, f: int, term: Aff, e: Expr, d: int)
    requires b.ls.nvar + i < |s.aff.coef| && (s.add.Some? ==> |s.add.value.coef| == |term.coef|) && HasRemainder(e, d)
    ensures Extracted(s, Moved(b, s, i, f, term, e), b.ls.nvar + i, d)
  {
    var r := Moved(b, s, i, f, term, e);
    RemainderInSum(s.pos, e, d);
    RemainderInSum(s.neg, e, d);
    forall d' | OnOneSide(s, d') ensures OnOneSide(r, d') {
      RemainderInSum(s.pos, e, d');
      RemainderInSum(s.neg, e, d');
    }
  }

  lemma TermExtracts(s: Modulos, i: nat, v: int, d: int, term: Aff, arg: Aff, b: Build, level: nat, inner: nat)
    requires b.Valid() && d > 0 && inner < level && i < level && FitsModulos(b, s, level)
    requires Fits(b, term, level) && Fits(b, arg, inner)
    ensures Extracted(s, ExtractTermAndMod(s, i, v, d, term, arg, b, level, inner), b.ls.nvar + i, d)
  {
    hide ModExpr, Extracted, OnOneSide;
    var even := d == 2 && arg.cst == -1;
    var term' := if even then OpposeDivArg(term, d) else term;
    var arg' := if even then arg.(cst := 0) else arg;
    var f := Arith.FloorDiv(if even then -v else v, d);
    RemainderInModExpr(Arith.Abs(f), arg', d, b, inner);
    MovedExtracts(b, s, i, f, term', ModExpr(Arith.Abs(f), arg', d, b, inner), d);
  }

  // The argument or its opposite is non-negative, or a constraint agrees with one of them.
  ghost predicate CanBeNonneg(b: Build, div: Aff, d: int)
    requires b.Valid() && d > 0
  {
    || b.ops.isNonneg(b.domain, div) || b.ops.isNonneg(b.domain, OpposeDivArg(div, d))
    || (!InvolvesDivs(b.ls, div) && exists i :: HullAgrees(b, div, d, i))
  }

  ghost predicate HullAgrees(b: Build, div: Aff, d: int, i: int)
    requires b.Valid() && d > 0
  {
    && 0 <= i < |HullConstraints(b)| && |div.coef| == |HullConstraints(b)[i].aff.coef| == b.ls.Dim()
    && (Agrees(HullConstraints(b)[i].aff, div, d, -1, b.ls.nvar) ||
        Agrees(HullConstraints(b)[i].aff, div, d, 1, b.ls.nvar))
  }

  // The coefficients of a constraint are those of div, or of -div, modulo d, with the same
  // ones zero; and its constant is not too large.
  ghost predicate Agrees(c: Aff, div: Aff, d: int, sign: int, n: nat)
    requires d > 0 && n <= |c.coef| && n <= |div.coef|
  {
    && Arith.Abs(c.cst) <= LARGE_CONSTANT
    && forall k :: 0 <= k < n ==> AgreesAt(c.coef[k], div.coef[k], d, sign)
  }

  predicate AgreesAt(c: int, dv: int, d: int, sign: int)
    requires d > 0
  {
    (c == 0 <==> dv == 0) && if sign < 0 then (c + dv) % d == 0 else (c - dv) % d == 0
  }

  predicate Keeps(s: Stat, sign: int) { if sign < 0 then s.opposite else s.parallel }

  lemma {:induction false} FeasibleKeeps(s: Stat, c: Aff, div: Aff, sum: Option<Aff>, d: int, sign: int, k: nat, n: nat)
    requires k <= n <= |c.coef| == |div.coef| && d > 0 && Agrees(c, div, d, sign, n) && Keeps(s, sign)
    ensures var r := FeasibleScan(s, c, div, sum, k, n); r.Some? && Keeps(r.value, sign)
    decreases n - k
  {
    if k < n {
      assert AgreesAt(c.coef[k], div.coef[k], d, sign);
      FeasibleKeeps(Feasible(s, c.coef[k], div.coef[k], CoefAt(sum, k)), c, div, sum, d, sign, k + 1, n);
    }
  }

  lemma {:induction false} ParallelKeeps(s: Stat, c: Aff, div: Aff, d: int, sign: int, k: nat, n: nat)
    requires k <= n <= |c.coef| == |div.coef| && d > 0 && Agrees(c, div, d, sign, n) && Keeps(s, sign) && !s.partial
    ensures var r := ParallelScan(s, c, div, d, k, n); r.Some? && Keeps(r.value, sign) && !r.value.partial
    decreases n - k
  {
    if k < n {
      assert AgreesAt(c.coef[k], div.coef[k], d, sign);
      ParallelKeeps(ParallelOrOpposite(s, c.coef[k], div.coef[k], d), c, div, d, sign, k + 1, n);
    }
  }

  predicate FoundOne(m: Match) { m.nonneg.Some? && m.sign != 0 }

  predicate FoundIfAny(m: Match) { m.nonneg.Some? ==> m.sign != 0 }

  lemma AgreementFound(m: Match, c: Aff, div: Aff, d: int, sign: int, n: nat)
    requires n <= |c.coef| == |div.coef| && d > 0 && (m.partial.Some? ==> |m.partial.value.coef| == |c.coef|)
    requires Agrees(c, div, d, sign, n) && FoundIfAny(m)
    ensures FoundOne(CheckConstraint(m, c, div, d, n))
  {
    var s0 := Stat(true, true, true, m.partial.Some?, None);
    FeasibleKeeps(s0, c, div, m.partial, d, sign, 0, n);
    var s := FeasibleScan(s0, c, div, m.partial, 0, n).value;
    ParallelKeeps(s.(partial := false), c, div, d, sign, 0, n);
  }

  lemma FoundKept(m: Match, c: Aff, div: Aff, d: int, n: nat)
    requires n <= |c.coef| == |div.coef| && d > 0 && (m.partial.Some? ==> |m.partial.value.coef| == |c.coef|)
    ensures FoundOne(m) ==> FoundOne(CheckConstraint(m, c, div, d, n))
    ensures FoundIfAny(m) ==> FoundIfAny(CheckConstraint(m, c, div, d, n))
  {
    hide Scan;
  }

  // One constraint that agrees is enough.
  lemma {:induction false} SearchFinds(m: Match, hull: BasicSet, div: Aff, d: int, sign: int, i: nat, n: nat)
    requires n <= |div.coef| && d > 0 && (m.partial.Some? ==> |m.partial.value.coef| == |div.coef|) && FoundIfAny(m)
    requires forall i :: 0 <= i < |hull| ==> |hull[i].aff.coef| == |div.coef|
    requires FoundOne(m) || (i < |hull| && Agrees(hull[i].aff, div, d, sign, n))
    ensures FoundOne(FindNonneg(m, hull, div, d, n))
    decreases |hull|
  {
    hide CheckConstraint;
    if hull != [] {
      var m' := CheckConstraint(m, hull[0].aff, div, d, n);
      FoundKept(m, hull[0].aff, div, d, n);
      CheckedSize(m, hull[0].aff, div, d, n);
      if !FoundOne(m) && i == 0 { AgreementFound(m, hull[0].aff, div, d, sign, n); }
      SearchFinds(m', hull[1..], div, d, sign, if i == 0 then 0 else i - 1, n);
    }
  }

  lemma CheckedSize(m: Match, c: Aff, div: Aff, d: int, n: nat)
    requires n <= |c.coef| == |div.coef| && d > 0 && (m.partial.Some? ==> |m.partial.value.coef| == |c.coef|)
    ensures var r := CheckConstraint(m, c, div, d, n); r.partial.Some? ==> |r.partial.value.coef| == |c.coef|
  {
    hide Scan;
  }

  // A division is left alone only when no non-negative argument can be found.
  lemma TryExtracts(s: Modulos, i: nat, v: int, d: int, div: Aff, b: Build, level: nat)
    requires b.Valid() && d > 0 && i < level && FitsModulos(b, s, level) && Fits(b, div, i)
    ensures var r := TryExtractMod(s, i, v, d, div, b, level);
            (r == s && !CanBeNonneg(b, div, d)) || Extracted(s, r, b.ls.nvar + i, d)
  {
    hide ExtractTermAndMod, Extracted, FindNonneg;
    var opposite := OpposeDivArg(div, d);
    TermExtracts(s, i, v, d, div, div, b, level, i);
    TermExtracts(s, i, -v, d, opposite, opposite, b, level, i);
    if !InvolvesDivs(b.ls, div) {
      var m := FindNonneg(Match(None, None, 0), HullConstraints(b), div, d, b.ls.nvar);
      FindNonnegFits(Match(None, None, 0), HullConstraints(b), div, d, b);
      if i: int :| HullAgrees(b, div, d, i) { HullFinds(b, div, d, i); }
      if m.sign != 0 && m.nonneg.Some? {
        var arg := m.nonneg.value.(cst := FixedConstant(div.cst, m.nonneg.value.cst, d, m.sign));
        TermExtracts(s, i, -v, d, opposite, arg, b, level, 0);
        TermExtracts(s, i, v, d, div, arg, b, level, 0);
      }
    }
  }

  lemma HullFinds(b: Build, div: Aff, d: int, i: int)
    requires b.Valid() && b.ls.Has(div) && d > 0 && HullAgrees(b, div, d, i)
    ensures FoundOne(FindNonneg(Match(None, None, 0), HullConstraints(b), div, d, b.ls.nvar))
  {
    hide Agrees;
    var h := HullConstraints(b);
    forall k | 0 <= k < |h| ensures |h[k].aff.coef| == |div.coef| { assert ValidConstraint(b.ls, h[k]); }
    if Agrees(h[i].aff, div, d, -1, b.ls.nvar) {
      SearchFinds(Match(None, None, 0), h, div, d, -1, i, b.ls.nvar);
    } else {
      SearchFinds(Match(None, None, 0), h, div, d, 1, i, b.ls.nvar);
    }
  }

  // A multiple of d (other than 0 and 1 in absolute value) of floor(_/d)
  predicate IsMultiple(v: int, d: int)
    requires d > 0
  {
    v != 0 && v != 1 && v != -1 && v % d == 0
  }

  ghost predicate Removable(b: Build, a: Aff, k: nat)
    requires b.Valid() && k < |b.ls.divs| && b.ls.nvar + k < |a.coef|
  {
    IsMultiple(a.coef[b.ls.nvar + k], b.ls.divs[k].den) && CanBeNonneg(b, DivArg(b.ls, k), b.ls.divs[k].den)
  }

  lemma {:induction false} ExtractedAll(s: Modulos, i: nat, b: Build, level: nat)
    requires b.Valid() && FitsModulos(b, s, level) && i <= |b.ls.divs|
    ensures forall d :: OnOneSide(s, d) ==> OnOneSide(ExtractModulosFrom(s, i, b, level), d)
    ensures forall k: nat :: i <= k < |b.ls.divs| && Removable(b, s.aff, k) ==>
              OnOneSide(ExtractModulosFrom(s, i, b, level), b.ls.divs[k].den)
    decreases |b.ls.divs| - i
  {
    hide OnOneSide, TryExtractMod, CanBeNonneg;
    if i < |b.ls.divs| {
      var v, d := s.aff.coef[b.ls.nvar + i], b.ls.divs[i].den;
      var s' := s;
      if IsMultiple(v, d) {
        s' := TryExtractMod(s, i, v, d, DivArg(b.ls, i), b, level);
        TryExtracts(s, i, v, d, DivArg(b.ls, i), b, level);
      }
      ExtractedAll(s', i + 1, b, level);
      assert ExtractModulosFrom(s, i, b, level) == ExtractModulosFrom(s', i + 1, b, level);
      forall k: nat | i <= k < |b.ls.divs| && Removable(b, s.aff, k)
        ensures OnOneSide(ExtractModulosFrom(s, i, b, level), b.ls.divs[k].den)
      {
        if k > i { assert Removable(b, s'.aff, k); }
      }
    }
  }

  lemma {:induction false} TermsKeepRemainder(s: Sum, a: Aff, k: nat, b: Build, level: nat, d: int)
    requires b.Valid() && Fits(b, a, level) && k <= b.ls.Dim() && HasRemainder(s.e, d)
    ensures HasRemainder(AddTermsFrom(s, a, k, b, level).e, d)
    decreases b.ls.Dim() - k
  {
    hide HasRemainder, VarTerm, Scale;
    if k < b.ls.Dim() {
      var s' := s;
      if a.coef[k] != 0 {
        s' := AddTerm(s, k, a.coef[k], b, level);
        var t := VarTerm(k, a.coef[k], s.cst, b, level);
        RemainderInSum(s.e, Scale(t.e, t.v), d);
        RemainderInSum(s.e, Scale(t.e, -t.v), d);
      }
      TermsKeepRemainder(s', a, k + 1, b, level, d);
    }
  }

  /** With pdiv preferred, v floor(e/d) with d dividing v (v not 0, 1 or -1) is written with a
      remainder pdiv_r(_, d) if e or -e + d - 1 is non-negative on the domain, or if a
      constraint of the domain agrees with e or -e modulo d. */
  lemma MultipleIsRemainder(a: Aff, b: Build, level: nat, k: nat)
    requires b.Valid() && b.preferPdiv && Fits(b, a, level) && k < |b.ls.divs|
    requires Removable(b, a, k)
    ensures HasRemainder(FromAff(a, b, level), b.ls.divs[k].den)
  {
    hide HasRemainder, ExtractModulosFrom, AddTermsFrom, CanBeNonneg, IsMultiple, Scale;
    var d := b.ls.divs[k].den;
    var s0 := Modulos(a, Int(0), Int(0), None);
    ExtractedAll(s0, 0, b, level);
    var s := ExtractModulos(a, Int(0), Int(0), b, level);
    assert OnOneSide(s, d);
    RemainderInSum(s.pos, s.neg, d);
    var start := Sum(SubExpr(s.pos, s.neg), s.aff.cst);
    TermsKeepRemainder(start, s.aff, 0, b, level, d);
    var t := AddTermsFrom(start, s.aff, 0, b, level);
    RemainderInSum(t.e, Int(-t.cst), d);
    RemainderInSum(t.e, Int(t.cst), d);
    assert FromAff(a, b, level) == FromIntegerAff(a, Int(0), b, level) == AddInt(t.e, t.cst);
  }
}
