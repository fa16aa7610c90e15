/** The compiled expression has the value of the affine expression at every point of
    the build domain, and every operation in it is used as C and isl intend.
  */
module AstFromAffProof {
  import opened Arith
  import opened QuasiAffine
  import opened AstExpr
  import opened AstBuild
  import opened Wrappers
  import opened AstFromAff

  /** What the scan of the constraints establishes. */

  // The first scan, for the variables from k on.
  ghost predicate FeasibleUpTo(s: Stat, c: Aff, div: Aff, sum: Option<Aff>, k: nat, n: nat)
    requires k <= n <= |c.coef| == |div.coef| && (sum.Some? ==> |sum.value.coef| == |c.coef|)
  {
    forall j :: k <= j < n ==>
      && (s.parallel || s.opposite ==> (c.coef[j] != 0 <==> div.coef[j] != 0))
      && (s.partial && c.coef[j] != 0 ==> div.coef[j] != 0 && (sum.Some? ==> sum.value.coef[j] == 0))
      && (s.partial && s.isFinal && sum.Some? && div.coef[j] != 0 ==> c.coef[j] != 0 || sum.value.coef[j] != 0)
  }

  lemma {:induction false} FeasibleScanSound(s: Stat, c: Aff, div: Aff, sum: Option<Aff>, k: nat, n: nat)
    requires k <= n <= |c.coef| == |div.coef| && (sum.Some? ==> |sum.value.coef| == |c.coef|)
    requires Continues(s)
    ensures var r := FeasibleScan(s, c, div, sum, k, n);
            r.Some? ==>
              && Continues(r.value) && r.value.f == s.f
              && (r.value.parallel ==> s.parallel) && (r.value.opposite ==> s.opposite)
              && (r.value.partial ==> s.partial) && (r.value.isFinal ==> s.isFinal)
              && FeasibleUpTo(r.value, c, div, sum, k, n)
    decreases n - k
  {
    if k < n {
      var s' := Feasible(s, c.coef[k], div.coef[k], CoefAt(sum, k));
      if Continues(s') {
        FeasibleScanSound(s', c, div, sum, k + 1, n);
      }
    }
  }

  // The second scan: `partial` is only kept while neither of the others was, so the
  // factor f relates the coefficients themselves.
  ghost predicate ParallelUpTo(s: Stat, c: Aff, div: Aff, d: int, k: nat, n: nat)
    requires k <= n <= |c.coef| == |div.coef| && d > 0
  {
    forall j :: k <= j < n && div.coef[j] != 0 ==>
      && (s.parallel ==> (c.coef[j] - div.coef[j]) % d == 0)
      && (s.opposite ==> (c.coef[j] + div.coef[j]) % d == 0)
      && (s.partial && c.coef[j] != 0 ==> s.f.Some? && s.f.value > 0 && div.coef[j] == s.f.value * c.coef[j])
  }

  lemma {:induction false} ParallelScanSound(s: Stat, c: Aff, div: Aff, d: int, k: nat, n: nat)
    requires k <= n <= |c.coef| == |div.coef| && d > 0
    requires Continues(s) && (s.partial ==> !s.parallel && !s.opposite) && (s.f.Some? ==> s.f.value > 0)
    ensures var r := ParallelScan(s, c, div, d, k, n);
            r.Some? ==>
              && Continues(r.value) && r.value.isFinal == s.isFinal
              && (r.value.parallel ==> s.parallel) && (r.value.opposite ==> s.opposite) &&
                   (r.value.partial ==> s.partial)
              && (r.value.f.Some? ==> r.value.f.value > 0) && (r.value.partial && s.f.Some? ==> r.value.f == s.f)
              && ParallelUpTo(r.value, c, div, d, k, n)
    decreases n - k
  {
    if k < n {
      var s' := ParallelOrOpposite(s, c.coef[k], div.coef[k], d);
      ParallelStep(s, c.coef[k], div.coef[k], d);
      if div.coef[k] == 0 || Continues(s') {
        ParallelScanSound(s', c, div, d, k + 1, n);
      }
    }
  }

  lemma ParallelStep(s: Stat, c: int, dv: int, d: int)
    requires d > 0 && (s.partial ==> !s.parallel && !s.opposite) && (s.f.Some? ==> s.f.value > 0)
    ensures var r := ParallelOrOpposite(s, c, dv, d);
            && r.isFinal == s.isFinal
            && (r.parallel ==> s.parallel) && (r.opposite ==> s.opposite) && (r.partial ==> s.partial)
            && (r.f.Some? ==> r.f.value > 0) && (r.partial && s.f.Some? ==> r.f == s.f)
            && (r.partial ==> !r.parallel && !r.opposite)
            && (dv != 0 ==>
                  && (r.parallel ==> (c - dv) % d == 0)
                  && (r.opposite ==> (c + dv) % d == 0)
                  && (r.partial && c != 0 ==> r.f.Some? && dv == r.f.value * c))
            && (dv == 0 ==> r == s)
  {
  }

  // What a match promises at a point with extended values y.
  ghost predicate MatchSound(b: Build, m: Match, div: Aff, d: int, y: Vec) {
    && d > 0 && Fits(b, div, 0) && MatchFits(b, m) && |y| == b.ls.Dim()
    && (m.partial.Some? ==>
          && Num(m.partial.value, y) >= 0
          && forall k :: 0 <= k < |div.coef| ==> m.partial.value.coef[k] == 0 || m.partial.value.coef[k] == div.coef[k])
    && (m.sign != 0 ==>
          && m.nonneg.Some? && Num(m.nonneg.value, y) >= 0
          && (m.sign > 0 ==> forall k :: 0 <= k < |div.coef| ==> (m.nonneg.value.coef[k] - div.coef[k]) % d == 0)
          && (m.sign < 0 ==> forall k :: 0 <= k < |div.coef| ==> (m.nonneg.value.coef[k] + div.coef[k]) % d == 0))
  }

  // What both scans of a constraint c establish when neither stops early.
  ghost predicate Scanned(s: Stat, c: Aff, div: Aff, sum: Option<Aff>, d: int, n: nat)
    requires n <= |c.coef| == |div.coef| && d > 0 && (sum.Some? ==> |sum.value.coef| == |c.coef|)
  {
    && FeasibleUpTo(s, c, div, sum, 0, n) && ParallelUpTo(s, c, div, d, 0, n)
    && Continues(s) && (s.isFinal ==> sum.Some?) && (s.f.Some? ==> s.f.value > 0)
  }

  lemma ScanSound(m: Match, c: Aff, div: Aff, d: int, n: nat)
    requires n <= |c.coef| == |div.coef| && d > 0 && (m.partial.Some? ==> |m.partial.value.coef| == |c.coef|)
    ensures var r := Scan(m, c, div, d, n);
            r.Some? ==> Scanned(r.value, c, div, m.partial, d, n)
  {
    var start := Stat(true, true, true, m.partial.Some?, None);
    FeasibleScanSound(start, c, div, m.partial, 0, n);
    var r0 := FeasibleScan(start, c, div, m.partial, 0, n);
    if r0.Some? {
      var s1 := if r0.value.parallel || r0.value.opposite then r0.value.(partial := false) else r0.value;
      ParallelScanSound(s1, c, div, d, 0, n);
    }
  }

  lemma CheckConstraintSound(b: Build, m: Match, c: Aff, div: Aff, d: int, y: Vec)
    requires MatchSound(b, m, div, d, y)
    requires Fits(b, c, 0) && Num(c, y) >= 0
    ensures MatchSound(b, CheckConstraint(m, c, div, d, b.ls.nvar), div, d, y)
  {
    hide Sound;
    ScanSound(m, c, div, d, b.ls.nvar);
    var r := Scan(m, c, div, d, b.ls.nvar);
    if r.Some? {
      if r.value.partial {
        PartialSound(b, m, r.value, c, div, d, y);
      } else {
        WholeSound(b, r.value, m.partial, c, div, d);
      }
    }
  }

  // A constraint that passes both scans as parallel (or opposite) agrees with div (or
  // -div) modulo d in every coefficient.
  lemma WholeSound(b: Build, s: Stat, sum: Option<Aff>, c: Aff, div: Aff, d: int)
    requires d > 0 && Fits(b, c, 0) && Fits(b, div, 0) && (sum.Some? ==> |sum.value.coef| == |c.coef|)
    requires Scanned(s, c, div, sum, d, b.ls.nvar)
    ensures s.parallel ==> forall k :: 0 <= k < |div.coef| ==> (c.coef[k] - div.coef[k]) % d == 0
    ensures s.opposite ==> forall k :: 0 <= k < |div.coef| ==> (c.coef[k] + div.coef[k]) % d == 0
  {
    forall k | 0 <= k < |div.coef|
      ensures s.parallel ==> (c.coef[k] - div.coef[k]) % d == 0
      ensures s.opposite ==> (c.coef[k] + div.coef[k]) % d == 0
    {
      if div.coef[k] == 0 && (s.parallel || s.opposite) {
        assert c.coef[k] == 0;
      }
    }
  }

  // Adding f times a constraint to the sum: it covers part of div, and all of it when
  // the scan says so.
  lemma PartialSound(b: Build, m: Match, s: Stat, c: Aff, div: Aff, d: int, y: Vec)
    requires MatchSound(b, m, div, d, y) && Fits(b, c, 0) && Num(c, y) >= 0
    requires s.partial && Scanned(s, c, div, m.partial, d, b.ls.nvar)
    ensures var scaled := ScaleAff(if s.f.Some? then s.f.value else 1, c);
            var sum := if m.partial.None? then scaled else AddAff(m.partial.value, scaled);
            && Fits(b, sum, 0) && Num(sum, y) >= 0
            && (forall k :: 0 <= k < |div.coef| ==> sum.coef[k] == 0 || sum.coef[k] == div.coef[k])
            && (s.isFinal ==> forall k :: 0 <= k < |div.coef| ==> (sum.coef[k] - div.coef[k]) % d == 0)
  {
    var f := if s.f.Some? then s.f.value else 1;
    var scaled := ScaleAff(f, c);
    var sum := if m.partial.None? then scaled else AddAff(m.partial.value, scaled);
    AffNum(c, c, f, d, y);
    NonnegProduct(f, Num(c, y));
    if m.partial.Some? { AffNum(m.partial.value, scaled, f, d, y); }
    forall k | 0 <= k < |div.coef|
      ensures sum.coef[k] == 0 || sum.coef[k] == div.coef[k]
      ensures s.isFinal ==> (sum.coef[k] - div.coef[k]) % d == 0
    {
      MultipleIsExact(0, d, 0);
      PartialCoefficient(b, m, s, c, div, d, k);
    }
  }

  lemma NonnegProduct(f: int, v: int)
    requires f > 0 && v >= 0
    ensures f * v >= 0
  {
  }

  lemma PartialCoefficient(b: Build, m: Match, s: Stat, c: Aff, div: Aff, d: int, k: nat)
    requires d > 0 && Fits(b, c, 0) && Fits(b, div, 0) && MatchFits(b, m) && k < |div.coef|
    requires m.partial.Some? ==> m.partial.value.coef[k] == 0 || m.partial.value.coef[k] == div.coef[k]
    requires s.partial && Scanned(s, c, div, m.partial, d, b.ls.nvar)
    ensures var scaled := (if s.f.Some? then s.f.value else 1) * c.coef[k];
            var sum := scaled + if m.partial.None? then 0 else m.partial.value.coef[k];
            (sum == 0 || sum == div.coef[k]) && (s.isFinal ==> sum == div.coef[k])
  {
  }

  lemma {:induction false} FindNonnegSound(b: Build, m: Match, hull: BasicSet, div: Aff, d: int, y: Vec)
    requires MatchSound(b, m, div, d, y) && ValidBasic(b.ls, hull)
    requires forall i :: 0 <= i < |hull| ==> Below(b.ls, hull[i].aff, 0) && Num(hull[i].aff, y) >= 0
    ensures MatchSound(b, FindNonneg(m, hull, div, d, b.ls.nvar), div, d, y)
    decreases |hull|
  {
    if hull != [] {
      assert ValidConstraint(b.ls, hull[0]);
      CheckConstraintSound(b, m, hull[0].aff, div, d, y);
      FindNonnegSound(b, CheckConstraint(m, hull[0].aff, div, d, b.ls.nvar), hull[1..], div, d, y);
    }
  }

  lemma FixedConstantSound(divCst: int, nonnegCst: int, d: int, sign: int)
    requires d > 0
    ensures var v := FixedConstant(divCst, nonnegCst, d, sign);
            v >= nonnegCst && (v - (if sign < 0 then -divCst + d - 1 else divCst)) % d == 0
  {
    var v0 := if sign < 0 then -divCst + d - 1 else divCst;
    var t := v0 - nonnegCst;
    var v1 := t % d + nonnegCst;
    assert t == (t / d) * d + t % d;
    assert v1 - v0 == (-(t / d)) * d;
    MultipleIsExact(v1 - v0, d, -(t / d));
    var v2 := CeilDiv(v1, d);
    if v2 < 0 {
      assert v1 - v2 * d - v0 == (-(t / d) - v2) * d;
      MultipleIsExact(v1 - v2 * d - v0, d, -(t / d) - v2);
      assert -v2 * d > 0;
    }
  }

  // The constraint that was found, with its constant fixed, is non-negative and
  // agrees with div (or its opposite) modulo d.
  lemma FoundArgument(b: Build, m: Match, div: Aff, d: int, y: Vec)
    requires MatchSound(b, m, div, d, y) && m.sign != 0
    ensures var arg := m.nonneg.value.(cst := FixedConstant(div.cst, m.nonneg.value.cst, d, m.sign));
            && Fits(b, arg, 0) && Num(arg, y) >= 0
            && (m.sign > 0 ==> Num(arg, y) % d == Num(div, y) % d)
            && (m.sign < 0 ==> Num(arg, y) % d == Num(OpposeDivArg(div, d), y) % d)
  {
    var nn := m.nonneg.value;
    var arg := nn.(cst := FixedConstant(div.cst, nn.cst, d, m.sign));
    FixedConstantSound(div.cst, nn.cst, d, m.sign);
    if m.sign > 0 {
      DotCongruent(arg.coef, div.coef, y, d);
      CongruentSum(arg.cst, div.cst, Dot(arg.coef, y), Dot(div.coef, y), d);
      CongruentMod(Num(arg, y), Num(div, y), d);
    } else {
      var o := OpposeDivArg(div, d);
      assert forall k :: 0 <= k < |arg.coef| ==> arg.coef[k] - o.coef[k] == nn.coef[k] + div.coef[k];
      DotCongruent(arg.coef, o.coef, y, d);
      CongruentSum(arg.cst, o.cst, Dot(arg.coef, y), Dot(o.coef, y), d);
      CongruentMod(Num(arg, y), Num(o, y), d);
    }
  }

  /** Modulo extraction keeps the value. */

  ghost predicate KeepsValue(b: Build, s: Modulos, y: Vec, env: Env, total: int) {
    && |y| == b.ls.Dim() && b.ls.Has(s.aff) && (s.add.Some? ==> b.ls.Has(s.add.value))
    && Safe(s.pos, env) && Safe(s.neg, env)
    && total == Num(s.aff, y) + Eval(s.pos, env) - Eval(s.neg, env) + (if s.add.Some? then Num(s.add.value, y) else 0)
  }

  lemma ModExprMeans(v: int, arg: Aff, d: int, b: Build, level: nat, x: Vec, env: Env)
    requires b.Valid() && Fits(b, arg, level) && d > 0 && b.At(x, env)
    requires Num(arg, Extend(b.ls, x)) >= 0
    ensures Means(ModExpr(v, arg, d, b, level), env, v * (Num(arg, Extend(b.ls, x)) % d))
    decreases level, 0, 4, 0
  {
    FromAffMeans(arg, b, level, x, env);
    var e := FromAff(arg, b, level);
    PdivMeans(e, d, env, Num(arg, Extend(b.ls, x)));
    EvalBinary(Mul, Int(v), Op(PdivR, [e, Int(d)]), env);
  }

  // Replacing (lin - 1) mod 2 by 1 - lin mod 2 keeps f * (term - arg mod d).
  lemma EvenTest(v: int, d: int, term: Aff, arg: Aff, y: Vec)
    requires d > 0 && v % d == 0 && |term.coef| == |arg.coef| <= |y|
    ensures var even := d == 2 && arg.cst == -1;
            var term' := if even then OpposeDivArg(term, d) else term;
            var arg' := if even then arg.(cst := 0) else arg;
            && Num(arg', y) >= Num(arg, y)
            && (v / d) * (Num(term, y) - Num(arg, y) % d) ==
               FloorDiv(if even then -v else v, d) * (Num(term', y) - Num(arg', y) % d)
  {
    if d == 2 && arg.cst == -1 {
      AffNum(term, term, 1, d, y);
      var r := Num(arg, y);
      assert Num(arg.(cst := 0), y) == r + 1;
      assert r % 2 == 1 - (r + 1) % 2;
      assert FloorDiv(-v, 2) == -(v / 2);
    }
  }

  // Moving f * (term - r) out of the affine expression.
  lemma MoveOut(b: Build, s: Modulos, i: nat, f: int, term: Aff, r: int, e: Expr, y: Vec, env: Env, total: int)
    requires KeepsValue(b, s, y, env, total) && b.ls.Has(term) && i < |b.ls.divs|
    requires Means(e, env, Abs(f) * r)
    requires s.aff.coef[b.ls.nvar + i] * y[b.ls.nvar + i] == f * (Num(term, y) - r)
    ensures KeepsValue(b, Moved(b, s, i, f, term, e), y, env, total)
  {
    AddExprMeans(s.pos, e, env, Eval(s.pos, env), Eval(e, env));
    AddExprMeans(s.neg, e, env, Eval(s.neg, env), Eval(e, env));
    var k := b.ls.nvar + i;
    DotUpdate(s.aff.coef, y, k, 0);
    assert (0 - s.aff.coef[k]) * y[k] == -(s.aff.coef[k] * y[k]);
    AffNum(term, term, f, 1, y);
    if s.add.Some? { AffNum(s.add.value, ScaleAff(f, term), 1, 1, y); }
    FactorSplit(f, Num(term, y), r);
  }

  // v * q, for q the value of the integer division that is removed, is f * (term - arg mod d).
  lemma ExtractTermAndModMeans(s: Modulos, i: nat, v: int, d: int, term: Aff, arg: Aff, b: Build, level: nat,
                               inner: nat,
                               x: Vec, env: Env, total: int)
    requires b.Valid() && d > 0 && inner < level && i < level && FitsModulos(b, s, level)
    requires Fits(b, term, level) && Fits(b, arg, inner) && b.At(x, env)
    requires KeepsValue(b, s, Extend(b.ls, x), env, total)
    requires Num(arg, Extend(b.ls, x)) >= 0 && v % d == 0
    requires s.aff.coef[b.ls.nvar + i] * Extend(b.ls, x)[b.ls.nvar + i] ==
             (v / d) * (Num(term, Extend(b.ls, x)) - Num(arg, Extend(b.ls, x)) % d)
    ensures KeepsValue(b, ExtractTermAndMod(s, i, v, d, term, arg, b, level, inner), Extend(b.ls, x), env, total)
    decreases level, 0, 0, 0
  {
    var y := Extend(b.ls, x);
    var even := d == 2 && arg.cst == -1;
    var term' := if even then OpposeDivArg(term, d) else term;
    var arg' := if even then arg.(cst := 0) else arg;
    var f := FloorDiv(if even then -v else v, d);
    EvenTest(v, d, term, arg, y);
    ModExprMeans(Abs(f), arg', d, b, inner, x, env);
    var e := ModExpr(Abs(f), arg', d, b, inner);
    MoveOut(b, s, i, f, term', Num(arg', y) % d, e, y, env, total);
    assert ExtractTermAndMod(s, i, v, d, term, arg, b, level, inner) == Moved(b, s, i, f, term', e);
  }

  lemma FactorSplit(f: int, t: int, r: int)
    ensures f * (t - r) == f * t - f * r
    ensures f > 0 ==> Abs(f) * r == f * r
    ensures f <= 0 ==> Abs(f) * r == -(f * r)
  {
  }

  lemma ScaledQuotient(v: int, d: int, n: int)
    requires d > 0 && v % d == 0
    ensures v * (n / d) == (v / d) * (n - n % d)
    ensures v * (n / d) == (-v / d) * (-n + d - 1 - (-n + d - 1) % d)
    ensures -v % d == 0
  {
    var q := v / d;
    ExactQuotient(v, d);
    assert n - n % d == (n / d) * d;
    assert v * (n / d) == q * ((n / d) * d);
    DivideOpposite(n, d);
    MultipleIsExact(-v, d, -q);
    var o := -n + d - 1;
    assert o - o % d == (o / d) * d == -(n / d) * d;
    assert (-q) * (-(n / d) * d) == q * ((n / d) * d);
  }

  lemma ExtractNonnegModMeans(s: Modulos, i: nat, v: int, d: int, div: Aff, b: Build, level: nat, x: Vec, env: Env,
                              total: int)
    requires b.Valid() && d > 0 && i < level && FitsModulos(b, s, level) && Fits(b, div, i) && b.At(x, env)
    requires KeepsValue(b, s, Extend(b.ls, x), env, total)
    requires v == s.aff.coef[b.ls.nvar + i] && v % d == 0
    requires Extend(b.ls, x)[b.ls.nvar + i] == Num(div, Extend(b.ls, x)) / d
    ensures KeepsValue(b, ExtractNonnegMod(s, i, v, d, div, b, level), Extend(b.ls, x), env, total)
    decreases level, 0, 1, 0
  {
    var y := Extend(b.ls, x);
    var opposite := OpposeDivArg(div, d);
    AffNum(div, div, 1, d, y);
    ScaledQuotient(v, d, Num(div, y));
    if b.ops.isNonneg(b.domain, div) {
      NonnegAt(b, div, x, env);
      ExtractTermAndModMeans(s, i, v, d, div, div, b, level, i, x, env, total);
    } else if b.ops.isNonneg(b.domain, opposite) {
      NonnegAt(b, opposite, x, env);
      ExtractTermAndModMeans(s, i, -v, d, opposite, opposite, b, level, i, x, env, total);
    }
  }

  lemma TryExtractModMeans(s: Modulos, i: nat, v: int, d: int, div: Aff, b: Build, level: nat, x: Vec, env: Env,
                           total: int)
    requires b.Valid() && d > 0 && i < level && FitsModulos(b, s, level) && Fits(b, div, i) && b.At(x, env)
    requires KeepsValue(b, s, Extend(b.ls, x), env, total)
    requires v == s.aff.coef[b.ls.nvar + i] && v % d == 0
    requires Extend(b.ls, x)[b.ls.nvar + i] == Num(div, Extend(b.ls, x)) / d
    ensures KeepsValue(b, TryExtractMod(s, i, v, d, div, b, level), Extend(b.ls, x), env, total)
    decreases level, 0, 2, 0
  {
    var r := TryExtractMod(s, i, v, d, div, b, level);
    if InvolvesDivs(b.ls, div) {
      ExtractNonnegModMeans(s, i, v, d, div, b, level, x, env, total);
      assert r == ExtractNonnegMod(s, i, v, d, div, b, level);
    } else {
      var m := FindNonneg(Match(None, None, 0), HullConstraints(b), div, d, b.ls.nvar);
      MatchFromHull(b, div, d, x, env);
      if m.sign == 0 || m.nonneg.None? {
        ExtractNonnegModMeans(s, i, v, d, div, b, level, x, env, total);
        assert r == ExtractNonnegMod(s, i, v, d, div, b, level);
      } else {
        FoundModMeans(s, i, v, d, div, m, b, level, x, env, total);
        var arg := m.nonneg.value.(cst := FixedConstant(div.cst, m.nonneg.value.cst, d, m.sign));
        assert r == if m.sign < 0 then ExtractTermAndMod(s, i, -v, d, OpposeDivArg(div, d), arg, b, level, 0)
                    else ExtractTermAndMod(s, i, v, d, div, arg, b, level, 0);
      }
    }
  }

  lemma MatchFromHull(b: Build, div: Aff, d: int, x: Vec, env: Env)
    requires b.Valid() && d > 0 && b.ls.Has(div) && div.den == 1 && !InvolvesDivs(b.ls, div) && b.At(x, env)
    ensures MatchSound(b, FindNonneg(Match(None, None, 0), HullConstraints(b), div, d, b.ls.nvar), div, d,
            Extend(b.ls, x))
  {
    HullHolds(b, x, env);
    FindNonnegSound(b, Match(None, None, 0), HullConstraints(b), div, d, Extend(b.ls, x));
  }

  lemma FoundModMeans(s: Modulos, i: nat, v: int, d: int, div: Aff, m: Match, b: Build, level: nat, x: Vec, env: Env,
                      total: int)
    requires b.Valid() && d > 0 && i < level && FitsModulos(b, s, level) && Fits(b, div, i) && b.At(x, env)
    requires KeepsValue(b, s, Extend(b.ls, x), env, total)
    requires v == s.aff.coef[b.ls.nvar + i] && v % d == 0
    requires Extend(b.ls, x)[b.ls.nvar + i] == Num(div, Extend(b.ls, x)) / d
    requires m.sign != 0 && MatchSound(b, m, div, d, Extend(b.ls, x))
    ensures var arg := m.nonneg.value.(cst := FixedConstant(div.cst, m.nonneg.value.cst, d, m.sign));
            && Fits(b, arg, 0)
            && KeepsValue(b,
                 if m.sign < 0 then ExtractTermAndMod(s, i, -v, d, OpposeDivArg(div, d), arg, b, level, 0)
                 else ExtractTermAndMod(s, i, v, d, div, arg, b, level, 0), Extend(b.ls, x), env, total)
    decreases level, 0, 1, 0
  {
    var y := Extend(b.ls, x);
    FoundArgument(b, m, div, d, y);
    var arg := m.nonneg.value.(cst := FixedConstant(div.cst, m.nonneg.value.cst, d, m.sign));
    AffNum(div, div, 1, d, y);
    ScaledQuotient(v, d, Num(div, y));
    if m.sign < 0 {
      ExtractTermAndModMeans(s, i, -v, d, OpposeDivArg(div, d), arg, b, level, 0, x, env, total);
    } else {
      ExtractTermAndModMeans(s, i, v, d, div, arg, b, level, 0, x, env, total);
    }
  }

  lemma ExtractModulosFromMeans(s: Modulos, i: nat, b: Build, level: nat, x: Vec, env: Env, total: int)
    requires b.Valid() && FitsModulos(b, s, level) && i <= |b.ls.divs| && b.At(x, env)
    requires KeepsValue(b, s, Extend(b.ls, x), env, total)
    ensures KeepsValue(b, ExtractModulosFrom(s, i, b, level), Extend(b.ls, x), env, total)
    decreases level, 0, 3, |b.ls.divs| - i
  {
    if i < |b.ls.divs| {
      var v, d := s.aff.coef[b.ls.nvar + i], b.ls.divs[i].den;
      var s' := if v == 0 || v == 1 || v == -1 || v % d != 0 then s
                else TryExtractMod(s, i, v, d, DivArg(b.ls, i), b, level);
      if !(v == 0 || v == 1 || v == -1 || v % d != 0) {
        DivValue(b.ls, x, i);
        TryExtractModMeans(s, i, v, d, DivArg(b.ls, i), b, level, x, env, total);
      }
      ExtractModulosFromMeans(s', i + 1, b, level, x, env, total);
    }
  }

  lemma ExtractModulosMeans(a: Aff, pos: Expr, neg: Expr, b: Build, level: nat, x: Vec, env: Env)
    requires b.Valid() && Fits(b, a, level) && b.At(x, env) && Safe(pos, env) && Safe(neg, env)
    ensures KeepsValue(b, ExtractModulos(a, pos, neg, b, level), Extend(b.ls, x), env,
                       Num(a, Extend(b.ls, x)) + Eval(pos, env) - Eval(neg, env))
    decreases level, 0, 3, |b.ls.divs| + 1
  {
    if b.preferPdiv {
      var y := Extend(b.ls, x);
      var s0 := Modulos(a, pos, neg, None);
      ExtractModulosFromMeans(s0, 0, b, level, x, env, Num(a, y) + Eval(pos, env) - Eval(neg, env));
      var s := ExtractModulosFrom(s0, 0, b, level);
      if s.add.Some? { AffNum(s.aff, s.add.value, 1, 1, y); }
    }
  }

  /** Terms. */

  // t.v * t.e + t.cst is v * value + cst
  ghost predicate TermMeans(t: Term, env: Env, v: int, value: int, cst: int) {
    Safe(t.e, env) && t.v * Eval(t.e, env) + t.cst == v * value + cst
  }

  lemma StolenEnough(a: Aff, d: int, v: int, cst: int, b: Build, x: Vec, env: Env)
    requires b.Valid() && b.ls.Has(a) && a.den == 1 && d > 0 && b.At(x, env)
    requires NonnegAfterStealing(a, d, v, cst, b)
    ensures Num(a, Extend(b.ls, x)) + Stolen(a, d, b) * d >= 0
  {
    var shift := FloorDiv(cst, v);
    var shifted := a.(cst := a.cst + shift * d);
    assert BoundedBelow(b.ls, b.domain, shifted, 0);
    forall z | Contains(b.ls, b.domain, z) ensures Num(a, Extend(b.ls, z)) >= -(shift * d) {
      assert Num(shifted, Extend(b.ls, z)) == Num(a, Extend(b.ls, z)) + shift * d;
    }
    MinValAt(b, a, -(shift * d), x, env);
    var m := b.ops.minVal(b.domain, a);
    assert Stolen(a, d, b) == -(m / d);
    assert m == (m / d) * d + m % d;
  }

  // The three ways to write v * floor(n/d) + cst.
  lemma QuotientTerms(v: int, n: int, d: int, s: int, cst: int)
    requires d > 0
    ensures -v * ((-n + d - 1) / d) + cst == v * (n / d) + cst
    ensures v * ((n + s * d) / d) + (cst - v * s) == v * (n / d) + cst
  {
    DivideOpposite(n, d);
    DivideShift(n, d, s);
    assert -v * -(n / d) == v * (n / d);
    assert v * (n / d + s) == v * (n / d) + v * s;
  }

  lemma PdivFromAff(a: Aff, d: int, j: nat, b: Build, x: Vec, env: Env)
    requires b.Valid() && Fits(b, a, j) && d > 0 && b.At(x, env) && Num(a, Extend(b.ls, x)) >= 0
    ensures Means(Op(PdivQ, [FromAff(a, b, j), Int(d)]), env, Num(a, Extend(b.ls, x)) / d)
    decreases j, 1, 0, 0
  {
    FromAffMeans(a, b, j, x, env);
    PdivMeans(FromAff(a, b, j), d, env, Num(a, Extend(b.ls, x)));
  }

  lemma OppositeTermMeans(j: nat, v: int, cst: int, t: Term, b: Build, x: Vec, env: Env)
    requires b.Valid() && j < |b.ls.divs| && b.At(x, env)
    requires b.ops.isNonneg(b.domain, OpposeDivArg(DivArg(b.ls, j), b.ls.divs[j].den))
    requires var opposite, d := OpposeDivArg(DivArg(b.ls, j), b.ls.divs[j].den), b.ls.divs[j].den;
             t == Term(Op(PdivQ, [FromAff(opposite, b, j), Int(d)]), -v, cst)
    ensures TermMeans(t, env, v, Extend(b.ls, x)[b.ls.nvar + j], cst)
    decreases j, 1, 1, 0
  {
    var a, d := DivArg(b.ls, j), b.ls.divs[j].den;
    DivValue(b.ls, x, j);
    AffNum(a, a, 1, d, Extend(b.ls, x));
    NonnegAt(b, OpposeDivArg(a, d), x, env);
    PdivFromAff(OpposeDivArg(a, d), d, j, b, x, env);
    QuotientTerms(v, Num(a, Extend(b.ls, x)), d, 0, cst);
  }

  lemma StolenTermMeans(j: nat, v: int, cst: int, t: Term, b: Build, x: Vec, env: Env)
    requires b.Valid() && j < |b.ls.divs| && b.At(x, env)
    requires NonnegAfterStealing(DivArg(b.ls, j), b.ls.divs[j].den, v, cst, b)
    requires var a, d := DivArg(b.ls, j), b.ls.divs[j].den;
             var s := Stolen(a, d, b);
             t == Term(Op(PdivQ, [FromAff(a.(cst := a.cst + s * d), b, j), Int(d)]), v, cst - v * s)
    ensures TermMeans(t, env, v, Extend(b.ls, x)[b.ls.nvar + j], cst)
    decreases j, 1, 1, 0
  {
    var a, d := DivArg(b.ls, j), b.ls.divs[j].den;
    var s := Stolen(a, d, b);
    DivValue(b.ls, x, j);
    StolenEnough(a, d, v, cst, b, x, env);
    assert Num(a.(cst := a.cst + s * d), Extend(b.ls, x)) == Num(a, Extend(b.ls, x)) + s * d;
    PdivFromAff(a.(cst := a.cst + s * d), d, j, b, x, env);
    QuotientTerms(v, Num(a, Extend(b.ls, x)), d, s, cst);
  }

  lemma DirectTerm(e: Expr, t: Term, env: Env, v: int, value: int, cst: int)
    requires Means(e, env, value) && t == Term(e, v, cst)
    ensures TermMeans(t, env, v, value, cst)
  {
  }

  lemma VarDivMeans(j: nat, v: int, cst: int, b: Build, x: Vec, env: Env)
    requires b.Valid() && j < |b.ls.divs| && b.At(x, env)
    ensures TermMeans(VarDiv(j, v, cst, b), env, v, Extend(b.ls, x)[b.ls.nvar + j], cst)
    decreases j, 2, 0, 0
  {
    var a, d := DivArg(b.ls, j), b.ls.divs[j].den;
    DivValue(b.ls, x, j);
    var q, t := Extend(b.ls, x)[b.ls.nvar + j], VarDiv(j, v, cst, b);
    if b.preferPdiv && b.ops.isNonneg(b.domain, a) {
      NonnegAt(b, a, x, env);
      PdivFromAff(a, d, j, b, x, env);
      DirectTerm(Op(PdivQ, [FromAff(a, b, j), Int(d)]), t, env, v, q, cst);
    } else if b.preferPdiv && b.ops.isNonneg(b.domain, OpposeDivArg(a, d)) {
      OppositeTermMeans(j, v, cst, t, b, x, env);
    } else if b.preferPdiv && NonnegAfterStealing(a, d, v, cst, b) {
      StolenTermMeans(j, v, cst, t, b, x, env);
    } else {
      FromAffMeans(a, b, j, x, env);
      FdivMeans(FromAff(a, b, j), d, env, Num(a, Extend(b.ls, x)));
      DirectTerm(Op(FdivQ, [FromAff(a, b, j), Int(d)]), t, env, v, q, cst);
    }
  }

  ghost predicate SumMeans(s: Sum, env: Env, total: int) {
    Safe(s.e, env) && Eval(s.e, env) + s.cst == total
  }

  lemma VarTermMeans(k: nat, v: int, cst: int, b: Build, level: nat, x: Vec, env: Env)
    requires b.Valid() && level <= |b.ls.divs| && k < b.ls.nvar + level && b.At(x, env)
    ensures TermMeans(VarTerm(k, v, cst, b, level), env, v, Extend(b.ls, x)[k], cst)
    decreases level, 0, 0, 0
  {
    if k < b.ls.nvar {
      assert Extend(b.ls, x)[k] == Extend(b.ls, x)[..b.ls.nvar][k];
    } else {
      VarDivMeans(k - b.ls.nvar, v, cst, b, x, env);
    }
  }

  lemma AddTermMeans(s: Sum, k: nat, v: int, b: Build, level: nat, x: Vec, env: Env, total: int)
    requires b.Valid() && level <= |b.ls.divs| && k < b.ls.nvar + level && b.At(x, env)
    requires SumMeans(s, env, total)
    ensures SumMeans(AddTerm(s, k, v, b, level), env, total + v * Extend(b.ls, x)[k])
    decreases level, 0, 1, 0
  {
    VarTermMeans(k, v, s.cst, b, level, x, env);
    AddScaled(s, VarTerm(k, v, s.cst, b, level), env, v, Extend(b.ls, x)[k], total);
  }

  lemma AddScaled(s: Sum, t: Term, env: Env, v: int, value: int, total: int)
    requires SumMeans(s, env, total) && TermMeans(t, env, v, value, s.cst)
    ensures SumMeans(if t.v < 0 && !IsZero(s.e) then Sum(SubExpr(s.e, Scale(t.e, -t.v)), t.cst)
                     else Sum(AddExpr(s.e, Scale(t.e, t.v)), t.cst), env, total + v * value)
  {
    var q := Eval(t.e, env);
    if t.v < 0 && !IsZero(s.e) {
      ScaleMeans(t.e, -t.v, env, q);
      SubExprMeans(s.e, Scale(t.e, -t.v), env, Eval(s.e, env), -t.v * q);
      assert -t.v * q == -(t.v * q);
    } else {
      ScaleMeans(t.e, t.v, env, q);
      AddExprMeans(s.e, Scale(t.e, t.v), env, Eval(s.e, env), t.v * q);
    }
  }

  lemma AddTermsFromMeans(s: Sum, a: Aff, k: nat, b: Build, level: nat, x: Vec, env: Env, total: int)
    requires b.Valid() && Fits(b, a, level) && k <= b.ls.Dim() && b.At(x, env)
    requires SumMeans(s, env, total + Dot(a.coef[..k], Extend(b.ls, x)))
    ensures SumMeans(AddTermsFrom(s, a, k, b, level), env, total + Dot(a.coef, Extend(b.ls, x)))
    decreases level, 0, 2, b.ls.Dim() - k
  {
    if k == b.ls.Dim() {
      assert a.coef[..k] == a.coef;
    } else {
      var y := Extend(b.ls, x);
      assert a.coef[..k + 1][..k] == a.coef[..k];
      if a.coef[k] == 0 {
        AddTermsFromMeans(s, a, k + 1, b, level, x, env, total);
      } else {
        AddTermMeans(s, k, a.coef[k], b, level, x, env, total + Dot(a.coef[..k], y));
        AddTermsFromMeans(AddTerm(s, k, a.coef[k], b, level), a, k + 1, b, level, x, env, total);
      }
    }
  }

  /** The main theorem. */

  lemma FromIntegerAffMeans(a: Aff, e: Expr, b: Build, level: nat, x: Vec, env: Env, v: int)
    requires b.Valid() && Fits(b, a, level) && b.At(x, env) && Means(e, env, v)
    ensures Means(FromIntegerAff(a, e, b, level), env, v + Num(a, Extend(b.ls, x)))
    decreases level, 0, 3, |b.ls.divs| + 2
  {
    var s := ExtractModulos(a, e, Int(0), b, level);
    ExtractModulosMeans(a, e, Int(0), b, level, x, env);
    SubExprMeans(s.pos, s.neg, env, Eval(s.pos, env), Eval(s.neg, env));
    var start := Sum(SubExpr(s.pos, s.neg), s.aff.cst);
    var total := Eval(s.pos, env) - Eval(s.neg, env) + s.aff.cst;
    assert s.aff.coef[..0] == [];
    AddTermsFromMeans(start, s.aff, 0, b, level, x, env, total);
    var t := AddTermsFrom(start, s.aff, 0, b, level);
    AddIntMeans(t.e, t.cst, env, Eval(t.e, env));
  }

  lemma SplitCoefficient(c: int, d: int)
    requires d > 0
    ensures c == (if c % d == 0 then 0 else c) + d * (if c % d == 0 then c / d else 0)
  {
  }

  lemma SplitSum(rc: int, ic: int, rs: int, is_: int, d: int)
    ensures (rc + d * ic) + (rs + d * is_) == (rc + rs) + d * (ic + is_)
  {
  }

  // d * (value of a) splits into d * (integer part) + rational part.
  lemma SplitValue(a: Aff, y: Vec)
    requires a.den > 0 && |a.coef| <= |y|
    ensures Num(a, y) == Num(RationalPart(a), y) + a.den * Num(IntegerPart(a), y)
  {
    var r, i := RationalPart(a), IntegerPart(a);
    forall k | 0 <= k < |a.coef| ensures a.coef[k] == r.coef[k] + a.den * i.coef[k] {
      SplitCoefficient(a.coef[k], a.den);
    }
    SplitCoefficient(a.cst, a.den);
    assert a.coef == AddVec(r.coef, ScaleVec(a.den, i.coef));
    DotAdd(r.coef, ScaleVec(a.den, i.coef), y);
    DotScale(a.den, i.coef, y);
    SplitSum(r.cst, i.cst, Dot(r.coef, y), Dot(i.coef, y), a.den);
  }

  lemma SplitQuotient(a: Aff, y: Vec)
    requires a.den > 0 && |a.coef| <= |y| && Num(a, y) % a.den == 0
    ensures Num(RationalPart(a), y) % a.den == 0
    ensures Num(RationalPart(a), y) / a.den == Num(a, y) / a.den - Num(IntegerPart(a), y)
  {
    SplitValue(a, y);
    ExactQuotient(Num(a, y), a.den);
    var q, i := Num(a, y) / a.den, Num(IntegerPart(a), y);
    assert Num(RationalPart(a), y) == q * a.den - a.den * i == (q - i) * a.den;
    MultipleIsExact(Num(RationalPart(a), y), a.den, q - i);
  }

  /** At every point of the build domain where the affine expression is an integer,
      the generated expression evaluates to it, every division and remainder in it is
      exact or has a non-negative dividend as its kind requires. */
  lemma FromAffMeans(a: Aff, b: Build, level: nat, x: Vec, env: Env)
    requires b.Valid() && b.ls.Has(a) && level <= |b.ls.divs| && Below(b.ls, a, level)
    requires b.At(x, env) && Num(a, Extend(b.ls, x)) % a.den == 0
    ensures Means(FromAff(a, b, level), env, Num(a, Extend(b.ls, x)) / a.den)
    decreases level, if a.den == 1 then 0 else 1, 3, |b.ls.divs| + 3
  {
    var y := Extend(b.ls, x);
    if a.den == 1 {
      FromIntegerAffMeans(a, Int(0), b, level, x, env, 0);
    } else {
      var r, i := RationalPart(a), IntegerPart(a);
      var q := Num(a, y) / a.den - Num(i, y);
      SplitQuotient(a, y);
      FromAffMeans(r, b, level, x, env);
      var e := FromAff(r, b, level);
      ExactDivMeans(e, a.den, env, Num(r, y));
      AddExprMeans(Int(0), Op(Div, [e, Int(a.den)]), env, 0, q);
      FromIntegerAffMeans(i, AddExpr(Int(0), Op(Div, [e, Int(a.den)])), b, level, x, env, q);
    }
  }
}
