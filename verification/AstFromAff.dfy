/** The compiler from quasi-affine expressions to AST expressions.

    `level` bounds the integer divisions that occur in an expression.  The argument of
    an integer division only refers to earlier ones, which is why the mutual recursion
    between expressions and their integer divisions ends.
  */
module AstFromAff {
  import opened Arith
  import opened QuasiAffine
  import opened AstExpr
  import opened AstBuild
  import opened Wrappers

  /** Building blocks on AST expressions. */

  predicate IsZero(e: Expr) { e == Int(0) }

  function AddExpr(a: Expr, b: Expr): Expr {
    if IsZero(a) then b else if IsZero(b) then a else Op(Add, [a, b])
  }

  function SubExpr(a: Expr, b: Expr): Expr {
    if IsZero(b) then a else if IsZero(a) then Op(Minus, [b]) else Op(Sub, [a, b])
  }

  function Scale(e: Expr, v: int): Expr {
    if v == 1 then e else if v == -1 then Op(Minus, [e]) else Op(Mul, [Int(v), e])
  }

  function AddInt(e: Expr, v: int): Expr {
    if v == 0 then e
    else if v < 0 && !IsZero(e) then SubExpr(e, Int(-v))
    else AddExpr(e, Int(v))
  }

  lemma AddExprMeans(a: Expr, b: Expr, env: Env, v: int, w: int)
    requires Means(a, env, v) && Means(b, env, w)
    ensures Means(AddExpr(a, b), env, v + w)
  {
    EvalBinary(Add, a, b, env);
  }

  lemma SubExprMeans(a: Expr, b: Expr, env: Env, v: int, w: int)
    requires Means(a, env, v) && Means(b, env, w)
    ensures Means(SubExpr(a, b), env, v - w)
  {
    EvalBinary(Sub, a, b, env);
    EvalUnary(Minus, b, env);
  }

  lemma ScaleMeans(e: Expr, f: int, env: Env, v: int)
    requires Means(e, env, v)
    ensures Means(Scale(e, f), env, f * v)
  {
    EvalUnary(Minus, e, env);
    EvalBinary(Mul, Int(f), e, env);
  }

  lemma AddIntMeans(e: Expr, k: int, env: Env, v: int)
    requires Means(e, env, v)
    ensures Means(AddInt(e, k), env, v + k)
  {
    if k < 0 && !IsZero(e) {
      SubExprMeans(e, Int(-k), env, v, -k);
    } else {
      AddExprMeans(e, Int(k), env, v, k);
    }
  }

  lemma FdivMeans(e: Expr, d: int, env: Env, v: int)
    requires Means(e, env, v) && d > 0
    ensures Means(Op(FdivQ, [e, Int(d)]), env, v / d)
  {
    EvalBinary(FdivQ, e, Int(d), env);
  }

  lemma ExactDivMeans(e: Expr, d: int, env: Env, v: int)
    requires Means(e, env, v) && d > 0 && v % d == 0
    ensures Means(Op(Div, [e, Int(d)]), env, v / d)
  {
    EvalBinary(Div, e, Int(d), env);
    TruncRemZero(v, d);
  }

  // pdiv_q and pdiv_r are floor division and modulo on non-negative dividends.
  lemma PdivMeans(e: Expr, d: int, env: Env, v: int)
    requires Means(e, env, v) && d > 0 && v >= 0
    ensures Means(Op(PdivQ, [e, Int(d)]), env, v / d)
    ensures Means(Op(PdivR, [e, Int(d)]), env, v % d)
  {
    EvalBinary(PdivQ, e, Int(d), env);
    EvalBinary(PdivR, e, Int(d), env);
    TruncNonneg(v, d);
  }

  /** Building blocks on affine expressions with denominator 1. */

  function AddAff(a: Aff, b: Aff): Aff
    requires |a.coef| == |b.coef|
  {
    Aff(1, a.cst + b.cst, AddVec(a.coef, b.coef))
  }

  function ScaleAff(f: int, a: Aff): Aff {
    Aff(1, f * a.cst, ScaleVec(f, a.coef))
  }

  // -a + (d - 1)
  function OpposeDivArg(a: Aff, d: int): Aff {
    Aff(1, -a.cst + d - 1, ScaleVec(-1, a.coef))
  }

  lemma AffNum(a: Aff, b: Aff, f: int, d: int, y: Vec)
    requires |a.coef| == |b.coef| <= |y|
    ensures Num(AddAff(a, b), y) == Num(a, y) + Num(b, y)
    ensures Num(ScaleAff(f, a), y) == f * Num(a, y)
    ensures Num(OpposeDivArg(a, d), y) == -Num(a, y) + d - 1
  {
    DotAdd(a.coef, b.coef, y);
    DotScale(f, a.coef, y);
    DotScale(-1, a.coef, y);
    assert f * (a.cst + Dot(a.coef, y)) == f * a.cst + f * Dot(a.coef, y);
  }

  // A local space with an expression whose integer divisions all come before `level`.
  ghost predicate Fits(b: Build, a: Aff, level: nat) {
    b.ls.Has(a) && a.den == 1 && level <= |b.ls.divs| && Below(b.ls, a, level)
  }

  /** Hidden modulos.

      v * floor(div/d) with d dividing v is (v/d) * (div - div mod d).  The remainder is
      only generated from a non-negative argument, found by looking for a constraint of
      the domain (or a sum of constraints) that agrees with div, or with its opposite,
      modulo d. */

  // What the scan of the constraints has found so far.
  datatype Match = Match(partial: Option<Aff>, nonneg: Option<Aff>, sign: int)

  // Which relations between a constraint and div are still possible.
  datatype Stat = Stat(parallel: bool, opposite: bool, partial: bool, isFinal: bool, f: Option<int>)

  predicate Continues(s: Stat) { s.parallel || s.opposite || s.partial }

  // First scan: are the coefficients both zero or both non-zero?
  function Feasible(s: Stat, c: int, dv: int, sum: Option<int>): Stat {
    var inC, inDiv := c != 0, dv != 0;
    var s1 := if inC != inDiv then s.(parallel := false, opposite := false) else s;
    if !s1.partial then s1
    else
      var s2 := if !inDiv && inC then s1.(partial := false) else s1;
      if inDiv && (inC || s2.isFinal) && sum.Some? then
        var inSum := sum.value != 0;
        var s3 := if inC && inSum then s2.(partial := false) else s2;
        if !inC && !inSum then s3.(isFinal := false) else s3
      else s2
  }

  function UpdateIsPartial(s: Stat, v1: int, v2: int): Stat {
    if !s.partial || v1 == 0 then s
    else if v2 % v1 != 0 then s.(partial := false)
    else
      var q := v2 / v1;
      if q <= 0 then s.(partial := false)
      else
        var f := if s.f.None? then q else s.f.value;
        s.(f := Some(f), partial := q == f)
  }

  // Second scan: are the coefficients equal or opposite modulo d, or div's a fixed
  // positive multiple of the constraint's?
  function ParallelOrOpposite(s: Stat, c: int, dv: int, d: int): Stat
    requires d > 0
  {
    if dv == 0 then s
    else
      var s1 := s.(parallel := s.parallel && (c - dv) % d == 0);
      var s2 := s1.(opposite := s.opposite && (c + dv) % d == 0);
      UpdateIsPartial(s2, if s.opposite then c + dv else c, dv)
  }

  function CoefAt(a: Option<Aff>, k: nat): Option<int> {
    if a.Some? && k < |a.value.coef| then Some(a.value.coef[k]) else None
  }

  // The outcome of the first scan from variable k on; None when it stops early.
  function FeasibleScan(s: Stat, c: Aff, div: Aff, sum: Option<Aff>, k: nat, n: nat): Option<Stat>
    requires k <= n <= |c.coef| == |div.coef|
    decreases n - k
  {
    if k == n then Some(s)
    else
      var s' := Feasible(s, c.coef[k], div.coef[k], CoefAt(sum, k));
      if !Continues(s') then None else FeasibleScan(s', c, div, sum, k + 1, n)
  }

  function ParallelScan(s: Stat, c: Aff, div: Aff, d: int, k: nat, n: nat): Option<Stat>
    requires k <= n <= |c.coef| == |div.coef| && d > 0
    decreases n - k
  {
    if k == n then Some(s)
    else
      var s' := ParallelOrOpposite(s, c.coef[k], div.coef[k], d);
      if div.coef[k] != 0 && !Continues(s') then None else ParallelScan(s', c, div, d, k + 1, n)
  }

  predicate Simpler(cst: int, nonneg: Option<Aff>) {
    nonneg.None? || Abs(cst) < Abs(nonneg.value.cst)
  }

  const LARGE_CONSTANT: int := 32768

  // The relations that survive both scans of a constraint; None when there is none.
  function Scan(m: Match, c: Aff, div: Aff, d: int, n: nat): Option<Stat>
    requires n <= |c.coef| == |div.coef| && d > 0
  {
    match FeasibleScan(Stat(true, true, true, m.partial.Some?, None), c, div, m.partial, 0, n)
    case None => None
    case Some(s) =>
      if Abs(c.cst) > LARGE_CONSTANT then None
      else ParallelScan(if s.parallel || s.opposite then s.(partial := false) else s, c, div, d, 0, n)
  }

  // Extends the sum, or replaces the best expression found so far by a simpler one.
  function Conclude(m: Match, s: Stat, c: Aff): Match
    requires m.partial.Some? ==> |m.partial.value.coef| == |c.coef|
  {
    if s.partial then
      // a constraint without coefficients, which isl drops, would leave f unset
      var scaled := ScaleAff(if s.f.Some? then s.f.value else 1, c);
      var sum := if m.partial.None? then scaled else AddAff(m.partial.value, scaled);
      if s.isFinal && Simpler(sum.cst, m.nonneg) then Match(None, Some(sum), 1)
      else m.(partial := Some(sum))
    else if Simpler(c.cst, m.nonneg) then m.(nonneg := Some(c), sign := if s.parallel then 1 else -1)
    else m
  }

  function CheckConstraint(m: Match, c: Aff, div: Aff, d: int, n: nat): Match
    requires n <= |c.coef| == |div.coef| && d > 0
    requires m.partial.Some? ==> |m.partial.value.coef| == |c.coef|
  {
    match Scan(m, c, div, d, n)
    case None => m
    case Some(s) => Conclude(m, s, c)
  }

  function FindNonneg(m: Match, hull: BasicSet, div: Aff, d: int, n: nat): Match
    requires n <= |div.coef| && d > 0
    requires forall i :: 0 <= i < |hull| ==> |hull[i].aff.coef| == |div.coef|
    requires m.partial.Some? ==> |m.partial.value.coef| == |div.coef|
    decreases |hull|
  {
    if hull == [] then m
    else FindNonneg(CheckConstraint(m, hull[0].aff, div, d, n), hull[1..], div, d, n)
  }

  // What has been found involves no integer divisions.
  ghost predicate MatchFits(b: Build, m: Match) {
    && (m.partial.Some? ==> Fits(b, m.partial.value, 0))
    && (m.nonneg.Some? ==> Fits(b, m.nonneg.value, 0))
  }

  lemma {:induction false} FindNonnegFits(m: Match, hull: BasicSet, div: Aff, d: int, b: Build)
    requires b.Valid() && b.ls.Has(div) && d > 0 && MatchFits(b, m) && ValidBasic(b.ls, hull)
    requires forall i :: 0 <= i < |hull| ==> Below(b.ls, hull[i].aff, 0)
    ensures MatchFits(b, FindNonneg(m, hull, div, d, b.ls.nvar))
    decreases |hull|
  {
    if hull != [] {
      assert ValidConstraint(b.ls, hull[0]);
      FindNonnegFits(CheckConstraint(m, hull[0].aff, div, d, b.ls.nvar), hull[1..], div, d, b);
    }
  }

  // The constant term that makes a constraint agree with div modulo d without
  // making it smaller.
  function FixedConstant(divCst: int, nonnegCst: int, d: int, sign: int): int
    requires d > 0
  {
    var v0 := if sign < 0 then -divCst + d - 1 else divCst;
    var v1 := (v0 - nonnegCst) % d + nonnegCst;
    var v2 := CeilDiv(v1, d);
    if v2 < 0 then v1 - v2 * d else v1
  }

  predicate InvolvesDivs(ls: LocalSpace, a: Aff) {
    exists k :: ls.nvar <= k < |a.coef| && a.coef[k] != 0
  }

  // The terms extracted from an affine expression: aff + pos - neg + add is unchanged.
  datatype Modulos = Modulos(aff: Aff, pos: Expr, neg: Expr, add: Option<Aff>)

  ghost predicate FitsModulos(b: Build, s: Modulos, level: nat) {
    Fits(b, s.aff, level) && (s.add.Some? ==> Fits(b, s.add.value, level))
  }

  // v * (arg mod d), for a non-negative v
  function ModExpr(v: int, arg: Aff, d: int, b: Build, level: nat): Expr
    requires b.Valid() && Fits(b, arg, level) && d > 0
    decreases level, 0, 4, 0
  {
    var e := Op(PdivR, [FromAff(arg, b, level), Int(d)]);
    if v != 1 then Op(Mul, [Int(v), e]) else e
  }

  // f times the integer division at position i is replaced by f times `term`, minus `e`.
  function Moved(b: Build, s: Modulos, i: nat, f: int, term: Aff, e: Expr): Modulos
    requires b.ls.nvar + i < |s.aff.coef| && (s.add.Some? ==> |s.add.value.coef| == |term.coef|)
  {
    var added := ScaleAff(f, term);
    Modulos(s.aff.(coef := s.aff.coef[b.ls.nvar + i := 0]),
            if f > 0 then s.pos else AddExpr(s.pos, e),
            if f > 0 then AddExpr(s.neg, e) else s.neg,
            Some(if s.add.None? then added else AddAff(s.add.value, added)))
  }

  // Replaces v * div_i in s.aff by f * (term - arg mod d), with f = v / d.
  function ExtractTermAndMod(s: Modulos, i: nat, v: int, d: int, term: Aff, arg: Aff, b: Build, level: nat,
                             inner: nat): (r: Modulos)
    requires b.Valid() && d > 0 && inner < level && i < level && FitsModulos(b, s, level)
    requires Fits(b, term, level) && Fits(b, arg, inner)
    ensures FitsModulos(b, r, level)
    decreases level, 0, 0, 0
  {
    // (lin - 1) mod 2 is 1 - lin mod 2
    var even := d == 2 && arg.cst == -1;
    var term' := if even then OpposeDivArg(term, d) else term;
    var arg' := if even then arg.(cst := 0) else arg;
    var f := FloorDiv(if even then -v else v, d);
    Moved(b, s, i, f, term', ModExpr(Abs(f), arg', d, b, inner))
  }

  function ExtractNonnegMod(s: Modulos, i: nat, v: int, d: int, div: Aff, b: Build, level: nat): (r: Modulos)
    requires b.Valid() && d > 0 && i < level && FitsModulos(b, s, level) && Fits(b, div, i)
    ensures FitsModulos(b, r, level)
    decreases level, 0, 1, 0
  {
    var opposite := OpposeDivArg(div, d);
    if b.ops.isNonneg(b.domain, div) then ExtractTermAndMod(s, i, v, d, div, div, b, level, i)
    else if b.ops.isNonneg(b.domain, opposite) then ExtractTermAndMod(s, i, -v, d, opposite, opposite, b, level, i)
    else s
  }

  function TryExtractMod(s: Modulos, i: nat, v: int, d: int, div: Aff, b: Build, level: nat): (r: Modulos)
    requires b.Valid() && d > 0 && i < level && FitsModulos(b, s, level) && Fits(b, div, i)
    ensures FitsModulos(b, r, level)
    decreases level, 0, 2, 0
  {
    if InvolvesDivs(b.ls, div) then ExtractNonnegMod(s, i, v, d, div, b, level)
    else
      var m := FindNonneg(Match(None, None, 0), HullConstraints(b), div, d, b.ls.nvar);
      FindNonnegFits(Match(None, None, 0), HullConstraints(b), div, d, b);
      if m.sign == 0 || m.nonneg.None? then ExtractNonnegMod(s, i, v, d, div, b, level)
      else
        var arg := m.nonneg.value.(cst := FixedConstant(div.cst, m.nonneg.value.cst, d, m.sign));
        if m.sign < 0 then ExtractTermAndMod(s, i, -v, d, OpposeDivArg(div, d), arg, b, level, 0)
        else ExtractTermAndMod(s, i, v, d, div, arg, b, level, 0)
  }

  function ExtractModulosFrom(s: Modulos, i: nat, b: Build, level: nat): (r: Modulos)
    requires b.Valid() && FitsModulos(b, s, level) && i <= |b.ls.divs|
    ensures FitsModulos(b, r, level)
    decreases level, 0, 3, |b.ls.divs| - i
  {
    if i == |b.ls.divs| then s
    else
      var v, d := s.aff.coef[b.ls.nvar + i], b.ls.divs[i].den;
      var s' := if v == 0 || v == 1 || v == -1 || v % d != 0 then s
                else TryExtractMod(s, i, v, d, DivArg(b.ls, i), b, level);
      ExtractModulosFrom(s', i + 1, b, level)
  }

  function ExtractModulos(a: Aff, pos: Expr, neg: Expr, b: Build, level: nat): (r: Modulos)
    requires b.Valid() && Fits(b, a, level)
    ensures FitsModulos(b, r, level) && r.add.None?
    decreases level, 0, 3, |b.ls.divs| + 1
  {
    if !b.preferPdiv then Modulos(a, pos, neg, None)
    else
      var s := ExtractModulosFrom(Modulos(a, pos, neg, None), 0, b, level);
      Modulos(if s.add.Some? then AddAff(s.aff, s.add.value) else s.aff, s.pos, s.neg, None)
  }

  /** Terms.  The constant term `cst` is threaded through because an integer division
      may steal from it. */

  datatype Term = Term(e: Expr, v: int, cst: int)
  datatype Sum = Sum(e: Expr, cst: int)

  predicate NonnegAfterStealing(a: Aff, d: int, v: int, cst: int, b: Build) {
    Sign(cst) == Sign(v) && v != 0 &&
    var shift := FloorDiv(cst, v);
    shift != 0 && b.ops.isNonneg(b.domain, a.(cst := a.cst + shift * d))
  }

  // The number of times d has to be added to `a` to make it non-negative.
  function Stolen(a: Aff, d: int, b: Build): int
    requires d > 0
  {
    CeilDiv(-b.ops.minVal(b.domain, a), d)
  }

  // v * floor(a/d) + cst
  function VarDiv(j: nat, v: int, cst: int, b: Build): Term
    requires b.Valid() && j < |b.ls.divs|
    decreases j, 2, 0, 0
  {
    var a, d := DivArg(b.ls, j), b.ls.divs[j].den;
    var opposite := OpposeDivArg(a, d);
    if !b.preferPdiv then Term(Op(FdivQ, [FromAff(a, b, j), Int(d)]), v, cst)
    else if b.ops.isNonneg(b.domain, a) then Term(Op(PdivQ, [FromAff(a, b, j), Int(d)]), v, cst)
    else if b.ops.isNonneg(b.domain, opposite) then Term(Op(PdivQ, [FromAff(opposite, b, j), Int(d)]), -v, cst)
    else if NonnegAfterStealing(a, d, v, cst, b) then
      var s := Stolen(a, d, b);
      Term(Op(PdivQ, [FromAff(a.(cst := a.cst + s * d), b, j), Int(d)]), v, cst - v * s)
    else Term(Op(FdivQ, [FromAff(a, b, j), Int(d)]), v, cst)
  }

  function VarTerm(k: nat, v: int, cst: int, b: Build, level: nat): Term
    requires b.Valid() && level <= |b.ls.divs| && k < b.ls.nvar + level
    decreases level, 0, 0, 0
  {
    if k < b.ls.nvar then Term(Id(b.names[k]), v, cst) else VarDiv(k - b.ls.nvar, v, cst, b)
  }

  function AddTerm(s: Sum, k: nat, v: int, b: Build, level: nat): Sum
    requires b.Valid() && level <= |b.ls.divs| && k < b.ls.nvar + level
    decreases level, 0, 1, 0
  {
    var t := VarTerm(k, v, s.cst, b, level);
    if t.v < 0 && !IsZero(s.e) then Sum(SubExpr(s.e, Scale(t.e, -t.v)), t.cst)
    else Sum(AddExpr(s.e, Scale(t.e, t.v)), t.cst)
  }

  function AddTermsFrom(s: Sum, a: Aff, k: nat, b: Build, level: nat): Sum
    requires b.Valid() && Fits(b, a, level) && k <= b.ls.Dim()
    decreases level, 0, 2, b.ls.Dim() - k
  {
    if k == b.ls.Dim() then s
    else AddTermsFrom(if a.coef[k] == 0 then s else AddTerm(s, k, a.coef[k], b, level), a, k + 1, b, level)
  }

  /** The compiler. */

  // The part of d * a whose coefficients are no multiples of d.
  function RationalPart(a: Aff): (r: Aff)
    requires a.den > 0
    ensures |r.coef| == |a.coef| && r.den == 1
    ensures forall k :: 0 <= k < |a.coef| ==> r.coef[k] == if a.coef[k] % a.den == 0 then 0 else a.coef[k]
  {
    Aff(1, if a.cst % a.den == 0 then 0 else a.cst,
        seq(|a.coef|, k requires 0 <= k < |a.coef| => if a.coef[k] % a.den == 0 then 0 else a.coef[k]))
  }

  // The rest of d * a, divided by d.
  function IntegerPart(a: Aff): (r: Aff)
    requires a.den > 0
    ensures |r.coef| == |a.coef| && r.den == 1
    ensures forall k :: 0 <= k < |a.coef| ==> r.coef[k] == if a.coef[k] % a.den == 0 then a.coef[k] / a.den else 0
  {
    Aff(1, if a.cst % a.den == 0 then a.cst / a.den else 0,
        seq(|a.coef|, k requires 0 <= k < |a.coef| => if a.coef[k] % a.den == 0 then a.coef[k] / a.den else 0))
  }

  function FromAff(a: Aff, b: Build, level: nat): Expr
    requires b.Valid() && b.ls.Has(a) && level <= |b.ls.divs| && Below(b.ls, a, level)
    decreases level, if a.den == 1 then 0 else 1, 3, |b.ls.divs| + 3
  {
    if a.den == 1 then FromIntegerAff(a, Int(0), b, level)
    else
      var rational := Op(Div, [FromAff(RationalPart(a), b, level), Int(a.den)]);
      FromIntegerAff(IntegerPart(a), AddExpr(Int(0), rational), b, level)
  }

  // The expression for e + a.
  function FromIntegerAff(a: Aff, e: Expr, b: Build, level: nat): Expr
    requires b.Valid() && Fits(b, a, level)
    decreases level, 0, 3, |b.ls.divs| + 2
  {
    var s := ExtractModulos(a, e, Int(0), b, level);
    var t := AddTermsFrom(Sum(SubExpr(s.pos, s.neg), s.aff.cst), s.aff, 0, b, level);
    AddInt(t.e, t.cst)
  }
}
