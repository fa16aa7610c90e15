/** Boolean AST expressions from constraints, basic sets and sets. */
module AstFromSet {
  import opened Arith
  import opened QuasiAffine
  import opened AstExpr
  import opened AstBuild
  import opened Wrappers
  import opened AstFromAff
  import opened AstFromAffProof

  // `e` can be evaluated and is true exactly when `truth` holds.
  ghost predicate Decides(e: Expr, env: Env, truth: bool) {
    Safe(e, env) && (Eval(e, env) != 0 <==> truth)
  }

  /** Constraints. */

  // The coefficients that do not have the opposite sign; no constant term.
  function CoefficientsOfSign(a: Aff, sign: int): (r: Aff)
    ensures r.den == 1 && r.cst == 0 && |r.coef| == |a.coef|
    ensures forall k :: 0 <= k < |a.coef| ==> r.coef[k] == if sign * Sign(a.coef[k]) < 0 then 0 else a.coef[k]
  {
    Aff(1, 0, seq(|a.coef|, k requires 0 <= k < |a.coef| => if sign * Sign(a.coef[k]) < 0 then 0 else a.coef[k]))
  }

  function NegAff(a: Aff): Aff { ScaleAff(-1, a) }

  // Is `a` equal to +-(e - d floor(e/d)) for the integer division at position pos?
  predicate IsStride(ls: LocalSpace, a: Aff, pos: nat)
    requires ls.Valid() && ls.Has(a) && pos < |ls.divs|
  {
    var c, e := a.coef[ls.nvar + pos], DivArg(ls, pos);
    Abs(c) == ls.divs[pos].den && a.(coef := a.coef[ls.nvar + pos := 0]) == if c > 0 then NegAff(e) else e
  }

  function FindStride(ls: LocalSpace, a: Aff, pos: nat): (r: Option<nat>)
    requires ls.Valid() && ls.Has(a) && pos <= |ls.divs|
    ensures r.Some? ==> r.value < |ls.divs| && IsStride(ls, a, r.value)
    decreases |ls.divs| - pos
  {
    if pos == |ls.divs| then None
    else if IsStride(ls, a, pos) then Some(pos)
    else FindStride(ls, a, pos + 1)
  }

  predicate AllNegativeCoefficients(ls: LocalSpace, a: Aff) {
    forall k :: 0 <= k < ls.nvar && k < |a.coef| ==> a.coef[k] <= 0
  }

  // +-e, whichever has a positive coefficient
  function StrideArgument(ls: LocalSpace, a: Aff, pos: nat): (r: Aff)
    requires ls.Valid() && ls.Has(a) && a.den == 1 && pos < |ls.divs|
    ensures ls.Has(r) && r.den == 1
  {
    var e := a.(coef := a.coef[ls.nvar + pos := 0]);
    if AllNegativeCoefficients(ls, e) then NegAff(e) else e
  }

  // e mod d == 0, for an equality that is a stride constraint
  function ExtractStride(a: Aff, pos: nat, b: Build): Expr
    requires b.Valid() && b.ls.Has(a) && a.den == 1 && pos < |b.ls.divs|
  {
    var arg := StrideArgument(b.ls, a, pos);
    var rem := Op(ZdivR, [FromAff(arg, b, |b.ls.divs|), Int(Abs(a.coef[b.ls.nvar + pos]))]);
    Op(Eq, [rem, Int(0)])
  }

  predicate ConstantIsConsideredPositive(v: int, pos: Expr, neg: Expr) {
    if IsZero(pos) then true else if IsZero(neg) then false else v > 0
  }

  // pos == neg or pos >= neg, with a constant left-hand side moved to the right
  function ConstructConstraint(isEq: bool, pos: Expr, neg: Expr): Expr {
    if pos.Int? && !neg.Int? then Op(if isEq then Eq else Le, [neg, pos])
    else Op(if isEq then Eq else Ge, [pos, neg])
  }

  // The two sides of a == 0 or a >= 0, with only positive coefficients on each.
  function Sides(a: Aff, b: Build): (Expr, Expr)
    requires b.Valid() && b.ls.Has(a) && a.den == 1
  {
    SidesAfterModulos(ExtractModulos(a, Int(0), Int(0), b, |b.ls.divs|), b)
  }

  function SidesAfterModulos(s: Modulos, b: Build): (Expr, Expr)
    requires b.Valid() && FitsModulos(b, s, |b.ls.divs|)
  {
    var p := PositiveSum(s, b);
    var n := NegativeSum(s, -p.cst, b);
    Balance(p.e, n.e, -n.cst)
  }

  function FromConstraint(c: Constraint, b: Build): Expr
    requires b.Valid() && ValidConstraint(b.ls, c)
  {
    var stride := if c.isEq then FindStride(b.ls, c.aff, 0) else None;
    if stride.Some? then ExtractStride(c.aff, stride.value, b)
    else
      ConstructConstraint(c.isEq, Sides(c.aff, b).0, Sides(c.aff, b).1)
  }

  lemma {:induction false} SignsSplit(c: Vec, y: Vec, pos: Vec, neg: Vec)
    requires |c| == |pos| == |neg| <= |y|
    requires forall k :: 0 <= k < |c| ==>
             pos[k] == (if Sign(c[k]) < 0 then 0 else c[k]) && neg[k] == (if -Sign(c[k]) < 0 then 0 else c[k])
    ensures Dot(c, y) == Dot(pos, y) + Dot(neg, y)
  {
    if c != [] {
      var n := |c| - 1;
      SignsSplit(c[..n], y, pos[..n], neg[..n]);
      assert c[n] * y[n] == pos[n] * y[n] + neg[n] * y[n];
    }
  }

  // The positive terms minus the negated negative terms are the whole sum.
  lemma SignsAdd(a: Aff, y: Vec)
    requires |a.coef| <= |y|
    ensures Dot(a.coef, y) == Dot(CoefficientsOfSign(a, 1).coef, y) - Dot(NegAff(CoefficientsOfSign(a, -1)).coef, y)
  {
    DotScale(-1, CoefficientsOfSign(a, -1).coef, y);
    SignsSplit(a.coef, y, CoefficientsOfSign(a, 1).coef, CoefficientsOfSign(a, -1).coef);
  }

  lemma AddAllTermsMeans(s: Sum, a: Aff, b: Build, x: Vec, env: Env)
    requires b.Valid() && b.ls.Has(a) && a.den == 1 && b.At(x, env) && Safe(s.e, env)
    ensures SumMeans(AddTermsFrom(s, a, 0, b, |b.ls.divs|), env, Eval(s.e, env) + s.cst + Dot(a.coef, Extend(b.ls, x)))
  {
    assert a.coef[..0] == [];
    AddTermsFromMeans(s, a, 0, b, |b.ls.divs|, x, env, Eval(s.e, env) + s.cst);
  }

  lemma SidesMean(a: Aff, b: Build, x: Vec, env: Env)
    requires b.Valid() && b.ls.Has(a) && a.den == 1 && b.At(x, env)
    ensures Differ(Sides(a, b), env, Num(a, Extend(b.ls, x)))
  {
    ExtractModulosMeans(a, Int(0), Int(0), b, |b.ls.divs|, x, env);
    SidesOfModulos(ExtractModulos(a, Int(0), Int(0), b, |b.ls.divs|), b, x, env);
  }

  function PositiveSum(s: Modulos, b: Build): Sum
    requires b.Valid() && FitsModulos(b, s, |b.ls.divs|)
  {
    AddTermsFrom(Sum(s.pos, s.aff.cst), CoefficientsOfSign(s.aff, 1), 0, b, |b.ls.divs|)
  }

  function NegativeSum(s: Modulos, cst: int, b: Build): Sum
    requires b.Valid() && FitsModulos(b, s, |b.ls.divs|)
  {
    AddTermsFrom(Sum(s.neg, cst), NegAff(CoefficientsOfSign(s.aff, -1)), 0, b, |b.ls.divs|)
  }

  // The two sums, with the values of the positive and of the negated negative terms.
  lemma SumsMean(s: Modulos, cst: int, b: Build, x: Vec, env: Env) returns (positive: int, negative: int)
    requires b.Valid() && FitsModulos(b, s, |b.ls.divs|) && b.At(x, env) && Safe(s.pos, env) && Safe(s.neg, env)
    ensures SumMeans(PositiveSum(s, b), env, Eval(s.pos, env) + s.aff.cst + positive)
    ensures SumMeans(NegativeSum(s, cst, b), env, Eval(s.neg, env) + cst + negative)
    ensures Num(s.aff, Extend(b.ls, x)) == s.aff.cst + positive - negative
  {
    AddAllTermsMeans(Sum(s.pos, s.aff.cst), CoefficientsOfSign(s.aff, 1), b, x, env);
    AddAllTermsMeans(Sum(s.neg, cst), NegAff(CoefficientsOfSign(s.aff, -1)), b, x, env);
    SignsAdd(s.aff, Extend(b.ls, x));
    positive := Dot(CoefficientsOfSign(s.aff, 1).coef, Extend(b.ls, x));
    negative := Dot(NegAff(CoefficientsOfSign(s.aff, -1)).coef, Extend(b.ls, x));
  }

  lemma SidesOfModulos(s: Modulos, b: Build, x: Vec, env: Env)
    requires b.Valid() && FitsModulos(b, s, |b.ls.divs|) && b.At(x, env) && Safe(s.pos, env) && Safe(s.neg, env)
    ensures Differ(SidesAfterModulos(s, b), env, Num(s.aff, Extend(b.ls, x)) + Eval(s.pos, env) - Eval(s.neg, env))
  {
    var p := PositiveSum(s, b);
    var positive, negative := SumsMean(s, -p.cst, b, x, env);
    BalanceSums(p, NegativeSum(s, -p.cst, b), env,
        s.aff.cst + positive - negative + Eval(s.pos, env) - Eval(s.neg, env));
  }

  lemma BalanceSums(p: Sum, n: Sum, env: Env, total: int)
    requires Safe(p.e, env) && Safe(n.e, env) && total == Eval(p.e, env) - Eval(n.e, env) - n.cst
    ensures Differ(Balance(p.e, n.e, -n.cst), env, total)
  {
    BalanceConstant(p.e, n.e, -n.cst, env);
  }

  function Balance(p: Expr, n: Expr, cst: int): (Expr, Expr) {
    if ConstantIsConsideredPositive(cst, p, n) then (AddInt(p, cst), n) else (p, AddInt(n, -cst))
  }

  // `sides` differ by v.
  ghost predicate Differ(sides: (Expr, Expr), env: Env, v: int) {
    Safe(sides.0, env) && Safe(sides.1, env) && Eval(sides.0, env) - Eval(sides.1, env) == v
  }

  lemma MakeDiffer(sides: (Expr, Expr), left: bool, cst: int, env: Env, v: int, w: int)
    requires Means(sides.0, env, v + if left then cst else 0) && Means(sides.1, env, w - if left then 0 else cst)
    ensures Differ(sides, env, v - w + cst)
  {
  }

  // The constant ends up on one of the two sides.
  lemma BalanceConstant(p: Expr, n: Expr, cst: int, env: Env)
    requires Safe(p, env) && Safe(n, env)
    ensures Differ(Balance(p, n, cst), env, Eval(p, env) - Eval(n, env) + cst)
  {
    ConstantOnLeft(p, n, cst, env);
    ConstantOnRight(p, n, cst, env);
    MakeDiffer(Balance(p, n, cst), ConstantIsConsideredPositive(cst, p, n), cst, env, Eval(p, env), Eval(n, env));
  }

  lemma ConstantOnLeft(p: Expr, n: Expr, cst: int, env: Env)
    requires Safe(p, env)
    ensures Means(Balance(p, n, cst).0, env, Eval(p, env) + if ConstantIsConsideredPositive(cst, p, n) then cst else 0)
  {
    AddIntMeans(p, cst, env, Eval(p, env));
  }

  lemma ConstantOnRight(p: Expr, n: Expr, cst: int, env: Env)
    requires Safe(n, env)
    ensures Means(Balance(p, n, cst).1, env, Eval(n, env) - if ConstantIsConsideredPositive(cst, p, n) then 0 else cst)
  {
    AddIntMeans(n, -cst, env, Eval(n, env));
  }

  lemma ConstructDecides(isEq: bool, pos: Expr, neg: Expr, env: Env, v: int)
    requires Differ((pos, neg), env, v)
    ensures Decides(ConstructConstraint(isEq, pos, neg), env, if isEq then v == 0 else v >= 0)
  {
    EvalBinary(if isEq then Eq else Le, neg, pos, env);
    EvalBinary(if isEq then Eq else Ge, pos, neg, env);
  }

  lemma ScaleNum(a: Aff, y: Vec)
    requires |a.coef| <= |y|
    ensures Num(NegAff(a), y) == -Num(a, y)
  {
    DotScale(-1, a.coef, y);
  }

  lemma ClearNum(a: Aff, k: nat, y: Vec)
    requires k < |a.coef| <= |y|
    ensures Num(a, y) == Num(a.(coef := a.coef[k := 0]), y) + a.coef[k] * y[k]
  {
    DotUpdate(a.coef, y, k, 0);
    assert (0 - a.coef[k]) * y[k] == -(a.coef[k] * y[k]);
  }

  // The value of a stride constraint on floor(n/d), and of the argument it tests.
  lemma StrideValue(a: Aff, pos: nat, ls: LocalSpace, x: Vec)
    requires ls.Valid() && ls.Has(a) && a.den == 1 && pos < |ls.divs| && IsStride(ls, a, pos) && |x| == ls.nvar
    ensures var y, n := Extend(ls, x), Num(DivArg(ls, pos), Extend(ls, x));
            var c := a.coef[ls.nvar + pos];
            && (Num(StrideArgument(ls, a, pos), y) == n || Num(StrideArgument(ls, a, pos), y) == -n)
            && Num(a, y) == (if c > 0 then -n else n) + c * (n / ls.divs[pos].den)
  {
    ScaleNum(DivArg(ls, pos), Extend(ls, x));
    ScaleNum(a.(coef := a.coef[ls.nvar + pos := 0]), Extend(ls, x));
    ClearNum(a, ls.nvar + pos, Extend(ls, x));
    DivValue(ls, x, pos);
  }

  // e - d floor(e/d) is zero exactly when d divides e, whatever the sign of e.
  lemma StrideDecides(a: Aff, pos: nat, b: Build, x: Vec, env: Env)
    requires b.Valid() && b.ls.Has(a) && a.den == 1 && pos < |b.ls.divs| && IsStride(b.ls, a, pos) && b.At(x, env)
    ensures Decides(ExtractStride(a, pos, b), env, Num(a, Extend(b.ls, x)) == 0)
  {
    var y, arg := Extend(b.ls, x), StrideArgument(b.ls, a, pos);
    StrideValue(a, pos, b.ls, x);
    IntegerAffMeans(arg, b, x, env);
    var c := a.coef[b.ls.nvar + pos];
    assert Abs(c) == b.ls.divs[pos].den;
    StrideTest(FromAff(arg, b, |b.ls.divs|), Num(DivArg(b.ls, pos), y), Num(arg, y), c, Abs(c), Num(a, y), env);
  }

  lemma IntegerAffMeans(a: Aff, b: Build, x: Vec, env: Env)
    requires b.Valid() && b.ls.Has(a) && a.den == 1 && b.At(x, env)
    ensures Means(FromAff(a, b, |b.ls.divs|), env, Num(a, Extend(b.ls, x)))
  {
    FromAffMeans(a, b, |b.ls.divs|, x, env);
  }

  lemma StrideTest(e: Expr, n: int, arg: int, c: int, d: int, v: int, env: Env)
    requires Means(e, env, arg) && d > 0 && Abs(c) == d && (arg == n || arg == -n)
    requires v == (if c > 0 then -n else n) + c * (n / d)
    ensures Decides(Op(Eq, [Op(ZdivR, [e, Int(d)]), Int(0)]), env, v == 0)
  {
    StrideArithmetic(n, arg, c, d, v);
    ZdivMeans(e, d, env, arg, TruncRem(arg, d));
    TestZero(Op(ZdivR, [e, Int(d)]), env);
  }

  lemma ZdivMeans(e: Expr, d: int, env: Env, v: int, r: int)
    requires Means(e, env, v) && d > 0 && r == TruncRem(v, d)
    ensures Means(Op(ZdivR, [e, Int(d)]), env, r)
  {
    EvalBinary(ZdivR, e, Int(d), env);
  }

  lemma TestZero(e: Expr, env: Env)
    requires Safe(e, env)
    ensures Decides(Op(Eq, [e, Int(0)]), env, Eval(e, env) == 0)
  {
    EvalBinary(Eq, e, Int(0), env);
  }

  lemma DividesOpposite(n: int, d: int)
    requires d > 0 && n % d == 0
    ensures -n % d == 0
  {
    ExactQuotient(n, d);
    MultipleIsExact(-n, d, -(n / d));
  }

  lemma StrideArithmetic(n: int, arg: int, c: int, d: int, v: int)
    requires d > 0 && Abs(c) == d && (arg == n || arg == -n)
    requires v == (if c > 0 then -n else n) + c * (n / d)
    ensures TruncRem(arg, d) == 0 <==> v == 0
  {
    TruncRemZero(arg, d);
    assert n == d * (n / d) + n % d;
    assert c == d || c == -d;
    assert -d * (n / d) == -(d * (n / d));
    assert v == 0 <==> n % d == 0;
    if n % d == 0 { DividesOpposite(n, d); }
    if -n % d == 0 { DividesOpposite(-n, d); }
  }

  lemma FromConstraintDecides(c: Constraint, b: Build, x: Vec, env: Env)
    requires b.Valid() && ValidConstraint(b.ls, c) && b.At(x, env)
    ensures Decides(FromConstraint(c, b), env, Holds(b.ls, c, x))
  {
    var stride := if c.isEq then FindStride(b.ls, c.aff, 0) else None;
    if stride.Some? {
      StrideDecides(c.aff, stride.value, b, x, env);
    } else {
      SidesMean(c.aff, b, x, env);
      ConstructDecides(c.isEq, Sides(c.aff, b).0, Sides(c.aff, b).1, env, Num(c.aff, Extend(b.ls, x)));
    }
  }

  /** Conjunctions.  Every constraint is simplified assuming the earlier ones. */

  function AndConstraints(res: Expr, cs: BasicSet, b: Build): Expr
    requires b.Valid() && ValidBasic(b.ls, cs)
    decreases |cs|
  {
    if cs == [] then res
    else
      assert ValidConstraint(b.ls, cs[0]);
      RestrictTo(b, cs[0]);
      AndConstraints(Op(And, [res, FromConstraint(cs[0], b)]), cs[1..], b.Restrict([[cs[0]]]))
  }

  lemma RestrictTo(b: Build, c: Constraint)
    requires b.Valid() && ValidConstraint(b.ls, c)
    ensures b.Restrict([[c]]).Valid()
    ensures forall x, env :: b.Restrict([[c]]).At(x, env) <==> b.At(x, env) && Holds(b.ls, c, x)
  {
    var s: Set := [[c]];
    assert ValidBasic(b.ls, [c]);
    assert ValidSet(b.ls, s);
    RestrictValid(b, s);
    forall x, env | b.At(x, env) ensures Contains(b.ls, s, x) <==> Holds(b.ls, c, x) {
      assert s[0] == [c] && [c][0] == c;
      if Holds(b.ls, c, x) { assert InBasic(b.ls, s[0], x); }
      if Contains(b.ls, s, x) { assert InBasic(b.ls, [c], x); }
    }
  }

  function FromBasicSet(bset: BasicSet, b: Build): Expr
    requires b.Valid() && ValidBasic(b.ls, bset)
  {
    var cs := b.ops.sortConstraints(bset);
    SortedValid(bset, b);
    if cs == [] then Int(1)
    else
      assert ValidConstraint(b.ls, cs[0]);
      RestrictTo(b, cs[0]);
      AndConstraints(FromConstraint(cs[0], b), cs[1..], b.Restrict([[cs[0]]]))
  }

  // Sorting the constraints changes neither their validity nor what they describe.
  lemma SortedValid(bset: BasicSet, b: Build)
    requires b.Valid() && ValidBasic(b.ls, bset)
    ensures ValidBasic(b.ls, b.ops.sortConstraints(bset))
    ensures forall x :: |x| == b.ls.nvar ==> (InBasic(b.ls, b.ops.sortConstraints(bset), x) <==> InBasic(b.ls, bset, x))
  {
    var cs := b.ops.sortConstraints(bset);
    assert multiset(cs) == multiset(bset);
    forall c ensures c in cs <==> c in bset {
      assert c in multiset(cs) <==> c in multiset(bset);
    }
    assert forall i :: 0 <= i < |cs| ==> cs[i] in bset;
    assert forall i :: 0 <= i < |bset| ==> bset[i] in cs;
  }

  lemma {:induction false} AndConstraintsDecides(res: Expr, cs: BasicSet, b: Build, x: Vec, env: Env, earlier: bool)
    requires b.Valid() && ValidBasic(b.ls, cs) && |x| == b.ls.nvar
    requires Decides(res, env, earlier) && (earlier ==> b.At(x, env))
    ensures Decides(AndConstraints(res, cs, b), env, earlier && InBasic(b.ls, cs, x))
    decreases |cs|
  {
    if cs != [] {
      assert ValidConstraint(b.ls, cs[0]);
      RestrictTo(b, cs[0]);
      var e := FromConstraint(cs[0], b);
      if earlier { FromConstraintDecides(cs[0], b, x, env); }
      EvalBinary(And, res, e, env);
      var now := earlier && Holds(b.ls, cs[0], x);
      assert Decides(Op(And, [res, e]), env, now);
      AndConstraintsDecides(Op(And, [res, e]), cs[1..], b.Restrict([[cs[0]]]), x, env, now);
      HeadHolds(b.ls, cs, x);
    }
  }

  lemma HeadHolds(ls: LocalSpace, cs: BasicSet, x: Vec)
    requires ls.Valid() && ValidBasic(ls, cs) && cs != [] && |x| == ls.nvar
    ensures ValidConstraint(ls, cs[0]) && ValidBasic(ls, cs[1..])
    ensures InBasic(ls, cs, x) <==> Holds(ls, cs[0], x) && InBasic(ls, cs[1..], x)
  {
    assert forall i :: 1 <= i < |cs| ==> cs[i] == cs[1..][i - 1];
  }

  lemma FromBasicSetDecides(bset: BasicSet, b: Build, x: Vec, env: Env)
    requires b.Valid() && ValidBasic(b.ls, bset) && b.At(x, env)
    ensures Decides(FromBasicSet(bset, b), env, InBasic(b.ls, bset, x))
  {
    var cs := b.ops.sortConstraints(bset);
    SortedValid(bset, b);
    if cs != [] {
      assert ValidConstraint(b.ls, cs[0]);
      RestrictTo(b, cs[0]);
      FromConstraintDecides(cs[0], b, x, env);
      AndConstraintsDecides(FromConstraint(cs[0], b), cs[1..], b.Restrict([[cs[0]]]), x, env, Holds(b.ls, cs[0], x));
      HeadHolds(b.ls, cs, x);
    }
  }

  /** Disjunctions.  Every disjunct is simplified within the hull of what earlier
      disjuncts leave of the domain. */

  function OrDisjuncts(res: Expr, previous: BasicSet, rest: Set, domain: Set, b: Build): Expr
    requires b.Valid() && ValidBasic(b.ls, previous) && ValidSet(b.ls, rest) && ValidSet(b.ls, domain)
    decreases |rest|
  {
    if rest == [] then res
    else
      var domain' := Remaining(domain, previous, b);
      assert ValidBasic(b.ls, rest[0]);
      var bset := b.ops.gistBasic(rest[0], b.ops.simpleHull(domain'));
      OrDisjuncts(Op(Or, [res, FromBasicSet(bset, b)]), rest[0], rest[1..], domain', b)
  }

  // The part of the domain within the hull of what `previous` leaves of it.
  function Remaining(domain: Set, previous: BasicSet, b: Build): (r: Set)
    requires b.Valid() && ValidBasic(b.ls, previous) && ValidSet(b.ls, domain)
    ensures ValidSet(b.ls, r)
  {
    assert ValidSet(b.ls, [previous]);
    var hull := b.ops.simpleHull(b.ops.subtract(domain, [previous]));
    assert ValidSet(b.ls, [hull]);
    b.ops.intersect(domain, [hull])
  }

  function FromSet(s: Set, b: Build): Expr
    requires b.Valid() && ValidSet(b.ls, s)
  {
    if s == [] then Int(0)
    else
      assert ValidBasic(b.ls, s[0]);
      OrDisjuncts(FromBasicSet(s[0], b), s[0], s[1..], b.domain, b)
  }

  lemma SingleContains(ls: LocalSpace, bset: BasicSet, x: Vec)
    requires ls.Valid() && ValidBasic(ls, bset) && |x| == ls.nvar
    ensures ValidSet(ls, [bset]) && (Contains(ls, [bset], x) <==> InBasic(ls, bset, x))
  {
    if InBasic(ls, bset, x) { assert InBasic(ls, [bset][0], x); }
  }

  // What leaves the domain was in the previous disjunct.
  lemma RemainingLoses(domain: Set, previous: BasicSet, b: Build, x: Vec)
    requires b.Valid() && ValidBasic(b.ls, previous) && ValidSet(b.ls, domain) && |x| == b.ls.nvar
    requires Contains(b.ls, domain, x) && !InBasic(b.ls, previous, x)
    ensures Contains(b.ls, Remaining(domain, previous, b), x)
  {
    SingleContains(b.ls, previous, x);
    var left := b.ops.subtract(domain, [previous]);
    assert Contains(b.ls, left, x);
    SingleContains(b.ls, b.ops.simpleHull(left), x);
  }

  // Within its context the simplified disjunct describes the same points.
  lemma GistDisjunct(d: BasicSet, domain: Set, b: Build, x: Vec)
    requires b.Valid() && ValidBasic(b.ls, d) && ValidSet(b.ls, domain) && |x| == b.ls.nvar && Contains(b.ls, domain, x)
    ensures ValidBasic(b.ls, b.ops.gistBasic(d, b.ops.simpleHull(domain)))
    ensures InBasic(b.ls, b.ops.gistBasic(d, b.ops.simpleHull(domain)), x) <==> InBasic(b.ls, d, x)
  {
    var hull := b.ops.simpleHull(domain);
    var g := b.ops.gistBasic(d, hull);
    assert Contains(b.ls, [hull], x);
    SingleContains(b.ls, d, x);
    SingleContains(b.ls, g, x);
  }

  lemma {:induction false} OrDisjunctsDecides(res: Expr, previous: BasicSet, rest: Set, domain: Set, b: Build,
                                              x: Vec, env: Env, earlier: bool)
    requires b.Valid() && ValidBasic(b.ls, previous) && ValidSet(b.ls, rest) && ValidSet(b.ls, domain) && b.At(x, env)
    requires Decides(res, env, earlier) && (InBasic(b.ls, previous, x) ==> earlier)
    requires !Contains(b.ls, domain, x) ==> earlier
    ensures Decides(OrDisjuncts(res, previous, rest, domain, b), env, earlier || InSet(b.ls, rest, x))
    decreases |rest|
  {
    if rest != [] {
      assert ValidBasic(b.ls, rest[0]);
      var domain' := Remaining(domain, previous, b);
      var bset := b.ops.gistBasic(rest[0], b.ops.simpleHull(domain'));
      OrStep(res, previous, rest[0], domain, b, x, env, earlier);
      HeadDisjunct(b.ls, rest, x);
      OrDisjunctsDecides(Op(Or, [res, FromBasicSet(bset, b)]), rest[0], rest[1..], domain', b, x, env,
                         earlier || InBasic(b.ls, rest[0], x));
    }
  }

  lemma OrStep(res: Expr, previous: BasicSet, d: BasicSet, domain: Set, b: Build, x: Vec, env: Env, earlier: bool)
    requires b.Valid() && ValidBasic(b.ls, previous) && ValidBasic(b.ls, d) && ValidSet(b.ls, domain) && b.At(x, env)
    requires Decides(res, env, earlier) && (InBasic(b.ls, previous, x) ==> earlier)
    requires !Contains(b.ls, domain, x) ==> earlier
    ensures var domain' := Remaining(domain, previous, b);
            var bset := b.ops.gistBasic(d, b.ops.simpleHull(domain'));
            && (!Contains(b.ls, domain', x) ==> earlier)
            && ValidBasic(b.ls, bset)
            && Decides(Op(Or, [res, FromBasicSet(bset, b)]), env, earlier || InBasic(b.ls, d, x))
  {
    var domain' := Remaining(domain, previous, b);
    var bset := b.ops.gistBasic(d, b.ops.simpleHull(domain'));
    FromBasicSetDecides(bset, b, x, env);
    if !earlier {
      RemainingLoses(domain, previous, b, x);
      GistDisjunct(d, domain', b, x);
    }
    OrDecides(res, FromBasicSet(bset, b), env, earlier, InBasic(b.ls, bset, x), InBasic(b.ls, d, x));
  }

  lemma OrDecides(e: Expr, e': Expr, env: Env, p: bool, q: bool, r: bool)
    requires Decides(e, env, p) && Decides(e', env, q) && (!p ==> q == r)
    ensures Decides(Op(Or, [e, e']), env, p || r)
  {
    EvalBinary(Or, e, e', env);
  }

  lemma HeadDisjunct(ls: LocalSpace, s: Set, x: Vec)
    requires ls.Valid() && ValidSet(ls, s) && s != [] && |x| == ls.nvar
    ensures ValidBasic(ls, s[0]) && ValidSet(ls, s[1..])
    ensures InSet(ls, s, x) <==> InBasic(ls, s[0], x) || InSet(ls, s[1..], x)
  {
    if InSet(ls, s[1..], x) {
      var i :| 0 <= i < |s[1..]| && InBasic(ls, s[1..][i], x);
      assert InBasic(ls, s[i + 1], x);
    }
    if InSet(ls, s, x) && !InBasic(ls, s[0], x) {
      var i :| 0 <= i < |s| && InBasic(ls, s[i], x);
      assert InBasic(ls, s[1..][i - 1], x);
    }
  }

  /** Within the build domain the generated condition is true exactly on the set, and
      evaluating it is safe. */
  lemma FromSetDecides(s: Set, b: Build, x: Vec, env: Env)
    requires b.Valid() && ValidSet(b.ls, s) && b.At(x, env)
    ensures Decides(FromSet(s, b), env, Contains(b.ls, s, x))
  {
    if s != [] {
      assert ValidBasic(b.ls, s[0]);
      FromBasicSetDecides(s[0], b, x, env);
      OrDisjunctsDecides(FromBasicSet(s[0], b), s[0], s[1..], b.domain, b, x, env, InBasic(b.ls, s[0], x));
      HeadDisjunct(b.ls, s, x);
    }
  }
}
