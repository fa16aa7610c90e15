/** The loops over constraints and disjuncts compute what AstFromSet defines. */
module AstFromSetState {
  import opened Arith
  import opened QuasiAffine
  import opened AstExpr
  import opened AstBuild
  import opened Wrappers
  import opened AstFromAff
  import opened AstFromAffState
  import opened AstFromSet

  // The terms that remain once the modulos are extracted, and the constant term.
  method AddRemaining(s: Modulos, b: Build) returns (pos: Expr, neg: Expr)
    requires b.Valid() && FitsModulos(b, s, |b.ls.divs|)
    ensures (pos, neg) == SidesAfterModulos(s, b)
  {
    var terms := new AddTermData(b, |b.ls.divs|, s.aff.cst);
    pos := terms.AddTerms(s.pos, CoefficientsOfSign(s.aff, 1));
    terms.cst := -terms.cst;
    neg := terms.AddTerms(s.neg, NegAff(CoefficientsOfSign(s.aff, -1)));
    terms.cst := -terms.cst;
    if ConstantIsConsideredPositive(terms.cst, pos, neg) {
      pos := AddInt(pos, terms.cst);
    } else {
      terms.cst := -terms.cst;
      neg := AddInt(neg, terms.cst);
    }
  }

  // isl_ast_expr_from_constraint_no_stride
  method FromOrdinaryConstraint(isEq: bool, a: Aff, b: Build) returns (e: Expr)
    requires b.Valid() && b.ls.Has(a) && a.den == 1
    ensures e == ConstructConstraint(isEq, Sides(a, b).0, Sides(a, b).1)
  {
    var data := new ExtractModData(b, |b.ls.divs|, a, Int(0), Int(0));
    data.ExtractModulos();
    var pos, neg := AddRemaining(Modulos(data.aff, data.pos, data.neg, data.add), b);
    e := ConstructConstraint(isEq, pos, neg);
  }

  // isl_ast_expr_from_constraint
  method FromConstraint(c: Constraint, b: Build) returns (e: Expr)
    requires b.Valid() && ValidConstraint(b.ls, c)
    ensures e == AstFromSet.FromConstraint(c, b)
  {
    if c.isEq {
      for i := 0 to |b.ls.divs|
        invariant FindStride(b.ls, c.aff, 0) == FindStride(b.ls, c.aff, i)
      {
        if IsStride(b.ls, c.aff, i) { return ExtractStride(c.aff, i, b); }
      }
    }
    e := FromOrdinaryConstraint(c.isEq, c.aff, b);
  }

  /** isl_ast_build_expr_from_basic_set */
  method FromBasicSet(bset: BasicSet, b: Build) returns (res: Expr)
    requires b.Valid() && ValidBasic(b.ls, bset)
    ensures res == AstFromSet.FromBasicSet(bset, b)
  {
    var list := b.ops.sortConstraints(bset);
    SortedValid(bset, b);
    if list == [] { return Int(1); }
    assert ValidConstraint(b.ls, list[0]);
    res := FromConstraint(list[0], b);
    RestrictTo(b, list[0]);
    var build := b.Restrict([[list[0]]]);
    ghost var r := AndConstraints(res, list[1..], build);
    for i := 1 to |list|
      invariant build.Valid() && build.ls == b.ls && ValidBasic(b.ls, list[i..])
      invariant r == AndConstraints(res, list[i..], build)
    {
      assert list[i..][0] == list[i] && list[i..][1..] == list[i + 1..];
      assert ValidConstraint(build.ls, list[i..][0]);
      RestrictTo(build, list[i]);
      var expr := FromConstraint(list[i], build);
      build := build.Restrict([[list[i]]]);
      res := Op(And, [res, expr]);
    }
  }

  /** isl_ast_build_expr_from_set_internal */
  method FromSet(s: Set, b: Build) returns (res: Expr)
    requires b.Valid() && ValidSet(b.ls, s)
    ensures res == AstFromSet.FromSet(s, b)
  {
    if s == [] { return Int(0); }
    assert ValidBasic(b.ls, s[0]);
    var domain, previous := b.domain, s[0];
    res := FromBasicSet(s[0], b);
    ghost var r := OrDisjuncts(res, previous, s[1..], domain, b);
    for i := 1 to |s|
      invariant ValidBasic(b.ls, previous) && ValidSet(b.ls, domain) && ValidSet(b.ls, s[i..])
      invariant r == OrDisjuncts(res, previous, s[i..], domain, b)
    {
      assert s[i..][0] == s[i] && s[i..][1..] == s[i + 1..];
      assert ValidBasic(b.ls, s[i..][0]);
      domain := Remaining(domain, previous, b);
      previous := s[i];
      var hull := b.ops.simpleHull(domain);
      var expr := FromBasicSet(b.ops.gistBasic(s[i], hull), b);
      res := Op(Or, [res, expr]);
    }
  }
}
