/** The compiler's working data, updated in place, computes what AstFromAff defines. */
module AstFromAffState {
  import opened Arith
  import opened QuasiAffine
  import opened AstExpr
  import opened AstBuild
  import opened Wrappers
  import opened AstFromAff

  /** isl_parallel_stat: how one constraint relates to the argument of a division. */
  class ParallelStat {
    const c: Aff
    const div: Aff
    const d: int
    const sum: Option<Aff>   // the sum of constraints found so far
    var parallel: bool
    var opposite: bool
    var partial: bool
    var isFinal: bool
    var f: Option<int>

    constructor (c: Aff, div: Aff, d: int, sum: Option<Aff>)
      ensures State() == Stat(true, true, true, sum.Some?, None)
      ensures this.c == c && this.div == div && this.d == d && this.sum == sum
    {
      this.c, this.div, this.d, this.sum := c, div, d, sum;
      parallel, opposite, partial, isFinal, f := true, true, true, sum.Some?, None;
    }

    ghost function State(): Stat
      reads this
    {
      Stat(parallel, opposite, partial, isFinal, f)
    }

    // parallel_or_opposite_feasible
    method Feasible(i: nat) returns (ok: bool)
      requires i < |c.coef| == |div.coef|
      modifies this
      ensures State() == AstFromAff.Feasible(old(State()), c.coef[i], div.coef[i], CoefAt(sum, i))
      ensures ok == Continues(State())
    {
      var a, b := c.coef[i] != 0, div.coef[i] != 0;
      if a != b { parallel, opposite := false, false; }
      if partial {
        if !b && a { partial := false; }
        if b && (a || isFinal) && sum.Some? && i < |sum.value.coef| {
          var inSum := sum.value.coef[i] != 0;
          if a && inSum { partial := false; }
          if !a && !inSum { isFinal := false; }
        }
      }
      ok := parallel || opposite || partial;
    }

    // update_is_partial
    method UpdateIsPartial(v1: int, v2: int)
      modifies this
      ensures State() == AstFromAff.UpdateIsPartial(old(State()), v1, v2)
    {
      if !partial || v1 == 0 { return; }
      partial := v2 % v1 == 0;
      if !partial { return; }
      var q := v2 / v1;
      partial := q > 0;
      if !partial { return; }
      if f.None? { f := Some(q); }
      partial := q == f.value;
    }

    // is_parallel_or_opposite
    method ParallelOrOpposite(i: nat) returns (ok: bool)
      requires i < |c.coef| == |div.coef| && d > 0
      modifies this
      ensures State() == AstFromAff.ParallelOrOpposite(old(State()), c.coef[i], div.coef[i], d)
      ensures ok == (div.coef[i] == 0 || Continues(State()))
    {
      if div.coef[i] == 0 { return true; }
      var v1, v2 := c.coef[i], div.coef[i];
      if parallel {
        v1 := v1 - v2;
        parallel := v1 % d == 0;
        v1 := v1 + v2;
      }
      if opposite {
        v1 := v1 + v2;
        opposite := v1 % d == 0;
      }
      UpdateIsPartial(v1, v2);
      ok := parallel || opposite || partial;
    }

    // The first n coefficients, until the outcome is certain.
    method ScanFeasible(n: nat) returns (ok: bool)
      requires n <= |c.coef| == |div.coef|
      modifies this
      ensures FeasibleScan(old(State()), c, div, sum, 0, n) == if ok then Some(State()) else None
    {
      for i := 0 to n
        invariant FeasibleScan(old(State()), c, div, sum, 0, n) == FeasibleScan(State(), c, div, sum, i, n)
      {
        ok := Feasible(i);
        if !ok { return; }
      }
      ok := true;
    }

    method ScanParallel(n: nat) returns (ok: bool)
      requires n <= |c.coef| == |div.coef| && d > 0
      modifies this
      ensures ParallelScan(old(State()), c, div, d, 0, n) == if ok then Some(State()) else None
    {
      for i := 0 to n
        invariant ParallelScan(old(State()), c, div, d, 0, n) == ParallelScan(State(), c, div, d, i, n)
      {
        ok := ParallelOrOpposite(i);
        if !ok { return; }
      }
      ok := true;
    }
  }

  /** isl_extract_mod_data */
  class ExtractModData {
    const b: Build
    const level: nat
    var i: nat
    var v: int
    var d: int
    var div: Aff
    var aff: Aff
    var pos: Expr
    var neg: Expr
    var add: Option<Aff>
    var nonneg: Option<Aff>
    var sign: int
    var partial: Option<Aff>

    constructor (b: Build, level: nat, aff: Aff, pos: Expr, neg: Expr)
      ensures this.b == b && this.level == level && Taken() == Modulos(aff, pos, neg, None) && i == 0
    {
      this.b, this.level, this.aff, this.pos, this.neg, this.add := b, level, aff, pos, neg, None;
      i, v, d, div := 0, 0, 1, aff;
      nonneg, sign, partial := None, 0, None;
    }

    ghost function Taken(): Modulos
      reads this
    {
      Modulos(aff, pos, neg, add)
    }

    ghost function Found(): Match
      reads this
    {
      Match(partial, nonneg, sign)
    }

    ghost predicate Valid()
      reads this
    {
      b.Valid() && FitsModulos(b, Taken(), level)
    }

    // check_parallel_or_opposite
    method CheckConstraint(c: Aff)
      requires b.ls.nvar <= |c.coef| == |div.coef| && d > 0
      requires partial.Some? ==> |partial.value.coef| == |c.coef|
      modifies `nonneg, `sign, `partial
      ensures Found() == AstFromAff.CheckConstraint(old(Found()), c, div, d, b.ls.nvar)
    {
      var stat := new ParallelStat(c, div, d, partial);
      var ok := stat.ScanFeasible(b.ls.nvar);
      if !ok || Abs(c.cst) > LARGE_CONSTANT { return; }
      if stat.parallel || stat.opposite { stat.partial := false; }
      ok := stat.ScanParallel(b.ls.nvar);
      if !ok { return; }
      if stat.partial {
        var scaled := ScaleAff(if stat.f.Some? then stat.f.value else 1, c);
        partial := Some(if partial.None? then scaled else AddAff(partial.value, scaled));
        if stat.isFinal && Simpler(partial.value.cst, nonneg) {
          nonneg, sign, partial := partial, 1, None;
        }
      } else if Simpler(c.cst, nonneg) {
        nonneg, sign := Some(c), if stat.parallel then 1 else -1;
      }
    }

    // isl_basic_set_foreach_constraint with check_parallel_or_opposite
    method CheckConstraints(hull: BasicSet)
      requires b.ls.nvar <= |div.coef| && d > 0 && partial.None?
      requires forall k :: 0 <= k < |hull| ==> |hull[k].aff.coef| == |div.coef|
      modifies `nonneg, `sign, `partial
      ensures Found() == FindNonneg(old(Found()), hull, div, d, b.ls.nvar)
    {
      for k := 0 to |hull|
        invariant partial.Some? ==> |partial.value.coef| == |div.coef|
        invariant FindNonneg(old(Found()), hull, div, d, b.ls.nvar) == FindNonneg(Found(), hull[k..], div, d, b.ls.nvar)
      {
        assert hull[k..][0] == hull[k] && hull[k..][1..] == hull[k + 1..];
        CheckConstraint(hull[k].aff);
      }
    }

    // Replaces the integer division by v * term, and its remainder part by expr.
    method Collect(term: Aff, expr: Expr)
      requires b.ls.nvar + i < |aff.coef| && (add.Some? ==> |add.value.coef| == |term.coef|)
      modifies `aff, `pos, `neg, `add
      ensures Taken() == Moved(b, old(Taken()), i, v, term, expr)
    {
      if v > 0 { neg := AddExpr(neg, expr); } else { pos := AddExpr(pos, expr); }
      aff := aff.(coef := aff.coef[b.ls.nvar + i := 0]);
      var added := ScaleAff(v, term);
      add := Some(if add.None? then added else AddAff(add.value, added));
    }

    // extract_term_and_mod
    method ExtractTermAndMod(term: Aff, arg: Aff, inner: nat)
      requires Valid() && d > 0 && inner < level && i < level && Fits(b, term, level) && Fits(b, arg, inner)
      modifies `v, `aff, `pos, `neg, `add
      ensures Valid() && Taken() == AstFromAff.ExtractTermAndMod(old(Taken()), i, old(v), d, term, arg, b, level, inner)
    {
      ghost var r := AstFromAff.ExtractTermAndMod(Taken(), i, v, d, term, arg, b, level, inner);
      var even := d == 2 && arg.cst == -1;
      var term', arg' := term, arg;
      if even {
        term' := OpposeDivArg(term, d);
        v := -v;
        arg' := arg.(cst := 0);
      }
      v := FloorDiv(v, d);
      var expr := ModExpr(Abs(v), arg', d, b, inner);
      Collect(term', expr);
      assert Taken() == r;
    }

    // extract_nonneg_mod; div may be replaced by its opposite
    method ExtractNonnegMod()
      requires Valid() && d > 0 && i < level && Fits(b, div, i)
      modifies `v, `div, `aff, `pos, `neg, `add
      ensures Valid() && Taken() == AstFromAff.ExtractNonnegMod(old(Taken()), i, old(v), d, old(div), b, level)
    {
      if b.ops.isNonneg(b.domain, div) {
        ExtractTermAndMod(div, div, i);
        return;
      }
      div := OpposeDivArg(div, d);
      if b.ops.isNonneg(b.domain, div) {
        v := -v;
        ExtractTermAndMod(div, div, i);
      }
    }

    // Looks for an expression related to div among the constraints of the domain.
    method SearchHull()
      requires Valid() && d > 0 && b.ls.Has(div)
      modifies `nonneg, `sign, `partial
      ensures Found() == FindNonneg(Match(None, None, 0), HullConstraints(b), div, d, b.ls.nvar) &&
              MatchFits(b, Found())
    {
      var hull := HullConstraints(b);
      sign, nonneg, partial := 0, None, None;
      HullLengths(hull);
      CheckConstraints(hull);
      FindNonnegFits(Match(None, None, 0), hull, div, d, b);
    }

    // The remainder of what was found, with a constant term that agrees with div.
    method ExtractFound()
      requires Valid() && d > 0 && i < level && Fits(b, div, i) && nonneg.Some? && MatchFits(b, Found())
      modifies `v, `div, `aff, `pos, `neg, `add
      ensures Valid()
      ensures var arg := nonneg.value.(cst := FixedConstant(old(div).cst, nonneg.value.cst, d, sign));
              Taken() ==
              if sign < 0 then AstFromAff.ExtractTermAndMod(old(Taken()), i, -old(v), d, OpposeDivArg(old(div), d),
                  arg, b, level, 0)
              else AstFromAff.ExtractTermAndMod(old(Taken()), i, old(v), d, old(div), arg, b, level, 0)
    {
      var arg := nonneg.value.(cst := FixedConstant(div.cst, nonneg.value.cst, d, sign));
      if sign < 0 {
        div := OpposeDivArg(div, d);
        v := -v;
      }
      ExtractTermAndMod(div, arg, 0);
    }

    // try_extract_mod
    method TryExtractMod()
      requires Valid() && d > 0 && i < level && Fits(b, div, i)
      modifies `v, `div, `aff, `pos, `neg, `add, `nonneg, `sign, `partial
      ensures Valid() && Taken() == AstFromAff.TryExtractMod(old(Taken()), i, old(v), d, old(div), b, level)
    {
      if InvolvesDivs(b.ls, div) {
        ExtractNonnegMod();
        return;
      }
      SearchHull();
      if sign == 0 || nonneg.None? { ExtractNonnegMod(); } else { ExtractFound(); }
    }

    lemma HullLengths(hull: BasicSet)
      requires b.Valid() && ValidBasic(b.ls, hull)
      ensures forall k :: 0 <= k < |hull| ==> |hull[k].aff.coef| == b.ls.Dim()
    {
      forall k | 0 <= k < |hull| ensures |hull[k].aff.coef| == b.ls.Dim() { assert ValidConstraint(b.ls, hull[k]); }
    }

    // extract_modulo, for the integer division at position i
    method ExtractModulo()
      requires Valid() && i < |b.ls.divs|
      modifies `v, `d, `div, `aff, `pos, `neg, `add, `nonneg, `sign, `partial
      ensures Valid()
      ensures ExtractModulosFrom(old(Taken()), i, b, level) == ExtractModulosFrom(Taken(), i + 1, b, level)
    {
      v := aff.coef[b.ls.nvar + i];
      if v == 0 || v == 1 || v == -1 { return; }
      div, d := DivArg(b.ls, i), b.ls.divs[i].den;
      if v % d != 0 { return; }
      TryExtractMod();
    }

    // extract_modulos
    method ExtractModulos()
      requires Valid() && add.None?
      modifies this
      ensures Valid() && add.None? && Taken() == AstFromAff.ExtractModulos(old(aff), old(pos), old(neg), b, level)
    {
      if !b.preferPdiv { return; }
      ghost var r := ExtractModulosFrom(Taken(), 0, b, level);
      i := 0;
      while i < |b.ls.divs|
        invariant Valid() && i <= |b.ls.divs| && r == ExtractModulosFrom(Taken(), i, b, level)
        decreases |b.ls.divs| - i
      {
        ExtractModulo();
        i := i + 1;
      }
      if add.Some? { aff, add := AddAff(aff, add.value), None; }
    }
  }

  /** isl_ast_add_term_data: the coefficient of the current term, whose sign may change,
      and the constant term, from which an integer division may steal. */
  class AddTermData {
    const b: Build
    const level: nat
    var v: int
    var cst: int

    constructor (b: Build, level: nat, cst: int)
      ensures this.b == b && this.level == level && this.cst == cst
    {
      this.b, this.level, this.cst, v := b, level, cst, 0;
    }

    // steal_from_cst: adds multiples of d to the argument, paid for by the constant term.
    method StealFromCst(a: Aff, d: int) returns (arg: Aff)
      requires d > 0
      modifies `cst
      ensures var s := Stolen(a, d, b); arg == a.(cst := a.cst + s * d) && cst == old(cst) - v * s
    {
      var shift := CeilDiv(-b.ops.minVal(b.domain, a), d);
      arg := a.(cst := a.cst + shift * d);
      cst := cst - v * shift;
    }

    // var_div
    method VarDiv(j: nat) returns (e: Expr)
      requires b.Valid() && j < |b.ls.divs|
      modifies this
      ensures Term(e, v, cst) == AstFromAff.VarDiv(j, old(v), old(cst), b)
    {
      var d := b.ls.divs[j].den;
      var arg := DivArg(b.ls, j);
      var op := FdivQ;
      if b.preferPdiv {
        var nonneg := b.ops.isNonneg(b.domain, arg);
        if !nonneg {
          var opposite := OpposeDivArg(arg, d);
          nonneg := b.ops.isNonneg(b.domain, opposite);
          if nonneg {
            v := -v;
            arg := opposite;
          } else if NonnegAfterStealing(arg, d, v, cst, b) {
            arg := StealFromCst(arg, d);
            nonneg := true;
          }
        }
        if nonneg { op := PdivQ; }
      }
      e := Op(op, [AstFromAff.FromAff(arg, b, j), Int(d)]);
    }

    // isl_ast_expr_add_term
    method AddTerm(expr: Expr, k: nat, coef: int) returns (e: Expr)
      requires b.Valid() && level <= |b.ls.divs| && k < b.ls.nvar + level
      modifies this
      ensures Sum(e, cst) == AstFromAff.AddTerm(Sum(expr, old(cst)), k, coef, b, level)
    {
      v := coef;
      var term;
      if k < b.ls.nvar { term := Id(b.names[k]); } else { term := VarDiv(k - b.ls.nvar); }
      if v < 0 && !IsZero(expr) {
        e := SubExpr(expr, Scale(term, -v));
      } else {
        e := AddExpr(expr, Scale(term, v));
      }
    }

    // add_terms
    method AddTerms(expr: Expr, a: Aff) returns (e: Expr)
      requires b.Valid() && Fits(b, a, level)
      modifies this
      ensures Sum(e, cst) == AddTermsFrom(Sum(expr, old(cst)), a, 0, b, level)
    {
      ghost var r := AddTermsFrom(Sum(expr, cst), a, 0, b, level);
      e := expr;
      for k := 0 to b.ls.Dim()
        invariant r == AddTermsFrom(Sum(e, cst), a, k, b, level)
      {
        if a.coef[k] != 0 { e := AddTerm(e, k, a.coef[k]); }
      }
    }
  }

  // extract_rational: one coefficient at a time, what is no multiple of the denominator.
  method ExtractRational(a: Aff) returns (rat: Aff, rest: Aff)
    requires a.den > 0
    ensures rat == RationalPart(a) && rest == IntegerPart(a)
  {
    var d, n := a.den, |a.coef|;
    var r, q := new int[n], new int[n];
    for k := 0 to n
      invariant forall l :: 0 <= l < k ==> r[l] == RationalPart(a).coef[l] && q[l] == IntegerPart(a).coef[l]
    {
      r[k] := if a.coef[k] % d == 0 then 0 else a.coef[k];
      q[k] := (a.coef[k] - r[k]) / d;
      ZeroDivided(d);
    }
    rat := Aff(1, if a.cst % d == 0 then 0 else a.cst, r[..]);
    rest := Aff(1, (a.cst - rat.cst) / d, q[..]);
    ZeroDivided(d);
  }

  lemma ZeroDivided(d: int)
    requires d > 0
    ensures 0 / d == 0
  {
  }

  /** isl_ast_expr_from_aff */
  method FromAff(a: Aff, b: Build) returns (expr: Expr)
    requires b.Valid() && b.ls.Has(a)
    ensures expr == AstFromAff.FromAff(a, b, |b.ls.divs|)
  {
    var level := |b.ls.divs|;
    var aff := a;
    expr := Int(0);
    if a.den != 1 {
      var rat;
      rat, aff := ExtractRational(a);
      expr := AddExpr(expr, Op(Div, [AstFromAff.FromAff(rat, b, level), Int(a.den)]));
    }
    var data := new ExtractModData(b, level, aff, expr, Int(0));
    data.ExtractModulos();
    var terms := new AddTermData(b, level, data.aff.cst);
    expr := terms.AddTerms(SubExpr(data.pos, data.neg), data.aff);
    expr := AddInt(expr, terms.cst);
  }
}
