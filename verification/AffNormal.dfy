/** The passes of normalization as functions of the expression, and what its divisions look
    like afterwards. */
module AffNormal {
  import opened Arith
  import opened Gcd
  import opened QuasiAffine
  import opened AffDivs

  /** Plugging in divisions by one. */

  // Division i is plugged into the divisions from k on.
  function PluggedInto(ls: LocalSpace, i: nat, k: nat): (r: LocalSpace)
    requires ls.Valid() && i < k <= |ls.divs| && ls.divs[i].den == 1
    ensures SameDivs(ls, r)
    decreases |ls.divs| - k
  {
    if k == |ls.divs| then ls
    else
      SubstitutedDivs(ls, i, k);
      PluggedInto(WithDiv(ls, k, SubstitutedDiv(ls, i, k)), i, k + 1)
  }

  function IntegralForm(ls: LocalSpace, aff: Aff, i: nat): (r: (LocalSpace, Aff))
    requires ls.Valid() && ls.Has(aff) && i <= |ls.divs|
    ensures r.0.Valid() && r.0.Has(r.1) && r.0.nvar == ls.nvar && |r.0.divs| == |ls.divs|
    decreases |ls.divs| - i
  {
    if i == |ls.divs| then (ls, aff)
    else if ls.divs[i].den != 1 then IntegralForm(ls, aff, i + 1)
    else IntegralForm(PluggedInto(ls, i, i + 1), Subst(aff, ls.nvar + i, ls.divs[i]), i + 1)
  }

  /** Plugging in divisions that occur with coefficient one. */

  function UnitStep(ls: LocalSpace, j: nat, i: nat): (r: LocalSpace)
    requires ls.Valid() && j < i < |ls.divs|
    ensures SameDivs(ls, r)
  {
    if ls.divs[i].coef[ls.nvar + j] != 1 then ls
    else
      SubstitutedDivs(ls, j, i);
      WithDiv(ls, i, SubstitutedDiv(ls, j, i))
  }

  // The divisions from j on are plugged into division i.
  function UnitInto(ls: LocalSpace, j: nat, i: nat): (r: LocalSpace)
    requires ls.Valid() && j <= i < |ls.divs|
    ensures SameDivs(ls, r)
    decreases i - j
  {
    if j == i then ls else UnitInto(UnitStep(ls, j, i), j + 1, i)
  }

  function UnitForm(ls: LocalSpace, i: nat): (r: LocalSpace)
    requires ls.Valid()
    ensures SameDivs(ls, r)
    decreases |ls.divs| - i
  {
    if i >= |ls.divs| then ls else UnitForm(UnitInto(ls, 0, i), i + 1)
  }

  lemma UnitIntoStep(ls: LocalSpace, j: nat, i: nat)
    requires ls.Valid() && j < i < |ls.divs|
    ensures UnitInto(ls, j, i) == UnitInto(UnitStep(ls, j, i), j + 1, i)
  {
  }

  lemma UnitIntoEnd(ls: LocalSpace, i: nat)
    requires ls.Valid() && i < |ls.divs|
    ensures UnitInto(ls, i, i) == ls
  {
  }

  lemma UnitFormStep(ls: LocalSpace, i: nat)
    requires ls.Valid() && i < |ls.divs|
    ensures UnitForm(ls, i) == UnitForm(UnitInto(ls, 0, i), i + 1)
  {
  }

  lemma UnitFormEnd(ls: LocalSpace, i: nat)
    requires ls.Valid() && i >= |ls.divs|
    ensures UnitForm(ls, i) == ls
  {
  }

  lemma SameDivsItself(ls: LocalSpace)
    requires ls.Valid()
    ensures SameDivs(ls, ls)
  {
  }

  // Rewriting division i does not concern the earlier ones.
  lemma UnitsKept(ls: LocalSpace, ls': LocalSpace, i: nat)
    requires ls.Valid() && ls'.Valid() && ls'.nvar == ls.nvar && i < |ls.divs| == |ls'.divs|
    requires forall k :: 0 <= k < |ls.divs| && k != i ==> ls'.divs[k] == ls.divs[k]
    requires forall k: nat :: 0 < k < i ==> !UnitPredecessor(ls, k)
    ensures forall k: nat :: 0 < k < i ==> !UnitPredecessor(ls', k)
  {
    forall k: nat | 0 < k < i ensures !UnitPredecessor(ls', k) { assert !UnitPredecessor(ls, k); }
  }

  ghost predicate NoUnitPredecessor(ls: LocalSpace) {
    ls.Valid() && forall k: nat :: 0 < k < |ls.divs| ==> !UnitPredecessor(ls, k)
  }

  /** Lowest terms.  The constant does not count: normalize_div rounds it down. */

  ghost predicate Lowest(d: Aff) { VecGcd(d.coef, d.den) == 1 }

  ghost predicate InLowestTerms(ls: LocalSpace) { forall k :: 0 <= k < |ls.divs| ==> Lowest(ls.divs[k]) }

  lemma {:induction false} VecGcdGreatest(c: Vec, g: int, d: nat)
    requires d > 0 && Divides(d, g) && forall i :: 0 <= i < |c| ==> Divides(d, c[i])
    ensures VecGcd(c, g) % d == 0
  {
    if c == [] {
      MultipleDivides(d, 0, 0);
      GcdGreatest(g, 0, d);
    } else {
      var k := |c| - 1;
      var h := VecGcd(c[..k], g);
      VecGcdGreatest(c[..k], g, d);
      hide VecGcd, Divides;
      NegDivides(h, d);
      GcdGreatest(h, c[k], d);
      VecGcdStep(c, g);
    }
  }

  lemma VecGcdStep(c: Vec, g: int)
    requires c != []
    ensures VecGcd(c, g) == Gcd.Gcd(VecGcd(c[..|c| - 1], g), c[|c| - 1])
  {
  }

  lemma ScaledDivides(g: int, h: int, a: int)
    requires g > 0 && h > 0 && Divides(g, a) && Divides(h, DivExact(a, g))
    ensures g * h > 0 && Divides(g * h, a)
  {
    var q := DivExact(DivExact(a, g), h);
    assert a == (q * h) * g == q * (g * h);
    MultipleDivides(g * h, a, q);
  }

  lemma NoLargerFactor(g: nat, h: nat)
    requires g > 0 && h > 0 && g * h > 0 && g % (g * h) == 0
    ensures h == 1
  {
    var k := g / (g * h);
    assert g == k * (g * h) == (k * h) * g;
    assert (k * h - 1) * g == 0;
    assert k * h == 1;
  }

  lemma NormalizedLowest(d: Aff)
    requires d.den > 0
    ensures NormalizedDiv(d).den > 0 && Lowest(NormalizedDiv(d))
  {
    var g, r := VecGcd(d.coef, d.den), NormalizedDiv(d);
    if g != 1 {
      assert DivExact(d.den, g) * g == d.den;
      PositiveFactor(r.den, g);
      var h := VecGcd(r.coef, r.den);
      ScaledDivides(g, h, d.den);
      forall i | 0 <= i < |d.coef| ensures Divides(g * h, d.coef[i]) {
        assert Divides(h, r.coef[i]);
        ScaledDivides(g, h, d.coef[i]);
      }
      VecGcdGreatest(d.coef, d.den, g * h);
      NoLargerFactor(g, h);
    }
  }

  lemma SubstitutedLowest(ls: LocalSpace, j: nat, i: nat)
    requires ls.Valid() && j < i < |ls.divs| && InLowestTerms(ls)
    ensures Lowest(SubstitutedDiv(ls, j, i))
  {
    MulPositive(ls.divs[i].den, ls.divs[j].den);
    NormalizedLowest(Subst(ls.divs[i], ls.nvar + j, ls.divs[j]));
  }

  lemma {:induction false} PluggedLowest(ls: LocalSpace, i: nat, k: nat)
    requires ls.Valid() && i < k <= |ls.divs| && ls.divs[i].den == 1 && InLowestTerms(ls)
    ensures InLowestTerms(PluggedInto(ls, i, k))
    decreases |ls.divs| - k
  {
    if k < |ls.divs| {
      SubstitutedDivs(ls, i, k);
      SubstitutedLowest(ls, i, k);
      PluggedLowest(WithDiv(ls, k, SubstitutedDiv(ls, i, k)), i, k + 1);
    }
  }

  lemma {:induction false} IntegralLowest(ls: LocalSpace, aff: Aff, i: nat)
    requires ls.Valid() && ls.Has(aff) && i <= |ls.divs| && InLowestTerms(ls)
    ensures InLowestTerms(IntegralForm(ls, aff, i).0)
    decreases |ls.divs| - i
  {
    if i < |ls.divs| {
      if ls.divs[i].den != 1 {
        IntegralLowest(ls, aff, i + 1);
      } else {
        PluggedLowest(ls, i, i + 1);
        IntegralLowest(PluggedInto(ls, i, i + 1), Subst(aff, ls.nvar + i, ls.divs[i]), i + 1);
      }
    }
  }

  /** Fusing divisions in lowest terms gives no division by one. */

  // n divides s when it divides n x + s.
  lemma DividesRest(n: int, m: int, x: int, s: int)
    requires n > 0 && m > 0 && m * n > 0 && Divides(m * n, n * x + s)
    ensures Divides(n, s)
  {
    var q := DivExact(n * x + s, m * n);
    assert n * x + s == q * (m * n) == (q * m) * n;
    assert s == (q * m - x) * n;
    MultipleDivides(n, s, q * m - x);
  }

  // The denominator is one exactly when the product of the denominators divides everything.
  lemma FusedByOne(p: Aff, pos: nat, subs: Aff)
    requires |subs.coef| <= |p.coef| && pos < |p.coef| && p.den > 0 && subs.den > 0
    ensures var s := Subst(p, pos, subs);
            s.den > 0 &&
            (NormalizedDiv(s).den == 1 <==> forall c :: 0 <= c < |s.coef| ==> Divides(s.den, s.coef[c]))
  {
    MulPositive(p.den, subs.den);
    var s := Subst(p, pos, subs);
    var g := VecGcd(s.coef, s.den);
    MultipleDivides(s.den, s.den, 1);
    assert DivExact(s.den, g) * g == s.den;
    if forall c :: 0 <= c < |s.coef| ==> Divides(s.den, s.coef[c]) {
      VecGcdGreatest(s.coef, s.den, s.den);
      WholeFactor(s.den, g);
    }
  }

  lemma WholeFactor(d: int, g: nat)
    requires d > 0 && g > 0 && Divides(g, d) && g % d == 0
    ensures DivExact(d, g) == 1 && g == d
  {
    var k, q := g / d, DivExact(d, g);
    assert g == k * d && d == q * g;
    assert g == (k * q) * g;
    assert (k * q - 1) * g == 0;
    assert k * q == 1;
    assert q > 0 by { PositiveFactor(q, g); }
  }

  lemma FusedDen(p: Aff, pos: nat, subs: Aff)
    requires |subs.coef| <= |p.coef| && pos < |p.coef| && p.den > 0 && subs.den > 1 && p.coef[pos] == 1
    requires Lowest(subs)
    ensures NormalizedDiv(Subst(p, pos, subs)).den != 1
  {
    FusedByOne(p, pos, subs);
    var s, n := Subst(p, pos, subs), subs.den;
    if NormalizedDiv(s).den == 1 {
      forall c | 0 <= c < |subs.coef| ensures Divides(n, subs.coef[c]) {
        assert Divides(s.den, s.coef[c]);
        assert s.coef[c] == n * p.coef[pos := 0][c] + 1 * subs.coef[c];
        DividesRest(n, p.den, p.coef[pos := 0][c], subs.coef[c]);
      }
      MultipleDivides(n, n, 1);
      VecGcdGreatest(subs.coef, n, n);
      OneIsNoMultiple(n);
      assert false;
    }
  }

  lemma OneIsNoMultiple(n: int)
    requires n > 1
    ensures 1 % n != 0
  {
  }

  lemma UnitStepKeeps(ls: LocalSpace, aff: Aff, j: nat, i: nat)
    requires NoIntegral(ls, aff) && j < i < |ls.divs| && InLowestTerms(ls)
    ensures NoIntegral(UnitStep(ls, j, i), aff) && InLowestTerms(UnitStep(ls, j, i))
  {
    hide SubstitutedDiv, Lowest, SameDivs;
    if ls.divs[i].coef[ls.nvar + j] == 1 {
      var d := SubstitutedDiv(ls, j, i);
      SubstitutedLowest(ls, j, i);
      SubstitutedDivs(ls, j, i);
      UnitStepDen(ls, aff, j, i);
      var ls' := WithDiv(ls, i, d);
      forall p: nat | p < |ls'.divs| && ls'.divs[p].den == 1 ensures !Used(ls', aff, p) {
        assert p != i && ls'.divs[p] == ls.divs[p];
        UnitStepUnused(ls, aff, j, i, ls', p);
      }
    }
  }

  lemma UnitStepDen(ls: LocalSpace, aff: Aff, j: nat, i: nat)
    requires NoIntegral(ls, aff) && j < i < |ls.divs| && InLowestTerms(ls) && ls.divs[i].coef[ls.nvar + j] == 1
    ensures SubstitutedDiv(ls, j, i).den != 1
  {
    assert RefersTo(ls, i, j);
    assert ls.divs[j].den != 1;
    FusedDen(ls.divs[i], ls.nvar + j, ls.divs[j]);
  }

  lemma UnitStepUnused(ls: LocalSpace, aff: Aff, j: nat, i: nat, ls': LocalSpace, p: nat)
    requires ls.Valid() && ls.Has(aff) && j < i < |ls.divs| && ls.divs[i].coef[ls.nvar + j] == 1
    requires ls'.Valid() && ls' == WithDiv(ls, i, SubstitutedDiv(ls, j, i)) && p < |ls.divs| && !Used(ls, aff, p)
    ensures !Used(ls', aff, p)
  {
    hide SubstitutedDiv;
    forall l: nat ensures !RefersTo(ls', l, p) {
      if l == i && RefersTo(ls', l, p) { SubstitutedRefers(ls, j, i, p); }
      assert l != i ==> RefersTo(ls', l, p) == RefersTo(ls, l, p);
    }
  }

  lemma {:induction false} UnitIntoKeeps(ls: LocalSpace, aff: Aff, j: nat, i: nat)
    requires NoIntegral(ls, aff) && j <= i < |ls.divs| && InLowestTerms(ls)
    ensures NoIntegral(UnitInto(ls, j, i), aff) && InLowestTerms(UnitInto(ls, j, i))
    decreases i - j
  {
    if j < i {
      UnitStepKeeps(ls, aff, j, i);
      UnitIntoKeeps(UnitStep(ls, j, i), aff, j + 1, i);
    }
  }

  lemma {:induction false} UnitFormKeeps(ls: LocalSpace, aff: Aff, i: nat)
    requires NoIntegral(ls, aff) && InLowestTerms(ls)
    ensures NoIntegral(UnitForm(ls, i), aff) && InLowestTerms(UnitForm(ls, i))
    decreases |ls.divs| - i
  {
    if i < |ls.divs| {
      UnitIntoKeeps(ls, aff, 0, i);
      UnitFormKeeps(UnitInto(ls, 0, i), aff, i + 1);
    }
  }

  /** The order of the divisions, when some are dropped. */

  lemma {:induction false} SeqCmpChain(a: Vec, b: Vec, c: Vec)
    requires |a| == |b| == |c| && SeqCmp(a, b) <= 0 && SeqCmp(b, c) <= 0
    ensures SeqCmp(a, c) <= 0 && (SeqCmp(a, c) == 0 ==> SeqCmp(a, b) == 0 && SeqCmp(b, c) == 0)
  {
    if a != [] && a[0] == b[0] == c[0] { SeqCmpChain(a[1..], b[1..], c[1..]); }
  }

  lemma CmpRowChain(a: Vec, b: Vec, c: Vec)
    requires |a| == |b| == |c| && CmpRow(a, b) <= 0 && CmpRow(b, c) <= 0
    ensures CmpRow(a, c) <= 0 && (CmpRow(a, c) == 0 ==> CmpRow(a, b) == 0 && CmpRow(b, c) == 0)
  {
    if LastNonZero(a) == LastNonZero(b) == LastNonZero(c) { SeqCmpChain(a, b, c); }
  }

  lemma OrderedChain(ls: LocalSpace, aff: Aff, a: nat, b: nat, c: nat)
    requires ls.Valid() && ls.Has(aff) && a < |ls.divs| && b < |ls.divs| && c < |ls.divs|
    requires Ordered(ls, aff, a, b) && Ordered(ls, aff, b, c)
    ensures Ordered(ls, aff, a, c)
  {
    CmpRowChain(DivRow(ls, a), DivRow(ls, b), DivRow(ls, c));
  }

  // Neighbours in order, so any two.
  lemma {:induction false} SortedPair(ls: LocalSpace, aff: Aff, a: nat, b: nat)
    requires SortedTo(ls, aff, |ls.divs| - 1) && a < b < |ls.divs|
    ensures Ordered(ls, aff, a, b)
    decreases b
  {
    hide Ordered;
    assert NextBy(OrderOf(ls, aff), b - 1);
    if a < b - 1 {
      SortedPair(ls, aff, a, b - 1);
      OrderedChain(ls, aff, a, b - 1, b);
    }
  }

  lemma LastDrop(x: Vec, p: nat)
    requires p < |x| && x[p] == 0
    ensures LastNonZero(x) != p
    ensures LastNonZero(Without(x, p)) == if LastNonZero(x) > p then LastNonZero(x) - 1 else LastNonZero(x)
  {
    var l, x' := LastNonZero(x), Without(x, p);
    var e := if l > p then l - 1 else l;
    assert e >= 0 ==> x'[e] == x[l];
    forall k | e < k < |x'| ensures x'[k] == 0 { assert x'[k] == x[if k < p then k else k + 1]; }
    assert LastNonZero(x') <= e <= LastNonZero(x');
  }

  lemma {:induction false} SeqCmpDrop(x: Vec, y: Vec, p: nat)
    requires p < |x| == |y| && x[p] == y[p]
    ensures SeqCmp(Without(x, p), Without(y, p)) == SeqCmp(x, y)
  {
    if p == 0 {
      assert Without(x, 0) == x[1..] && Without(y, 0) == y[1..];
    } else {
      assert Without(x, p)[1..] == Without(x[1..], p - 1) && Without(y, p)[1..] == Without(y[1..], p - 1);
      SeqCmpDrop(x[1..], y[1..], p - 1);
    }
  }

  lemma CmpRowDrop(x: Vec, y: Vec, p: nat)
    requires p < |x| == |y| && x[p] == 0 && y[p] == 0
    ensures Sign(CmpRow(Without(x, p), Without(y, p))) == Sign(CmpRow(x, y))
  {
    LastDrop(x, p);
    LastDrop(y, p);
    SeqCmpDrop(x, y, p);
  }

  // Where division k was before division a was dropped
  function Before(k: nat, a: nat): nat { if k < a then k else k + 1 }

  lemma DropRow(ls: LocalSpace, a: nat, k: nat)
    requires ls.Valid() && a < |ls.divs| && k < |ls.divs| - 1
    ensures DivRow(DropDiv(ls, a), k) == Without(DivRow(ls, Before(k, a)), 2 + ls.nvar + a)
  {
    var r, o := DivRow(DropDiv(ls, a), k), DivRow(ls, Before(k, a));
    forall c | 0 <= c < |r| ensures r[c] == Without(o, 2 + ls.nvar + a)[c] {
      if c >= 2 {
        assert r[2 + (c - 2)] == CoefOf(DropDiv(ls, a), k, c - 2);
        assert o[2 + (c - 2)] == CoefOf(ls, Before(k, a), c - 2);
        if c > 2 + ls.nvar + a - 1 { assert o[2 + (c - 1)] == CoefOf(ls, Before(k, a), c - 1); }
      }
    }
  }

  // Nothing refers to division a.
  ghost predicate Unneeded(ls: LocalSpace, aff: Aff, a: nat)
    requires ls.Valid() && ls.Has(aff) && a < |ls.divs|
  {
    aff.coef[ls.nvar + a] == 0 && forall i :: a < i < |ls.divs| ==> ls.divs[i].coef[ls.nvar + a] == 0
  }

  lemma OrderedDrop(ls: LocalSpace, aff: Aff, a: nat, p: nat, q: nat)
    requires ls.Valid() && ls.Has(aff) && a < |ls.divs| && Unneeded(ls, aff, a)
    requires p < |ls.divs| - 1 && q < |ls.divs| - 1 && Ordered(ls, aff, Before(p, a), Before(q, a))
    ensures Ordered(DropDiv(ls, a), aff.(coef := Without(aff.coef, ls.nvar + a)), p, q)
  {
    hide CmpRow, DivRow, DropDiv;
    DropRow(ls, a, p);
    DropRow(ls, a, q);
    RowFree(ls, Before(p, a), a, 2 + ls.nvar + a);
    RowFree(ls, Before(q, a), a, 2 + ls.nvar + a);
    CmpRowDrop(DivRow(ls, Before(p, a)), DivRow(ls, Before(q, a)), 2 + ls.nvar + a);
    DroppedCoef(ls, aff, a, Before(q, a));
  }

  ghost predicate InOrder(ls: LocalSpace, aff: Aff, k: nat) {
    ls.Valid() && ls.Has(aff) && k + 1 < |ls.divs| && Ordered(ls, aff, k, k + 1)
  }

  lemma NeighboursDrop(ls: LocalSpace, aff: Aff, a: nat, k: nat)
    requires SortedTo(ls, aff, |ls.divs| - 1) && a < |ls.divs| && Unneeded(ls, aff, a) && k < |ls.divs| - 2
    ensures InOrder(DropDiv(ls, a), aff.(coef := Without(aff.coef, ls.nvar + a)), k)
  {
    hide Ordered, Unneeded;
    SortedPair(ls, aff, Before(k, a), Before(k + 1, a));
    OrderedDrop(ls, aff, a, k, k + 1);
  }

  lemma SortedFrom(ls: LocalSpace, aff: Aff, hi: int)
    requires ls.Valid() && ls.Has(aff) && forall k: nat :: k < hi ==> InOrder(ls, aff, k)
    ensures SortedTo(ls, aff, hi)
  {
    hide Ordered;
    forall k: nat | k < hi ensures NextBy(OrderOf(ls, aff), k) { assert InOrder(ls, aff, k); }
  }

  lemma SortedDrop(ls: LocalSpace, aff: Aff, a: nat)
    requires SortedTo(ls, aff, |ls.divs| - 1) && a < |ls.divs| && Unneeded(ls, aff, a)
    ensures SortedTo(DropDiv(ls, a), aff.(coef := Without(aff.coef, ls.nvar + a)), |ls.divs| - 2)
  {
    hide InOrder, Unneeded, SortedTo;
    SortedValid(ls, aff, |ls.divs| - 1);
    var ls', aff' := DropDiv(ls, a), aff.(coef := Without(aff.coef, ls.nvar + a));
    forall k: nat | k < |ls.divs| - 2 ensures InOrder(ls', aff', k) { NeighboursDrop(ls, aff, a, k); }
    SortedFrom(ls', aff', |ls.divs| - 2);
  }

  lemma SortedValid(ls: LocalSpace, aff: Aff, i: int)
    requires SortedTo(ls, aff, i)
    ensures ls.Valid() && ls.Has(aff)
  {
  }

  // What dropping keeps
  ghost predicate Prunes(ls0: LocalSpace, aff0: Aff, ls: LocalSpace, aff: Aff) {
    Rearranges(ls0, aff0, ls, aff) && (SortedTo(ls0, aff0, |ls0.divs| - 1) ==> SortedTo(ls, aff, |ls.divs| - 1))
  }

  lemma PrunesItself(ls: LocalSpace, aff: Aff)
    requires ls.Valid()
    ensures Prunes(ls, aff, ls, aff)
  {
    SelectsItself(ls);
  }

  lemma PrunesChain(ls0: LocalSpace, aff0: Aff, ls1: LocalSpace, aff1: Aff, ls2: LocalSpace, aff2: Aff)
    requires Prunes(ls0, aff0, ls1, aff1) && Prunes(ls1, aff1, ls2, aff2)
    ensures Prunes(ls0, aff0, ls2, aff2)
  {
    hide Rearranges, SortedTo;
    RearrangesChain(ls0, aff0, ls1, aff1, ls2, aff2);
  }

  lemma DropPrunes(ls: LocalSpace, aff: Aff, a: nat)
    requires ls.Valid() && ls.Has(aff) && a < |ls.divs| && Unneeded(ls, aff, a)
    ensures Prunes(ls, aff, DropDiv(ls, a), aff.(coef := Without(aff.coef, ls.nvar + a)))
  {
    hide SortedTo, Selects, NoIntegral, Unneeded;
    DropSelects(ls, a);
    if NoIntegral(ls, aff) { DropNoIntegral(ls, aff, a); }
    if SortedTo(ls, aff, |ls.divs| - 1) { SortedDrop(ls, aff, a); }
  }

  lemma {:induction false} CutPrunes(ls: LocalSpace, aff: Aff, n: nat)
    requires ls.Valid() && ls.Has(aff) && n <= |ls.divs| && forall k :: ls.nvar + n <= k < ls.Dim() ==> aff.coef[k] == 0
    ensures Prunes(ls, aff, LocalSpace(ls.nvar, ls.divs[..n]), aff.(coef := aff.coef[..ls.nvar + n]))
    decreases |ls.divs| - n
  {
    hide Prunes;
    if n == |ls.divs| {
      assert ls.divs[..n] == ls.divs && aff.coef[..ls.nvar + n] == aff.coef;
      PrunesItself(ls, aff);
    } else {
      var m := |ls.divs| - 1;
      var ls1, aff1 := DropDiv(ls, m), aff.(coef := Without(aff.coef, ls.nvar + m));
      DropPrunes(ls, aff, m);
      assert ls1.divs == ls.divs[..m] && aff1.coef == aff.coef[..ls.nvar + m];
      CutPrunes(ls1, aff1, n);
      assert ls1.divs[..n] == ls.divs[..n] && aff1.coef[..ls.nvar + n] == aff.coef[..ls.nvar + n];
      PrunesChain(ls, aff, ls1, aff1, LocalSpace(ls.nvar, ls.divs[..n]), aff.(coef := aff.coef[..ls.nvar + n]));
    }
  }

  /** The result of normalization. */

  // No common factor of all numbers
  ghost predicate Reduced(a: Aff) { VecGcd([a.cst] + a.coef, a.den) == 1 }

  lemma ScaledReduced(a: Aff, r: Aff)
    requires a.den > 0
    requires var g := VecGcd([a.cst] + a.coef, a.den);
             r == Aff(DivExact(a.den, g), DivExact(a.cst, g), DownVec(a.coef, g))
    ensures Reduced(r)
  {
    var all, g := [a.cst] + a.coef, VecGcd([a.cst] + a.coef, a.den);
    var all' := [r.cst] + r.coef;
    assert DivExact(a.den, g) * g == a.den;
    PositiveFactor(r.den, g);
    var h := VecGcd(all', r.den);
    ScaledDivides(g, h, a.den);
    forall i | 0 <= i < |all| ensures Divides(g * h, all[i]) {
      assert Divides(g, all[i]) && Divides(h, all'[i]);
      assert all'[i] == DivExact(all[i], g);
      ScaledDivides(g, h, all[i]);
    }
    VecGcdGreatest(all, a.den, g * h);
    NoLargerFactor(g, h);
  }

  // Two divisions are in order; if they are the same, the second has no coefficient but some
  // division refers to it.
  ghost predicate Distinguished(ls: LocalSpace, aff: Aff, a: nat, b: nat)
    requires ls.Valid() && ls.Has(aff) && a < b < |ls.divs|
  {
    CmpDiv(ls, a, b) < 0 || (CmpDiv(ls, a, b) == 0 && aff.coef[ls.nvar + b] == 0 && exists i :: RefersTo(ls, i, b))
  }

  // `fused` are the divisions after divisions by one and unit divisions have been plugged in.
  ghost predicate IsNormal(fused: LocalSpace, ls: LocalSpace, aff: Aff) {
    && ls.Valid() && ls.Has(aff) && NoUnitPredecessor(fused) && Selects(fused, ls)
    && (forall k: nat :: k < |ls.divs| ==> Used(ls, aff, k))
    && (forall a: nat, b: nat :: a < b < |ls.divs| ==> Distinguished(ls, aff, a, b))
  }

  ghost predicate IsNormalOf(ls0: LocalSpace, aff0: Aff, start: Aff, fused: LocalSpace, ls: LocalSpace, aff: Aff) {
    && ls0.Valid() && ls0.Has(aff0) && ls0.Has(start) && ls.Valid() && ls.Has(aff) && ls.nvar == ls0.nvar
    && SameValue(ls0, aff0, ls, aff)
    && Reduced(start) && SameValue(ls0, aff0, ls0, start)
    && fused == UnitForm(IntegralForm(ls0, start, 0).0, 1)
    && IsNormal(fused, ls, aff)
    && (InLowestTerms(ls0) ==> NoDivisionByOne(ls))
  }

  ghost predicate NoDivisionByOne(ls: LocalSpace) { forall k :: 0 <= k < |ls.divs| ==> ls.divs[k].den != 1 }

  lemma NormalAtEnd(fused: LocalSpace, aff1: Aff, ls: LocalSpace, aff: Aff)
    requires NoUnitPredecessor(fused) && Rearranges(fused, aff1, ls, aff) && SortedTo(ls, aff, |ls.divs| - 1)
    requires ls.Valid() && ls.Has(aff) && forall k: nat :: k < |ls.divs| ==> Used(ls, aff, k)
    ensures IsNormal(fused, ls, aff)
    ensures NoIntegral(fused, aff1) ==> NoDivisionByOne(ls)
  {
    hide Selects, SortedTo, CmpDiv;
    forall a: nat, b: nat | a < b < |ls.divs| ensures Distinguished(ls, aff, a, b) {
      SortedPair(ls, aff, a, b);
      assert Used(ls, aff, b);
    }
    if NoIntegral(fused, aff1) {
      forall k: nat | k < |ls.divs| ensures ls.divs[k].den != 1 { assert Used(ls, aff, k); }
    }
  }

  // The divisions of a normal expression differ exactly when no division refers to one that
  // equals an earlier one: merging only concerns the expression itself.
  lemma NormalDistinct(fused: LocalSpace, ls: LocalSpace, aff: Aff)
    requires IsNormal(fused, ls, aff)
    ensures (forall a: nat, b: nat :: a < b < |ls.divs| ==> CmpDiv(ls, a, b) < 0) <==>
            (forall a: nat, b: nat, i: nat :: a < b < |ls.divs| && CmpDiv(ls, a, b) == 0 ==> !RefersTo(ls, i, b))
  {
    hide CmpDiv, Selects, NoUnitPredecessor, Used;
    if forall a: nat, b: nat, i: nat :: a < b < |ls.divs| && CmpDiv(ls, a, b) == 0 ==> !RefersTo(ls, i, b) {
      forall a: nat, b: nat | a < b < |ls.divs| ensures CmpDiv(ls, a, b) < 0 { assert Distinguished(ls, aff, a, b); }
    }
  }

  // No division of the result occurs with coefficient one in the one that came right after it.
  lemma NormalUnits(fused: LocalSpace, ls: LocalSpace, aff: Aff) returns (from: seq<nat>)
    requires IsNormal(fused, ls, aff)
    ensures Renamed(fused, ls, from)
    ensures forall j: nat, k: nat :: j < |from| && k < |from| && from[j] + 1 == from[k] ==> DivCoef(ls, k, j) != 1
  {
    from :| Renamed(fused, ls, from);
    forall j: nat, k: nat | j < |from| && k < |from| && from[j] + 1 == from[k] ensures DivCoef(ls, k, j) != 1 {
      assert RenamedAt(fused, ls, from, k);
      assert !UnitPredecessor(fused, from[k]);
    }
  }

  lemma PrunesMeans(ls0: LocalSpace, aff0: Aff, ls: LocalSpace, aff: Aff)
    requires Prunes(ls0, aff0, ls, aff) && SortedTo(ls0, aff0, |ls0.divs| - 1)
    ensures Rearranges(ls0, aff0, ls, aff) && SortedTo(ls, aff, |ls.divs| - 1)
  {
  }

  lemma PluggedLowTerms(ls: LocalSpace, start: Aff, aff: Aff)
    requires ls.Valid() && ls.Has(start) && aff == IntegralForm(ls, start, 0).1
    requires NoIntegral(IntegralForm(ls, start, 0).0, aff)
    ensures InLowestTerms(ls) ==> NoIntegral(UnitForm(IntegralForm(ls, start, 0).0, 1), aff)
  {
    hide NoIntegral, InLowestTerms;
    if InLowestTerms(ls) {
      IntegralLowest(ls, start, 0);
      UnitFormKeeps(IntegralForm(ls, start, 0).0, aff, 1);
    }
  }

  lemma ValueKept(ls0: LocalSpace, aff0: Aff, start: Aff, ls: LocalSpace, aff: Aff)
    requires ls0.Valid() && ls0.Has(aff0) && ls0.Has(start) && SameValue(ls0, aff0, ls0, start)
    requires SameNum(ls0, start, ls, aff)
    ensures SameValue(ls0, aff0, ls, aff)
  {
    forall x | |x| == ls0.nvar ensures SameValueAt(ls0, aff0, ls, aff, x) {
      assert SameValueAt(ls0, aff0, ls0, start, x);
    }
  }

  lemma SameNumDen(ls: LocalSpace, a: Aff, ls': LocalSpace, a': Aff)
    requires SameNum(ls, a, ls', a')
    ensures a'.den == a.den && ls'.nvar == ls.nvar && ls.Valid() && ls.Has(a) && ls'.Valid() && ls'.Has(a')
  {
  }

  // The passes, one after the other
  lemma AllPasses(ls0: LocalSpace, aff0: Aff, start: Aff, ls2: LocalSpace, aff2: Aff, fused: LocalSpace,
                  ls4: LocalSpace, aff4: Aff, ls: LocalSpace, aff: Aff)
    requires ls0.Valid() && ls0.Has(aff0) && ls0.Has(start) && SameValue(ls0, aff0, ls0, start) && Reduced(start)
    requires aff0.den == 1 ==> start == aff0
    requires SameNum(ls0, start, ls2, aff2) && NoIntegral(ls2, aff2) && (ls2, aff2) == IntegralForm(ls0, start, 0)
    requires SameNum(ls2, aff2, fused, aff2) && fused == UnitForm(ls2, 1) && NoUnitPredecessor(fused)
    requires SameNum(fused, aff2, ls4, aff4) && Rearranges(fused, aff2, ls4, aff4)
    requires SortedTo(ls4, aff4, |ls4.divs| - 1)
    requires SameNum(ls4, aff4, ls, aff) && Prunes(ls4, aff4, ls, aff)
    requires ls.Valid() && ls.Has(aff) && forall k: nat :: k < |ls.divs| ==> Used(ls, aff, k)
    ensures IsNormalOf(ls0, aff0, start, fused, ls, aff) && (aff0.den == 1 ==> aff.den == 1)
  {
    hide SameNum, SortedTo, Rearranges, NoIntegral, InLowestTerms, NoDivisionByOne, Prunes, Reduced, IsNormal,
         NoUnitPredecessor, SameValue, IntegralForm, UnitForm, Used;
    SameNumChain(ls0, start, ls2, aff2, fused, aff2);
    SameNumChain(ls0, start, fused, aff2, ls4, aff4);
    SameNumChain(ls0, start, ls4, aff4, ls, aff);
    SameNumDen(ls0, start, ls, aff);
    PluggedLowTerms(ls0, start, aff2);
    PrunesMeans(ls4, aff4, ls, aff);
    RearrangesChain(fused, aff2, ls4, aff4, ls, aff);
    NormalAtEnd(fused, aff2, ls, aff);
    ValueKept(ls0, aff0, start, ls, aff);
  }

  /** Expressions that normalization leaves alone. */

  ghost predicate AllUsed(ls: LocalSpace, aff: Aff) {
    ls.Valid() && ls.Has(aff) && forall k: nat :: k < |ls.divs| ==> Used(ls, aff, k)
  }

  ghost predicate Settled(ls: LocalSpace, aff: Aff) {
    && ls.Valid() && ls.Has(aff) && Reduced(aff)
    && IntegralForm(ls, aff, 0) == (ls, aff) && UnitForm(ls, 1) == ls
    && SortedTo(ls, aff, |ls.divs| - 1) && AllUsed(ls, aff)
  }

  lemma SortedNext(ls: LocalSpace, aff: Aff, i: int, j: nat)
    requires SortedTo(ls, aff, i) && j < i
    ensures j + 1 < |ls.divs| && Ordered(ls, aff, j, j + 1)
  {
    assert NextBy(OrderOf(ls, aff), j);
  }

  lemma LastUsed(ls: LocalSpace, aff: Aff)
    requires AllUsed(ls, aff) && ls.divs != []
    ensures aff.coef[ls.nvar + |ls.divs| - 1] != 0
  {
    var n: nat := |ls.divs| - 1;
    assert Used(ls, aff, n);
    assert forall i: nat :: !RefersTo(ls, i, n);
  }

  lemma {:induction false} AllActive(ls: LocalSpace, aff: Aff, active: seq<bool>, k: nat)
    requires AllUsed(ls, aff) && ClosedFrom(ls, aff, active, 0) && k <= |ls.divs|
    ensures forall i :: k <= i < |ls.divs| ==> active[i]
    decreases |ls.divs| - k
  {
    if k < |ls.divs| {
      AllActive(ls, aff, active, k + 1);
      assert Used(ls, aff, k);
      if aff.coef[ls.nvar + k] == 0 {
        var i: nat :| RefersTo(ls, i, k);
        assert k + 1 <= i && active[i];
        assert NeededFrom(ls, active, 0, k);
      }
    }
  }

  // floor(x/2) twice, and floor((x + 2 a + 2 b)/5) of both
  function Duplicates(): (ls: LocalSpace) {
    LocalSpace(1, [Aff(2, 0, [1]), Aff(2, 0, [1, 0]), Aff(5, 0, [1, 2, 2])])
  }

  function LastDuplicate(): Aff { Aff(1, 0, [0, 0, 0, 1]) }

  // The last division is settled, and two of its divisions are the same.
  lemma DuplicatesSettled()
    ensures Settled(Duplicates(), LastDuplicate()) && InLowestTerms(Duplicates()) && CmpDiv(Duplicates(), 0, 1) == 0
  {
    hide CmpRow, Reduced, InLowestTerms, UnitForm, IntegralForm, SortedTo, AllUsed;
    var ls, aff := Duplicates(), LastDuplicate();
    assert ls.Valid() && ls.Has(aff);
    DuplicatesLowest();
    DuplicatesPlugged();
    DuplicatesSorted();
    DuplicatesUsed();
  }

  lemma CoprimeVec(c: Vec, g: int, i: nat)
    requires (i < |c| && c[i] == 1) || g == 1
    ensures VecGcd(c, g) == 1
  {
    var r := VecGcd(c, g);
    assert r > 0;
    DividesOne(r);
  }

  lemma DuplicatesLowest()
    ensures Reduced(LastDuplicate()) && InLowestTerms(Duplicates())
  {
    CoprimeVec([0, 0, 0, 0, 1], 1, 4);
    assert [0] + LastDuplicate().coef == [0, 0, 0, 0, 1];
    CoprimeVec([1], 2, 0);
    CoprimeVec([1, 0], 2, 0);
    CoprimeVec([1, 2, 2], 5, 0);
  }

  lemma DuplicatesPlugged()
    ensures var ls, aff := Duplicates(), LastDuplicate();
            && ls.Valid() && ls.Has(aff) && IntegralForm(ls, aff, 0) == (ls, aff) && UnitForm(ls, 1) == ls
  {
    var ls, aff := Duplicates(), LastDuplicate();
    assert IntegralForm(ls, aff, 3) == (ls, aff) == IntegralForm(ls, aff, 2) == IntegralForm(ls, aff, 1);
    assert UnitInto(ls, 1, 1) == ls && UnitInto(ls, 2, 2) == ls && UnitInto(ls, 1, 2) == ls;
    assert UnitInto(ls, 0, 1) == ls && UnitInto(ls, 0, 2) == ls;
    assert UnitForm(ls, 3) == ls && UnitForm(ls, 2) == ls;
  }

  lemma DuplicatesSorted()
    ensures var ls, aff := Duplicates(), LastDuplicate();
            ls.Valid() && ls.Has(aff) && SortedTo(ls, aff, 2) && CmpDiv(ls, 0, 1) == 0
  {
    var ls, aff := Duplicates(), LastDuplicate();
    assert DivRow(ls, 0) == [2, 0, 1, 0, 0, 0] == DivRow(ls, 1);
    SameRow([2, 0, 1, 0, 0, 0]);
    assert DivRow(ls, 1)[2 + 2] == 0 && DivRow(ls, 2)[2 + 2] == 2;
    LaterNonZero(DivRow(ls, 1), DivRow(ls, 2), 4);
    forall k: nat | k < 2 ensures InOrder(ls, aff, k) {}
    SortedFrom(ls, aff, 2);
  }

  lemma SameRow(r: Vec)
    ensures CmpRow(r, r) == 0
  {
  }

  lemma DuplicatesUsed()
    ensures AllUsed(Duplicates(), LastDuplicate())
  {
    var ls := Duplicates();
    assert ls.Valid() && RefersTo(ls, 2, 0) && RefersTo(ls, 2, 1);
  }

  lemma WholeGcd(c: Vec, g: nat)
    requires g > 0 && forall i :: 0 <= i < |c| ==> Divides(g, c[i])
    ensures VecGcd(c, g) == g
  {
    MultipleDivides(g, g, 1);
    VecGcdGreatest(c, g, g);
    WholeFactor(g, VecGcd(c, g));
  }

  // floor(1/2), and floor((3 x + a)/3) of it
  function ConstantDivision(): (ls: LocalSpace) { LocalSpace(1, [Aff(2, 1, [0]), Aff(3, 0, [3, 1])]) }

  // A constant division is not in lowest terms, and fusing it can give a division by one,
  // here floor(x / 1).
  lemma FusedToOne(ls: LocalSpace)
    requires ls == ConstantDivision()
    ensures ls.Valid() && !InLowestTerms(ls) && forall k :: 0 <= k < |ls.divs| ==> ls.divs[k].den != 1
    ensures UnitForm(ls, 1).divs[1] == Aff(1, 0, [1, 0])
  {
    hide UnitStep, UnitForm;
    ConstantNotLowest();
    ConstantSubstituted();
    UnitFormOfTwo(ls, WithDiv(ls, 1, Aff(1, 0, [1, 0])));
  }

  lemma UnitFormOfTwo(ls: LocalSpace, ls': LocalSpace)
    requires ls.Valid() && |ls.divs| == 2 && UnitStep(ls, 0, 1) == ls'
    ensures UnitForm(ls, 1) == ls'
  {
    hide UnitStep;
    UnitIntoStep(ls, 0, 1);
    UnitIntoEnd(ls', 1);
    UnitFormStep(ls, 1);
    UnitFormEnd(ls', 2);
  }

  lemma ConstantNotLowest()
    ensures ConstantDivision().Valid() && !InLowestTerms(ConstantDivision())
  {
    hide VecGcd;
    assert Divides(2, 0);
    WholeGcd([0], 2);
    assert !Lowest(ConstantDivision().divs[0]);
  }

  lemma ConstantSubstituted()
    ensures ConstantDivision().Valid()
    ensures UnitStep(ConstantDivision(), 0, 1) == WithDiv(ConstantDivision(), 1, Aff(1, 0, [1, 0]))
  {
    hide VecGcd, Subst, NormalizedDiv;
    ConstantFused();
  }

  lemma ConstantFused()
    ensures Subst(Aff(3, 0, [3, 1]), 1, Aff(2, 1, [0])) == Aff(6, 1, [6, 0])
    ensures NormalizedDiv(Aff(6, 1, [6, 0])) == Aff(1, 0, [1, 0])
  {
    assert [3, 1][1 := 0] == [3, 0] && [0] + Zeros(1) == [0, 0];
    assert Divides(6, 6) && Divides(6, 0);
    WholeGcd([6, 0], 6);
    assert DownVec([6, 0], 6) == [1, 0];
  }

  /** Floors. */

  function WithNew(ls: LocalSpace, div: Aff): LocalSpace { LocalSpace(ls.nvar, ls.divs + [div]) }

  // a is (q m + r) / m, with everything in r rounded.
  ghost predicate SplitAff(a: Aff, q: Aff, r: Aff) {
    && q.den == 1 && r.den == a.den && |q.coef| == |r.coef| == |a.coef|
    && Rounded(a.cst, a.den, q.cst, r.cst)
    && forall i :: 0 <= i < |a.coef| ==> Rounded(a.coef[i], a.den, q.coef[i], r.coef[i])
  }

  lemma FloorOfNormal(ls0: LocalSpace, a: Aff, q: Aff, r: Aff, start: Aff, fused: LocalSpace, ls: LocalSpace, aff: Aff)
    requires ls0.Valid() && ls0.Has(a) && SplitAff(a, q, r) && aff.den == 1
    requires IsNormalOf(WithNew(ls0, r), q.(coef := q.coef + [1]), start, fused, ls, aff)
    ensures forall x :: |x| == ls.nvar ==> Num(aff, Extend(ls, x)) == Floor(a, Extend(ls0, x))
  {
    hide IsNormal, Reduced, InLowestTerms, UnitForm, IntegralForm;
    forall x | |x| == ls.nvar ensures Num(aff, Extend(ls, x)) == Floor(a, Extend(ls0, x)) {
      FloorSplit(ls0, a, q, r, x);
      assert SameValueAt(WithNew(ls0, r), q.(coef := q.coef + [1]), ls, aff, x);
    }
  }
}
