/** Quasi-affine expressions over integer divisions: replacing, exchanging, merging and dropping
    divisions, and what that does to values. */
module AffDivs {
  import opened Arith
  import opened Gcd
  import opened QuasiAffine

  // The same rational value at every integer point.
  ghost predicate SameValue(ls: LocalSpace, a: Aff, ls': LocalSpace, a': Aff)
    requires ls.Valid() && ls'.Valid() && ls.Has(a) && ls'.Has(a') && ls.nvar == ls'.nvar
  {
    forall x :: |x| == ls.nvar ==> SameValueAt(ls, a, ls', a', x)
  }

  ghost predicate SameValueAt(ls: LocalSpace, a: Aff, ls': LocalSpace, a': Aff, x: Vec)
    requires ls.Valid() && ls'.Valid() && ls.Has(a) && ls'.Has(a') && |x| == ls.nvar == ls'.nvar
  {
    Num(a, Extend(ls, x)) * a'.den == Num(a', Extend(ls', x)) * a.den
  }

  // ... over the same denominator.
  ghost predicate SameNum(ls: LocalSpace, a: Aff, ls': LocalSpace, a': Aff) {
    && ls.Valid() && ls'.Valid() && ls.Has(a) && ls'.Has(a') && ls.nvar == ls'.nvar && a.den == a'.den
    && forall x :: |x| == ls.nvar ==> Num(a, Extend(ls, x)) == Num(a', Extend(ls', x))
  }

  ghost predicate SameDivs(ls: LocalSpace, ls': LocalSpace) {
    && ls.Valid() && ls'.Valid() && ls.nvar == ls'.nvar && |ls.divs| == |ls'.divs|
    && forall x :: |x| == ls.nvar ==> Extend(ls, x) == Extend(ls', x)
  }

  /** Floors of floors. */

  // floor(a / (d m)) = floor(floor(a / d) / m)
  lemma FloorOfFloor(a: int, d: int, m: int)
    requires d > 0 && m > 0
    ensures d * m > 0 && a / (d * m) == (a / d) / m
  {
    var q := a / d;
    assert a == q * d + a % d && q == (q / m) * m + q % m;
    TwoRemainders(a, d, m, q, a % d, q / m, q % m);
    QuotientUnique(a, d * m, q / m);
  }

  lemma TwoRemainders(a: int, d: int, m: int, q: int, r: int, s: int, t: int)
    requires d > 0 && m > 0 && 0 <= r < d && 0 <= t < m && a == q * d + r && q == s * m + t
    ensures d * m > 0 && s * (d * m) <= a < s * (d * m) + d * m
  {
    MulPositive(d, m);
    Regroup(s, m, t, d);
    MulMonotone(t, m - 1, d);
    assert (m - 1) * d == d * m - d;
  }

  lemma MulPositive(d: int, m: int)
    requires d > 0 && m > 0
    ensures d * m > 0
  {
  }

  lemma Regroup(s: int, m: int, t: int, d: int)
    ensures (s * m + t) * d == s * (d * m) + t * d
  {
    assert (s * m) * d == s * (d * m);
  }

  lemma MulMonotone(t: int, u: int, d: int)
    requires 0 <= t <= u && d > 0
    ensures 0 <= t * d <= u * d
  {
  }

  // floor((d G + f) / (m d)) = floor((G + floor(f / d)) / m)
  lemma FloorFused(g: int, f: int, d: int, m: int)
    requires d > 0 && m > 0
    ensures m * d > 0 && (d * g + f) / (m * d) == (g + f / d) / m
  {
    FloorOfFloor(d * g + f, d, m);
    ShiftedQuotient(g, f, d);
    Commuted(m, d);
  }

  lemma Commuted(m: int, d: int)
    ensures m * d == d * m
  {
  }

  lemma ShiftedQuotient(g: int, f: int, d: int)
    requires d > 0
    ensures (d * g + f) / d == g + f / d
  {
    DivideShift(f, d, g);
    Commuted(g, d);
  }

  /** Substituting an integer division. */

  function Subst(p: Aff, pos: nat, subs: Aff): (r: Aff)
    requires |subs.coef| <= |p.coef| && pos < |p.coef|
    ensures |r.coef| == |p.coef| && r.den == p.den * subs.den
  {
    var a := p.coef[pos];
    Aff(p.den * subs.den,
        subs.den * p.cst + a * subs.cst,
        AddVec(ScaleVec(subs.den, p.coef[pos := 0]), ScaleVec(a, subs.coef + Zeros(|p.coef| - |subs.coef|))))
  }

  lemma SubstDot(c: Vec, pos: nat, a: int, d: int, s: Vec, y: Vec)
    requires |s| <= |c| <= |y| && pos < |c|
    ensures Dot(AddVec(ScaleVec(d, c[pos := 0]), ScaleVec(a, s + Zeros(|c| - |s|))), y) ==
            d * Dot(c[pos := 0], y) + a * Dot(s, y)
  {
    var z := s + Zeros(|c| - |s|);
    DotAdd(ScaleVec(d, c[pos := 0]), ScaleVec(a, z), y);
    DotScale(d, c[pos := 0], y);
    DotScale(a, z, y);
    DotPadded(s, |c| - |s|, y);
  }

  lemma SubstNum(p: Aff, pos: nat, subs: Aff, y: Vec)
    requires |subs.coef| <= |p.coef| <= |y| && pos < |p.coef|
    ensures Num(Subst(p, pos, subs), y) == subs.den * (Num(p, y) - p.coef[pos] * y[pos]) + p.coef[pos] * Num(subs, y)
  {
    var a, d := p.coef[pos], subs.den;
    SubstDot(p.coef, pos, a, d, subs.coef, y);
    DotUpdate(p.coef, y, pos, 0);
    var w := Dot(p.coef[pos := 0], y);
    assert w == Dot(p.coef, y) - a * y[pos] by { Opposite(a, y[pos]); }
    Distribute(d, p.cst, w);
    Distribute(a, subs.cst, Dot(subs.coef, y));
  }

  lemma Opposite(a: int, y: int)
    ensures (0 - a) * y == -(a * y)
  {
  }

  lemma Distribute(d: int, x: int, y: int)
    ensures d * (x + y) == d * x + d * y
  {
  }

  // The floor of an expression.
  function Floor(a: Aff, y: Vec): int
    requires |a.coef| <= |y| && a.den > 0
  {
    Num(a, y) / a.den
  }

  // A division by one may be replaced by its argument, ...
  lemma SubstIntegral(p: Aff, pos: nat, subs: Aff, y: Vec)
    requires |subs.coef| <= |p.coef| <= |y| && pos < |p.coef| && subs.den == 1 && y[pos] == Floor(subs, y)
    ensures Num(Subst(p, pos, subs), y) == Num(p, y) && Subst(p, pos, subs).den == p.den
  {
    SubstNum(p, pos, subs, y);
  }

  // ... and one that occurs with coefficient one may be fused with the floor around it.
  lemma SubstUnit(p: Aff, pos: nat, subs: Aff, y: Vec)
    requires |subs.coef| <= |p.coef| <= |y| && pos < |p.coef| && subs.den > 0 && p.den > 0
    requires p.coef[pos] == 1 && y[pos] == Floor(subs, y)
    ensures p.den * subs.den > 0 && Floor(Subst(p, pos, subs), y) == Floor(p, y)
  {
    SubstNum(p, pos, subs, y);
    var n := Num(Subst(p, pos, subs), y);
    assert n == subs.den * (Num(p, y) - y[pos]) + Num(subs, y);
    FloorFused(Num(p, y) - y[pos], Num(subs, y), subs.den, p.den);
  }

  // Common factor of the coefficients and a number.
  function VecGcd(c: Vec, g: int): (r: nat)
    ensures r == 0 <==> g == 0 && forall i :: 0 <= i < |c| ==> c[i] == 0
    ensures r > 0 ==> Divides(r, g) && forall i :: 0 <= i < |c| ==> Divides(r, c[i])
  {
    if c == [] then Gcd.Gcd(g, 0)
    else
      var k := |c| - 1;
      var h := VecGcd(c[..k], g);
      var r := Gcd.Gcd(h, c[k]);
      assert r > 0 ==> Divides(r, g) && forall i :: 0 <= i < |c| ==> Divides(r, c[i]) by {
        if r > 0 {
          if h == 0 {
            MultipleDivides(r, 0, 0);
          } else {
            DividesChain(r, h, g);
            forall i | 0 <= i < k ensures Divides(r, c[i]) { DividesChain(r, h, c[..k][i]); }
          }
        }
      }
      r
  }

  lemma DividesChain(d: int, h: int, a: int)
    requires d > 0 && h > 0 && Divides(d, h) && Divides(h, a)
    ensures Divides(d, a)
  {
    var x, y := DivExact(h, d), DivExact(a, h);
    assert y * (x * d) == (y * x) * d;
    MultipleDivides(d, a, y * x);
  }

  function DownVec(c: Vec, g: int): (r: Vec)
    ensures |r| == |c| && forall i :: 0 <= i < |c| ==> r[i] == DivExact(c[i], g)
  {
    seq(|c|, i requires 0 <= i < |c| => DivExact(c[i], g))
  }

  lemma DotDown(c: Vec, g: int, y: Vec)
    requires |c| <= |y| && forall i :: 0 <= i < |c| ==> Divides(g, c[i])
    ensures g * Dot(DownVec(c, g), y) == Dot(c, y)
  {
    forall i | 0 <= i < |c| ensures ScaleVec(g, DownVec(c, g))[i] == c[i] {
      assert Divides(g, c[i]);
      assert g * DivExact(c[i], g) == DivExact(c[i], g) * g;
    }
    assert ScaleVec(g, DownVec(c, g)) == c;
    DotScale(g, DownVec(c, g), y);
  }

  lemma DividesOne(g: nat)
    requires Divides(g, 1)
    ensures g == 1
  {
    assert DivExact(1, g) * g == 1;
  }

  // normalize_div: floor((g f + c) / (g m)) = floor((f + floor(c / g)) / m)
  function NormalizedDiv(d: Aff): (r: Aff)
    requires d.den > 0
    ensures |r.coef| == |d.coef|
  {
    var g := VecGcd(d.coef, d.den);
    if g == 1 then d else Aff(DivExact(d.den, g), d.cst / g, DownVec(d.coef, g))
  }

  lemma PositiveFactor(m: int, g: nat)
    requires m * g > 0
    ensures m > 0
  {
    assert m < 0 ==> m * g <= 0;
  }

  lemma NormalizedDivFloor(d: Aff, y: Vec)
    requires d.den > 0 && |d.coef| <= |y|
    ensures NormalizedDiv(d).den > 0 && Floor(NormalizedDiv(d), y) == Floor(d, y)
  {
    var g := VecGcd(d.coef, d.den);
    if g != 1 {
      var m := DivExact(d.den, g);
      assert m * g == d.den;
      PositiveFactor(m, g);
      var f := Dot(DownVec(d.coef, g), y);
      DotDown(d.coef, g, y);
      FloorFused(f, d.cst, g, m);
    }
  }

  /** Replacing one division by another with the same value changes no value. */

  lemma {:induction false} DivInPrefix(ls: LocalSpace, x: Vec, j: nat, n: nat)
    requires ls.Valid() && |x| == ls.nvar && j < n <= |ls.divs|
    ensures ExtendTo(ls, x, n)[ls.nvar + j] == Floor(ls.divs[j], ExtendTo(ls, x, n))
  {
    var y, p := ExtendTo(ls, x, n), ExtendTo(ls, x, j);
    ExtendToPrefix(ls, x, j + 1, n);
    ExtendToPrefix(ls, x, j, n);
    assert y[ls.nvar + j] == y[..ls.nvar + j + 1][ls.nvar + j];
    assert forall i :: 0 <= i < |p| ==> p[i] == y[..ls.nvar + j][i];
    DotPrefix(ls.divs[j].coef, y, p);
  }

  function WithDiv(ls: LocalSpace, i: nat, d: Aff): (ls': LocalSpace)
    requires i < |ls.divs|
  {
    LocalSpace(ls.nvar, ls.divs[i := d])
  }

  lemma {:induction false} WithDivExtend(ls: LocalSpace, i: nat, d: Aff, x: Vec, n: nat)
    requires ls.Valid() && |x| == ls.nvar && i < |ls.divs| && n <= |ls.divs| && d.den > 0 && |d.coef| == ls.nvar + i
    requires Floor(d, ExtendTo(ls, x, i)) == Floor(ls.divs[i], ExtendTo(ls, x, i))
    ensures ExtendTo(WithDiv(ls, i, d), x, n) == ExtendTo(ls, x, n)
  {
    if n > 0 { WithDivExtend(ls, i, d, x, n - 1); }
  }

  // What substitute_seq does to one division: nothing when j does not occur in it.
  function SubstitutedDiv(ls: LocalSpace, j: nat, i: nat): (d: Aff)
    requires ls.Valid() && j < i < |ls.divs|
    ensures |d.coef| == ls.nvar + i
  {
    MulPositive(ls.divs[i].den, ls.divs[j].den);
    if ls.divs[i].coef[ls.nvar + j] == 0 then ls.divs[i]
    else NormalizedDiv(Subst(ls.divs[i], ls.nvar + j, ls.divs[j]))
  }

  lemma SubstitutedDivFloor(ls: LocalSpace, j: nat, i: nat, x: Vec)
    requires ls.Valid() && j < i < |ls.divs| && |x| == ls.nvar
    requires ls.divs[j].den == 1 || ls.divs[i].coef[ls.nvar + j] == 1
    ensures SubstitutedDiv(ls, j, i).den > 0
    ensures Floor(SubstitutedDiv(ls, j, i), ExtendTo(ls, x, i)) == Floor(ls.divs[i], ExtendTo(ls, x, i))
  {
    var y, p, subs := ExtendTo(ls, x, i), ls.divs[i], ls.divs[j];
    MulPositive(p.den, subs.den);
    DivInPrefix(ls, x, j, i);
    if p.coef[ls.nvar + j] != 0 {
      if subs.den == 1 { SubstIntegral(p, ls.nvar + j, subs, y); } else { SubstUnit(p, ls.nvar + j, subs, y); }
      NormalizedDivFloor(Subst(p, ls.nvar + j, subs), y);
    }
  }

  lemma SubstitutedDivs(ls: LocalSpace, j: nat, i: nat)
    requires ls.Valid() && j < i < |ls.divs|
    requires ls.divs[j].den == 1 || ls.divs[i].coef[ls.nvar + j] == 1
    ensures SameDivs(ls, WithDiv(ls, i, SubstitutedDiv(ls, j, i)))
  {
    var d := SubstitutedDiv(ls, j, i);
    SubstitutedDivFloor(ls, j, i, Zeros(ls.nvar));
    forall x | |x| == ls.nvar ensures Extend(ls, x) == Extend(WithDiv(ls, i, d), x) {
      SubstitutedDivFloor(ls, j, i, x);
      WithDivExtend(ls, i, d, x, |ls.divs|);
    }
  }

  /** Swapping neighbouring divisions. */

  // Divisions a and a + 1 exchanged, in their order and in the coefficients of later ones.
  function SwappedDiv(ls: LocalSpace, a: nat, k: nat): (d: Aff)
    requires ls.Valid() && a + 1 < |ls.divs| && k < |ls.divs|
    ensures d.den > 0 && |d.coef| == ls.nvar + k
  {
    if k < a then ls.divs[k]
    else if k == a then ls.divs[a + 1].(coef := ls.divs[a + 1].coef[..ls.nvar + a])
    else if k == a + 1 then ls.divs[a].(coef := ls.divs[a].coef + [0])
    else ls.divs[k].(coef := SwapVec(ls.divs[k].coef, ls.nvar + a))
  }

  function SwapDivs(ls: LocalSpace, a: nat): (ls': LocalSpace)
    requires ls.Valid() && a + 1 < |ls.divs|
    ensures ls'.Valid() && ls'.nvar == ls.nvar && |ls'.divs| == |ls.divs|
    ensures forall k :: 0 <= k < |ls.divs| ==> ls'.divs[k] == SwappedDiv(ls, a, k)
  {
    LocalSpace(ls.nvar, seq(|ls.divs|, k requires 0 <= k < |ls.divs| => SwappedDiv(ls, a, k)))
  }

  lemma DotTail(c: Vec, y: Vec)
    requires |c| < |y|
    ensures Dot(c + [0], y) == Dot(c, y)
  {
    assert (c + [0])[..|c|] == c;
  }

  lemma {:induction false} ExtendBefore(ls: LocalSpace, ls': LocalSpace, x: Vec, n: nat)
    requires ls.Valid() && ls'.Valid() && |x| == ls.nvar == ls'.nvar && n <= |ls.divs| && n <= |ls'.divs|
    requires forall k :: 0 <= k < n ==> ls'.divs[k] == ls.divs[k]
    ensures ExtendTo(ls', x, n) == ExtendTo(ls, x, n)
  {
    if n > 0 { ExtendBefore(ls, ls', x, n - 1); }
  }

  // The values of two divisions, in either order, when the second does not refer to the first.
  lemma PairValues(d0: Aff, d1: Aff, e0: Aff, e1: Aff, y: Vec, u: Vec, v: Vec)
    requires |d0.coef| == |y| && |d1.coef| == |y| + 1 && d1.coef[|y|] == 0 && d0.den > 0 && d1.den > 0
    requires e0 == d1.(coef := d1.coef[..|y|]) && e1 == d0.(coef := d0.coef + [0])
    requires u == y + [Floor(d0, y)] && v == y + [Floor(e0, y)]
    ensures v + [Floor(e1, v)] == SwapVec(u + [Floor(d1, u)], |y|)
  {
    assert d1.coef == e0.coef + [0];
    DotTail(e0.coef, u);
    DotPrefix(e0.coef, y, u);
    DotTail(d0.coef, v);
    DotPrefix(d0.coef, y, v);
  }

  lemma SwapPair(ls: LocalSpace, a: nat, x: Vec)
    requires ls.Valid() && a + 1 < |ls.divs| && |x| == ls.nvar && ls.divs[a + 1].coef[ls.nvar + a] == 0
    ensures ExtendTo(SwapDivs(ls, a), x, a + 2) == SwapVec(ExtendTo(ls, x, a + 2), ls.nvar + a)
  {
    var ls' := SwapDivs(ls, a);
    ExtendBefore(ls, ls', x, a);
    ExtendLast(ls, x, a + 1);
    ExtendLast(ls, x, a + 2);
    ExtendLast(ls', x, a + 1);
    ExtendLast(ls', x, a + 2);
    PairValues(ls.divs[a], ls.divs[a + 1], ls'.divs[a], ls'.divs[a + 1], ExtendTo(ls, x, a), ExtendTo(ls, x, a + 1),
        ExtendTo(ls', x, a + 1));
  }

  lemma {:induction false} SwapExtend(ls: LocalSpace, a: nat, x: Vec, n: nat)
    requires ls.Valid() && a + 2 <= n <= |ls.divs| && |x| == ls.nvar && ls.divs[a + 1].coef[ls.nvar + a] == 0
    ensures ExtendTo(SwapDivs(ls, a), x, n) == SwapVec(ExtendTo(ls, x, n), ls.nvar + a)
  {
    if n == a + 2 {
      SwapPair(ls, a, x);
    } else {
      SwapExtend(ls, a, x, n - 1);
      SwapStep(ls, a, n - 1, ExtendTo(ls, x, n - 1));
    }
  }

  lemma SwapStep(ls: LocalSpace, a: nat, k: nat, y: Vec)
    requires ls.Valid() && a + 2 <= k < |ls.divs| && |y| == ls.nvar + k
    ensures var y' := SwapVec(y, ls.nvar + a);
            y' + [Floor(SwappedDiv(ls, a, k), y')] == SwapVec(y + [Floor(ls.divs[k], y)], ls.nvar + a)
  {
    DotSwap(ls.divs[k].coef, y, ls.nvar + a);
    assert SwapVec(y, ls.nvar + a) + [Floor(ls.divs[k], y)] == SwapVec(y + [Floor(ls.divs[k], y)], ls.nvar + a);
  }

  lemma SwapSame(ls: LocalSpace, aff: Aff, a: nat)
    requires ls.Valid() && ls.Has(aff) && a + 1 < |ls.divs| && ls.divs[a + 1].coef[ls.nvar + a] == 0
    ensures SameNum(ls, aff, SwapDivs(ls, a), aff.(coef := SwapVec(aff.coef, ls.nvar + a)))
  {
    var aff' := aff.(coef := SwapVec(aff.coef, ls.nvar + a));
    forall x | |x| == ls.nvar ensures Num(aff, Extend(ls, x)) == Num(aff', Extend(SwapDivs(ls, a), x)) {
      SwapExtend(ls, a, x, |ls.divs|);
      DotSwap(aff.coef, Extend(ls, x), ls.nvar + a);
    }
  }

  /** Comparing and merging divisions. */

  // A division as a full row of the matrix: denominator, constant, coefficients.
  function DivRow(ls: LocalSpace, j: nat): (row: Vec)
    requires ls.Valid() && j < |ls.divs|
    ensures |row| == 2 + ls.Dim() && row[0] == ls.divs[j].den && row[1] == ls.divs[j].cst
    ensures forall k :: 0 <= k < ls.Dim() ==> row[2 + k] == if k < ls.nvar + j then ls.divs[j].coef[k] else 0
  {
    [ls.divs[j].den, ls.divs[j].cst] + ls.divs[j].coef + Zeros(ls.Dim() - ls.nvar - j)
  }

  function LastNonZero(s: Vec): (r: int)
    ensures -1 <= r < |s| && (r >= 0 ==> s[r] != 0) && forall k :: r < k < |s| ==> s[k] == 0
  {
    if s == [] then -1 else if s[|s| - 1] != 0 then |s| - 1 else LastNonZero(s[..|s| - 1])
  }

  function SeqCmp(a: Vec, b: Vec): (r: int)
    requires |a| == |b|
    ensures r == 0 <==> a == b
  {
    if a == [] then 0
    else if a[0] != b[0] then a[0] - b[0]
    else
      assert a == [a[0]] + a[1..] && b == [b[0]] + b[1..];
      SeqCmp(a[1..], b[1..])
  }

  // cmp_row, for divisions that are known
  function CmpRow(ri: Vec, rj: Vec): int
    requires |ri| == |rj|
  {
    var li, lj := LastNonZero(ri), LastNonZero(rj);
    if li != lj then li - lj else SeqCmp(ri, rj)
  }

  function CmpDiv(ls: LocalSpace, i: nat, j: nat): int
    requires ls.Valid() && i < |ls.divs| && j < |ls.divs|
  {
    CmpRow(DivRow(ls, i), DivRow(ls, j))
  }

  /** Sortedness.  Swapping two divisions also swaps two columns of the rows by which
      the others are compared; that does not change how they compare as long as nothing
      refers to the division that moves up. */

  lemma {:induction false} SeqCmpOpposite(a: Vec, b: Vec)
    requires |a| == |b|
    ensures SeqCmp(b, a) == -SeqCmp(a, b)
  {
    if a != [] { SeqCmpOpposite(a[1..], b[1..]); }
  }

  lemma {:induction false} SeqCmpSwap(a: Vec, b: Vec, p: nat)
    requires |a| == |b| && p + 1 < |a| && a[p + 1] == 0 && b[p + 1] == 0
    ensures SeqCmp(SwapVec(a, p), SwapVec(b, p)) == SeqCmp(a, b)
  {
    var a', b' := SwapVec(a, p), SwapVec(b, p);
    if p == 0 {
      assert a'[1..][1..] == a[1..][1..] && b'[1..][1..] == b[1..][1..];
      assert a'[1..][0] == a[0] && b'[1..][0] == b[0] && a[1..][0] == b[1..][0] == 0;
      assert SeqCmp(a'[1..], b'[1..]) == if a[0] != b[0] then a[0] - b[0] else SeqCmp(a[1..][1..], b[1..][1..]);
    } else {
      assert a'[1..] == SwapVec(a[1..], p - 1) && b'[1..] == SwapVec(b[1..], p - 1);
      SeqCmpSwap(a[1..], b[1..], p - 1);
    }
  }

  lemma LastSwap(a: Vec, p: nat)
    requires p + 1 < |a| && a[p + 1] == 0
    ensures LastNonZero(a) != p + 1
    ensures LastNonZero(SwapVec(a, p)) == if LastNonZero(a) == p then p + 1 else LastNonZero(a)
  {
    var l, l' := LastNonZero(a), LastNonZero(SwapVec(a, p));
    var e := if l == p then p + 1 else l;
    assert e >= 0 ==> SwapVec(a, p)[e] != 0;
    forall k | e < k < |a| ensures SwapVec(a, p)[k] == 0 {}
    assert l' <= e <= l';
  }

  lemma CmpRowSwap(a: Vec, b: Vec, a': Vec, b': Vec, p: nat)
    requires |a| == |b| && p + 1 < |a| && a[p + 1] == 0 && b[p + 1] == 0
    requires a' == SwapVec(a, p) && b' == SwapVec(b, p)
    ensures Sign(CmpRow(a', b')) == Sign(CmpRow(a, b))
  {
    LastSwap(a, p);
    LastSwap(b, p);
    SeqCmpSwap(a, b, p);
  }

  // Where division k goes when divisions j and j + 1 change places.
  function Exchange(k: nat, j: nat): nat { if k == j then j + 1 else if k == j + 1 then j else k }

  // The coefficient of column c in division k.
  function CoefOf(ls: LocalSpace, k: nat, c: nat): int
    requires ls.Valid() && k < |ls.divs|
  {
    if c < ls.nvar + k then ls.divs[k].coef[c] else 0
  }

  lemma CoefSwap(ls: LocalSpace, j: nat, k: nat, c: nat)
    requires ls.Valid() && j + 1 < |ls.divs| && k < |ls.divs| && ls.divs[j + 1].coef[ls.nvar + j] == 0
    ensures CoefOf(SwapDivs(ls, j), Exchange(k, j), c) == CoefOf(ls, k, Exchange(c, ls.nvar + j))
  {
    assert SwapDivs(ls, j).divs[Exchange(k, j)] == SwappedDiv(ls, j, Exchange(k, j));
  }

  lemma HeadSwap(ls: LocalSpace, j: nat, k: nat)
    requires ls.Valid() && j + 1 < |ls.divs| && k < |ls.divs|
    ensures var d, d' := ls.divs[k], SwapDivs(ls, j).divs[Exchange(k, j)]; d'.den == d.den && d'.cst == d.cst
  {
  }

  lemma RowAt(ls: LocalSpace, k: nat, c: nat)
    requires ls.Valid() && k < |ls.divs| && c < ls.Dim()
    ensures DivRow(ls, k)[2 + c] == CoefOf(ls, k, c)
  {
  }

  lemma DivRowSwapAt(ls: LocalSpace, j: nat, k: nat, c: nat)
    requires ls.Valid() && j + 1 < |ls.divs| && k < |ls.divs| && ls.divs[j + 1].coef[ls.nvar + j] == 0 &&
             c < 2 + ls.Dim()
    ensures DivRow(SwapDivs(ls, j), Exchange(k, j))[c] == DivRow(ls, k)[Exchange(c, 2 + ls.nvar + j)]
  {
    if c < 2 {
      HeadSwap(ls, j, k);
    } else {
      CoefSwap(ls, j, k, c - 2);
      RowAt(SwapDivs(ls, j), Exchange(k, j), c - 2);
      RowAt(ls, k, Exchange(c - 2, ls.nvar + j));
      assert Exchange(c, 2 + ls.nvar + j) == 2 + Exchange(c - 2, ls.nvar + j);
    }
  }

  // r' is r with the entries at p and p + 1 exchanged.
  ghost predicate ExchangedRow(r: Vec, r': Vec, p: nat) {
    p + 1 < |r| == |r'| && forall c: nat :: c < |r| ==> r'[c] == r[Exchange(c, p)]
  }

  lemma RowExchanged(ls: LocalSpace, j: nat, k: nat)
    requires ls.Valid() && j + 1 < |ls.divs| && k < |ls.divs| && ls.divs[j + 1].coef[ls.nvar + j] == 0
    ensures ExchangedRow(DivRow(ls, k), DivRow(SwapDivs(ls, j), Exchange(k, j)), 2 + ls.nvar + j)
  {
    forall c: nat | c < 2 + ls.Dim()
      ensures DivRow(SwapDivs(ls, j), Exchange(k, j))[c] == DivRow(ls, k)[Exchange(c, 2 + ls.nvar + j)]
    {
      DivRowSwapAt(ls, j, k, c);
    }
  }

  lemma SwapIsExchange(r: Vec, r': Vec, p: nat)
    requires ExchangedRow(r, r', p)
    ensures r' == SwapVec(r, p)
  {
  }

  lemma DivRowSwap(ls: LocalSpace, j: nat, k: nat)
    requires ls.Valid() && j + 1 < |ls.divs| && k < |ls.divs| && ls.divs[j + 1].coef[ls.nvar + j] == 0
    ensures DivRow(SwapDivs(ls, j), Exchange(k, j)) == SwapVec(DivRow(ls, k), 2 + ls.nvar + j)
  {
    RowExchanged(ls, j, k);
    SwapIsExchange(DivRow(ls, k), DivRow(SwapDivs(ls, j), Exchange(k, j)), 2 + ls.nvar + j);
  }

  // Division a is sorted before division b; when they are the same, b does not occur.
  ghost predicate Ordered(ls: LocalSpace, aff: Aff, a: nat, b: nat)
    requires ls.Valid() && ls.Has(aff) && a < |ls.divs| && b < |ls.divs|
  {
    CmpDiv(ls, a, b) < 0 || (CmpDiv(ls, a, b) == 0 && aff.coef[ls.nvar + b] == 0)
  }

  ghost predicate Unreferred(ls: LocalSpace, k: nat, c: nat)
    requires ls.Valid()
  {
    k < |ls.divs| && CoefOf(ls, k, ls.nvar + c) == 0
  }

  lemma RowFree(ls: LocalSpace, k: nat, c: nat, p: nat)
    requires ls.Valid() && c < |ls.divs| && Unreferred(ls, k, c) && p == 2 + ls.nvar + c
    ensures DivRow(ls, k)[p] == 0
  {
    RowAt(ls, k, ls.nvar + c);
  }

  lemma CmpDivSwap(ls: LocalSpace, ls': LocalSpace, j: nat, a: nat, b: nat, a': nat, b': nat)
    requires ls.Valid() && j + 1 < |ls.divs| && ls.divs[j + 1].coef[ls.nvar + j] == 0 && ls' == SwapDivs(ls, j)
    requires Unreferred(ls, a, j + 1) && Unreferred(ls, b, j + 1) && a' == Exchange(a, j) && b' == Exchange(b, j)
    ensures Sign(CmpDiv(ls', a', b')) == Sign(CmpDiv(ls, a, b))
  {
    hide CmpRow, DivRow, SwapDivs;
    var p := 2 + ls.nvar + j;
    DivRowSwap(ls, j, a);
    DivRowSwap(ls, j, b);
    RowFree(ls, a, j + 1, p + 1);
    RowFree(ls, b, j + 1, p + 1);
    CmpRowSwap(DivRow(ls, a), DivRow(ls, b), DivRow(ls', a'), DivRow(ls', b'), p);
  }

  lemma OrderedAs(ls: LocalSpace, aff: Aff, a: nat, b: nat, ls': LocalSpace, aff': Aff, a': nat, b': nat)
    requires ls.Valid() && ls.Has(aff) && a < |ls.divs| && b < |ls.divs| && Ordered(ls, aff, a, b)
    requires ls'.Valid() && ls'.Has(aff') && a' < |ls'.divs| && b' < |ls'.divs|
    requires Sign(CmpDiv(ls', a', b')) == Sign(CmpDiv(ls, a, b)) && aff'.coef[ls'.nvar + b'] == aff.coef[ls.nvar + b]
    ensures Ordered(ls', aff', a', b')
  {
  }

  lemma ExchangedAt(c: Vec, n: nat, j: nat, b: nat)
    requires n + j + 1 < |c| && n + b < |c|
    ensures SwapVec(c, n + j)[n + Exchange(b, j)] == c[n + b]
  {
  }

  lemma OrderedSwap(ls: LocalSpace, aff: Aff, ls': LocalSpace, aff': Aff, j: nat, a: nat, b: nat, a': nat, b': nat)
    requires ls.Valid() && ls.Has(aff) && j + 1 < |ls.divs| && ls.divs[j + 1].coef[ls.nvar + j] == 0
    requires Unreferred(ls, a, j + 1) && Unreferred(ls, b, j + 1) && Ordered(ls, aff, a, b)
    requires ls' == SwapDivs(ls, j) && aff' == aff.(coef := SwapVec(aff.coef, ls.nvar + j))
    requires a' == Exchange(a, j) && b' == Exchange(b, j)
    ensures Ordered(ls', aff', a', b')
  {
    hide CmpDiv;
    CmpDivSwap(ls, ls', j, a, b, a', b');
    ExchangedAt(aff.coef, ls.nvar, j, b);
    OrderedAs(ls, aff, a, b, ls', aff', a', b');
  }

  lemma SwappedBefore(ls: LocalSpace, j: nat)
    requires ls.Valid() && j + 1 < |ls.divs| && CmpDiv(ls, j, j + 1) > 0
    requires ls.divs[j + 1].coef[ls.nvar + j] == 0
    ensures CmpDiv(SwapDivs(ls, j), j, j + 1) < 0
  {
    CmpRowOpposite(DivRow(ls, j), DivRow(ls, j + 1));
    CmpDivSwap(ls, SwapDivs(ls, j), j, j + 1, j, j, j + 1);
  }

  lemma CmpRowOpposite(r: Vec, r': Vec)
    requires |r| == |r'|
    ensures CmpRow(r', r) == -CmpRow(r, r')
  {
    SeqCmpOpposite(r, r');
  }

  /** Insertion, for any order on positions.  `free` are the elements that do not refer to
      the one being inserted, which is at position j + 1. */

  ghost predicate NextBy(order: (nat, nat) -> bool, k: nat) { order(k, k + 1) }

  ghost predicate SortedBy(order: (nat, nat) -> bool, lo: int, hi: int) {
    forall k: nat :: lo <= k < hi ==> NextBy(order, k)
  }

  ghost predicate InsertingBy(order: (nat, nat) -> bool, free: nat -> bool, settled: bool, j: int, i: nat) {
    && -1 <= j < i && SortedBy(order, 0, j) && SortedBy(order, j + 1, i)
    && (0 <= j <= i - 2 ==> order(j, j + 2))
    && ((forall k: nat :: k <= i ==> free(k)) || settled)
  }

  ghost predicate ExchangedBy(order: (nat, nat) -> bool, free: nat -> bool, order': (nat, nat) -> bool, j: nat) {
    forall a: nat, b: nat :: free(a) && free(b) && order(a, b) ==> order'(Exchange(a, j), Exchange(b, j))
  }

  ghost predicate FreedBy(free: nat -> bool, free': nat -> bool, j: nat) {
    forall k: nat :: free(k) ==> free'(Exchange(k, j))
  }

  lemma InsertedSwap(order: (nat, nat) -> bool, free: nat -> bool, order': (nat, nat) -> bool, free': nat -> bool,
                     settled: bool,
                     j: nat, i: nat)
    requires InsertingBy(order, free, false, j, i) && order'(j, j + 1) && ExchangedBy(order, free, order', j)
    requires FreedBy(free, free', j)
    ensures InsertingBy(order', free', settled, j - 1, i)
  {
    forall k: nat | k < j - 1 || j <= k < i ensures NextBy(order', k) {
      if k == j + 1 {
        ExchangedPair(order, free, order', j, j, j + 2, k, k + 1);
      } else if k != j {
        assert NextBy(order, k);
        ExchangedPair(order, free, order', j, k, k + 1, k, k + 1);
      }
    }
    if j >= 1 {
      assert NextBy(order, j - 1);
      ExchangedPair(order, free, order', j, j - 1, j, j - 1, j + 1);
    }
    forall k: nat | k <= i ensures free'(k) { assert free(Exchange(k, j)) && Exchange(Exchange(k, j), j) == k; }
  }

  lemma ExchangedPair(order: (nat, nat) -> bool, free: nat -> bool, order': (nat, nat) -> bool, j: nat, a: nat,
                      b: nat, a': nat, b': nat)
    requires ExchangedBy(order, free, order', j) && free(a) && free(b) && order(a, b) && a' == Exchange(a, j) &&
             b' == Exchange(b, j)
    ensures order'(a', b')
  {
  }

  // The element at j + 1 is the same as that at j, and is ordered after it now.
  ghost predicate MergedBy(order: (nat, nat) -> bool, order': (nat, nat) -> bool, j: nat) {
    && order'(j, j + 1)
    && (forall a: nat, b: nat :: b != j && b != j + 1 && order(a, b) ==> order'(a, b))
    && (j >= 1 && order(j - 1, j) ==> order'(j - 1, j + 1))
  }

  lemma InsertedMerge(order: (nat, nat) -> bool, free: nat -> bool, settled: bool, order': (nat, nat) -> bool,
                      free': nat -> bool, j: nat, i: nat)
    requires InsertingBy(order, free, settled, j, i) && MergedBy(order, order', j)
    ensures InsertingBy(order', free', true, j - 1, i)
  {
    forall k: nat | k < j - 1 || j <= k < i ensures NextBy(order', k) {
      if k != j { assert NextBy(order, k); }
    }
    if j >= 1 { assert NextBy(order, j - 1); }
  }

  lemma InsertedDone(order: (nat, nat) -> bool, free: nat -> bool, settled: bool, j: int, i: nat)
    requires InsertingBy(order, free, settled, j, i) && (j >= 0 ==> order(j, j + 1))
    ensures SortedBy(order, 0, i)
  {
    forall k: nat | k < i ensures NextBy(order, k) {
      if k == j { assert NextBy(order, k); }
    }
  }

  /** Divisions under new numbers. */

  // The coefficient of division q in division k.
  function DivCoef(ls: LocalSpace, k: nat, q: nat): int
    requires ls.Valid() && k < |ls.divs|
  {
    CoefOf(ls, k, ls.nvar + q)
  }

  // Division k of ls is division from[k] of ls0, as far as the divisions of ls go.
  ghost predicate RenamedAt(ls0: LocalSpace, ls: LocalSpace, from: seq<nat>, k: nat)
    requires ls0.Valid() && ls.Valid() && ls.nvar == ls0.nvar && |from| == |ls.divs| && k < |from|
    requires forall q :: 0 <= q < |from| ==> from[q] < |ls0.divs|
  {
    && ls.divs[k].den == ls0.divs[from[k]].den && ls.divs[k].cst == ls0.divs[from[k]].cst
    && (forall c: nat :: c < ls.nvar ==> CoefOf(ls, k, c) == CoefOf(ls0, from[k], c))
    && (forall q: nat :: q < |from| ==> DivCoef(ls, k, q) == DivCoef(ls0, from[k], from[q]))
  }

  ghost predicate Renamed(ls0: LocalSpace, ls: LocalSpace, from: seq<nat>) {
    && ls0.Valid() && ls.Valid() && ls.nvar == ls0.nvar && |from| == |ls.divs|
    && (forall q :: 0 <= q < |from| ==> from[q] < |ls0.divs|)
    && (forall p, q :: 0 <= p < q < |from| ==> from[p] != from[q])
    && forall k: nat :: k < |from| ==> RenamedAt(ls0, ls, from, k)
  }

  // The divisions of ls are some of those of ls0.
  ghost predicate Selects(ls0: LocalSpace, ls: LocalSpace) { exists from :: Renamed(ls0, ls, from) }

  lemma SelectsItself(ls: LocalSpace)
    requires ls.Valid()
    ensures Selects(ls, ls)
  {
    var from := seq(|ls.divs|, k => k);
    forall k: nat | k < |from| ensures RenamedAt(ls, ls, from, k) {}
    assert Renamed(ls, ls, from);
  }

  lemma SelectsChain(ls0: LocalSpace, ls1: LocalSpace, ls2: LocalSpace)
    requires Selects(ls0, ls1) && Selects(ls1, ls2)
    ensures Selects(ls0, ls2)
  {
    var f :| Renamed(ls0, ls1, f);
    var g :| Renamed(ls1, ls2, g);
    var h: seq<nat> := seq(|g|, k requires 0 <= k < |g| => f[g[k]]);
    forall p, q | 0 <= p < q < |h| ensures h[p] != h[q] { assert g[p] != g[q]; }
    forall k: nat | k < |h| ensures RenamedAt(ls0, ls2, h, k) {
      assert RenamedAt(ls0, ls1, f, g[k]) && RenamedAt(ls1, ls2, g, k);
    }
    assert Renamed(ls0, ls2, h);
  }

  lemma SwapSelects(ls: LocalSpace, j: nat)
    requires ls.Valid() && j + 1 < |ls.divs| && ls.divs[j + 1].coef[ls.nvar + j] == 0
    ensures Selects(ls, SwapDivs(ls, j))
  {
    hide SwapDivs;
    var ls' := SwapDivs(ls, j);
    var from: seq<nat> := seq(|ls.divs|, k requires 0 <= k < |ls.divs| => Exchange(k, j));
    forall k: nat | k < |from| ensures RenamedAt(ls, ls', from, k) {
      assert Exchange(Exchange(k, j), j) == k;
      HeadSwap(ls, j, Exchange(k, j));
      forall c: nat | c < ls.nvar ensures CoefOf(ls', k, c) == CoefOf(ls, from[k], c) {
        CoefSwap(ls, j, Exchange(k, j), c);
      }
      forall q: nat | q < |from| ensures DivCoef(ls', k, q) == DivCoef(ls, from[k], from[q]) {
        CoefSwap(ls, j, Exchange(k, j), ls.nvar + q);
        assert Exchange(ls.nvar + q, ls.nvar + j) == ls.nvar + Exchange(q, j);
      }
    }
    assert Renamed(ls, ls', from);
  }

  lemma DropSelects(ls: LocalSpace, a: nat)
    requires ls.Valid() && a < |ls.divs|
    ensures Selects(ls, DropDiv(ls, a))
  {
    var ls' := DropDiv(ls, a);
    var from: seq<nat> := seq(|ls.divs| - 1, k => if k < a then k else k + 1);
    forall k: nat | k < |from| ensures RenamedAt(ls, ls', from, k) {
      forall q: nat | q < |from| ensures DivCoef(ls', k, q) == DivCoef(ls, from[k], from[q]) {
        DroppedDivCoef(ls, a, k, q);
      }
    }
    assert Renamed(ls, ls', from);
  }

  lemma DroppedDivCoef(ls: LocalSpace, a: nat, k: nat, q: nat)
    requires ls.Valid() && a < |ls.divs| && k < |ls.divs| - 1
    ensures DivCoef(DropDiv(ls, a), k, q) == DivCoef(ls, if k < a then k else k + 1, if q < a then q else q + 1)
  {
  }

  /** Divisions by one that nothing refers to. */

  // Nothing refers to a division by one.
  ghost predicate NoIntegral(ls: LocalSpace, aff: Aff) {
    ls.Valid() && ls.Has(aff) && Eliminated(ls, aff, |ls.divs|)
  }

  lemma SwapNoIntegral(ls: LocalSpace, aff: Aff, j: nat)
    requires NoIntegral(ls, aff) && j + 1 < |ls.divs| && ls.divs[j + 1].coef[ls.nvar + j] == 0
    ensures NoIntegral(SwapDivs(ls, j), aff.(coef := SwapVec(aff.coef, ls.nvar + j)))
  {
    hide SwapDivs;
    var ls', aff' := SwapDivs(ls, j), aff.(coef := SwapVec(aff.coef, ls.nvar + j));
    forall p: nat | p < |ls'.divs| && ls'.divs[p].den == 1 ensures !Used(ls', aff', p) {
      var o := Exchange(p, j);
      assert Exchange(o, j) == p;
      HeadSwap(ls, j, o);
      ExchangedAt(aff.coef, ls.nvar, j, o);
      assert !Used(ls, aff, o);
      forall i: nat ensures !RefersTo(ls', i, p) {
        if RefersTo(ls', i, p) { SwapRefers(ls, j, i, p); }
      }
    }
  }

  lemma SwapRefers(ls: LocalSpace, j: nat, i: nat, p: nat)
    requires ls.Valid() && j + 1 < |ls.divs| && ls.divs[j + 1].coef[ls.nvar + j] == 0
    requires RefersTo(SwapDivs(ls, j), i, p)
    ensures RefersTo(ls, Exchange(i, j), Exchange(p, j))
  {
    hide SwapDivs;
    assert Exchange(Exchange(i, j), j) == i && Exchange(ls.nvar + p, ls.nvar + j) == ls.nvar + Exchange(p, j);
    CoefSwap(ls, j, Exchange(i, j), ls.nvar + p);
  }

  lemma MergeNoIntegral(ls: LocalSpace, aff: Aff, a: nat, b: nat)
    requires NoIntegral(ls, aff) && a < |ls.divs| && b < |ls.divs| && a != b && CmpDiv(ls, a, b) == 0
    ensures NoIntegral(ls, aff.(coef := MergedCoef(aff.coef, ls.nvar + a, ls.nvar + b)))
  {
    var aff' := aff.(coef := MergedCoef(aff.coef, ls.nvar + a, ls.nvar + b));
    EqualDens(ls, a, b);
    forall p: nat | p < |ls.divs| && ls.divs[p].den == 1 ensures !Used(ls, aff', p) {
      assert !Used(ls, aff, p);
      assert p == a ==> !Used(ls, aff, b);
    }
  }

  lemma EqualDens(ls: LocalSpace, a: nat, b: nat)
    requires ls.Valid() && a < |ls.divs| && b < |ls.divs| && CmpDiv(ls, a, b) == 0
    ensures ls.divs[a].den == ls.divs[b].den
  {
    assert DivRow(ls, a) == DivRow(ls, b);
    assert DivRow(ls, a)[0] == ls.divs[a].den && DivRow(ls, b)[0] == ls.divs[b].den;
  }

  lemma DropNoIntegral(ls: LocalSpace, aff: Aff, a: nat)
    requires NoIntegral(ls, aff) && a < |ls.divs|
    ensures NoIntegral(DropDiv(ls, a), aff.(coef := Without(aff.coef, ls.nvar + a)))
  {
    var ls', aff' := DropDiv(ls, a), aff.(coef := Without(aff.coef, ls.nvar + a));
    forall p: nat | p < |ls'.divs| && ls'.divs[p].den == 1 ensures !Used(ls', aff', p) {
      var o := if p < a then p else p + 1;
      assert !Used(ls, aff, o);
      DroppedCoef(ls, aff, a, o);
      forall i: nat ensures !RefersTo(ls', i, p) {
        DroppedRefers(ls, a, if i < a then i else i + 1, o);
      }
    }
  }

  // What sorting and dropping keep
  ghost predicate Rearranges(ls0: LocalSpace, aff0: Aff, ls: LocalSpace, aff: Aff) {
    Selects(ls0, ls) && (NoIntegral(ls0, aff0) ==> NoIntegral(ls, aff))
  }

  lemma RearrangesChain(ls0: LocalSpace, aff0: Aff, ls1: LocalSpace, aff1: Aff, ls2: LocalSpace, aff2: Aff)
    requires Rearranges(ls0, aff0, ls1, aff1) && Rearranges(ls1, aff1, ls2, aff2)
    ensures Rearranges(ls0, aff0, ls2, aff2)
  {
    hide Selects, NoIntegral;
    SelectsChain(ls0, ls1, ls2);
  }

  ghost function OrderOf(ls: LocalSpace, aff: Aff): (nat, nat) -> bool
    requires ls.Valid() && ls.Has(aff)
  {
    (a: nat, b: nat) => a < |ls.divs| && b < |ls.divs| && Ordered(ls, aff, a, b)
  }

  ghost function FreeOf(ls: LocalSpace, c: int): nat -> bool
    requires ls.Valid()
  {
    (k: nat) => c >= 0 && Unreferred(ls, k, c)
  }

  // Divisions 0 to i are sorted, and no division that equals its predecessor occurs.
  ghost predicate SortedTo(ls: LocalSpace, aff: Aff, i: int) {
    ls.Valid() && ls.Has(aff) && SortedBy(OrderOf(ls, aff), 0, i)
  }

  // Division j + 1 is on its way to its place among divisions 0 to i, or there already.
  ghost predicate Inserting(ls: LocalSpace, aff: Aff, j: int, i: nat) {
    && ls.Valid() && ls.Has(aff) && -1 <= j < i < |ls.divs|
    && InsertingBy(OrderOf(ls, aff), FreeOf(ls, j + 1), j >= 0 ==> CmpDiv(ls, j, j + 1) <= 0, j, i)
  }

  // How far the insertion of division i into (ls0, aff0) has come.
  datatype Insertion = Underway | Finished | Broken

  ghost function InsertionAt(ls0: LocalSpace, aff0: Aff, ls: LocalSpace, aff: Aff, j: int, i: nat): Insertion {
    if SameNum(ls0, aff0, ls, aff) && Rearranges(ls0, aff0, ls, aff) && |ls.divs| == |ls0.divs| &&
       Inserting(ls, aff, j, i) then Underway else Broken
  }

  ghost function InsertionEnd(ls0: LocalSpace, aff0: Aff, ls: LocalSpace, aff: Aff, i: nat): Insertion {
    if SameNum(ls0, aff0, ls, aff) && Rearranges(ls0, aff0, ls, aff) && |ls.divs| == |ls0.divs| &&
       SortedTo(ls, aff, i) then Finished else Broken
  }

  lemma InsertionMeans(ls0: LocalSpace, aff0: Aff, ls: LocalSpace, aff: Aff, j: int, i: nat)
    requires InsertionAt(ls0, aff0, ls, aff, j, i) == Underway
    ensures SameNum(ls0, aff0, ls, aff) && Rearranges(ls0, aff0, ls, aff) && |ls.divs| == |ls0.divs|
    ensures Inserting(ls, aff, j, i)
  {
  }

  lemma InsertionStep(ls0: LocalSpace, aff0: Aff, ls: LocalSpace, aff: Aff, ls': LocalSpace, aff': Aff, j: int, i: nat)
    requires SameNum(ls0, aff0, ls, aff) && Rearranges(ls0, aff0, ls, aff) && |ls.divs| == |ls0.divs|
    requires SameNum(ls, aff, ls', aff') && Rearranges(ls, aff, ls', aff') && |ls'.divs| == |ls.divs|
    requires Inserting(ls', aff', j, i)
    ensures InsertionAt(ls0, aff0, ls', aff', j, i) == Underway
  {
    hide SameNum, Rearranges, Inserting;
    SameNumChain(ls0, aff0, ls, aff, ls', aff');
    RearrangesChain(ls0, aff0, ls, aff, ls', aff');
  }

  lemma InsertionDone(ls0: LocalSpace, aff0: Aff, ls: LocalSpace, aff: Aff, j: int, i: nat)
    requires InsertionAt(ls0, aff0, ls, aff, j, i) == Underway && (j >= 0 ==> CmpDiv(ls, j, j + 1) < 0)
    ensures InsertionEnd(ls0, aff0, ls, aff, i) == Finished
  {
    InsertedDone(OrderOf(ls, aff), FreeOf(ls, j + 1), j >= 0 ==> CmpDiv(ls, j, j + 1) <= 0, j, i);
  }

  lemma InsertionFinished(ls0: LocalSpace, aff0: Aff, ls: LocalSpace, aff: Aff, i: nat)
    requires InsertionEnd(ls0, aff0, ls, aff, i) == Finished
    ensures SameNum(ls0, aff0, ls, aff) && Rearranges(ls0, aff0, ls, aff) && |ls.divs| == |ls0.divs|
    ensures SortedTo(ls, aff, i)
  {
  }

  lemma InsertionStart(ls: LocalSpace, aff: Aff, i: nat)
    requires SortedTo(ls, aff, i - 1) && 0 < i < |ls.divs|
    ensures InsertionAt(ls, aff, ls, aff, i - 1, i) == Underway
  {
    var free := FreeOf(ls, i);
    forall k: nat | k <= i ensures free(k) {}
    SelectsItself(ls);
  }

  lemma SwapExchanges(ls: LocalSpace, aff: Aff, ls': LocalSpace, aff': Aff, j: nat)
    requires ls.Valid() && ls.Has(aff) && j + 1 < |ls.divs| && ls.divs[j + 1].coef[ls.nvar + j] == 0
    requires ls' == SwapDivs(ls, j) && aff' == aff.(coef := SwapVec(aff.coef, ls.nvar + j))
    ensures ExchangedBy(OrderOf(ls, aff), FreeOf(ls, j + 1), OrderOf(ls', aff'), j)
  {
    var order, free, order' := OrderOf(ls, aff), FreeOf(ls, j + 1), OrderOf(ls', aff');
    forall a: nat, b: nat | free(a) && free(b) && order(a, b) ensures order'(Exchange(a, j), Exchange(b, j)) {
      OrderedSwap(ls, aff, ls', aff', j, a, b, Exchange(a, j), Exchange(b, j));
    }
  }

  lemma SwapFrees(ls: LocalSpace, ls': LocalSpace, j: nat)
    requires ls.Valid() && j + 1 < |ls.divs| && ls.divs[j + 1].coef[ls.nvar + j] == 0 && ls' == SwapDivs(ls, j)
    ensures FreedBy(FreeOf(ls, j + 1), FreeOf(ls', j), j)
  {
    var free, free' := FreeOf(ls, j + 1), FreeOf(ls', j);
    forall k: nat | free(k) ensures free'(Exchange(k, j)) { CoefSwap(ls, j, k, ls.nvar + j); }
  }

  // The step, in terms of what an exchange keeps.
  lemma ExchangedInserting(ls: LocalSpace, aff: Aff, ls': LocalSpace, aff': Aff, j: nat, i: nat)
    requires Inserting(ls, aff, j, i) && CmpDiv(ls, j, j + 1) > 0
    requires ls'.Valid() && ls'.Has(aff') && |ls'.divs| == |ls.divs| && CmpDiv(ls', j, j + 1) < 0
    requires ExchangedBy(OrderOf(ls, aff), FreeOf(ls, j + 1), OrderOf(ls', aff'), j)
    requires FreedBy(FreeOf(ls, j + 1), FreeOf(ls', j), j)
    ensures Inserting(ls', aff', j - 1, i)
  {
    var order' := OrderOf(ls', aff');
    assert order'(j, j + 1);
    InsertedSwap(OrderOf(ls, aff), FreeOf(ls, j + 1), order', FreeOf(ls', j), j - 1 >= 0 ==>
        CmpDiv(ls', j - 1, j) <= 0, j, i);
  }

  lemma InsertingSwap(ls: LocalSpace, aff: Aff, ls': LocalSpace, aff': Aff, j: nat, i: nat)
    requires Inserting(ls, aff, j, i) && CmpDiv(ls, j, j + 1) > 0
    requires ls' == SwapDivs(ls, j) && aff' == aff.(coef := SwapVec(aff.coef, ls.nvar + j))
    ensures Inserting(ls', aff', j - 1, i)
  {
    if ls.divs[j + 1].coef[ls.nvar + j] != 0 { DependentLater(ls, j); }
    SwapExchanges(ls, aff, ls', aff', j);
    SwapFrees(ls, ls', j);
    SwappedBefore(ls, j);
    ExchangedInserting(ls, aff, ls', aff', j, i);
  }

  lemma SameCmp(ls: LocalSpace, a: nat, j: nat)
    requires ls.Valid() && a < |ls.divs| && j + 1 < |ls.divs| && CmpDiv(ls, j, j + 1) == 0
    ensures CmpDiv(ls, a, j + 1) == CmpDiv(ls, a, j)
  {
    assert DivRow(ls, j) == DivRow(ls, j + 1);
  }

  lemma MergedOrder(ls: LocalSpace, aff: Aff, aff': Aff, j: nat, a: nat, b: nat)
    requires ls.Valid() && ls.Has(aff) && ls.Has(aff') && j + 1 < |ls.divs| && b != j && b != j + 1
    requires aff'.coef == MergedCoef(aff.coef, ls.nvar + j, ls.nvar + j + 1)
    ensures OrderOf(ls, aff)(a, b) ==> OrderOf(ls, aff')(a, b)
  {
  }

  lemma MergedNext(ls: LocalSpace, aff: Aff, aff': Aff, j: nat)
    requires ls.Valid() && ls.Has(aff) && ls.Has(aff') && j + 1 < |ls.divs| && CmpDiv(ls, j, j + 1) == 0
    requires aff'.coef == MergedCoef(aff.coef, ls.nvar + j, ls.nvar + j + 1)
    ensures OrderOf(ls, aff')(j, j + 1)
    ensures j >= 1 && OrderOf(ls, aff)(j - 1, j) ==> OrderOf(ls, aff')(j - 1, j + 1)
  {
    if j >= 1 { SameCmp(ls, j - 1, j); }
  }

  lemma MergeOrders(ls: LocalSpace, aff: Aff, aff': Aff, j: nat)
    requires ls.Valid() && ls.Has(aff) && ls.Has(aff') && j + 1 < |ls.divs| && CmpDiv(ls, j, j + 1) == 0
    requires aff'.coef == MergedCoef(aff.coef, ls.nvar + j, ls.nvar + j + 1)
    ensures MergedBy(OrderOf(ls, aff), OrderOf(ls, aff'), j)
  {
    MergedNext(ls, aff, aff', j);
    forall a: nat, b: nat | b != j && b != j + 1 && OrderOf(ls, aff)(a, b) ensures OrderOf(ls, aff')(a, b) {
      MergedOrder(ls, aff, aff', j, a, b);
    }
  }

  // What was inserted before is sorted.
  lemma SettledBelow(ls: LocalSpace, aff: Aff, j: nat, i: nat)
    requires Inserting(ls, aff, j, i) && j >= 1
    ensures CmpDiv(ls, j - 1, j) <= 0
  {
    assert NextBy(OrderOf(ls, aff), j - 1);
  }

  lemma MergedInserting(ls: LocalSpace, aff: Aff, aff': Aff, j: nat, i: nat)
    requires Inserting(ls, aff, j, i) && ls.Has(aff') && MergedBy(OrderOf(ls, aff), OrderOf(ls, aff'), j)
    requires j >= 1 ==> CmpDiv(ls, j - 1, j) <= 0
    ensures Inserting(ls, aff', j - 1, i)
  {
    InsertedMerge(OrderOf(ls, aff), FreeOf(ls, j + 1), j >= 0 ==>
        CmpDiv(ls, j, j + 1) <= 0, OrderOf(ls, aff'), FreeOf(ls, j), j, i);
  }

  lemma InsertingMerge(ls: LocalSpace, aff: Aff, aff': Aff, j: nat, i: nat)
    requires Inserting(ls, aff, j, i) && CmpDiv(ls, j, j + 1) == 0
    requires aff' == aff.(coef := MergedCoef(aff.coef, ls.nvar + j, ls.nvar + j + 1))
    ensures Inserting(ls, aff', j - 1, i)
  {
    MergeOrders(ls, aff, aff', j);
    if j >= 1 { SettledBelow(ls, aff, j, i); }
    MergedInserting(ls, aff, aff', j, i);
  }

  lemma LastInTail(c: Vec, m: nat)
    requires m <= |c|
    ensures var p := m + LastNonZero(c[m..]);
            (p >= m ==> c[p] != 0) && forall k :: p < k < |c| && k >= m ==> c[k] == 0
  {
    forall k | m + LastNonZero(c[m..]) < k < |c| && k >= m ensures c[k] == 0 { assert c[k] == c[m..][k - m]; }
  }

  lemma LaterNonZero(r0: Vec, r1: Vec, p: nat)
    requires p < |r1| && r1[p] != 0 && forall k :: p <= k < |r0| ==> r0[k] == 0
    ensures LastNonZero(r0) < p <= LastNonZero(r1)
  {
  }

  // A division that refers to its predecessor is not sorted before it.
  lemma DependentLater(ls: LocalSpace, j: nat)
    requires ls.Valid() && j + 1 < |ls.divs| && ls.divs[j + 1].coef[ls.nvar + j] != 0
    ensures CmpDiv(ls, j, j + 1) < 0
  {
    var r0, r1, p := DivRow(ls, j), DivRow(ls, j + 1), 2 + ls.nvar + j;
    assert r1[2 + (ls.nvar + j)] == ls.divs[j + 1].coef[ls.nvar + j];
    forall k | p <= k < |r0| ensures r0[k] == 0 { assert r0[2 + (k - 2)] == 0; }
    LaterNonZero(r0, r1, p);
  }

  lemma EqualDivs(ls: LocalSpace, i: nat, j: nat, x: Vec)
    requires ls.Valid() && i < |ls.divs| && j < |ls.divs| && |x| == ls.nvar && CmpDiv(ls, i, j) == 0
    ensures Extend(ls, x)[ls.nvar + i] == Extend(ls, x)[ls.nvar + j]
  {
    var ri, rj := DivRow(ls, i), DivRow(ls, j);
    assert ri == rj && ri[0] == ls.divs[i].den && ri[1] == ls.divs[i].cst;
    var ai, aj := DivArg(ls, i), DivArg(ls, j);
    assert ai.coef == ri[2..] && aj.coef == rj[2..];
    DivValue(ls, x, i);
    DivValue(ls, x, j);
  }

  function MergedCoef(c: Vec, a: nat, b: nat): (r: Vec)
    requires a < |c| && b < |c|
    ensures |r| == |c|
  {
    c[a := c[a] + c[b]][b := 0]
  }

  lemma MergeSame(ls: LocalSpace, aff: Aff, a: nat, b: nat)
    requires ls.Valid() && ls.Has(aff) && a < |ls.divs| && b < |ls.divs| && a != b && CmpDiv(ls, a, b) == 0
    ensures SameNum(ls, aff, ls, aff.(coef := MergedCoef(aff.coef, ls.nvar + a, ls.nvar + b)))
  {
    var i, j := ls.nvar + a, ls.nvar + b;
    var c := aff.coef;
    forall x | |x| == ls.nvar
      ensures Num(aff, Extend(ls, x)) == Num(aff.(coef := MergedCoef(c, i, j)), Extend(ls, x))
    {
      var y := Extend(ls, x);
      EqualDivs(ls, a, b, x);
      DotUpdate(c, y, i, c[i] + c[j]);
      DotUpdate(c[i := c[i] + c[j]], y, j, 0);
      Opposite(c[j], y[j]);
    }
  }

  /** Dropping divisions. */

  lemma {:induction false} DotWithout(c: Vec, y: Vec, i: nat)
    requires i < |c| <= |y| && c[i] == 0
    ensures Dot(Without(c, i), Without(y, i)) == Dot(c, y)
  {
    var n := |c| - 1;
    if i == n {
      assert Without(c, i) == c[..n];
      DotPrefix(c[..n], y, Without(y, i));
    } else {
      assert Without(c, i)[..n - 1] == Without(c[..n], i);
      DotWithout(c[..n], y, i);
    }
  }

  function DropDiv(ls: LocalSpace, a: nat): (ls': LocalSpace)
    requires ls.Valid() && a < |ls.divs|
    ensures ls'.Valid() && ls'.nvar == ls.nvar && |ls'.divs| == |ls.divs| - 1
    ensures forall k :: 0 <= k < |ls'.divs| ==>
              ls'.divs[k] == if k < a then ls.divs[k]
                  else ls.divs[k + 1].(coef := Without(ls.divs[k + 1].coef, ls.nvar + a))
  {
    LocalSpace(ls.nvar, seq(|ls.divs| - 1, k requires 0 <= k < |ls.divs| - 1 =>
      if k < a then ls.divs[k] else ls.divs[k + 1].(coef := Without(ls.divs[k + 1].coef, ls.nvar + a))))
  }

  lemma ExtendStep(ls: LocalSpace, x: Vec, k: nat)
    requires ls.Valid() && |x| == ls.nvar && k < |ls.divs|
    ensures ExtendTo(ls, x, k + 1) == ExtendTo(ls, x, k) + [Floor(ls.divs[k], ExtendTo(ls, x, k))]
  {
  }

  // What remains of the values of the first n divisions without that of division a
  ghost predicate Dropped(ls: LocalSpace, a: nat, x: Vec, n: nat)
    requires ls.Valid() && a < n <= |ls.divs| && |x| == ls.nvar
  {
    ExtendTo(DropDiv(ls, a), x, n - 1) == Without(ExtendTo(ls, x, n), ls.nvar + a)
  }

  lemma ExtendLast(ls: LocalSpace, x: Vec, n: nat)
    requires ls.Valid() && |x| == ls.nvar && 0 < n <= |ls.divs|
    ensures ExtendTo(ls, x, n) == ExtendTo(ls, x, n - 1) + [Floor(ls.divs[n - 1], ExtendTo(ls, x, n - 1))]
  {
  }

  lemma DropNext(ls: LocalSpace, a: nat, x: Vec, n: nat)
    requires ls.Valid() && a + 1 < n <= |ls.divs| && |x| == ls.nvar && ls.divs[n - 1].coef[ls.nvar + a] == 0
    requires Dropped(ls, a, x, n - 1)
    ensures Dropped(ls, a, x, n)
  {
    hide Without, ExtendTo;
    var ls' := DropDiv(ls, a);
    ExtendLast(ls, x, n);
    ExtendLast(ls', x, n - 1);
    DropStep(ls.divs[n - 1], ls'.divs[n - 2], ls.nvar + a, ExtendTo(ls, x, n - 1), ExtendTo(ls', x, n - 2),
             ExtendTo(ls, x, n), ExtendTo(ls', x, n - 1));
  }

  lemma DropLast(ls: LocalSpace, a: nat, x: Vec, n: nat)
    requires ls.Valid() && n == a + 1 <= |ls.divs| && |x| == ls.nvar
    ensures Dropped(ls, a, x, n)
  {
    ExtendBefore(ls, DropDiv(ls, a), x, a);
    ExtendStep(ls, x, a);
    WithoutLast(ExtendTo(ls, x, a), Floor(ls.divs[a], ExtendTo(ls, x, a)));
  }

  lemma WithoutLast(y: Vec, v: int)
    ensures Without(y + [v], |y|) == y
  {
  }

  lemma {:induction false} DropExtend(ls: LocalSpace, a: nat, x: Vec, n: nat)
    requires ls.Valid() && a < n <= |ls.divs| && |x| == ls.nvar
    requires forall k :: a < k < n ==> ls.divs[k].coef[ls.nvar + a] == 0
    ensures Dropped(ls, a, x, n)
  {
    if n == a + 1 {
      DropLast(ls, a, x, n);
    } else {
      DropExtend(ls, a, x, n - 1);
      DropNext(ls, a, x, n);
    }
  }

  // One more value on both sides
  lemma DropStep(d: Aff, d': Aff, i: nat, y: Vec, z: Vec, y': Vec, z': Vec)
    requires i < |d.coef| == |y| && d.den > 0 && d.coef[i] == 0 && d' == d.(coef := Without(d.coef, i))
    requires z == Without(y, i) && y' == y + [Floor(d, y)] && z' == z + [Floor(d', z)]
    ensures z' == Without(y', i)
  {
    DotWithout(d.coef, y, i);
    assert Without(y, i) + [Floor(d, y)] == Without(y + [Floor(d, y)], i);
  }

  lemma DropSame(ls: LocalSpace, aff: Aff, a: nat)
    requires ls.Valid() && ls.Has(aff) && a < |ls.divs| && aff.coef[ls.nvar + a] == 0
    requires forall k :: a < k < |ls.divs| ==> ls.divs[k].coef[ls.nvar + a] == 0
    ensures SameNum(ls, aff, DropDiv(ls, a), aff.(coef := Without(aff.coef, ls.nvar + a)))
  {
    var aff' := aff.(coef := Without(aff.coef, ls.nvar + a));
    forall x | |x| == ls.nvar ensures Num(aff, Extend(ls, x)) == Num(aff', Extend(DropDiv(ls, a), x)) {
      DropSameAt(ls, aff, a, x);
    }
  }

  lemma DropSameAt(ls: LocalSpace, aff: Aff, a: nat, x: Vec)
    requires ls.Valid() && ls.Has(aff) && a < |ls.divs| && aff.coef[ls.nvar + a] == 0 && |x| == ls.nvar
    requires forall k :: a < k < |ls.divs| ==> ls.divs[k].coef[ls.nvar + a] == 0
    ensures Num(aff, Extend(ls, x)) == Num(aff.(coef := Without(aff.coef, ls.nvar + a)), Extend(DropDiv(ls, a), x))
  {
    DropExtend(ls, a, x, |ls.divs|);
    DotWithout(aff.coef, Extend(ls, x), ls.nvar + a);
  }

  lemma CutSame(ls: LocalSpace, aff: Aff, n: nat)
    requires ls.Valid() && ls.Has(aff) && n <= |ls.divs| && forall k :: ls.nvar + n <= k < ls.Dim() ==> aff.coef[k] == 0
    ensures SameNum(ls, aff, LocalSpace(ls.nvar, ls.divs[..n]), aff.(coef := aff.coef[..ls.nvar + n]))
  {
    var ls', c, m := LocalSpace(ls.nvar, ls.divs[..n]), aff.coef, ls.nvar + n;
    forall x | |x| == ls.nvar
      ensures Num(aff, Extend(ls, x)) == Num(aff.(coef := c[..m]), Extend(ls', x))
    {
      var y := Extend(ls, x);
      ExtendBefore(ls, ls', x, n);
      ExtendToPrefix(ls, x, n, |ls.divs|);
      assert c == c[..m] + Zeros(ls.Dim() - m);
      DotPadded(c[..m], ls.Dim() - m, y);
      assert forall i :: 0 <= i < m ==> y[i] == y[..m][i];
      DotPrefix(c[..m], y, Extend(ls', x));
    }
  }

  lemma SameNumItself(ls: LocalSpace, a: Aff)
    requires ls.Valid() && ls.Has(a)
    ensures SameNum(ls, a, ls, a)
  {
  }

  lemma SameNumChain(ls: LocalSpace, a: Aff, ls': LocalSpace, a': Aff, ls'': LocalSpace, a'': Aff)
    requires SameNum(ls, a, ls', a') && SameNum(ls', a', ls'', a'')
    ensures SameNum(ls, a, ls'', a'')
  {
  }

  lemma SameDivsNum(ls: LocalSpace, ls': LocalSpace, a: Aff)
    requires SameDivs(ls, ls') && ls.Has(a)
    ensures SameNum(ls, a, ls', a)
  {
  }

  lemma SameDivsChain(ls: LocalSpace, ls': LocalSpace, ls'': LocalSpace)
    requires SameDivs(ls, ls') && SameDivs(ls', ls'')
    ensures SameDivs(ls, ls'')
  {
  }

  // The coefficient is a rounded quotient, the remainder lies in (-m/2, m/2].
  ghost predicate Rounded(c: int, m: int, q: int, r: int) { c == q * m + r && -m < 2 * r <= m }

  lemma {:induction false} DotRounded(c: Vec, m: int, q: Vec, r: Vec, y: Vec)
    requires |c| == |q| == |r| <= |y| && forall i :: 0 <= i < |c| ==> Rounded(c[i], m, q[i], r[i])
    ensures Dot(c, y) == Dot(q, y) * m + Dot(r, y)
  {
    if c != [] {
      var n := |c| - 1;
      DotRounded(c[..n], m, q[..n], r[..n], y);
      assert Rounded(c[n], m, q[n], r[n]);
      RoundedTerm(c[n], m, q[n], r[n], y[n], Dot(q[..n], y));
    }
  }

  lemma RoundedTerm(c: int, m: int, q: int, r: int, y: int, s: int)
    requires c == q * m + r
    ensures c * y + s * m == (s + q * y) * m + r * y
  {
    assert (q * m + r) * y == q * m * y + r * y;
    assert q * m * y == q * y * m;
  }

  // floor((q m + r . (1, y)) / m) = q . (1, y) + floor(r . (1, y) / m)
  lemma FloorSplit(ls: LocalSpace, a: Aff, q: Aff, r: Aff, x: Vec)
    requires ls.Valid() && ls.Has(a) && |x| == ls.nvar && q.den == 1 && r.den == a.den
    requires |q.coef| == |r.coef| == |a.coef| && Rounded(a.cst, a.den, q.cst, r.cst)
    requires forall i :: 0 <= i < |a.coef| ==> Rounded(a.coef[i], a.den, q.coef[i], r.coef[i])
    ensures var ls' := LocalSpace(ls.nvar, ls.divs + [r]);
            Num(q.(coef := q.coef + [1]), Extend(ls', x)) == Floor(a, Extend(ls, x))
  {
    var ls' := LocalSpace(ls.nvar, ls.divs + [r]);
    var y, y' := Extend(ls, x), Extend(ls', x);
    ExtendBefore(ls, ls', x, |ls.divs|);
    ExtendStep(ls', x, |ls.divs|);
    DotRounded(a.coef, a.den, q.coef, r.coef, y);
    DotOne(q.coef, y, y'[|y|]);
    var n := q.cst + Dot(q.coef, y);
    assert Num(a, y) == Num(r, y) + n * a.den by {
      Distribute(a.den, q.cst, Dot(q.coef, y)); Commuted(n, a.den); Commuted(q.cst, a.den); Commuted(Dot(q.coef, y),
          a.den);
    }
    DivideShift(Num(r, y), a.den, n);
  }

  lemma DotOne(c: Vec, y: Vec, v: int)
    requires |c| == |y|
    ensures Dot(c + [1], y + [v]) == Dot(c, y) + v
  {
    assert (c + [1])[..|c|] == c;
    DotPrefix(c, y, y + [v]);
  }

  lemma ScaledDown(ls: LocalSpace, a: Aff, g: int, x: Vec)
    requires ls.Valid() && ls.Has(a) && |x| == ls.nvar && g > 0 && Divides(g, a.den) && Divides(g, a.cst)
    requires forall i :: 0 <= i < |a.coef| ==> Divides(g, a.coef[i])
    ensures DivExact(a.den, g) > 0
    ensures SameValueAt(ls, a, ls, Aff(DivExact(a.den, g), DivExact(a.cst, g), DownVec(a.coef, g)), x)
  {
    var y, m, c := Extend(ls, x), DivExact(a.den, g), DivExact(a.cst, g);
    PositiveFactor(m, g);
    DotDown(a.coef, g, y);
    var n := c + Dot(DownVec(a.coef, g), y);
    Distribute(g, c, Dot(DownVec(a.coef, g), y));
    Commuted(g, c);
    Reassociate(g, n, m);
  }

  lemma Reassociate(g: int, n: int, m: int)
    ensures (g * n) * m == n * (m * g)
  {
  }

  /** Divisions that are referred to. */

  predicate RefersTo(ls: LocalSpace, i: nat, j: nat)
    requires ls.Valid()
  {
    j < i < |ls.divs| && ls.divs[i].coef[ls.nvar + j] != 0
  }

  ghost predicate Used(ls: LocalSpace, aff: Aff, k: nat)
    requires ls.Valid() && ls.Has(aff) && k < |ls.divs|
  {
    aff.coef[ls.nvar + k] != 0 || exists i :: RefersTo(ls, i, k)
  }

  // Exactly the divisions that occur in the expression or in an active division are
  // active, as far as the references of the divisions from k on are concerned.
  ghost predicate ClosedFrom(ls: LocalSpace, aff: Aff, active: seq<bool>, k: nat)
    requires ls.Valid() && ls.Has(aff)
  {
    && |active| == |ls.divs|
    && forall j :: 0 <= j < |ls.divs| ==> (active[j] <==> aff.coef[ls.nvar + j] != 0 || NeededFrom(ls, active, k, j))
  }

  ghost predicate NeededFrom(ls: LocalSpace, active: seq<bool>, k: nat, j: nat)
    requires ls.Valid()
  {
    exists i: nat :: k <= i < |active| && active[i] && RefersTo(ls, i, j)
  }

  lemma ClosedStep(ls: LocalSpace, aff: Aff, active: seq<bool>, active': seq<bool>, i: nat)
    requires ls.Valid() && ls.Has(aff) && i < |ls.divs| && ClosedFrom(ls, aff, active, i + 1) && |active'| == |active|
    requires forall q :: 0 <= q < |ls.divs| ==> active'[q] == (active[q] || (active[i] && RefersTo(ls, i, q)))
    ensures ClosedFrom(ls, aff, active', i)
  {
    forall j | 0 <= j < |ls.divs|
      ensures active'[j] <==> aff.coef[ls.nvar + j] != 0 || NeededFrom(ls, active', i, j)
    {
      assert active[j] <==> aff.coef[ls.nvar + j] != 0 || NeededFrom(ls, active, i + 1, j);
      if k: nat :| i + 1 <= k < |active| && active[k] && RefersTo(ls, k, j) { assert active'[k]; }
      if k: nat :| i <= k < |active| && active'[k] && RefersTo(ls, k, j) {
        assert active[k];
        assert k > i ==> NeededFrom(ls, active, i + 1, j);
      }
    }
  }

  // Among the divisions from k on only those that are used are left; before, the active
  // ones are used by an active one or by one that is left.
  ghost predicate Pruned(ls: LocalSpace, aff: Aff, active: seq<bool>, k: nat)
    requires ls.Valid() && ls.Has(aff)
  {
    && k <= |ls.divs| && k <= |active|
    && (forall i :: k <= i < |ls.divs| ==> Used(ls, aff, i))
    && (forall j :: 0 <= j < k ==> (active[j] <==> Needed(ls, aff, active, k, j)))
  }

  ghost predicate Needed(ls: LocalSpace, aff: Aff, active: seq<bool>, k: nat, j: nat)
    requires ls.Valid() && ls.Has(aff) && j < |ls.divs| && k <= |active|
  {
    aff.coef[ls.nvar + j] != 0 || exists i: nat :: (i < k ==> active[i]) && RefersTo(ls, i, j)
  }

  lemma PrunedKept(ls: LocalSpace, aff: Aff, active: seq<bool>, k: nat)
    requires ls.Valid() && ls.Has(aff) && Pruned(ls, aff, active, k + 1) && active[k]
    ensures Pruned(ls, aff, active, k)
  {
    assert Needed(ls, aff, active, k + 1, k);
    forall j | 0 <= j < k ensures active[j] <==> Needed(ls, aff, active, k, j) {
      assert active[j] <==> Needed(ls, aff, active, k + 1, j);
    }
  }

  lemma DroppedRefers(ls: LocalSpace, a: nat, i: nat, j: nat)
    requires ls.Valid() && a < |ls.divs| && i != a && j != a
    ensures RefersTo(DropDiv(ls, a), if i < a then i else i - 1, if j < a then j else j - 1) <==> RefersTo(ls, i, j)
  {
  }

  lemma DroppedCoef(ls: LocalSpace, aff: Aff, a: nat, j: nat)
    requires ls.Valid() && ls.Has(aff) && a < |ls.divs| && j < |ls.divs| && j != a
    ensures Without(aff.coef, ls.nvar + a)[ls.nvar + if j < a then j else j - 1] == aff.coef[ls.nvar + j]
  {
  }

  lemma NeededDropped(ls: LocalSpace, aff: Aff, active: seq<bool>, k: nat, j: nat)
    requires ls.Valid() && ls.Has(aff) && j < k < |ls.divs| && k < |active| && !active[k]
    ensures Needed(DropDiv(ls, k), aff.(coef := Without(aff.coef, ls.nvar + k)), active, k, j) <==>
            Needed(ls, aff, active, k + 1, j)
  {
    DroppedCoef(ls, aff, k, j);
    if i: nat :| (i < k + 1 ==> active[i]) && RefersTo(ls, i, j) { DroppedWitness(ls, k, i, j); }
    if i: nat :| (i < k ==> active[i]) && RefersTo(DropDiv(ls, k), i, j) { RestoredWitness(ls, k, i, j); }
  }

  lemma DroppedWitness(ls: LocalSpace, k: nat, i: nat, j: nat)
    requires ls.Valid() && j < k < |ls.divs| && i != k && RefersTo(ls, i, j)
    ensures RefersTo(DropDiv(ls, k), if i < k then i else i - 1, j)
  {
    DroppedRefers(ls, k, i, j);
  }

  lemma RestoredWitness(ls: LocalSpace, k: nat, i: nat, j: nat)
    requires ls.Valid() && j < k < |ls.divs| && RefersTo(DropDiv(ls, k), i, j)
    ensures RefersTo(ls, if i < k then i else i + 1, j)
  {
    DroppedRefers(ls, k, if i < k then i else i + 1, j);
  }

  lemma UsedDropped(ls: LocalSpace, aff: Aff, k: nat, i: nat)
    requires ls.Valid() && ls.Has(aff) && k < i < |ls.divs| && Used(ls, aff, i)
    ensures Used(DropDiv(ls, k), aff.(coef := Without(aff.coef, ls.nvar + k)), i - 1)
  {
    DroppedCoef(ls, aff, k, i);
    if r: nat :| RefersTo(ls, r, i) {
      DroppedRefers(ls, k, r, i);
      assert RefersTo(DropDiv(ls, k), r - 1, i - 1);
    }
  }

  lemma PrunedDropped(ls: LocalSpace, aff: Aff, active: seq<bool>, k: nat)
    requires ls.Valid() && ls.Has(aff) && k < |ls.divs| && Pruned(ls, aff, active, k + 1) && !active[k]
    ensures Pruned(DropDiv(ls, k), aff.(coef := Without(aff.coef, ls.nvar + k)), active, k)
  {
    var ls', aff' := DropDiv(ls, k), aff.(coef := Without(aff.coef, ls.nvar + k));
    forall i | k <= i < |ls'.divs| ensures Used(ls', aff', i) { UsedDropped(ls, aff, k, i + 1); }
    forall j | 0 <= j < k ensures active[j] <==> Needed(ls', aff', active, k, j) {
      assert active[j] <==> Needed(ls, aff, active, k + 1, j);
      NeededDropped(ls, aff, active, k, j);
    }
  }

  // Nothing refers to a division that is not active.
  lemma PrunedUnused(ls: LocalSpace, aff: Aff, active: seq<bool>, k: nat)
    requires ls.Valid() && ls.Has(aff) && k < |ls.divs| && Pruned(ls, aff, active, k + 1) && !active[k]
    ensures aff.coef[ls.nvar + k] == 0 && forall i :: k < i < |ls.divs| ==> ls.divs[i].coef[ls.nvar + k] == 0
  {
    assert !Needed(ls, aff, active, k + 1, k);
    forall i | k < i < |ls.divs| ensures ls.divs[i].coef[ls.nvar + k] == 0 {
      assert !RefersTo(ls, i, k);
    }
  }

  lemma PrunedStart(ls: LocalSpace, aff: Aff, active: seq<bool>)
    requires ls.Valid() && ls.Has(aff) && ClosedFrom(ls, aff, active, 0) && ls.divs != []
    requires aff.coef[ls.nvar + |ls.divs| - 1] != 0
    ensures Pruned(ls, aff, active, |ls.divs| - 1)
  {
    var k := |ls.divs| - 1;
    assert active[k];
    forall j | 0 <= j < k ensures active[j] <==> Needed(ls, aff, active, k, j) {
      if i: nat :| (i < k ==> active[i]) && RefersTo(ls, i, j) { assert active[i]; }
    }
  }

  lemma PlugInSame(ls: LocalSpace, aff: Aff, i: nat)
    requires ls.Valid() && ls.Has(aff) && i < |ls.divs| && ls.divs[i].den == 1
    ensures SameNum(ls, aff, ls, Subst(aff, ls.nvar + i, ls.divs[i]))
  {
    forall x | |x| == ls.nvar
      ensures Num(aff, Extend(ls, x)) == Num(Subst(aff, ls.nvar + i, ls.divs[i]), Extend(ls, x))
    {
      DivInPrefix(ls, x, i, |ls.divs|);
      SubstIntegral(aff, ls.nvar + i, ls.divs[i], Extend(ls, x));
    }
  }

  // What occurs in the result occurred before, and is not what was replaced.
  lemma SubstCoef(p: Aff, pos: nat, subs: Aff, q: nat)
    requires |subs.coef| <= pos < |p.coef| && q < |p.coef|
    ensures Subst(p, pos, subs).coef[q] != 0 ==> q != pos && (p.coef[q] != 0 || (q < |subs.coef| && subs.coef[q] != 0))
  {
  }

  lemma SubstitutedRefers(ls: LocalSpace, j: nat, i: nat, q: nat)
    requires ls.Valid() && j < i < |ls.divs| && SubstitutedDiv(ls, j, i).den > 0
    requires q < i && SubstitutedDiv(ls, j, i).coef[ls.nvar + q] != 0
    ensures q != j && (RefersTo(ls, i, q) || RefersTo(ls, j, q))
  {
    if ls.divs[i].coef[ls.nvar + j] != 0 { SubstCoef(ls.divs[i], ls.nvar + j, ls.divs[j], ls.nvar + q); }
  }

  // Division k is floor((f + floor(g / n)) / m), with division k - 1 as the inner floor.
  ghost predicate UnitPredecessor(ls: LocalSpace, k: nat)
    requires ls.Valid() && 0 < k < |ls.divs|
  {
    ls.divs[k].coef[ls.nvar + k - 1] == 1
  }

  lemma SubstitutedAway(ls: LocalSpace, j: nat, i: nat)
    requires ls.Valid() && j < i < |ls.divs| && SubstitutedDiv(ls, j, i).den > 0
    ensures SubstitutedDiv(ls, j, i).coef[ls.nvar + j] == 0
  {
    if SubstitutedDiv(ls, j, i).coef[ls.nvar + j] != 0 { SubstitutedRefers(ls, j, i, j); }
  }

  // Division i has been plugged into the divisions up to k.
  ghost predicate Plugged(ls: LocalSpace, ls': LocalSpace, i: nat, k: nat) {
    && SameDivs(ls, ls') && i < k <= |ls.divs|
    && (forall l :: 0 <= l < |ls.divs| && (l <= i || k <= l) ==> ls'.divs[l] == ls.divs[l])
    && (forall l: nat, q: nat :: l < k && RefersTo(ls', l, q) ==> q != i && (RefersTo(ls, l, q) || RefersTo(ls, i, q)))
  }

  lemma PlugStep(ls: LocalSpace, ls1: LocalSpace, i: nat, k: nat)
    requires Plugged(ls, ls1, i, k) && k < |ls.divs| && ls.divs[i].den == 1
    ensures Plugged(ls, WithDiv(ls1, k, SubstitutedDiv(ls1, i, k)), i, k + 1)
  {
    var ls2 := WithDiv(ls1, k, SubstitutedDiv(ls1, i, k));
    SubstitutedDivs(ls1, i, k);
    SameDivsChain(ls, ls1, ls2);
    forall l: nat, q: nat | l < k + 1 && RefersTo(ls2, l, q)
      ensures q != i && (RefersTo(ls, l, q) || RefersTo(ls, i, q))
    {
      if l == k {
        SubstitutedRefers(ls1, i, k, q);
        assert RefersTo(ls1, k, q) == RefersTo(ls, k, q) && RefersTo(ls1, i, q) == RefersTo(ls, i, q);
      } else {
        assert RefersTo(ls1, l, q);
      }
    }
  }

  // Nothing refers to those of the first n divisions that are divisions by one.
  ghost predicate Eliminated(ls: LocalSpace, aff: Aff, n: nat)
    requires ls.Valid() && ls.Has(aff) && n <= |ls.divs|
  {
    forall p :: 0 <= p < n && ls.divs[p].den == 1 ==> !Used(ls, aff, p)
  }

  lemma EliminatedStep(ls: LocalSpace, aff: Aff, ls': LocalSpace, i: nat)
    requires ls.Valid() && ls.Has(aff) && i < |ls.divs| && Eliminated(ls, aff, i)
    requires Plugged(ls, ls', i, |ls.divs|) && ls.divs[i].den == 1
    ensures Eliminated(ls', Subst(aff, ls.nvar + i, ls.divs[i]), i + 1)
  {
    var aff' := Subst(aff, ls.nvar + i, ls.divs[i]);
    forall p | 0 <= p < i + 1 && ls'.divs[p].den == 1 ensures !Used(ls', aff', p) {
      assert ls'.divs[p] == ls.divs[p];
      SubstCoef(aff, ls.nvar + i, ls.divs[i], ls.nvar + p);
      assert p < i ==> !Used(ls, aff, p);
      assert p < i ==> !RefersTo(ls, i, p);
    }
  }
}
