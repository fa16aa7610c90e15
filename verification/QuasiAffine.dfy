/** Integer division as C and isl use it. */
module Arith {

  // floor(a / b), for either sign of b
  function FloorDiv(a: int, b: int): (q: int)
    requires b != 0
  {
    if b > 0 then a / b else (-a) / (-b)
  }

  // ceil(a / b)
  function CeilDiv(a: int, b: int): (q: int)
    requires b != 0
  {
    -FloorDiv(-a, b)
  }

  function Abs(a: int): nat { if a < 0 then -a else a }

  function Sign(a: int): int { if a < 0 then -1 else if a == 0 then 0 else 1 }

  // C's `/`: truncation towards zero; 0 when C leaves it undefined
  function TruncDiv(a: int, b: int): int {
    if b == 0 then 0
    else if Sign(a) * Sign(b) < 0 then -(Abs(a) / Abs(b)) else Abs(a) / Abs(b)
  }

  // C's `%`
  function TruncRem(a: int, b: int): int {
    a - b * TruncDiv(a, b)
  }

  lemma QuotientUnique(a: int, d: int, q: int)
    requires d > 0 && q * d <= a < q * d + d
    ensures a / d == q
  {
    var r := a - q * d;
    assert a == (a / d) * d + a % d;
    var t := a / d;
    assert t > q ==> t * d >= (q + 1) * d;
    assert t < q ==> t * d <= (q - 1) * d;
  }

  // The quotient and remainder of a multiple plus a small rest.
  lemma DivModUnique(a: int, d: int, q: int, r: int)
    requires d > 0 && a == q * d + r && 0 <= r < d
    ensures a / d == q && a % d == r
  {
    QuotientUnique(a, d, q);
    assert a == (a / d) * d + a % d;
  }

  lemma DivideShift(a: int, d: int, k: int)
    requires d > 0
    ensures (a + k * d) / d == a / d + k && (a + k * d) % d == a % d
  {
    assert a == (a / d) * d + a % d;
    DivModUnique(a + k * d, d, a / d + k, a % d);
  }

  // floor(a/d) = -floor((-a + d - 1)/d)
  lemma DivideOpposite(a: int, d: int)
    requires d > 0
    ensures (-a + d - 1) / d == -(a / d)
  {
    assert a == (a / d) * d + a % d;
    DivModUnique(-a + d - 1, d, -(a / d), d - 1 - a % d);
  }

  lemma MultipleIsExact(a: int, d: int, q: int)
    requires d > 0 && a == q * d
    ensures a % d == 0 && a / d == q
  {
    DivModUnique(a, d, q, 0);
  }

  lemma ExactQuotient(a: int, d: int)
    requires d > 0 && a % d == 0
    ensures a == (a / d) * d
  {
  }

  lemma TruncNonneg(a: int, b: int)
    requires a >= 0 && b > 0
    ensures TruncDiv(a, b) == a / b && TruncRem(a, b) == a % b
  {
  }

  // A remainder is zero in C exactly when the division is exact.
  lemma TruncRemZero(a: int, b: int)
    requires b > 0
    ensures TruncRem(a, b) == 0 <==> a % b == 0
    ensures a % b == 0 ==> TruncDiv(a, b) == a / b
  {
    if a < 0 {
      var p := -a;
      assert TruncDiv(a, b) == -(p / b);
      assert p == (p / b) * b + p % b;
      assert TruncRem(a, b) == -(p % b);
      if p % b == 0 {
        MultipleIsExact(a, b, -(p / b));
      }
      if a % b == 0 {
        ExactQuotient(a, b);
        MultipleIsExact(p, b, -(a / b));
      }
    } else {
      TruncNonneg(a, b);
    }
  }

  // Adding multiples of d term by term keeps the residue.
  lemma CongruentSum(a: int, a': int, b: int, b': int, d: int)
    requires d > 0 && (a - a') % d == 0 && (b - b') % d == 0
    ensures (a + b - (a' + b')) % d == 0
  {
    ExactQuotient(a - a', d);
    ExactQuotient(b - b', d);
    var q := (a - a') / d + (b - b') / d;
    assert a + b - (a' + b') == q * d;
    MultipleIsExact(a + b - (a' + b'), d, q);
  }

  lemma CongruentProduct(a: int, a': int, y: int, d: int)
    requires d > 0 && (a - a') % d == 0
    ensures (a * y - a' * y) % d == 0
  {
    ExactQuotient(a - a', d);
    assert a * y - a' * y == ((a - a') / d * y) * d;
    MultipleIsExact(a * y - a' * y, d, (a - a') / d * y);
  }

  lemma CongruentMod(a: int, a': int, d: int)
    requires d > 0 && (a - a') % d == 0
    ensures a % d == a' % d
  {
    ExactQuotient(a - a', d);
    DivideShift(a', d, (a - a') / d);
  }
}

/** Quasi-affine expressions: affine expressions over variables and over integer
    divisions (floors) that may refer to earlier integer divisions.
  */
module QuasiAffine {
  import opened Arith

  type Vec = seq<int>

  // (cst + coef . y) / den
  datatype Aff = Aff(den: int, cst: int, coef: Vec)

  // Variables, and integer divisions floor(divs[j]) over the variables and divs[..j].
  datatype LocalSpace = LocalSpace(nvar: nat, divs: seq<Aff>) {
    function Dim(): nat { nvar + |divs| }

    ghost predicate Valid() {
      forall j :: 0 <= j < |divs| ==> divs[j].den > 0 && |divs[j].coef| == nvar + j
    }

    ghost predicate Has(a: Aff) {
      a.den > 0 && |a.coef| == Dim()
    }
  }

  function Dot(c: Vec, y: Vec): int
    requires |c| <= |y|
  {
    if c == [] then 0 else Dot(c[..|c| - 1], y) + c[|c| - 1] * y[|c| - 1]
  }

  // The value of the numerator.
  function Num(a: Aff, y: Vec): int
    requires |a.coef| <= |y|
  {
    a.cst + Dot(a.coef, y)
  }

  // The values of the variables followed by those of the first n integer divisions.
  function ExtendTo(ls: LocalSpace, x: Vec, n: nat): (y: Vec)
    requires ls.Valid() && |x| == ls.nvar && n <= |ls.divs|
    ensures |y| == ls.nvar + n && y[..ls.nvar] == x
  {
    if n == 0 then x
    else
      var y := ExtendTo(ls, x, n - 1);
      y + [Num(ls.divs[n - 1], y) / ls.divs[n - 1].den]
  }

  function Extend(ls: LocalSpace, x: Vec): (y: Vec)
    requires ls.Valid() && |x| == ls.nvar
    ensures |y| == ls.Dim() && y[..ls.nvar] == x
  {
    ExtendTo(ls, x, |ls.divs|)
  }

  function Zeros(n: nat): (z: Vec)
    ensures |z| == n && forall i :: 0 <= i < n ==> z[i] == 0
  {
    seq(n, i => 0)
  }

  function ScaleVec(f: int, c: Vec): (r: Vec)
    ensures |r| == |c| && forall i :: 0 <= i < |c| ==> r[i] == f * c[i]
  {
    seq(|c|, i requires 0 <= i < |c| => f * c[i])
  }

  function AddVec(a: Vec, b: Vec): (r: Vec)
    requires |a| == |b|
    ensures |r| == |a| && forall i :: 0 <= i < |a| ==> r[i] == a[i] + b[i]
  {
    seq(|a|, i requires 0 <= i < |a| => a[i] + b[i])
  }

  function Without<T>(s: seq<T>, t: nat): (s': seq<T>)
    requires t < |s|
    ensures |s'| == |s| - 1 && forall r :: 0 <= r < |s'| ==> s'[r] == if r < t then s[r] else s[r + 1]
  {
    s[..t] + s[t + 1..]
  }

  function Combine(m1: int, r1: Vec, m2: int, r2: Vec): (r: Vec)
    requires |r1| == |r2|
    ensures |r| == |r1| && forall c :: 0 <= c < |r| ==> r[c] == m1 * r1[c] + m2 * r2[c]
  {
    seq(|r1|, c requires 0 <= c < |r1| => m1 * r1[c] + m2 * r2[c])
  }

  // The argument of an integer division, over the whole local space, without its denominator.
  function DivArg(ls: LocalSpace, j: nat): (a: Aff)
    requires ls.Valid() && j < |ls.divs|
    ensures ls.Has(a) && a.den == 1
    ensures forall k :: ls.nvar + j <= k < ls.Dim() ==> a.coef[k] == 0
  {
    Aff(1, ls.divs[j].cst, ls.divs[j].coef + Zeros(ls.Dim() - ls.nvar - j))
  }

  // Only integer divisions before `level` occur in `a`.
  ghost predicate Below(ls: LocalSpace, a: Aff, level: nat)
    requires ls.Has(a)
  {
    forall k :: ls.nvar + level <= k < ls.Dim() ==> a.coef[k] == 0
  }

  lemma {:induction false} DotPrefix(c: Vec, y: Vec, y': Vec)
    requires |c| <= |y| && |c| <= |y'| && forall i :: 0 <= i < |c| ==> y[i] == y'[i]
    ensures Dot(c, y) == Dot(c, y')
  {
    if c != [] { DotPrefix(c[..|c| - 1], y, y'); }
  }

  lemma {:induction false} DotZeros(c: Vec, y: Vec)
    requires |c| <= |y| && forall i :: 0 <= i < |c| ==> c[i] == 0
    ensures Dot(c, y) == 0
  {
    if c != [] { DotZeros(c[..|c| - 1], y); }
  }

  lemma {:induction false} DotPadded(c: Vec, n: nat, y: Vec)
    requires |c| + n <= |y|
    ensures Dot(c + Zeros(n), y) == Dot(c, y)
  {
    if n == 0 {
      assert c + Zeros(0) == c;
    } else {
      var p := c + Zeros(n);
      assert p[..|p| - 1] == c + Zeros(n - 1);
      DotPadded(c, n - 1, y);
    }
  }

  lemma {:induction false} DotScale(f: int, c: Vec, y: Vec)
    requires |c| <= |y|
    ensures Dot(ScaleVec(f, c), y) == f * Dot(c, y)
  {
    if c != [] {
      var n := |c| - 1;
      assert ScaleVec(f, c)[..n] == ScaleVec(f, c[..n]);
      DotScale(f, c[..n], y);
      assert f * (Dot(c[..n], y) + c[n] * y[n]) == f * Dot(c[..n], y) + (f * c[n]) * y[n];
    }
  }

  lemma {:induction false} DotAdd(a: Vec, b: Vec, y: Vec)
    requires |a| == |b| <= |y|
    ensures Dot(AddVec(a, b), y) == Dot(a, y) + Dot(b, y)
  {
    if a != [] {
      var n := |a| - 1;
      assert AddVec(a, b)[..n] == AddVec(a[..n], b[..n]);
      DotAdd(a[..n], b[..n], y);
      assert (a[n] + b[n]) * y[n] == a[n] * y[n] + b[n] * y[n];
    }
  }

  lemma {:induction false} DotUpdate(c: Vec, y: Vec, i: nat, v: int)
    requires i < |c| <= |y|
    ensures Dot(c[i := v], y) == Dot(c, y) + (v - c[i]) * y[i]
  {
    var n := |c| - 1;
    if i == n {
      assert c[i := v][..n] == c[..n];
      assert v * y[i] == c[i] * y[i] + (v - c[i]) * y[i];
    } else {
      assert c[i := v][..n] == c[..n][i := v];
      DotUpdate(c[..n], y, i, v);
    }
  }

  // Coefficients that agree modulo d give values that agree modulo d.
  lemma {:induction false} DotCongruent(a: Vec, b: Vec, y: Vec, d: int)
    requires d > 0 && |a| == |b| <= |y|
    requires forall i :: 0 <= i < |a| ==> (a[i] - b[i]) % d == 0
    ensures (Dot(a, y) - Dot(b, y)) % d == 0
  {
    if a != [] {
      var n := |a| - 1;
      DotCongruent(a[..n], b[..n], y, d);
      CongruentProduct(a[n], b[n], y[n], d);
      CongruentSum(Dot(a[..n], y), Dot(b[..n], y), a[n] * y[n], b[n] * y[n], d);
    }
  }

  function SwapVec(c: Vec, i: nat): (r: Vec)
    requires i + 1 < |c|
    ensures |r| == |c| && r[i] == c[i + 1] && r[i + 1] == c[i]
    ensures forall k :: 0 <= k < |c| && k != i && k != i + 1 ==> r[k] == c[k]
  {
    c[i := c[i + 1]][i + 1 := c[i]]
  }

  lemma {:induction false} DotSwap(c: Vec, y: Vec, i: nat)
    requires i + 1 < |c| <= |y|
    ensures Dot(SwapVec(c, i), SwapVec(y, i)) == Dot(c, y)
  {
    var n := |c| - 1;
    var c', y' := SwapVec(c, i), SwapVec(y, i);
    if i + 1 < n {
      assert c'[..n] == SwapVec(c[..n], i);
      DotSwap(c[..n], y, i);
    } else {
      assert c'[..n][..i] == c[..n][..i] == c[..i];
      DotPrefix(c[..i], y, y');
    }
  }

  lemma {:induction false} ExtendToPrefix(ls: LocalSpace, x: Vec, m: nat, n: nat)
    requires ls.Valid() && |x| == ls.nvar && m <= n <= |ls.divs|
    ensures ExtendTo(ls, x, n)[..ls.nvar + m] == ExtendTo(ls, x, m)
  {
    if m < n { ExtendToPrefix(ls, x, m, n - 1); }
  }

  // The value of an integer division is the floor of its argument.
  lemma DivValue(ls: LocalSpace, x: Vec, j: nat)
    requires ls.Valid() && |x| == ls.nvar && j < |ls.divs|
    ensures Extend(ls, x)[ls.nvar + j] == Num(DivArg(ls, j), Extend(ls, x)) / ls.divs[j].den
  {
    var y := Extend(ls, x);
    ExtendToPrefix(ls, x, j + 1, |ls.divs|);
    ExtendToPrefix(ls, x, j, |ls.divs|);
    assert y[ls.nvar + j] == y[..ls.nvar + j + 1][ls.nvar + j];
    DotPadded(ls.divs[j].coef, ls.Dim() - ls.nvar - j, y);
    var p := ExtendTo(ls, x, j);
    assert forall i :: 0 <= i < |p| ==> p[i] == y[..ls.nvar + j][i];
    DotPrefix(ls.divs[j].coef, y, p);
  }
}
