/** The affine hull of two affine spaces: Karr's join of two echelon systems, in place. */
module AffineHull {
  import opened Gcd
  import opened QuasiAffine
  import opened RowSpan

  // Row `row` is the first that has not been compared yet, columns from `col` on have
  // been: there the rows before agree, and the others are zero.
  ghost predicate Common(a: Matrix, p: seq<int>, b: Matrix, q: seq<int>, n: nat, row: nat, col: int) {
    && Echelon(a, p, n) && Echelon(b, q, n) && row <= |a| && row <= |b| && 0 <= col <= n
    && (forall r :: 0 <= r < row ==> p[r] == q[r] && p[r] >= col && SameFrom(a[r], b[r], col))
    && (forall r :: row <= r < |a| ==> p[r] < col)
    && (forall r :: row <= r < |b| ==> q[r] < col)
  }

  ghost predicate SameFrom(x: Row, y: Row, col: int) {
    |x| == |y| && forall c :: 0 <= col <= c < |x| ==> x[c] == y[c]
  }

  ghost predicate InBoth(v: seq<real>, a: Matrix, b: Matrix) { InSpan(v, a) && InSpan(v, b) }

  function Column(a: Matrix, c: int, k: nat): (x: seq<int>)
    requires k <= |a|
    ensures |x| == k && forall r :: 0 <= r < k ==> x[r] == Entry(a[r], c)
  {
    seq(k, r requires 0 <= r < k => Entry(a[r], c))
  }

  function Minus(x: seq<int>, y: seq<int>): (d: seq<int>)
    requires |x| == |y|
    ensures |d| == |x| && forall r :: 0 <= r < |x| ==> d[r] == x[r] - y[r]
  {
    seq(|x|, r requires 0 <= r < |x| => x[r] - y[r])
  }

  lemma {:induction false} CombWeighted(l: seq<real>, a: Matrix, c: int, k: nat)
    requires k <= |a| && |l| == |a|
    ensures Comb(l[..k], a[..k], c) == Weighted(l, Column(a, c, k))
  {
    if k > 0 {
      CombWeighted(l, a, c, k - 1);
      assert l[..k][..k - 1] == l[..k - 1] && a[..k][..k - 1] == a[..k - 1];
      assert Column(a, c, k)[..k - 1] == Column(a, c, k - 1);
    }
  }

  lemma CoefMinus(w: real, x: int, y: int)
    ensures Coef(w, x - y) == Coef(w, x) - Coef(w, y)
  {
    CoefSplit(w, x as real, y as real);
  }

  lemma CoefSplit(w: real, x: real, y: real)
    ensures w * (x - y) == w * x - w * y
  {
  }

  lemma {:induction false} WeightedMinus(l: seq<real>, x: seq<int>, y: seq<int>)
    requires |x| == |y| <= |l|
    ensures Weighted(l, Minus(x, y)) == Weighted(l, x) - Weighted(l, y)
  {
    if x != [] {
      var k := |x| - 1;
      WeightedMinus(l, x[..k], y[..k]);
      assert Minus(x, y)[..k] == Minus(x[..k], y[..k]);
      CoefMinus(l[k], x[k], y[k]);
    }
  }

  // m times the entry e cancels s times the entry d.
  ghost predicate Balances(m: int, s: int, e: int, d: int) { m * e == s * d }

  // The weight that an absorbed row gets, times its entry.
  lemma {:induction false} WeightedQuotient(l: seq<real>, m: seq<int>, s: seq<int>, e: seq<int>, d: int)
    requires |m| == |s| == |e| <= |l|
    requires NonZero(m) && forall r :: 0 <= r < |m| ==> Balances(m[r], s[r], e[r], d)
    ensures Coef(Weighted(Over(l, m), s), d) == Weighted(l, e)
  {
    if m != [] {
      var k := |m| - 1;
      WeightedQuotient(l, m[..k], s[..k], e[..k], d);
      assert Over(l, m)[..k] == Over(l, m[..k]) by {
        forall r | 0 <= r < k ensures Over(l, m)[..k][r] == Over(l, m[..k])[r] { assert m[..k][r] == m[r]; }
      }
      WeightedPrefix(Over(l, m), Over(l, m[..k]), s[..k]);
      QuotientTerm(Weighted(Over(l, m), s[..k]), l[k], m[k], s[k], e[k], d);
    }
  }

  lemma QuotientTerm(w: real, l: real, m: int, s: int, e: int, d: int)
    requires m != 0 && Balances(m, s, e, d)
    ensures Coef(w + Coef(l / m as real, s), d) == Coef(w, d) + Coef(l, e)
  {
    RealTimes(m, e);
    RealTimes(s, d);
    var m', s', d', e' := m as real, s as real, d as real, e as real;
    QuotientReal(l, m', s', e', d');
    RealSum(w, l / m' * s', d');
  }

  lemma RealSum(w: real, x: real, d: real)
    ensures (w + x) * d == w * d + x * d
  {
  }

  lemma QuotientReal(l: real, m: real, s: real, e: real, d: real)
    requires m != 0.0 && m * e == s * d
    ensures l / m * s * d == l * e
  {
    var f := l / m;
    RealCancel(l, m);
    assert f * s * d == f * (s * d) == f * (m * e) == (f * m) * e;
  }

  /** A vector in both spans has the same weights on the common rows. */

  lemma CoefCancel(x: real, y: real, d: int)
    requires d != 0 && Coef(x, d) == Coef(y, d)
    ensures x == y
  {
    RealDivide(x, d as real);
    RealDivide(y, d as real);
  }

  lemma RealDivide(x: real, d: real)
    requires d != 0.0
    ensures x * d / d == x
  {
  }

  lemma CommonWeights(a: Matrix, p: seq<int>, b: Matrix, q: seq<int>, n: nat, row: nat, col: int,
                      l: seq<real>, k: seq<real>, v: seq<real>, r: nat)
    requires Common(a, p, b, q, n, row, col) && Combines(l, a, v) && Combines(k, b, v) && |v| == n && r < row
    ensures l[r] == k[r]
  {
    assert PivotAt(a[r], p[r], n);
    CombSingle(l, a, r, p[r]);
    CombSingle(k, b, r, p[r]);
    assert Comb(l, a, p[r]) == v[p[r]] == Comb(k, b, p[r]);
    assert Entry(a[r], p[r]) == Entry(b[r], p[r]);
    CoefCancel(l[r], k[r], a[r][p[r]]);
  }

  lemma SameWeights(a: Matrix, p: seq<int>, b: Matrix, q: seq<int>, n: nat, row: nat, col: int,
                    l: seq<real>, k: seq<real>, v: seq<real>)
    requires Common(a, p, b, q, n, row, col) && Combines(l, a, v) && Combines(k, b, v) && |v| == n
    ensures forall r :: 0 <= r < row ==> l[r] == k[r]
  {
    forall r | 0 <= r < row ensures l[r] == k[r] { CommonWeights(a, p, b, q, n, row, col, l, k, v, r); }
  }

  // The rows from `row` on do not matter in column col.
  lemma ColumnWeighted(a: Matrix, p: seq<int>, n: nat, row: nat, col: nat, l: seq<real>, v: seq<real>)
    requires Echelon(a, p, n) && row <= |a| && col < n && (forall r :: row <= r < |a| ==> p[r] < col)
    requires Combines(l, a, v) && |v| == n
    ensures v[col] == Weighted(l, Column(a, col, row))
  {
    forall r | row <= r < |a| ensures Entry(a[r], col) == 0 {
      assert PivotAt(a[r], p[r], n);
    }
    CombPrefix(l, a, row, col);
    CombWeighted(l, a, col, row);
    assert Comb(l, a, col) == v[col];
  }

  lemma PivotWeight(a: Matrix, p: seq<int>, n: nat, r: nat, l: seq<real>, v: seq<real>)
    requires Echelon(a, p, n) && r < |a| && Combines(l, a, v) && |v| == n
    ensures 0 <= p[r] < n && Entry(a[r], p[r]) != 0 && v[p[r]] == Coef(l[r], Entry(a[r], p[r]))
  {
    assert PivotAt(a[r], p[r], n);
    CombSingle(l, a, r, p[r]);
    assert Comb(l, a, p[r]) == v[p[r]];
  }

  /** construct_column: a row of one system with a pivot that the other does not have. */

  lemma ConstructWeight(a: Matrix, p: seq<int>, b: Matrix, q: seq<int>, n: nat, row: nat, col: nat,
                        m: seq<int>, s: seq<int>, l: seq<real>, k: seq<real>, v: seq<real>)
    requires Common(a, p, b, q, n, row, col + 1) && row < |a| && p[row] == col
    requires forall r :: row <= r < |b| ==> q[r] < col
    requires |m| == |s| == row
    requires NonZero(m) && forall r :: 0 <= r < row ==> Balances(m[r], s[r], Entry(b[r], col), a[row][col])
    requires Combines(l, a, v) && Combines(k, b, v) && |v| == n
    ensures Weighted(Over(l, m), s) == l[row]
  {
    PivotWeight(a, p, n, row, l, v);
    ColumnWeighted(b, q, n, row, col, k, v);
    SameWeights(a, p, b, q, n, row, col + 1, l, k, v);
    WeightedPrefix(l, k, Column(b, col, row));
    WeightedQuotient(l, m, s, Column(b, col, row), a[row][col]);
    CoefCancel(Weighted(Over(l, m), s), l[row], a[row][col]);
  }

  lemma ConstructSpan(a: Matrix, p: seq<int>, b: Matrix, q: seq<int>, n: nat, row: nat, col: nat,
                      m: seq<int>, s: seq<int>, v: seq<real>)
    requires Common(a, p, b, q, n, row, col + 1) && row < |a| && p[row] == col
    requires forall r :: row <= r < |b| ==> q[r] < col
    requires |m| == |s| == row && (forall r :: 0 <= r < |a| ==> |a[r]| == |a[row]|)
    requires NonZero(m) && forall r :: 0 <= r < row ==> Balances(m[r], s[r], Entry(b[r], col), a[row][col])
    requires |v| == n
    ensures InBoth(v, Absorb(a, row, m, s), ScaleRows(b, m)) <==> InBoth(v, a, b)
  {
    ScaleSpan(b, m, v);
    if InSpan(v, Absorb(a, row, m, s)) { AbsorbShrinks(a, row, m, s, v); }
    if InBoth(v, a, b) {
      var l :| Combines(l, a, v);
      var k :| Combines(k, b, v);
      ConstructWeight(a, p, b, q, n, row, col, m, s, l, k, v);
      AbsorbKeeps(a, row, m, s, l, v);
    }
  }

  lemma ConstructCommon(a: Matrix, p: seq<int>, b: Matrix, q: seq<int>, n: nat, row: nat, col: nat, m: seq<int>,
                        s: seq<int>)
    requires Common(a, p, b, q, n, row, col + 1) && row < |a| && p[row] == col
    requires forall r :: row <= r < |b| ==> q[r] < col
    requires |m| == |s| == row && (forall r :: 0 <= r < |a| ==> |a[r]| == |a[row]|)
    requires NonZero(m) && forall r :: 0 <= r < row ==> Balances(m[r], s[r], Entry(b[r], col), a[row][col])
    ensures Common(Absorb(a, row, m, s), Without(p, row), ScaleRows(b, m), q, n, row, col)
  {
    AbsorbEchelon(a, p, n, row, m, s);
    ScaleEchelon(b, q, n, m);
    forall r | 0 <= r < row ensures SameFrom(Absorb(a, row, m, s)[r], ScaleRows(b, m)[r], col) {
      assert PivotAt(a[row], p[row], n) && SameFrom(a[r], b[r], col + 1) && Entry(a[r], p[row]) == 0;
    }
  }

  /** transform_column: neither system has a pivot in the column. */

  lemma TransformWeight(a: Matrix, p: seq<int>, b: Matrix, q: seq<int>, n: nat, row: nat, col: nat, t: nat,
                        m: seq<int>, s: seq<int>, l: seq<real>, k: seq<real>, v: seq<real>)
    requires Common(a, p, b, q, n, row, col + 1) && t < row && col < n
    requires (forall r :: row <= r < |a| ==> p[r] < col) && (forall r :: row <= r < |b| ==> q[r] < col)
    requires Entry(a[t], col) != Entry(b[t], col)
    requires forall r :: t < r < row ==> Entry(a[r], col) == Entry(b[r], col)
    requires |m| == |s| == t
    requires NonZero(m) && forall r :: 0 <= r < t ==>
               Balances(m[r], s[r], Entry(b[r], col) - Entry(a[r], col), Entry(a[t], col) - Entry(b[t], col))
    requires Combines(l, a, v) && Combines(k, b, v) && |v| == n
    ensures Weighted(Over(l, m), s) == l[t]
  {
    ColumnWeighted(a, p, n, row, col, l, v);
    ColumnWeighted(b, q, n, row, col, k, v);
    SameWeights(a, p, b, q, n, row, col + 1, l, k, v);
    var x, y := Column(a, col, row), Column(b, col, row);
    WeightedPrefix(l, k, y);
    QuotientOfDifferences(l, a, b, col, t, m, s, Entry(a[t], col) - Entry(b[t], col));
    TransformBalance(l, a, b, row, col, t, Weighted(Over(l, m), s));
  }

  lemma TransformBalance(l: seq<real>, a: Matrix, b: Matrix, row: nat, col: nat, t: nat, w: real)
    requires t < row <= |a| && row <= |b| && row <= |l|
    requires Weighted(l, Column(a, col, row)) == Weighted(l, Column(b, col, row))
    requires Entry(a[t], col) != Entry(b[t], col)
    requires forall r :: t < r < row ==> Entry(a[r], col) == Entry(b[r], col)
    requires Coef(w, Entry(a[t], col) - Entry(b[t], col)) ==
             Weighted(l, Column(b, col, t)) - Weighted(l, Column(a, col, t))
    ensures w == l[t]
  {
    var x, y := Column(a, col, row), Column(b, col, row);
    WeightedUpTo(l, x, y, t);
    assert x[..t] == Column(a, col, t) && y[..t] == Column(b, col, t);
    SolveWeight(w, l[t], x[t], y[t], Weighted(l, x[..t]), Weighted(l, y[..t]));
  }

  lemma SolveWeight(w: real, l: real, x: int, y: int, sx: real, sy: real)
    requires x != y && sx + Coef(l, x) == sy + Coef(l, y) && Coef(w, x - y) == sy - sx
    ensures w == l
  {
    CoefMinus(l, x, y);
    CoefCancel(w, l, x - y);
  }

  lemma QuotientOfDifferences(l: seq<real>, a: Matrix, b: Matrix, col: nat, t: nat, m: seq<int>, s: seq<int>, d: int)
    requires t <= |a| && t <= |b| && t <= |l| && |m| == |s| == t
    requires NonZero(m) && forall r :: 0 <= r < t ==> Balances(m[r], s[r], Entry(b[r], col) - Entry(a[r], col), d)
    ensures Coef(Weighted(Over(l, m), s), d) == Weighted(l, Column(b, col, t)) - Weighted(l, Column(a, col, t))
  {
    var e := Minus(Column(b, col, t), Column(a, col, t));
    forall r | 0 <= r < t ensures Balances(m[r], s[r], e[r], d) {
      assert e[r] == Entry(b[r], col) - Entry(a[r], col);
    }
    WeightedQuotient(l, m, s, e, d);
    WeightedMinus(l, Column(b, col, t), Column(a, col, t));
  }

  // Columns that agree after position t.
  lemma {:induction false} WeightedUpTo(l: seq<real>, x: seq<int>, y: seq<int>, t: nat)
    requires |x| == |y| <= |l| && t < |x| && forall r :: t < r < |x| ==> x[r] == y[r]
    ensures Weighted(l, x) - Weighted(l, y) ==
            Weighted(l, x[..t]) + Coef(l[t], x[t]) - Weighted(l, y[..t]) - Coef(l[t], y[t])
  {
    var k := |x| - 1;
    if t < k {
      WeightedUpTo(l, x[..k], y[..k], t);
      assert x[..k][..t] == x[..t] && y[..k][..t] == y[..t];
    }
  }

  lemma TransformSpan(a: Matrix, p: seq<int>, b: Matrix, q: seq<int>, n: nat, row: nat, col: nat, t: nat,
                      m: seq<int>, s: seq<int>, v: seq<real>)
    requires Common(a, p, b, q, n, row, col + 1) && t < row && col < n
    requires (forall r :: row <= r < |a| ==> p[r] < col) && (forall r :: row <= r < |b| ==> q[r] < col)
    requires Entry(a[t], col) != Entry(b[t], col)
    requires forall r :: t < r < row ==> Entry(a[r], col) == Entry(b[r], col)
    requires |m| == |s| == t
    requires (forall r :: 0 <= r < |a| ==> |a[r]| == |a[t]|) && (forall r :: 0 <= r < |b| ==> |b[r]| == |b[t]|)
    requires NonZero(m) && forall r :: 0 <= r < t ==>
               Balances(m[r], s[r], Entry(b[r], col) - Entry(a[r], col), Entry(a[t], col) - Entry(b[t], col))
    requires |v| == n
    ensures InBoth(v, Absorb(a, t, m, s), Absorb(b, t, m, s)) <==> InBoth(v, a, b)
  {
    if InSpan(v, Absorb(a, t, m, s)) { AbsorbShrinks(a, t, m, s, v); }
    if InSpan(v, Absorb(b, t, m, s)) { AbsorbShrinks(b, t, m, s, v); }
    if InBoth(v, a, b) {
      var l :| Combines(l, a, v);
      var k :| Combines(k, b, v);
      TransformWeight(a, p, b, q, n, row, col, t, m, s, l, k, v);
      AbsorbKeeps(a, t, m, s, l, v);
      SameWeights(a, p, b, q, n, row, col + 1, l, k, v);
      forall r | 0 <= r < t ensures Over(l, m)[r] == Over(k, m)[r] { assert l[r] == k[r]; }
      WeightedPrefix(Over(l, m), Over(k, m), s);
      AbsorbKeeps(b, t, m, s, k, v);
    }
  }

  lemma CrossTerms(m: int, s: int, x: int, y: int, xt: int, yt: int)
    requires Balances(m, s, y - x, xt - yt)
    ensures m * x + s * xt == m * y + s * yt
  {
    assert m * (y - x) == m * y - m * x;
    assert s * (xt - yt) == s * xt - s * yt;
  }

  lemma TransformCommon(a: Matrix, p: seq<int>, b: Matrix, q: seq<int>, n: nat, row: nat, col: nat, t: nat,
                        m: seq<int>, s: seq<int>)
    requires Common(a, p, b, q, n, row, col + 1) && t < row && col < n
    requires (forall r :: row <= r < |a| ==> p[r] < col) && (forall r :: row <= r < |b| ==> q[r] < col)
    requires forall r :: t < r < row ==> Entry(a[r], col) == Entry(b[r], col)
    requires |m| == |s| == t
    requires (forall r :: 0 <= r < |a| ==> |a[r]| == |a[t]|) && (forall r :: 0 <= r < |b| ==> |b[r]| == |b[t]|)
    requires NonZero(m) && forall r :: 0 <= r < t ==>
               Balances(m[r], s[r], Entry(b[r], col) - Entry(a[r], col), Entry(a[t], col) - Entry(b[t], col))
    ensures Common(Absorb(a, t, m, s), Without(p, t), Absorb(b, t, m, s), Without(q, t), n, row - 1, col)
  {
    AbsorbEchelon(a, p, n, t, m, s);
    AbsorbEchelon(b, q, n, t, m, s);
    var a', b' := Absorb(a, t, m, s), Absorb(b, t, m, s);
    forall r | 0 <= r < row - 1 ensures SameFrom(a'[r], b'[r], col) {
      if r < t {
        assert SameFrom(a[r], b[r], col + 1) && SameFrom(a[t], b[t], col + 1);
        CrossTerms(m[r], s[r], a[r][col], b[r][col], a[t][col], b[t][col]);
      } else {
        assert SameFrom(a[r + 1], b[r + 1], col + 1);
      }
    }
  }

  /** The multipliers that the code takes, divided by their greatest common divisor. */

  function ConstructM(b: Matrix, pivot: int, row: nat, col: nat): (m: seq<int>)
    requires row <= |b| && pivot != 0
    ensures |m| == row
  {
    seq(row, r requires 0 <= r < row =>
      if Entry(b[r], col) == 0 then 1 else DivExact(pivot, Gcd.Gcd(Entry(b[r], col), pivot)))
  }

  function ConstructS(b: Matrix, pivot: int, row: nat, col: nat): (s: seq<int>)
    requires row <= |b| && pivot != 0
    ensures |s| == row
  {
    seq(row, r requires 0 <= r < row =>
      if Entry(b[r], col) == 0 then 0 else DivExact(Entry(b[r], col), Gcd.Gcd(Entry(b[r], col), pivot)))
  }

  lemma GcdBalances(e: int, d: int)
    requires d != 0
    ensures var g := Gcd.Gcd(e, d); g != 0 && DivExact(d, g) != 0 && Balances(DivExact(d, g), DivExact(e, g), e, d)
  {
    var g := Gcd.Gcd(e, d);
    var e', d' := DivExact(e, g), DivExact(d, g);
    assert d' * e == d' * (e' * g) == e' * (d' * g);
  }

  lemma ConstructBalances(b: Matrix, pivot: int, row: nat, col: nat)
    requires row <= |b| && pivot != 0
    ensures NonZero(ConstructM(b, pivot, row, col))
    ensures forall r :: 0 <= r < row ==>
              Balances(ConstructM(b, pivot, row, col)[r], ConstructS(b, pivot, row, col)[r], Entry(b[r], col), pivot)
  {
    forall r | 0 <= r < row
      ensures ConstructM(b, pivot, row, col)[r] != 0
      ensures Balances(ConstructM(b, pivot, row, col)[r], ConstructS(b, pivot, row, col)[r], Entry(b[r], col), pivot)
    {
      GcdBalances(Entry(b[r], col), pivot);
    }
  }

  function TransformM(a: Matrix, b: Matrix, t: nat, col: nat): (m: seq<int>)
    requires t < |a| && t < |b|
    ensures |m| == t
  {
    var d := Entry(a[t], col) - Entry(b[t], col);
    seq(t, r requires 0 <= r < t => DivExact(d, Gcd.Gcd(Entry(b[r], col) - Entry(a[r], col), d)))
  }

  function TransformS(a: Matrix, b: Matrix, t: nat, col: nat): (s: seq<int>)
    requires t < |a| && t < |b|
    ensures |s| == t
  {
    var d := Entry(a[t], col) - Entry(b[t], col);
    seq(t, r requires 0 <= r < t =>
      DivExact(Entry(b[r], col) - Entry(a[r], col), Gcd.Gcd(Entry(b[r], col) - Entry(a[r], col), d)))
  }

  lemma TransformBalances(a: Matrix, b: Matrix, t: nat, col: nat)
    requires t < |a| && t < |b| && Entry(a[t], col) != Entry(b[t], col)
    ensures NonZero(TransformM(a, b, t, col))
    ensures forall r :: 0 <= r < t ==>
              Balances(TransformM(a, b, t, col)[r], TransformS(a, b, t, col)[r],
                       Entry(b[r], col) - Entry(a[r], col), Entry(a[t], col) - Entry(b[t], col))
  {
    forall r | 0 <= r < t
      ensures TransformM(a, b, t, col)[r] != 0
      ensures Balances(TransformM(a, b, t, col)[r], TransformS(a, b, t, col)[r],
                       Entry(b[r], col) - Entry(a[r], col), Entry(a[t], col) - Entry(b[t], col))
    {
      GcdBalances(Entry(b[r], col) - Entry(a[r], col), Entry(a[t], col) - Entry(b[t], col));
    }
  }

  // isl_seq_scale on the first `len` columns
  function ScalePrefix(m: int, row: Row, len: nat): (r: Row)
    requires len <= |row|
  {
    ScaleVec(m, row[..len]) + row[len..]
  }

  lemma ScalePrefixOfPivot(m: int, row: Row, col: nat, n: nat)
    requires PivotAt(row, col, n)
    ensures ScalePrefix(m, row, col + 1) == ScaleVec(m, row)
  {
  }

  /** The equalities of a basic set, constant terms first. */
  class BasicSet {
    const eq: array<Row>
    var nEq: nat

    constructor (rows: Matrix)
      ensures nEq == |rows| && eq.Length == |rows| && fresh(eq) && Rows() == rows
    {
      eq := new Row[|rows|](i requires 0 <= i < |rows| => rows[i]);
      nEq := |rows|;
    }

    ghost function Rows(): (a: Matrix)
      requires nEq <= eq.Length
      reads this, eq
      ensures |a| == nEq && forall r :: 0 <= r < nEq ==> a[r] == eq[r]
    {
      eq[..nEq]
    }

    method DeleteRow(row: nat)
      requires row < nEq <= eq.Length
      modifies this`nEq, eq
      ensures nEq == old(nEq) - 1 && Rows() == Without(old(Rows()), row)
      ensures eq[nEq] == old(eq[row])
      ensures forall r :: old(nEq) <= r < eq.Length ==> eq[r] == old(eq[r])
    {
      var t := eq[row];
      nEq := nEq - 1;
      for r := row to nEq
        invariant nEq == old(nEq) - 1
        invariant forall q :: row <= q < r ==> eq[q] == old(eq[q + 1])
        invariant forall q :: 0 <= q < row || r <= q < eq.Length ==> eq[q] == old(eq[q])
      {
        eq[r] := eq[r + 1];
      }
      eq[nEq] := t;
    }
  }

  ghost predicate Apart(s1: BasicSet, s2: BasicSet)
    reads s1, s2
  {
    s1 != s2 && s1.eq != s2.eq && s1.nEq <= s1.eq.Length && s2.nEq <= s2.eq.Length
  }

  method SetCommonMultiple(s1: BasicSet, s2: BasicSet, row: nat, col: nat) returns (ghost m1: int, ghost m2: int)
    requires Apart(s1, s2) && row < s1.nEq && row < s2.nEq && col < |s1.eq[row]| && col < |s2.eq[row]|
    requires s1.eq[row][col] != 0 && s2.eq[row][col] != 0
    modifies s1.eq, s2.eq
    ensures m1 != 0 && m2 != 0 && m1 * old(s1.eq[row][col]) == m2 * old(s2.eq[row][col])
    ensures s1.Rows() == old(s1.Rows())[row := ScalePrefix(m1, old(s1.eq[row]), col + 1)]
    ensures s2.Rows() == old(s2.Rows())[row := ScalePrefix(m2, old(s2.eq[row]), col + 1)]
  {
    var x, y := s1.eq[row][col], s2.eq[row][col];
    if x == y {
      ScaleByOne(s1.eq[row], col + 1);
      ScaleByOne(s2.eq[row], col + 1);
      assert s1.Rows()[row := s1.eq[row]] == s1.Rows() && s2.Rows()[row := s2.eq[row]] == s2.Rows();
      return 1, 1;
    }
    var m := Lcm(x, y);
    var c := DivExact(m, x);
    s1.eq[row] := ScalePrefix(c, s1.eq[row], col + 1);
    m1 := c;
    c := DivExact(m, y);
    s2.eq[row] := ScalePrefix(c, s2.eq[row], col + 1);
    m2 := c;
  }

  lemma ScaleByOne(row: Row, len: nat)
    requires len <= |row|
    ensures ScalePrefix(1, row, len) == row
  {
    assert ScaleVec(1, row[..len]) == row[..len];
  }

  method ConstructColumn(s1: BasicSet, s2: BasicSet, row: nat, col: nat, n: nat)
    requires Apart(s1, s2) && row < s1.nEq && row <= s2.nEq && col < n
    requires IsMatrix(s1.Rows(), n) && IsMatrix(s2.Rows(), n) && s1.eq[row][col] != 0
    modifies s1`nEq, s1.eq, s2.eq
    ensures s1.nEq == old(s1.nEq) - 1
    ensures var a, b, pivot := old(s1.Rows()), old(s2.Rows()), old(s1.eq[row][col]);
            var m, s := ConstructM(b, pivot, row, col), ConstructS(b, pivot, row, col);
            s1.Rows() == Absorb(a, row, m, s) && s2.Rows() == ScaleRows(b, m)
  {
    ghost var a, b, pivot := s1.Rows(), s2.Rows(), s1.eq[row][col];
    ghost var m, s := ConstructM(b, pivot, row, col), ConstructS(b, pivot, row, col);
    ghost var a', b' := Absorb(a, row, m, s), ScaleRows(b, m);
    for r := 0 to row
      invariant s1.nEq == |a| && s2.nEq == |b|
      invariant forall q :: 0 <= q < r ==> s1.eq[q] == a'[q]
      invariant forall q :: r <= q < s1.nEq ==> s1.eq[q] == a[q]
      invariant forall q :: 0 <= q < r ==> s2.eq[q] == b'[q]
      invariant forall q :: r <= q < s2.nEq ==> s2.eq[q] == b[q]
    {
      if s2.eq[r][col] == 0 {
        assert Combine(1, a[r], 0, a[row]) == a[r] && ScaleVec(1, b[r]) == b[r];
        continue;
      }
      var g := Gcd.Gcd(s2.eq[r][col], s1.eq[row][col]);
      var x := DivExact(s1.eq[row][col], g);
      var y := DivExact(s2.eq[r][col], g);
      s1.eq[r] := Combine(x, s1.eq[r], y, s1.eq[row]);
      s2.eq[r] := ScaleVec(x, s2.eq[r]);
    }
    s1.DeleteRow(row);
  }

  // Reports whether a row was removed, which one, and with what multipliers.
  method TransformColumn(s1: BasicSet, s2: BasicSet, row: nat, col: nat, n: nat) returns (transformed: bool,
                         ghost t: int)
    requires Apart(s1, s2) && row <= s1.nEq && row <= s2.nEq && col < n
    requires IsMatrix(s1.Rows(), n) && IsMatrix(s2.Rows(), n)
    modifies s1`nEq, s2`nEq, s1.eq, s2.eq
    ensures var a, b := old(s1.Rows()), old(s2.Rows());
            if transformed then
              && 0 <= t < row && Entry(a[t], col) != Entry(b[t], col)
              && (forall r :: t < r < row ==> Entry(a[r], col) == Entry(b[r], col))
              && s1.nEq == |a| - 1 && s1.Rows() == Absorb(a, t, TransformM(a, b, t, col), TransformS(a, b, t, col))
              && s2.nEq == |b| - 1 && s2.Rows() == Absorb(b, t, TransformM(a, b, t, col), TransformS(a, b, t, col))
            else
              && s1.nEq == |a| && s1.Rows() == a && s2.nEq == |b| && s2.Rows() == b
              && forall r :: 0 <= r < row ==> Entry(a[r], col) == Entry(b[r], col)
  {
    ghost var a, b := s1.Rows(), s2.Rows();
    var k := row - 1;
    while k >= 0 && s1.eq[k][col] == s2.eq[k][col]
      invariant -1 <= k < row
      invariant forall r :: k < r < row ==> Entry(a[r], col) == Entry(b[r], col)
    {
      k := k - 1;
    }
    t := k;
    if k >= 0 { AbsorbRow(s1, s2, k, col, n); }
    transformed := k >= 0;
  }

  // The rows before row t get the same entries in column col, and row t is deleted.
  method AbsorbRow(s1: BasicSet, s2: BasicSet, t: nat, col: nat, n: nat)
    requires Apart(s1, s2) && t < s1.nEq && t < s2.nEq && col < n
    requires IsMatrix(s1.Rows(), n) && IsMatrix(s2.Rows(), n) && s1.eq[t][col] != s2.eq[t][col]
    modifies s1`nEq, s2`nEq, s1.eq, s2.eq
    ensures s1.nEq == old(s1.nEq) - 1 && s2.nEq == old(s2.nEq) - 1
    ensures var a, b := old(s1.Rows()), old(s2.Rows());
            var m, s := TransformM(a, b, t, col), TransformS(a, b, t, col);
            s1.Rows() == Absorb(a, t, m, s) && s2.Rows() == Absorb(b, t, m, s)
  {
    ghost var a, b := s1.Rows(), s2.Rows();
    ghost var m, s := TransformM(a, b, t, col), TransformS(a, b, t, col);
    CombineRows(s1, s2, t, col, n, a, b);
    DeleteAbsorbed(s1.Rows(), a, t, m, s);
    DeleteAbsorbed(s2.Rows(), b, t, m, s);
    s1.DeleteRow(t);
    s2.DeleteRow(t);
  }

  lemma DeleteAbsorbed(rows: Matrix, a: Matrix, t: nat, m: seq<int>, s: seq<int>)
    requires t < |a| == |rows| && |m| == |s| == t && forall r :: 0 <= r < |a| ==> |a[r]| == |a[t]|
    requires forall q :: 0 <= q < t ==> rows[q] == Absorb(a, t, m, s)[q]
    requires forall q :: t <= q < |a| ==> rows[q] == a[q]
    ensures Without(rows, t) == Absorb(a, t, m, s)
  {
  }

  method CombineRows(s1: BasicSet, s2: BasicSet, t: nat, col: nat, n: nat, ghost a: Matrix, ghost b: Matrix)
    requires Apart(s1, s2) && t < s1.nEq && t < s2.nEq && col < n && a == s1.Rows() && b == s2.Rows()
    requires IsMatrix(a, n) && IsMatrix(b, n) && a[t][col] != b[t][col]
    modifies s1.eq, s2.eq
    ensures forall q :: 0 <= q < t ==> s1.eq[q] == Absorb(a, t, TransformM(a, b, t, col), TransformS(a, b, t, col))[q]
    ensures forall q :: 0 <= q < t ==> s2.eq[q] == Absorb(b, t, TransformM(a, b, t, col), TransformS(a, b, t, col))[q]
    ensures (forall q :: t <= q < s1.nEq ==> s1.eq[q] == a[q]) && (forall q :: t <= q < s2.nEq ==> s2.eq[q] == b[q])
  {
    ghost var m, s := TransformM(a, b, t, col), TransformS(a, b, t, col);
    ghost var a', b' := Absorb(a, t, m, s), Absorb(b, t, m, s);
    var d := s1.eq[t][col] - s2.eq[t][col];
    for i := 0 to t
      invariant forall q :: 0 <= q < i ==> s1.eq[q] == a'[q]
      invariant forall q :: i <= q < s1.nEq ==> s1.eq[q] == a[q]
      invariant forall q :: 0 <= q < i ==> s2.eq[q] == b'[q]
      invariant forall q :: i <= q < s2.nEq ==> s2.eq[q] == b[q]
    {
      var e := s2.eq[i][col] - s1.eq[i][col];
      var g := Gcd.Gcd(e, d);
      var x, y := DivExact(d, g), DivExact(e, g);
      assert x == m[i] && y == s[i];
      s1.eq[i] := Combine(x, s1.eq[i], y, s1.eq[t]);
      s2.eq[i] := Combine(x, s2.eq[i], y, s2.eq[t]);
    }
  }

  /** One column. */

  ghost predicate SameSpan(a: Matrix, a': Matrix, n: nat) {
    forall v :: |v| == n ==> (InSpan(v, a') <==> InSpan(v, a))
  }

  ghost predicate SameMeet(a: Matrix, b: Matrix, a': Matrix, b': Matrix, n: nat) {
    forall v :: |v| == n ==> (InBoth(v, a', b') <==> InBoth(v, a, b))
  }

  // What has been achieved when the columns from `col` on have been treated.
  ghost predicate Achieved(a0: Matrix, b0: Matrix, a: Matrix, p: seq<int>, b: Matrix, q: seq<int>, n: nat, row: nat,
                           col: int) {
    && Common(a, p, b, q, n, row, col)
    && SameMeet(a0, b0, a, b, n)
    && |a| <= |a0| && (|a| == |a0| ==> SameSpan(a0, a, n))
    && |b| <= |b0| && (|b| == |b0| ==> SameSpan(b0, b, n))
  }

  lemma Swapped(a0: Matrix, b0: Matrix, a: Matrix, p: seq<int>, b: Matrix, q: seq<int>, n: nat, row: nat, col: int)
    requires Achieved(a0, b0, a, p, b, q, n, row, col)
    ensures Achieved(b0, a0, b, q, a, p, n, row, col)
  {
    forall v | |v| == n ensures InBoth(v, b, a) <==> InBoth(v, b0, a0) {
      assert InBoth(v, a, b) <==> InBoth(v, a0, b0);
    }
  }

  // A row that is not zero in the column has its pivot there; otherwise nothing has.
  lemma PivotColumn(a: Matrix, p: seq<int>, n: nat, row: nat, col: nat)
    requires Echelon(a, p, n) && row <= |a| && col < n && forall r :: row <= r < |a| ==> p[r] < col + 1
    ensures row < |a| && Entry(a[row], col) != 0 ==> p[row] == col
    ensures row == |a| || Entry(a[row], col) == 0 ==> forall r :: row <= r < |a| ==> p[r] < col
  {
    if row < |a| {
      assert PivotAt(a[row], p[row], n);
      forall r | row < r < |a| ensures p[r] < p[row] { assert Decreasing(p); }
    }
  }

  function Ones(k: nat): (m: seq<int>)
    ensures |m| == k && forall r :: 0 <= r < k ==> m[r] == 1
  {
    seq(k, r => 1)
  }

  lemma ScaleOne(a: Matrix, p: seq<int>, n: nat, row: nat, m: int)
    requires Echelon(a, p, n) && row < |a| && m != 0
    ensures Echelon(a[row := ScaleVec(m, a[row])], p, n) && SameSpan(a, a[row := ScaleVec(m, a[row])], n)
  {
    var f := Ones(row) + [m];
    forall r | 0 <= r < row ensures ScaleVec(1, a[r]) == a[r] {}
    assert ScaleRows(a, f) == a[row := ScaleVec(m, a[row])];
    ScaleEchelon(a, p, n, f);
    forall v | |v| == n ensures InSpan(v, ScaleRows(a, f)) <==> InSpan(v, a) { ScaleSpan(a, f, v); }
  }

  lemma MeetOfSpans(a: Matrix, b: Matrix, a': Matrix, b': Matrix, n: nat)
    requires SameSpan(a, a', n) && SameSpan(b, b', n)
    ensures SameMeet(a, b, a', b', n)
  {
  }

  lemma {:induction false} Chain(a0: Matrix, b0: Matrix, a: Matrix, p: seq<int>, b: Matrix, q: seq<int>, n: nat,
                                 row: nat, col: int,
              a': Matrix, p': seq<int>, b': Matrix, q': seq<int>, row': nat, col': int)
    requires Achieved(a0, b0, a, p, b, q, n, row, col) && Common(a', p', b', q', n, row', col')
    requires SameMeet(a, b, a', b', n)
    requires |a'| <= |a| && (|a'| == |a| ==> SameSpan(a, a', n))
    requires |b'| <= |b| && (|b'| == |b| ==> SameSpan(b, b', n))
    ensures Achieved(a0, b0, a', p', b', q', n, row', col')
  {
    forall v | |v| == n ensures InBoth(v, a', b') <==> InBoth(v, a0, b0) {
      assert InBoth(v, a', b') <==> InBoth(v, a, b);
    }
    if |a'| == |a0| {
      forall v | |v| == n ensures InSpan(v, a') <==> InSpan(v, a0) { assert InSpan(v, a') <==> InSpan(v, a); }
    }
    if |b'| == |b0| {
      forall v | |v| == n ensures InSpan(v, b') <==> InSpan(v, b0) { assert InSpan(v, b') <==> InSpan(v, b); }
    }
  }

  lemma MultipleStep(a0: Matrix, b0: Matrix, a: Matrix, p: seq<int>, b: Matrix, q: seq<int>, n: nat, row: nat,
                     col: nat, m1: int, m2: int)
    requires Achieved(a0, b0, a, p, b, q, n, row, col + 1)
    requires row < |a| && row < |b| && Entry(a[row], col) != 0 && Entry(b[row], col) != 0
    requires m1 != 0 && m2 != 0 && m1 * Entry(a[row], col) == m2 * Entry(b[row], col)
    ensures PivotAt(a[row], col, n) && PivotAt(b[row], col, n)
    ensures Achieved(a0, b0, a[row := ScaleVec(m1, a[row])], p, b[row := ScaleVec(m2, b[row])], q, n, row + 1, col)
  {
    PivotColumn(a, p, n, row, col);
    PivotColumn(b, q, n, row, col);
    assert PivotAt(a[row], p[row], n) && PivotAt(b[row], q[row], n);
    ScaleOne(a, p, n, row, m1);
    ScaleOne(b, q, n, row, m2);
    var a', b' := a[row := ScaleVec(m1, a[row])], b[row := ScaleVec(m2, b[row])];
    forall r | 0 <= r < row ensures SameFrom(a'[r], b'[r], col) {
      assert SameFrom(a[r], b[r], col + 1) && Entry(a[r], p[row]) == 0 && Entry(b[r], q[row]) == 0;
    }
    assert SameFrom(a'[row], b'[row], col);
    assert Decreasing(p) && Decreasing(q);
    MeetOfSpans(a, b, a', b', n);
    Chain(a0, b0, a, p, b, q, n, row, col + 1, a', p, b', q, row + 1, col);
  }

  lemma ConstructStep(a0: Matrix, b0: Matrix, a: Matrix, p: seq<int>, b: Matrix, q: seq<int>, n: nat, row: nat,
                      col: nat)
    requires Achieved(a0, b0, a, p, b, q, n, row, col + 1)
    requires row < |a| && Entry(a[row], col) != 0 && (row < |b| ==> Entry(b[row], col) == 0)
    ensures IsMatrix(a, n) && IsMatrix(b, n)
    ensures var m, s := ConstructM(b, a[row][col], row, col), ConstructS(b, a[row][col], row, col);
            Achieved(a0, b0, Absorb(a, row, m, s), Without(p, row), ScaleRows(b, m), q, n, row, col)
  {
    assert forall r :: 0 <= r < |a| ==> PivotAt(a[r], p[r], n);
    assert forall r :: 0 <= r < |b| ==> PivotAt(b[r], q[r], n);
    var pivot := a[row][col];
    var m, s := ConstructM(b, pivot, row, col), ConstructS(b, pivot, row, col);
    PivotColumn(a, p, n, row, col);
    PivotColumn(b, q, n, row, col);
    ConstructBalances(b, pivot, row, col);
    ConstructCommon(a, p, b, q, n, row, col, m, s);
    forall v | |v| == n ensures InBoth(v, Absorb(a, row, m, s), ScaleRows(b, m)) <==> InBoth(v, a, b) {
      ConstructSpan(a, p, b, q, n, row, col, m, s, v);
    }
    forall v | |v| == n ensures InSpan(v, ScaleRows(b, m)) <==> InSpan(v, b) { ScaleSpan(b, m, v); }
    Chain(a0, b0, a, p, b, q, n, row, col + 1, Absorb(a, row, m, s), Without(p, row), ScaleRows(b, m), q, row, col);
  }

  lemma TransformStep(a0: Matrix, b0: Matrix, a: Matrix, p: seq<int>, b: Matrix, q: seq<int>, n: nat, row: nat,
                      col: nat, t: nat)
    requires Achieved(a0, b0, a, p, b, q, n, row, col + 1)
    requires (row < |a| ==> Entry(a[row], col) == 0) && (row < |b| ==> Entry(b[row], col) == 0)
    requires t < row && Entry(a[t], col) != Entry(b[t], col)
    requires forall r :: t < r < row ==> Entry(a[r], col) == Entry(b[r], col)
    ensures IsMatrix(a, n) && IsMatrix(b, n)
    ensures var m, s := TransformM(a, b, t, col), TransformS(a, b, t, col);
            Achieved(a0, b0, Absorb(a, t, m, s), Without(p, t), Absorb(b, t, m, s), Without(q, t), n, row - 1, col)
  {
    assert forall r :: 0 <= r < |a| ==> PivotAt(a[r], p[r], n);
    assert forall r :: 0 <= r < |b| ==> PivotAt(b[r], q[r], n);
    var m, s := TransformM(a, b, t, col), TransformS(a, b, t, col);
    PivotColumn(a, p, n, row, col);
    PivotColumn(b, q, n, row, col);
    TransformBalances(a, b, t, col);
    TransformCommon(a, p, b, q, n, row, col, t, m, s);
    forall v | |v| == n ensures InBoth(v, Absorb(a, t, m, s), Absorb(b, t, m, s)) <==> InBoth(v, a, b) {
      TransformSpan(a, p, b, q, n, row, col, t, m, s, v);
    }
    Chain(a0, b0, a, p, b, q, n, row, col + 1, Absorb(a, t, m, s), Without(p, t), Absorb(b, t, m, s), Without(q, t),
        row - 1, col);
  }

  lemma NothingStep(a0: Matrix, b0: Matrix, a: Matrix, p: seq<int>, b: Matrix, q: seq<int>, n: nat, row: nat, col: nat)
    requires Achieved(a0, b0, a, p, b, q, n, row, col + 1)
    requires (row < |a| ==> Entry(a[row], col) == 0) && (row < |b| ==> Entry(b[row], col) == 0)
    requires forall r :: 0 <= r < row ==> Entry(a[r], col) == Entry(b[r], col)
    ensures Achieved(a0, b0, a, p, b, q, n, row, col)
  {
    PivotColumn(a, p, n, row, col);
    PivotColumn(b, q, n, row, col);
    forall r | 0 <= r < row ensures SameFrom(a[r], b[r], col) {
      assert SameFrom(a[r], b[r], col + 1) && PivotAt(a[r], p[r], n);
      SameOneMore(a[r], b[r], col);
    }
  }

  lemma SameOneMore(x: Row, y: Row, col: nat)
    requires SameFrom(x, y, col + 1) && col < |x| && Entry(x, col) == Entry(y, col)
    ensures SameFrom(x, y, col)
  {
  }

  lemma SameRow(x: Row, y: Row)
    requires SameFrom(x, y, 0)
    ensures x == y
  {
    forall c | 0 <= c < |x| ensures x[c] == y[c] {}
  }

  // After the last column, no row is left and the two systems are the same.
  lemma AllColumns(a0: Matrix, b0: Matrix, a: Matrix, p: seq<int>, b: Matrix, q: seq<int>, n: nat, row: nat)
    requires Achieved(a0, b0, a, p, b, q, n, row, 0)
    ensures row == |a| == |b| && a == b && IsEchelon(a, n)
    ensures forall v :: |v| == n ==> (InSpan(v, a) <==> InSpan(v, a0) && InSpan(v, b0))
  {
    assert forall r :: 0 <= r < |a| ==> PivotAt(a[r], p[r], n);
    assert forall r :: 0 <= r < |b| ==> PivotAt(b[r], q[r], n);
    assert Entry(p, row) >= 0 && Entry(q, row) >= 0;
    assert row == |a| == |b|;
    forall r | 0 <= r < row ensures a[r] == b[r] { SameRow(a[r], b[r]); }
    assert a == b;
    forall v | |v| == n ensures InSpan(v, a) <==> InSpan(v, a0) && InSpan(v, b0) {
      assert InBoth(v, a, b) <==> InBoth(v, a0, b0);
    }
  }

  /** affine_hull: the rows of s1 become a basis of the equalities that follow from both
      systems, so they hold on both sets and nothing tighter does. */
  method AffineHull(s1: BasicSet, s2: BasicSet, n: nat) returns (row: nat)
    requires Apart(s1, s2) && IsEchelon(s1.Rows(), n) && IsEchelon(s2.Rows(), n)
    modifies s1`nEq, s2`nEq, s1.eq, s2.eq
    ensures row == s1.nEq <= old(s1.nEq) && s1.nEq <= s1.eq.Length
    ensures IsEchelon(s1.Rows(), n)
    ensures forall v :: |v| == n ==> (InSpan(v, s1.Rows()) <==> InSpan(v, old(s1.Rows())) && InSpan(v, old(s2.Rows())))
    ensures s1.nEq == old(s1.nEq) ==> SameSpan(old(s1.Rows()), s1.Rows(), n)
  {
    ghost var a0, b0 := s1.Rows(), s2.Rows();
    ghost var p :| Echelon(a0, p, n);
    ghost var q :| Echelon(b0, q, n);
    row := 0;
    assert Common(a0, p, b0, q, n, 0, n) by {
      assert forall r :: 0 <= r < |a0| ==> PivotAt(a0[r], p[r], n);
      assert forall r :: 0 <= r < |b0| ==> PivotAt(b0[r], q[r], n);
    }
    for col := n downto 0
      invariant Apart(s1, s2)
      invariant Achieved(a0, b0, s1.Rows(), p, s2.Rows(), q, n, row, col)
    {
      row, p, q := TreatColumn(s1, s2, row, col, n, a0, b0, p, q);
    }
    AllColumns(a0, b0, s1.Rows(), p, s2.Rows(), q, n, row);
  }

  method TreatColumn(s1: BasicSet, s2: BasicSet, row: nat, col: nat, n: nat,
                     ghost a0: Matrix, ghost b0: Matrix, ghost p: seq<int>, ghost q: seq<int>)
    returns (row': nat, ghost p': seq<int>, ghost q': seq<int>)
    requires Apart(s1, s2) && col < n && Achieved(a0, b0, s1.Rows(), p, s2.Rows(), q, n, row, col + 1)
    modifies s1`nEq, s2`nEq, s1.eq, s2.eq
    ensures Apart(s1, s2) && Achieved(a0, b0, s1.Rows(), p', s2.Rows(), q', n, row', col)
  {
    ghost var a, b := s1.Rows(), s2.Rows();
    row', p', q' := row, p, q;
    assert forall r :: 0 <= r < |a| ==> PivotAt(a[r], p[r], n);
    assert forall r :: 0 <= r < |b| ==> PivotAt(b[r], q[r], n);
    var zero1 := row >= s1.nEq || s1.eq[row][col] == 0;
    var zero2 := row >= s2.nEq || s2.eq[row][col] == 0;
    if !zero1 && !zero2 {
      ghost var m1, m2 := SetCommonMultiple(s1, s2, row, col);
      MultipleStep(a0, b0, a, p, b, q, n, row, col, m1, m2);
      ScalePrefixOfPivot(m1, a[row], col, n);
      ScalePrefixOfPivot(m2, b[row], col, n);
      row' := row + 1;
    } else if !zero1 {
      ConstructStep(a0, b0, a, p, b, q, n, row, col);
      ConstructColumn(s1, s2, row, col, n);
      p' := Without(p, row);
    } else if !zero2 {
      Swapped(a0, b0, a, p, b, q, n, row, col + 1);
      ConstructStep(b0, a0, b, q, a, p, n, row, col);
      ConstructColumn(s2, s1, row, col, n);
      q' := Without(q, row);
      Swapped(b0, a0, s2.Rows(), q', s1.Rows(), p, n, row, col);
    } else {
      row', p', q' := TreatZeroColumn(s1, s2, row, col, n, a0, b0, p, q);
    }
  }

  method TreatZeroColumn(s1: BasicSet, s2: BasicSet, row: nat, col: nat, n: nat,
                         ghost a0: Matrix, ghost b0: Matrix, ghost p: seq<int>, ghost q: seq<int>)
    returns (row': nat, ghost p': seq<int>, ghost q': seq<int>)
    requires Apart(s1, s2) && col < n && Achieved(a0, b0, s1.Rows(), p, s2.Rows(), q, n, row, col + 1)
    requires (row < s1.nEq ==> Entry(s1.eq[row], col) == 0) && (row < s2.nEq ==> Entry(s2.eq[row], col) == 0)
    modifies s1`nEq, s2`nEq, s1.eq, s2.eq
    ensures Apart(s1, s2) && Achieved(a0, b0, s1.Rows(), p', s2.Rows(), q', n, row', col)
  {
    ghost var a, b := s1.Rows(), s2.Rows();
    assert forall r :: 0 <= r < |a| ==> PivotAt(a[r], p[r], n);
    assert forall r :: 0 <= r < |b| ==> PivotAt(b[r], q[r], n);
    var transformed;
    ghost var t;
    transformed, t := TransformColumn(s1, s2, row, col, n);
    if transformed {
      TransformStep(a0, b0, a, p, b, q, n, row, col, t);
      row', p', q' := row - 1, Without(p, t), Without(q, t);
    } else {
      NothingStep(a0, b0, a, p, b, q, n, row, col);
      row', p', q' := row, p, q;
    }
  }
}
