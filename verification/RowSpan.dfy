/** Integer matrices in echelon form, and what their rows span. */
module RowSpan {
  import opened QuasiAffine

  type Row = seq<int>
  type Matrix = seq<Row>

  function Entry(row: Row, c: int): int { if 0 <= c < |row| then row[c] else 0 }

  // Column c of a linear combination of the rows.
  ghost function Comb(l: seq<real>, a: Matrix, c: int): real
    requires |l| == |a|
  {
    if a == [] then 0.0
    else
      var k := |a| - 1;
      Comb(l[..k], a[..k], c) + Term(l[k], a[k], c)
  }

  ghost function Term(w: real, row: Row, c: int): real { Coef(w, Entry(row, c)) }

  ghost predicate Combines(l: seq<real>, a: Matrix, v: seq<real>) {
    |l| == |a| && forall c :: 0 <= c < |v| ==> Comb(l, a, c) == v[c]
  }

  ghost predicate InSpan(v: seq<real>, a: Matrix) {
    exists l :: Combines(l, a, v)
  }

  ghost predicate IsMatrix(a: Matrix, n: nat) { forall r :: 0 <= r < |a| ==> |a[r]| == n }

  lemma {:induction false} CombAppend(l: seq<real>, a: Matrix, l': seq<real>, a': Matrix, c: int)
    requires |l| == |a| && |l'| == |a'|
    ensures Comb(l + l', a + a', c) == Comb(l, a, c) + Comb(l', a', c)
  {
    if a' == [] {
      assert l + l' == l && a + a' == a;
    } else {
      var k := |a'| - 1;
      assert (l + l')[..|l + l'| - 1] == l + l'[..k] && (a + a')[..|a + a'| - 1] == a + a'[..k];
      CombAppend(l, a, l'[..k], a'[..k], c);
    }
  }

  // A row on its own in a column determines that column.
  lemma {:induction false} CombSingle(l: seq<real>, a: Matrix, r: nat, c: int)
    requires |l| == |a| && r < |a| && forall q :: 0 <= q < |a| && q != r ==> Entry(a[q], c) == 0
    ensures Comb(l, a, c) == Term(l[r], a[r], c)
  {
    var k := |a| - 1;
    if r == k {
      CombNone(l[..k], a[..k], c);
    } else {
      CombSingle(l[..k], a[..k], r, c);
    }
  }

  lemma {:induction false} CombNone(l: seq<real>, a: Matrix, c: int)
    requires |l| == |a| && forall q :: 0 <= q < |a| ==> Entry(a[q], c) == 0
    ensures Comb(l, a, c) == 0.0
  {
    if a != [] { CombNone(l[..|a| - 1], a[..|a| - 1], c); }
  }

  lemma CombPrefix(l: seq<real>, a: Matrix, k: nat, c: int)
    requires |l| == |a| && k <= |a| && forall q :: k <= q < |a| ==> Entry(a[q], c) == 0
    ensures Comb(l, a, c) == Comb(l[..k], a[..k], c)
  {
    CombAppend(l[..k], a[..k], l[k..], a[k..], c);
    assert l == l[..k] + l[k..] && a == a[..k] + a[k..];
    CombNone(l[k..], a[k..], c);
  }

  /** Removing a row by adding multiples of it to the rows before. */

  function Absorb(a: Matrix, t: nat, m: seq<int>, b: seq<int>): (a': Matrix)
    requires t < |a| && |m| == |b| == t && forall r :: 0 <= r < |a| ==> |a[r]| == |a[t]|
    ensures |a'| == |a| - 1
    ensures forall r :: 0 <= r < t ==> a'[r] == Combine(m[r], a[r], b[r], a[t])
    ensures forall r :: t <= r < |a'| ==> a'[r] == a[r + 1]
  {
    seq(t, r requires 0 <= r < t => Combine(m[r], a[r], b[r], a[t])) + a[t + 1..]
  }

  function ScaleRows(a: Matrix, m: seq<int>): (a': Matrix)
    requires |m| <= |a|
    ensures |a'| == |a|
    ensures forall r :: 0 <= r < |m| ==> a'[r] == ScaleVec(m[r], a[r])
    ensures forall r :: |m| <= r < |a| ==> a'[r] == a[r]
  {
    seq(|m|, r requires 0 <= r < |m| => ScaleVec(m[r], a[r])) + a[|m|..]
  }

  ghost function Coef(w: real, m: int): real { w * m as real }

  ghost function Times(l: seq<real>, m: seq<int>): (l': seq<real>)
    requires |m| <= |l|
    ensures |l'| == |m| && forall r :: 0 <= r < |m| ==> l'[r] == Coef(l[r], m[r])
  {
    seq(|m|, r requires 0 <= r < |m| => Coef(l[r], m[r]))
  }

  predicate NonZero(m: seq<int>) { forall r :: 0 <= r < |m| ==> m[r] != 0 }

  ghost function Over(l: seq<real>, m: seq<int>): (l': seq<real>)
    requires |m| <= |l| && NonZero(m)
    ensures |l'| == |m| && forall r :: 0 <= r < |m| ==> l'[r] == l[r] / m[r] as real
  {
    seq(|m|, r requires 0 <= r < |m| => l[r] / m[r] as real)
  }

  ghost function Weighted(l: seq<real>, b: seq<int>): real
    requires |b| <= |l|
  {
    if b == [] then 0.0
    else
      var k := |b| - 1;
      Weighted(l, b[..k]) + Coef(l[k], b[k])
  }

  lemma TimesTake(l: seq<real>, m: seq<int>, k: nat)
    requires k <= |m| <= |l|
    ensures Times(l, m)[..k] == Times(l[..k], m[..k]) == Times(l, m[..k])
  {
    forall r | 0 <= r < k ensures Times(l, m)[..k][r] == Times(l[..k], m[..k])[r] == Times(l, m[..k])[r] {
      assert m[..k][r] == m[r] && l[..k][r] == l[r];
    }
  }

  lemma RealCombine(l: real, m: int, x: int, b: int, y: int)
    ensures l * (m * x + b * y) as real == (l * m as real) * x as real + (l * b as real) * y as real
  {
    RealTimes(m, x);
    RealTimes(b, y);
    RealDistribute(l, m as real, x as real, b as real, y as real);
  }

  lemma RealTimes(m: int, x: int)
    ensures (m * x) as real == m as real * x as real
  {
  }

  lemma RealDistribute(l: real, m: real, x: real, b: real, y: real)
    ensures l * (m * x + b * y) == (l * m) * x + (l * b) * y
  {
  }

  lemma CombineEntry(l: real, m: int, row: Row, b: int, base: Row, c: int)
    requires |row| == |base|
    ensures Term(l, Combine(m, row, b, base), c) == Term(Coef(l, m), row, c) + Term(Coef(l, b), base, c)
  {
    RealCombine(l, m, Entry(row, c), b, Entry(base, c));
  }

  lemma {:induction false} CombCombined(l: seq<real>, a': Matrix, a: Matrix, m: seq<int>, b: seq<int>, base: Row,
                                        c: int)
    requires |l| == |a'| == |a| == |m| == |b|
    requires forall r :: 0 <= r < |a| ==> |a[r]| == |base| && a'[r] == Combine(m[r], a[r], b[r], base)
    ensures Comb(l, a', c) == Comb(Times(l, m), a, c) + Term(Weighted(l, b), base, c)
  {
    if a == [] {
      assert Comb(Times(l, m), a, c) == 0.0 && Weighted(l, b) == 0.0;
    } else {
      var k := |a| - 1;
      CombCombined(l[..k], a'[..k], a[..k], m[..k], b[..k], base, c);
      TimesTake(l, m, k);
      WeightedPrefix(l, l[..k], b[..k]);
      CombineEntry(l[k], m[k], a[k], b[k], base, c);
      TermSum(Weighted(l, b[..k]), Coef(l[k], b[k]), base, c);
      assert Comb(Times(l, m), a, c) == Comb(Times(l, m)[..k], a[..k], c) + Term(Times(l, m)[k], a[k], c);
    }
  }

  lemma TermSum(w: real, d: real, row: Row, c: int)
    ensures Term(w + d, row, c) == Term(w, row, c) + Term(d, row, c)
  {
  }

  lemma {:induction false} WeightedPrefix(l: seq<real>, l': seq<real>, b: seq<int>)
    requires |b| <= |l| && |b| <= |l'| && forall r :: 0 <= r < |b| ==> l[r] == l'[r]
    ensures Weighted(l, b) == Weighted(l', b)
  {
    if b != [] { WeightedPrefix(l, l', b[..|b| - 1]); }
  }

  // Coefficients over the rows before the row was absorbed.
  ghost function Lift(l: seq<real>, m: seq<int>, b: seq<int>): (l': seq<real>)
    requires |m| == |b| <= |l|
    ensures |l'| == |l| + 1
  {
    Times(l, m) + [Weighted(l, b)] + l[|m|..]
  }

  lemma CombLast(l: seq<real>, a: Matrix, w: real, row: Row, c: int)
    requires |l| == |a|
    ensures Comb(l + [w], a + [row], c) == Comb(l, a, c) + Term(w, row, c)
  {
    var l', a' := l + [w], a + [row];
    assert l'[..|l|] == l && a'[..|a|] == a && l'[|l|] == w && a'[|a|] == row;
  }

  lemma CombThree(l: seq<real>, a: Matrix, w: real, row: Row, l': seq<real>, a': Matrix, c: int)
    requires |l| == |a| && |l'| == |a'|
    ensures Comb(l + [w] + l', a + [row] + a', c) == Comb(l, a, c) + Term(w, row, c) + Comb(l', a', c)
  {
    CombAppend(l + [w], a + [row], l', a', c);
    CombLast(l, a, w, row, c);
  }

  lemma AbsorbComb(a: Matrix, t: nat, m: seq<int>, b: seq<int>, l: seq<real>, c: int)
    requires t < |a| && |m| == |b| == t && forall r :: 0 <= r < |a| ==> |a[r]| == |a[t]|
    requires |l| == |a| - 1
    ensures Comb(l, Absorb(a, t, m, b), c) == Comb(Lift(l, m, b), a, c)
  {
    var a' := Absorb(a, t, m, b);
    assert l == l[..t] + l[t..] && a' == a'[..t] + a[t + 1..];
    CombAppend(l[..t], a'[..t], l[t..], a[t + 1..], c);
    CombCombined(l[..t], a'[..t], a[..t], m, b, a[t], c);
    TimesTake(l, m, t);
    assert m[..t] == m;
    WeightedPrefix(l, l[..t], b);
    assert a == a[..t] + [a[t]] + a[t + 1..];
    CombThree(Times(l, m), a[..t], Weighted(l, b), a[t], l[t..], a[t + 1..], c);
  }

  lemma ScaleComb(a: Matrix, m: seq<int>, l: seq<real>, c: int)
    requires |m| <= |a| == |l|
    ensures Comb(l, ScaleRows(a, m), c) == Comb(Times(l, m) + l[|m|..], a, c)
  {
    var t, a' := |m|, ScaleRows(a, m);
    assert l == l[..t] + l[t..] && a' == a'[..t] + a[t..];
    CombAppend(l[..t], a'[..t], l[t..], a[t..], c);
    CombScaled(l[..t], a'[..t], a[..t], m, c);
    TimesTake(l, m, t);
    assert m[..t] == m && a == a[..t] + a[t..];
    CombAppend(Times(l, m), a[..t], l[t..], a[t..], c);
  }

  lemma {:induction false} CombScaled(l: seq<real>, a': Matrix, a: Matrix, m: seq<int>, c: int)
    requires |l| == |a'| == |a| == |m|
    requires forall r :: 0 <= r < |a| ==> a'[r] == ScaleVec(m[r], a[r])
    ensures Comb(l, a', c) == Comb(Times(l, m), a, c)
  {
    if a != [] {
      var k := |a| - 1;
      CombScaled(l[..k], a'[..k], a[..k], m[..k], c);
      TimesTake(l, m, k);
      RealCombine(l[k], m[k], Entry(a[k], c), 0, 0);
      assert Term(l[k], a'[k], c) == Term(Times(l, m)[k], a[k], c);
    }
  }

  // Absorbing a row only loses combinations, ...
  lemma AbsorbShrinks(a: Matrix, t: nat, m: seq<int>, b: seq<int>, v: seq<real>)
    requires t < |a| && |m| == |b| == t && forall r :: 0 <= r < |a| ==> |a[r]| == |a[t]|
    requires InSpan(v, Absorb(a, t, m, b))
    ensures InSpan(v, a)
  {
    var l :| Combines(l, Absorb(a, t, m, b), v);
    forall c | 0 <= c < |v| ensures Comb(Lift(l, m, b), a, c) == v[c] { AbsorbComb(a, t, m, b, l, c); }
    assert Combines(Lift(l, m, b), a, v);
  }

  // ... and keeps those in which the row has the right weight.
  lemma AbsorbKeeps(a: Matrix, t: nat, m: seq<int>, b: seq<int>, l: seq<real>, v: seq<real>)
    requires t < |a| && |m| == |b| == t && forall r :: 0 <= r < |a| ==> |a[r]| == |a[t]|
    requires Combines(l, a, v) && NonZero(m)
    requires Weighted(Over(l, m), b) == l[t]
    ensures InSpan(v, Absorb(a, t, m, b))
  {
    var l' := Over(l, m) + l[t + 1..];
    WeightedPrefix(Over(l, m), l', b);
    assert Lift(l', m, b) == l by {
      forall r | 0 <= r < t ensures Times(l', m)[r] == l[r] { RealCancel(l[r], m[r] as real); }
      assert Times(l', m) == l[..t];
      assert l == l[..t] + [l[t]] + l[t + 1..];
    }
    forall c | 0 <= c < |v| ensures Comb(l', Absorb(a, t, m, b), c) == v[c] { AbsorbComb(a, t, m, b, l', c); }
    assert Combines(l', Absorb(a, t, m, b), v);
  }

  lemma RealCancel(l: real, m: real)
    requires m != 0.0
    ensures l / m * m == l
  {
  }

  lemma ScaleSpan(a: Matrix, m: seq<int>, v: seq<real>)
    requires |m| <= |a| && NonZero(m)
    ensures InSpan(v, ScaleRows(a, m)) <==> InSpan(v, a)
  {
    var t := |m|;
    if InSpan(v, ScaleRows(a, m)) {
      var l :| Combines(l, ScaleRows(a, m), v);
      forall c | 0 <= c < |v| ensures Comb(Times(l, m) + l[t..], a, c) == v[c] { ScaleComb(a, m, l, c); }
      assert Combines(Times(l, m) + l[t..], a, v);
    }
    if InSpan(v, a) {
      var l :| Combines(l, a, v);
      var l' := Over(l, m) + l[t..];
      assert Times(l', m) + l'[t..] == l by {
        forall r | 0 <= r < t ensures Times(l', m)[r] == l[r] { RealCancel(l[r], m[r] as real); }
        assert Times(l', m) == l[..t] && l == l[..t] + l[t..];
      }
      forall c | 0 <= c < |v| ensures Comb(l', ScaleRows(a, m), c) == v[c] { ScaleComb(a, m, l', c); }
      assert Combines(l', ScaleRows(a, m), v);
    }
  }

  /** Reduced echelon form from the last column, with the given pivot columns. */

  ghost predicate PivotAt(row: Row, p: int, n: nat) {
    |row| == n && 0 <= p < n && row[p] != 0 && forall c :: p < c < n ==> row[c] == 0
  }

  ghost predicate Decreasing(p: seq<int>) { forall q, r :: 0 <= q < r < |p| ==> p[q] > p[r] }

  ghost predicate Reduced(a: Matrix, p: seq<int>)
    requires |p| == |a|
  {
    forall q, r :: 0 <= q < |a| && 0 <= r < |a| && q != r ==> Entry(a[q], p[r]) == 0
  }

  ghost predicate Echelon(a: Matrix, p: seq<int>, n: nat) {
    |p| == |a| && (forall r :: 0 <= r < |a| ==> PivotAt(a[r], p[r], n)) && Decreasing(p) && Reduced(a, p)
  }

  ghost predicate IsEchelon(a: Matrix, n: nat) { exists p :: Echelon(a, p, n) }

  lemma AbsorbEchelon(a: Matrix, p: seq<int>, n: nat, t: nat, m: seq<int>, b: seq<int>)
    requires Echelon(a, p, n) && t < |a| && |m| == |b| == t && NonZero(m)
    ensures Echelon(Absorb(a, t, m, b), Without(p, t), n)
  {
    var a', p' := Absorb(a, t, m, b), Without(p, t);
    forall r | 0 <= r < |a'| ensures PivotAt(a'[r], p'[r], n) {
      if r < t { AbsorbPivot(a, p, n, t, r, m[r], b[r]); }
    }
    forall q, r | 0 <= q < |a'| && 0 <= r < |a'| && q != r ensures Entry(a'[q], p'[r]) == 0 {
      AbsorbClean(a, p, n, t, m, b, q, if r < t then r else r + 1);
    }
  }

  lemma AbsorbClean(a: Matrix, p: seq<int>, n: nat, t: nat, m: seq<int>, b: seq<int>, q: nat, r: nat)
    requires Echelon(a, p, n) && t < |a| && |m| == |b| == t && q < |a| - 1 && r < |a|
    requires r != t && r != if q < t then q else q + 1
    ensures Entry(Absorb(a, t, m, b)[q], p[r]) == 0
  {
    assert Entry(a[t], p[r]) == 0 && Entry(a[if q < t then q else q + 1], p[r]) == 0;
  }

  lemma AbsorbPivot(a: Matrix, p: seq<int>, n: nat, t: nat, r: nat, m: int, b: int)
    requires Echelon(a, p, n) && r < t < |a| && m != 0
    ensures PivotAt(Combine(m, a[r], b, a[t]), p[r], n)
  {
    assert PivotAt(a[r], p[r], n) && PivotAt(a[t], p[t], n) && p[r] > p[t];
  }

  lemma ScaleEchelon(a: Matrix, p: seq<int>, n: nat, m: seq<int>)
    requires Echelon(a, p, n) && |m| <= |a| && NonZero(m)
    ensures Echelon(ScaleRows(a, m), p, n)
  {
    var a' := ScaleRows(a, m);
    forall r | 0 <= r < |a| ensures PivotAt(a'[r], p[r], n) {
      assert PivotAt(a[r], p[r], n);
    }
    forall q, r | 0 <= q < |a| && 0 <= r < |a| && q != r ensures Entry(a'[q], p[r]) == 0 {
      assert Entry(a[q], p[r]) == 0;
    }
  }
}
