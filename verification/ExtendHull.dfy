/** The affine hull of the integer points of a bounded set, one point at a time. */
module ExtendHull {
  import opened Arith
  import opened QuasiAffine
  import opened Wrappers
  import opened RowSpan
  import opened AffineHull

  // A point, with a leading 1 for the constant terms.
  type Point = seq<int>

  // The tableau of a set: which points it holds, and a search for an integer point
  // that satisfies given equalities and one inequality e >= 0.
  datatype Solver = Solver(contains: Point -> bool, sample: (Matrix, Row) -> Option<Point>)

  ghost predicate IsIn(solver: Solver, x: Point, n: nat) {
    0 < n == |x| && x[0] == 1 && solver.contains(x)
  }

  predicate Satisfies(a: Matrix, x: Point) {
    forall r :: 0 <= r < |a| ==> Zero(a[r], x)
  }

  predicate Zero(row: Row, x: Point) { |row| == |x| && Dot(row, x) == 0 }

  ghost predicate Sound(solver: Solver, n: nat) {
    forall a, e {:trigger solver.sample(a, e)} :: IsMatrix(a, n) && |e| == n ==>
      match solver.sample(a, e)
      case Some(x) => IsIn(solver, x, n) && Satisfies(a, x) && Dot(e, x) >= 0
      case None => forall x :: IsIn(solver, x, n) && Satisfies(a, x) ==> Dot(e, x) < 0
  }

  // An equality with real coefficients.
  ghost function Value(v: seq<real>, x: Point): real
    requires |v| <= |x|
  {
    if v == [] then 0.0
    else
      var k := |v| - 1;
      Value(v[..k], x) + Coef(v[k], x[k])
  }

  ghost predicate Vanishes(v: seq<real>, x: Point) { |v| == |x| && Value(v, x) == 0.0 }

  ghost predicate VanishesOn(v: seq<real>, points: seq<Point>) {
    forall i :: 0 <= i < |points| ==> Vanishes(v, points[i])
  }

  ghost predicate VanishesOnSet(v: seq<real>, solver: Solver, n: nat) {
    forall x :: IsIn(solver, x, n) ==> Vanishes(v, x)
  }

  // The rows span exactly the equalities that hold at all the points.
  ghost predicate HullOf(a: Matrix, points: seq<Point>, n: nat) {
    forall v :: |v| == n ==> (InSpan(v, a) <==> VanishesOn(v, points))
  }

  ghost predicate AllIn(points: seq<Point>, solver: Solver, n: nat) {
    forall i :: 0 <= i < |points| ==> IsIn(solver, points[i], n)
  }

  /** Combinations of rows that vanish at a point vanish there. */

  lemma ValueTerm(w: real, w': real, l: real, y: int, x: int)
    requires w == w' + Coef(l, y)
    ensures Coef(w, x) == Coef(w', x) + Coef(l, y * x)
  {
    RealTimes(y, x);
    RealProduct(w', l, y as real, x as real);
  }

  lemma RealProduct(w: real, l: real, y: real, x: real)
    ensures (w + l * y) * x == w * x + l * (y * x)
  {
  }

  lemma CoefPlus(l: real, x: int, y: int)
    ensures Coef(l, x + y) == Coef(l, x) + Coef(l, y)
  {
    CoefMinus(l, x + y, y);
  }

  lemma {:induction false} ValueOfSum(v: seq<real>, v': seq<real>, l: real, row: Row, x: Point)
    requires |v| == |v'| == |row| <= |x| && forall c :: 0 <= c < |v| ==> v[c] == v'[c] + Term(l, row, c)
    ensures Value(v, x) == Value(v', x) + Coef(l, Dot(row, x))
  {
    if v != [] {
      var k := |v| - 1;
      forall c | 0 <= c < k ensures v[..k][c] == v'[..k][c] + Term(l, row[..k], c) {
        assert v[c] == v'[c] + Term(l, row, c);
      }
      ValueOfSum(v[..k], v'[..k], l, row[..k], x);
      assert v[k] == v'[k] + Term(l, row, k);
      ValueTerm(v[k], v'[k], l, row[k], x[k]);
      CoefPlus(l, Dot(row[..k], x), row[k] * x[k]);
    }
  }

  lemma {:induction false} ValueOfZeros(v: seq<real>, x: Point)
    requires |v| <= |x| && forall c :: 0 <= c < |v| ==> v[c] == 0.0
    ensures Value(v, x) == 0.0
  {
    if v != [] { ValueOfZeros(v[..|v| - 1], x); }
  }

  lemma {:induction false} CombinationVanishes(l: seq<real>, a: Matrix, v: seq<real>, x: Point)
    requires Combines(l, a, v) && |v| == |x| && Satisfies(a, x)
    ensures Vanishes(v, x)
  {
    if a == [] {
      forall c | 0 <= c < |v| ensures v[c] == 0.0 { assert Comb(l, a, c) == v[c]; }
      ValueOfZeros(v, x);
    } else {
      var k := |a| - 1;
      var v' := seq(|v|, c requires 0 <= c < |v| => Comb(l[..k], a[..k], c));
      forall r | 0 <= r < k ensures Zero(a[..k][r], x) { assert Zero(a[r], x); }
      CombinationVanishes(l[..k], a[..k], v', x);
      assert Zero(a[k], x);
      forall c | 0 <= c < |v| ensures v[c] == v'[c] + Term(l[k], a[k], c) { assert Comb(l, a, c) == v[c]; }
      ValueOfSum(v, v', l[k], a[k], x);
    }
  }

  // A row as an equality with real coefficients, in the span of its matrix.
  ghost function ToReal(row: Row): (v: seq<real>)
    ensures |v| == |row| && forall c :: 0 <= c < |row| ==> v[c] == row[c] as real
  {
    seq(|row|, c requires 0 <= c < |row| => row[c] as real)
  }

  lemma RowVanishes(row: Row, x: Point)
    requires |row| == |x|
    ensures Vanishes(ToReal(row), x) <==> Zero(row, x)
  {
    var zeros := seq(|row|, c => 0.0);
    forall c | 0 <= c < |row| ensures ToReal(row)[c] == zeros[c] + Term(1.0, row, c) {}
    ValueOfSum(ToReal(row), zeros, 1.0, row, x);
    ValueOfZeros(zeros, x);
    assert Coef(1.0, Dot(row, x)) == Dot(row, x) as real;
  }

  ghost function Unit(k: nat, r: nat): (l: seq<real>)
    ensures |l| == k && forall q :: 0 <= q < k ==> l[q] == if q == r then 1.0 else 0.0
  {
    seq(k, q => if q == r then 1.0 else 0.0)
  }

  lemma {:induction false} CombUnit(a: Matrix, r: nat, c: int)
    requires r < |a|
    ensures Comb(Unit(|a|, r), a, c) == Entry(a[r], c) as real
  {
    var k := |a| - 1;
    if r == k {
      CombZeros(Unit(|a|, r)[..k], a[..k], c);
    } else {
      assert Unit(|a|, r)[..k] == Unit(k, r);
      CombUnit(a[..k], r, c);
    }
  }

  lemma {:induction false} CombZeros(l: seq<real>, a: Matrix, c: int)
    requires |l| == |a| && forall q :: 0 <= q < |a| ==> l[q] == 0.0
    ensures Comb(l, a, c) == 0.0
  {
    if a != [] { CombZeros(l[..|a| - 1], a[..|a| - 1], c); }
  }

  lemma RowInSpan(a: Matrix, r: nat)
    requires r < |a|
    ensures InSpan(ToReal(a[r]), a)
  {
    forall c | 0 <= c < |a[r]| ensures Comb(Unit(|a|, r), a, c) == ToReal(a[r])[c] { CombUnit(a, r, c); }
    assert Combines(Unit(|a|, r), a, ToReal(a[r]));
  }

  /** The equalities of a single point. */

  function PointRow(x: Point, i: nat): (row: Row)
    requires 0 < i < |x|
    ensures |row| == |x| && forall c :: 0 <= c < |x| ==> row[c] == if c == 0 then -x[i] else if c == i then 1 else 0
  {
    seq(|x|, c requires 0 <= c < |x| => if c == 0 then -x[i] else if c == i then 1 else 0)
  }

  function PointRows(x: Point): (a: Matrix)
    requires x != []
    ensures |a| == |x| - 1 && forall k :: 0 <= k < |a| ==> a[k] == PointRow(x, |x| - 1 - k)
  {
    seq(|x| - 1, k requires 0 <= k < |x| - 1 => PointRow(x, |x| - 1 - k))
  }

  lemma PointRowsEchelon(x: Point)
    requires x != []
    ensures IsEchelon(PointRows(x), |x|)
  {
    var n, a := |x|, PointRows(x);
    var p := seq(n - 1, k => n - 1 - k);
    forall r | 0 <= r < |a| ensures PivotAt(a[r], p[r], n) {}
    forall q, r | 0 <= q < |a| && 0 <= r < |a| && q != r ensures Entry(a[q], p[r]) == 0 {}
    assert Echelon(a, p, n);
  }

  lemma {:induction false} PointRowPrefix(x: Point, i: nat, k: nat)
    requires 0 < i < |x| && k <= |x| && x[0] == 1
    ensures Dot(PointRow(x, i)[..k], x) == if 0 < k <= i then -x[i] else 0
  {
    if k > 0 {
      PointRowPrefix(x, i, k - 1);
      assert PointRow(x, i)[..k][..k - 1] == PointRow(x, i)[..k - 1];
    }
  }

  lemma PointSatisfies(x: Point)
    requires x != [] && x[0] == 1
    ensures Satisfies(PointRows(x), x)
  {
    forall k | 0 <= k < |x| - 1 ensures Zero(PointRows(x)[k], x) {
      var row := PointRow(x, |x| - 1 - k);
      PointRowPrefix(x, |x| - 1 - k, |x|);
      assert row[..|x|] == row;
    }
  }

  // The constant column of the combination that takes v[c] times the row of c.
  lemma {:induction false} PointConstant(v: seq<real>, x: Point, k: nat)
    requires |v| == |x| && x != [] && x[0] == 1 && k < |x|
    ensures Comb(PointWeights(v)[..k], PointRows(x)[..k], 0) == Value(v[..|x| - k], x) - Value(v, x)
  {
    var n, l, a := |x|, PointWeights(v), PointRows(x);
    if k == 0 {
      assert v[..n] == v;
    } else {
      PointConstant(v, x, k - 1);
      assert l[..k][..k - 1] == l[..k - 1] && a[..k][..k - 1] == a[..k - 1];
      assert v[..n - k + 1][..n - k] == v[..n - k];
      assert l[k - 1] == v[n - k] && a[k - 1] == PointRow(x, n - k);
      CoefNegate(v[n - k], x[n - k]);
    }
  }

  lemma CoefNegate(w: real, x: int)
    ensures Coef(w, -x) == -Coef(w, x)
  {
    CoefMinus(w, 0, x);
  }

  ghost function PointWeights(v: seq<real>): (l: seq<real>)
    requires v != []
    ensures |l| == |v| - 1 && forall k :: 0 <= k < |l| ==> l[k] == v[|v| - 1 - k]
  {
    seq(|v| - 1, k requires 0 <= k < |v| - 1 => v[|v| - 1 - k])
  }

  lemma PointHull(x: Point, n: nat)
    requires 0 < n == |x| && x[0] == 1
    ensures HullOf(PointRows(x), [x], n)
  {
    PointSatisfies(x);
    forall v | |v| == n ensures InSpan(v, PointRows(x)) <==> VanishesOn(v, [x]) {
      if InSpan(v, PointRows(x)) {
        var l :| Combines(l, PointRows(x), v);
        CombinationVanishes(l, PointRows(x), v, x);
      }
      if VanishesOn(v, [x]) {
        assert Vanishes(v, [x][0]);
        PointSpans(v, x);
      }
    }
  }

  lemma PointSpans(v: seq<real>, x: Point)
    requires x != [] && x[0] == 1 && Vanishes(v, x)
    ensures InSpan(v, PointRows(x))
  {
    var n, l, a := |x|, PointWeights(v), PointRows(x);
    forall c | 0 <= c < n ensures Comb(l, a, c) == v[c] {
      if c == 0 {
        PointConstant(v, x, n - 1);
        assert l[..n - 1] == l && a[..n - 1] == a && v[..1][..0] == [];
        assert Value(v[..1], x) == v[0];
      } else {
        CombSingle(l, a, n - 1 - c, c);
      }
    }
    assert Combines(l, a, v);
  }

  // isl_basic_set_from_vec
  method FromVec(x: Point) returns (s: BasicSet)
    requires x != []
    ensures fresh(s) && fresh(s.eq) && s.nEq <= s.eq.Length && s.Rows() == PointRows(x)
  {
    var rows: Matrix := [];
    for i := |x| - 1 downto 0
      invariant |rows| == |x| - 1 - i
      invariant forall k :: 0 <= k < |rows| ==> rows[k] == PointRow(x, |x| - 1 - k)
    {
      rows := rows + [PointRow(x, i + 1)];
    }
    s := new BasicSet(rows);
  }

  /** Adding a point to a hull. */

  ghost predicate Hull(s: BasicSet, points: seq<Point>, solver: Solver, n: nat)
    reads s, s.eq
  {
    && s.nEq <= s.eq.Length && IsEchelon(s.Rows(), n) && HullOf(s.Rows(), points, n)
    && AllIn(points, solver, n) && points != []
  }

  lemma JoinHull(a: Matrix, points: seq<Point>, x: Point, a': Matrix, n: nat)
    requires 0 < n == |x| && x[0] == 1 && HullOf(a, points, n)
    requires forall v :: |v| == n ==> (InSpan(v, a') <==> InSpan(v, a) && InSpan(v, PointRows(x)))
    ensures HullOf(a', points + [x], n)
  {
    PointHull(x, n);
    forall v | |v| == n ensures InSpan(v, a') <==> VanishesOn(v, points + [x]) {
      assert InSpan(v, PointRows(x)) <==> VanishesOn(v, [x]);
      VanishesOnJoin(v, points, x);
    }
  }

  lemma VanishesOnJoin(v: seq<real>, points: seq<Point>, x: Point)
    ensures VanishesOn(v, points + [x]) <==> VanishesOn(v, points) && VanishesOn(v, [x])
  {
    var all := points + [x];
    if VanishesOn(v, all) {
      forall i | 0 <= i < |points| ensures Vanishes(v, points[i]) { assert Vanishes(v, all[i]); }
      assert Vanishes(v, all[|points|]);
    }
    if VanishesOn(v, points) && VanishesOn(v, [x]) {
      assert Vanishes(v, [x][0]);
    }
  }

  method AddPoint(hull: BasicSet, x: Point, ghost points: seq<Point>, solver: Solver, n: nat)
    requires Hull(hull, points, solver, n) && IsIn(solver, x, n)
    modifies hull`nEq, hull.eq
    ensures Hull(hull, points + [x], solver, n)
    ensures NoLarger(old(hull.Rows()), hull.Rows(), n)
  {
    var point := FromVec(x);
    PointRowsEchelon(x);
    ghost var a := hull.Rows();
    var row := AffineHull.AffineHull(hull, point, n);
    JoinHull(a, points, x, hull.Rows(), n);
  }

  /** outside_point: a point of the set off the hyperplane of an equality of the hull. */

  ghost function Squares(row: Row): (s: int)
    ensures s >= 0
  {
    if |row| <= 1 then 0
    else
      var k := |row| - 1;
      SquareNonneg(row[k]);
      Squares(row[..k]) + row[k] * row[k]
  }

  lemma SquareNonneg(x: int)
    ensures x * x >= 0 && (x != 0 ==> x * x > 0)
  {
  }

  lemma {:induction false} SquaresPositive(row: Row, c: nat)
    requires 0 < c < |row| && row[c] != 0
    ensures Squares(row) > 0
  {
    var k := |row| - 1;
    SquareNonneg(row[k]);
    if c < k { SquaresPositive(row[..k], c); }
  }

  // The point one normal of the equality further, up or down.
  function Moved(known: Point, row: Row, up: bool): (x: Point)
    requires |known| == |row| > 0
    ensures |x| == |row| && x[0] == 1
    ensures forall c :: 0 < c < |row| ==> x[c] == known[c] + if up then row[c] else -row[c]
  {
    seq(|row|, c requires 0 <= c < |row| => if c == 0 then 1 else known[c] + if up then row[c] else -row[c])
  }

  lemma {:induction false} DotMoved(row: Row, known: Point, x: Point, up: bool)
    requires 0 < |row| <= |known| && |row| <= |x| && known[0] == x[0]
    requires forall c :: 0 < c < |row| ==> x[c] == known[c] + if up then row[c] else -row[c]
    ensures Dot(row, x) == Dot(row, known) + if up then Squares(row) else -Squares(row)
  {
    var k := |row| - 1;
    if k == 0 {
      assert row[..0] == [];
    } else {
      DotMoved(row[..k], known, x, up);
      MovedTerm(row[k], known[k], x[k], up);
    }
  }

  lemma MovedTerm(r: int, k: int, x: int, up: bool)
    requires x == k + if up then r else -r
    ensures r * x == r * k + if up then r * r else -(r * r)
  {
  }

  // The inequality that asks for a point off the hyperplane.
  function Shifted(row: Row, up: bool): (e: Row)
    requires row != []
    ensures |e| == |row|
  {
    var e := if up then row else ScaleVec(-1, row);
    e[0 := e[0] - 1]
  }

  lemma DotShifted(row: Row, up: bool, x: Point)
    requires 0 < |row| <= |x| && x[0] == 1
    ensures Dot(Shifted(row, up), x) == (if up then Dot(row, x) else -Dot(row, x)) - 1
  {
    DotScale(-1, row, x);
    var e := if up then row else ScaleVec(-1, row);
    DotUpdate(e, x, 0, e[0] - 1);
  }

  // An equality of an echelon system that holds at a point has a normal.
  lemma HasNormal(row: Row, p: int, x: Point)
    requires PivotAt(row, p, |x|) && x != [] && x[0] == 1 && Zero(row, x)
    ensures p > 0
  {
    if p == 0 {
      DotUpdate(row, x, 0, 0);
      DotZeros(row[0 := 0], x);
    }
  }

  method OutsidePoint(hull: BasicSet, j: nat, up: bool, known: Point, added: Matrix, solver: Solver, n: nat)
    returns (r: Option<Point>)
    requires Sound(solver, n) && IsIn(solver, known, n) && IsMatrix(added, n)
    requires forall x :: IsIn(solver, x, n) ==> Satisfies(added, x)
    requires j < hull.nEq <= hull.eq.Length && Zero(hull.eq[j], known) && exists p :: PivotAt(hull.eq[j], p, n)
    modifies hull.eq
    ensures hull.eq[..] == old(hull.eq[..])
    ensures r.Some? ==> IsIn(solver, r.value, n) && !Zero(hull.eq[j], r.value)
    ensures r.None? ==> forall x :: IsIn(solver, x, n) ==> if up then Dot(hull.eq[j], x) <= 0
            else Dot(hull.eq[j], x) >= 0
  {
    var row := hull.eq[j];
    ghost var p :| PivotAt(row, p, n);
    HasNormal(row, p, known);
    var moved := Moved(known, row, up);
    DotMoved(row, known, moved, up);
    SquaresPositive(row, p);
    if solver.contains(moved) && Satisfies(added, moved) { return Some(moved); }

    if !up { hull.eq[j] := ScaleVec(-1, hull.eq[j]); }
    hull.eq[j] := hull.eq[j][0 := hull.eq[j][0] - 1];
    assert hull.eq[j] == Shifted(row, up);
    r := solver.sample(added, hull.eq[j]);
    hull.eq[j] := hull.eq[j][0 := hull.eq[j][0] + 1];
    if !up { hull.eq[j] := ScaleVec(-1, hull.eq[j]); }
    assert hull.eq[j] == row;

    assert IsMatrix(added, n) && |Shifted(row, up)| == n;
    if r.Some? {
      DotShifted(row, up, r.value);
    } else {
      forall x | IsIn(solver, x, n) ensures if up then Dot(row, x) <= 0 else Dot(row, x) >= 0 {
        DotShifted(row, up, x);
      }
    }
  }

  /** add_adjacent_points */

  ghost predicate NoLarger(a: Matrix, a': Matrix, n: nat) {
    |a'| <= |a| && (|a'| == |a| ==> SameSpan(a, a', n))
  }

  lemma NoLargerChain(a: Matrix, a': Matrix, a'': Matrix, n: nat)
    requires NoLarger(a, a', n) && NoLarger(a', a'', n)
    ensures NoLarger(a, a'', n)
  {
    if |a''| == |a| {
      forall v | |v| == n ensures InSpan(v, a'') <==> InSpan(v, a) { assert InSpan(v, a'') <==> InSpan(v, a'); }
    }
  }

  // One neighbour of the sample: sample plus or minus the i-th unit vector.
  method AddNeighbour(hull: BasicSet, sample: array<int>, i: nat, step: int, ghost points: seq<Point>,
                      solver: Solver, n: nat)
    returns (added: bool, ghost points': seq<Point>)
    requires Hull(hull, points, solver, n) && IsIn(solver, sample[..], n) && i < n - 1
    modifies hull`nEq, hull.eq, sample
    ensures Hull(hull, points', solver, n) && points <= points'
    ensures sample[..] == old(sample[..])
    ensures NoLarger(old(hull.Rows()), hull.Rows(), n)
  {
    points' := points;
    added := false;
    sample[1 + i] := sample[1 + i] + step;
    var contains := Satisfies(hull.eq[..hull.nEq], sample[..]);
    if !contains {
      added := solver.contains(sample[..]);
      if added {
        AddPoint(hull, sample[..], points', solver, n);
        points' := points' + [sample[..]];
      }
    }
    sample[1 + i] := sample[1 + i] - step;
  }

  method AddAdjacentPoints(hull: BasicSet, sample: array<int>, ghost points: seq<Point>, solver: Solver, n: nat)
    returns (ghost points': seq<Point>)
    requires Hull(hull, points, solver, n) && IsIn(solver, sample[..], n)
    modifies hull`nEq, hull.eq, sample
    ensures Hull(hull, points', solver, n) && points <= points'
    ensures sample[..] == old(sample[..])
    ensures NoLarger(old(hull.Rows()), hull.Rows(), n)
  {
    points' := points;
    for i := 0 to n - 1
      invariant sample[..] == old(sample[..])
      invariant Hull(hull, points', solver, n) && points <= points' && NoLarger(old(hull.Rows()), hull.Rows(), n)
    {
      var up := 0;
      while up <= 1
        invariant 0 <= up <= 2 && sample[..] == old(sample[..])
        invariant Hull(hull, points', solver, n) && points <= points' && NoLarger(old(hull.Rows()), hull.Rows(), n)
      {
        ghost var a := hull.Rows();
        var added;
        added, points' := AddNeighbour(hull, sample, i, if up == 1 then 1 else -1, points', solver, n);
        NoLargerChain(old(hull.Rows()), a, hull.Rows(), n);
        if added { break; }
        up := up + 1;
      }
    }
  }

  /** extend_affine_hull */

  lemma {:induction false} FewPivots(p: seq<int>, n: nat)
    requires Decreasing(p) && forall r :: 0 <= r < |p| ==> 0 < p[r] < n
    ensures |p| <= n - 1 || |p| == 0
    decreases |p|
  {
    if |p| > 0 {
      var k := |p| - 1;
      assert 0 < p[k] < n;
      if k > 0 {
        forall r | 0 <= r < k ensures p[r] - p[k] >= 1 {}
        var q := seq(k, r requires 0 <= r < k => p[r] - p[k]);
        FewPivots(q, n - p[k]);
      }
    }
  }

  lemma HullSize(a: Matrix, points: seq<Point>, n: nat)
    requires IsEchelon(a, n) && HullOf(a, points, n) && points != [] && 0 < n == |points[0]| && points[0][0] == 1
    ensures |a| <= n - 1
  {
    var p :| Echelon(a, p, n);
    forall r | 0 <= r < |a| ensures 0 < p[r] < n {
      assert PivotAt(a[r], p[r], n);
      RowHolds(a, points, n, r, 0);
      HasNormal(a[r], p[r], points[0]);
    }
    FewPivots(p, n);
  }

  // Each row holds at each point.
  lemma RowHolds(a: Matrix, points: seq<Point>, n: nat, r: nat, i: nat)
    requires HullOf(a, points, n) && r < |a| && |a[r]| == n && i < |points| && |points[i]| == n
    ensures Zero(a[r], points[i])
  {
    RowInSpan(a, r);
    assert VanishesOn(ToReal(a[r]), points);
    RowVanishes(a[r], points[i]);
  }

  // A point off one of the equalities makes the hull strictly larger.
  lemma StrictlyLarger(a: Matrix, a': Matrix, points: seq<Point>, x: Point, n: nat, j: nat)
    requires HullOf(a', points, n) && x in points && |x| == n && j < |a| && |a[j]| == n && !Zero(a[j], x)
    requires NoLarger(a, a', n)
    ensures |a'| < |a|
  {
    if |a'| == |a| {
      RowInSpan(a, j);
      assert InSpan(ToReal(a[j]), a');
      var i :| 0 <= i < |points| && points[i] == x;
      assert Vanishes(ToReal(a[j]), points[i]);
      RowVanishes(a[j], x);
    }
  }

  // When every row holds on the whole set, the rows span exactly what does.
  lemma HullComplete(a: Matrix, points: seq<Point>, solver: Solver, n: nat)
    requires HullOf(a, points, n) && AllIn(points, solver, n)
    requires forall x :: IsIn(solver, x, n) ==> Satisfies(a, x)
    ensures forall v :: |v| == n ==> (InSpan(v, a) <==> VanishesOnSet(v, solver, n))
  {
    forall v | |v| == n ensures InSpan(v, a) <==> VanishesOnSet(v, solver, n) {
      if InSpan(v, a) {
        var l :| Combines(l, a, v);
        forall x | IsIn(solver, x, n) ensures Vanishes(v, x) { CombinationVanishes(l, a, v, x); }
      }
      if VanishesOnSet(v, solver, n) {
        forall i | 0 <= i < |points| ensures Vanishes(v, points[i]) { assert IsIn(solver, points[i], n); }
      }
    }
  }

  // Looks for a point of the set off one of the equalities; those that all points
  // satisfy are added to the tableau.
  method FindOutside(hull: BasicSet, known: Point, added: Matrix, ghost points: seq<Point>, solver: Solver, n: nat)
    returns (r: Option<Point>, j: nat, added': Matrix)
    requires Sound(solver, n) && Hull(hull, points, solver, n) && known in points
    requires IsMatrix(added, n) && forall x :: IsIn(solver, x, n) ==> Satisfies(added, x)
    modifies hull.eq
    ensures hull.eq[..] == old(hull.eq[..])
    ensures IsMatrix(added', n) && forall x :: IsIn(solver, x, n) ==> Satisfies(added', x)
    ensures r.Some? ==> j < hull.nEq && IsIn(solver, r.value, n) && !Zero(hull.eq[j], r.value)
    ensures r.None? ==> forall x :: IsIn(solver, x, n) ==> Satisfies(hull.Rows(), x)
  {
    ghost var a := hull.Rows();
    ghost var p :| Echelon(a, p, n);
    ghost var i :| 0 <= i < |points| && points[i] == known;
    j, added' := 0, added;
    while j < hull.nEq
      invariant hull.eq[..] == old(hull.eq[..]) && j <= hull.nEq
      invariant IsMatrix(added', n) && forall x :: IsIn(solver, x, n) ==> Satisfies(added', x)
      invariant forall x, k :: IsIn(solver, x, n) && 0 <= k < j ==> Zero(a[k], x)
    {
      assert PivotAt(a[j], p[j], n) && hull.eq[j] == hull.eq[..][j] == a[j];
      RowHolds(a, points, n, j, i);
      r := OutsidePoint(hull, j, true, known, added', solver, n);
      if r.Some? { return; }
      assert hull.eq[j] == hull.eq[..][j] == a[j];
      r := OutsidePoint(hull, j, false, known, added', solver, n);
      if r.Some? { return; }
      assert hull.eq[j] == hull.eq[..][j] == a[j];
      added' := added' + [hull.eq[j]];
      j := j + 1;
    }
    r := None;
  }

  /** At most n - 1 rounds, each with a point that strictly lowers the number of
      equalities; the rows that are left span exactly the equalities that hold at every
      integer point of the set. */
  method ExtendAffineHull(hull: BasicSet, known: Point, adjacent: bool, ghost points: seq<Point>, solver: Solver,
                          n: nat)
    requires Sound(solver, n) && Hull(hull, points, solver, n) && known in points
    modifies hull`nEq, hull.eq
    ensures hull.nEq <= hull.eq.Length && IsEchelon(hull.Rows(), n)
    ensures forall v :: |v| == n ==> (InSpan(v, hull.Rows()) <==> VanishesOnSet(v, solver, n))
  {
    ghost var found := points;
    var added: Matrix := [];
    assert IsIn(solver, points[0], n);
    HullSize(hull.Rows(), points, n);
    for i := 0 to n - 1
      invariant Hull(hull, found, solver, n) && known in found
      invariant hull.nEq <= n - 1 - i
      invariant IsMatrix(added, n) && forall x :: IsIn(solver, x, n) ==> Satisfies(added, x)
    {
      ghost var a := hull.Rows();
      var r, j;
      r, j, added := FindOutside(hull, known, added, found, solver, n);
      assert hull.Rows() == a;
      if r.None? { break; }
      var x := r.value;
      if adjacent {
        var sample := new int[|x|](c requires 0 <= c < |x| => x[c]);
        assert sample[..] == x;
        found := AddAdjacentPoints(hull, sample, found, solver, n);
      }
      ghost var a' := hull.Rows();
      AddPoint(hull, x, found, solver, n);
      found := found + [x];
      NoLargerChain(a, a', hull.Rows(), n);
      StrictlyLarger(a, hull.Rows(), found, x, n, j);
    }
    HullComplete(hull.Rows(), found, solver, n);
  }

  // uset_affine_hull_bounded, from a known point of the set.
  method AffineHullBounded(known: Point, solver: Solver, n: nat) returns (hull: BasicSet)
    requires Sound(solver, n) && IsIn(solver, known, n)
    ensures hull.nEq <= hull.eq.Length && IsEchelon(hull.Rows(), n)
    ensures forall v :: |v| == n ==> (InSpan(v, hull.Rows()) <==> VanishesOnSet(v, solver, n))
  {
    hull := FromVec(known);
    PointRowsEchelon(known);
    PointHull(known, n);
    ghost var points := [known];
    var sample := new int[|known|](c requires 0 <= c < |known| => known[c]);
    assert sample[..] == known;
    points := AddAdjacentPoints(hull, sample, points, solver, n);
    assert points[0] == known;
    ExtendAffineHull(hull, known, true, points, solver, n);
  }
}
