/** An input on which the basis reduction counts a row as fixed that is not: the flag of an
    optimum that agrees on row i is kept when an integral multiple of row i is added. */
module StaleFlag {
  import opened QuasiAffine
  import opened BasisReduction

  // 1 <= x + y <= 2, 3 x + y <= 7, y - x <= 5
  predicate InPolygon(x: real, y: real) { 1.0 <= x + y <= 2.0 && 3.0 * x + y <= 7.0 && y - x <= 5.0 }

  // The values of m x + y at two points that agree on x differ by at most w, ...
  ghost predicate WidthGivenX(m: real, w: real) {
    forall x, y, y' :: InPolygon(x, y) && InPolygon(x, y') ==> (m * x + y) - (m * x + y') <= w
  }

  // ... and at any two points.
  ghost predicate WidthOf(m: real, w: real) {
    forall x, y, x', y' :: InPolygon(x, y) && InPolygon(x', y') ==> (m * x + y) - (m * x' + y') <= w
  }

  /** What a linear program solver finds for this polygon. */

  // x ranges from -2 to 3; x + y from 1 to 2.
  lemma Ranges()
    ensures InPolygon(-2.0, 3.0) && InPolygon(3.0, -2.0)
    ensures forall x, y :: InPolygon(x, y) ==> -2.0 <= x <= 3.0 && 1.0 <= x + y
  {
  }

  predicate Optimal(x: real) { InPolygon(x, 1.0 - x) && InPolygon(x, 2.0 - x) }

  // Given x, the width of y is 1; it is attained at x = -3/2 and at x = 5/2, the ends of the
  // optimal edge, and at both the flag is set.
  lemma WidthOfY()
    ensures WidthGivenX(0.0, 1.0)
    ensures InPolygon(-1.5, 2.5) && InPolygon(-1.5, 3.5) && IsFixed(Sample(2.5, 3.5))
    ensures InPolygon(2.5, -1.5) && InPolygon(2.5, -0.5) && IsFixed(Sample(-1.5, -0.5))
    ensures forall x :: Optimal(x) ==> -1.5 <= x <= 2.5
  {
    CeilAt(2.5, 3);
    CeilAt(-1.5, -1);
    assert (3.5).Floor == 3 && (-0.5).Floor == -1;
  }

  lemma CeilAt(x: real, n: int)
    requires n as real - 1.0 < x <= n as real
    ensures Ceil(x) == n
  {
  }

  // The optimal multiplier of x is 1, and no other.
  lemma Multiplier(m: real)
    ensures WidthOf(m, 1.0) <==> m == 1.0
  {
    if WidthOf(m, 1.0) {
      assert InPolygon(2.5, -0.5) && InPolygon(-2.0, 3.0) && InPolygon(-1.5, 3.5) && InPolygon(3.0, -2.0);
      assert (m * 2.5 + -0.5) - (m * -2.0 + 3.0) <= 1.0;
      assert (m * -1.5 + 3.5) - (m * 3.0 + -2.0) <= 1.0;
    }
  }

  function Answers(): Solver {
    Solver(
      (cuts, rows, o) => if cuts == [] && rows == [] && o == [1, 0] then Sample(-2.0, 3.0)
                         else if cuts == [] && rows == [[1, 0]] && o == [0, 1] then Sample(-1.5, -0.5)
                         else Sample(0.0, 0.0),
      (cuts, rows, o) => if cuts == [] && rows == [[1, 0]] && o == [0, 1] then [1.0] else [],
      row => 0.0,
      (cuts, o) => false,
      (cuts, rows, o, p) => true,
      (cuts, rows, o, a) => true,
      (cuts, o) => if cuts == [] && o == [1, 1] then 1.0 else 0.0,
      (cuts, o) => 0.0,
      x => |x| == 2 && InPolygon(x[0] as real, x[1] as real))
  }

  // Starting from the rows x and y, the first iteration cuts to x + y == 1 and counts that row
  // as fixed, although the polygon holds (0, 2).  All the answers that are asked for are those
  // shown above; the others do not matter.
  method FirstIterationLoses() returns (r: Reduction)
    ensures r.solver == Answers() && r.basis.Length == 2 && r.nZero0 == 0
    ensures r.basis[0] == [1, 1] && r.nZero == 1 && r.cuts == [[1, 1]]
    ensures r.solver.Inside([], [0, 1]) && r.solver.Inside([], [0, 2])
    ensures r.solver.Inside(r.cuts, [0, 1]) && !r.solver.Inside(r.cuts, [0, 2])
  {
    hide Answers, Sound, NonNegative, Settled, FlagOf, Reliable, SameLattice, SamePoints, NoPoints, Dot,
         IsFixed, NextTo;
    Lost();
    Asked();
    NextToOne();
    var s := Answers();
    r := new Reduction(s, [[1, 0], [0, 1]], 0, 2);
    assert r.basis[0] == r.B()[0] && r.basis[1] == r.B()[1];
    var stop := r.Start();
    assert r.B()[0..1] == [[1, 0]];
    ghost var mu, a, w, fixed, shift := 0, 0.0, 0.0, false, 0.0;
    stop, mu, a, w, fixed, shift := r.Step(false);
    assert a == 1.0 && mu == 1 && w == 1.0 && fixed;
    assert r.basis[0] == r.B()[0];
    assert r.cuts == [[1, 1]];
  }

  // The answers that are asked for.
  lemma Asked()
    ensures var s := Answers();
            && NonNegative(s) && s.width([], [], [1, 0]) == 5.0
            && s.width([], [[1, 0]], [0, 1]) == 1.0 && s.fixed([], [[1, 0]], [0, 1])
            && s.duals([], [[1, 0]], [0, 1]) == [1.0] && !s.emptyAfterCut([], [1, 1])
    ensures Combine(1, [0, 1], 1, [1, 0]) == [1, 1] && Whole(1.0)
  {
    WidthOfY();
    assert (1.0).Floor == 1;
  }

  lemma NextToOne()
    ensures forall m :: NextTo(m, 1.0) ==> m == 1
  {
  }

  lemma Lost()
    ensures var s := Answers();
            && s.Inside([], [0, 1]) && s.Inside([], [0, 2])
            && s.Inside([[1, 1]], [0, 1]) && !s.Inside([[1, 1]], [0, 2])
  {
    var s := Answers();
    CeilAt(1.0, 1);
    assert [] + [[1, 1]] == [[1, 1]] && s.CutValue([], [1, 1]) == 1;
    InsideNext(s, [], [1, 1], [0, 1]);
    InsideNext(s, [], [1, 1], [0, 2]);
    SumOf(0, 1);
    SumOf(0, 2);
  }

  lemma SumOf(x: int, y: int)
    ensures Dot([1, 1], [x, y]) == x + y
  {
    var p := [x, y];
    assert [1, 1][..1] == [1] && [1][..0] == [];
    assert Dot([], p) == 0 && Dot([1], p) == 1 * p[0] && Dot([1, 1], p) == Dot([1], p) + 1 * p[1];
  }
}
