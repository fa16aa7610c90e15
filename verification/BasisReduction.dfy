/** Generalized basis reduction: what its main loop keeps, for any LP solver. */
module BasisReduction {
  import opened QuasiAffine

  type Rows = seq<Vec>

  /** The lattice generated by the rows of a basis. */

  function ColumnOf(b: Rows, c: nat): (x: Vec)
    ensures |x| == |b| && forall r :: 0 <= r < |b| ==> x[r] == if c < |b[r]| then b[r][c] else 0
  {
    seq(|b|, r requires 0 <= r < |b| => if c < |b[r]| then b[r][c] else 0)
  }

  ghost predicate Generates(l: Vec, b: Rows, v: Vec) {
    |l| == |b| && forall c :: 0 <= c < |v| ==> Dot(l, ColumnOf(b, c)) == v[c]
  }

  ghost predicate InLattice(v: Vec, b: Rows) { exists l :: Generates(l, b, v) }

  ghost predicate SameLattice(b: Rows, b': Rows) { forall v :: InLattice(v, b) <==> InLattice(v, b') }

  lemma {:induction false} DotCommutes(x: Vec, y: Vec)
    requires |x| == |y|
    ensures Dot(x, y) == Dot(y, x)
  {
    if x != [] {
      var n := |x| - 1;
      DotCommutes(x[..n], y[..n]);
      DotPrefix(x[..n], y, y[..n]);
      DotPrefix(y[..n], x, x[..n]);
    }
  }

  // Entry j of x' has m times entry i added to it.
  ghost predicate Moved(x: Vec, x': Vec, i: nat, j: nat, m: int) {
    |x'| == |x| && i < |x| && j < |x| && i != j && x' == x[j := x[j] + m * x[i]]
  }

  lemma ColumnMoved(b: Rows, i: nat, j: nat, m: int, c: nat)
    requires i < |b| && j < |b| && i != j && |b[i]| == |b[j]|
    ensures Moved(ColumnOf(b, c), ColumnOf(b[j := Combine(1, b[j], m, b[i])], c), i, j, m)
  {
  }

  lemma DotMoved(l: Vec, x: Vec, x': Vec, i: nat, j: nat, m: int)
    requires |l| == |x| && Moved(x, x', i, j, m)
    ensures Dot(l, x') == Dot(l[i := l[i] + m * l[j]], x)
  {
    DotCommutes(l, x');
    DotUpdate(x, l, j, x'[j]);
    DotCommutes(x, l);
    DotUpdate(l, x, i, l[i] + m * l[j]);
    MovedWeight(m, x[j], x[i], l[j], l[i]);
  }

  // Adding m times row i to row j moves m times the weight of row j to row i.
  lemma WeightMoved(l: Vec, b: Rows, i: nat, j: nat, m: int, c: nat)
    requires |l| == |b| && i < |b| && j < |b| && i != j && |b[i]| == |b[j]|
    ensures Dot(l, ColumnOf(b[j := Combine(1, b[j], m, b[i])], c)) == Dot(l[i := l[i] + m * l[j]], ColumnOf(b, c))
  {
    ColumnMoved(b, i, j, m, c);
    DotMoved(l, ColumnOf(b, c), ColumnOf(b[j := Combine(1, b[j], m, b[i])], c), i, j, m);
  }

  lemma MovedWeight(m: int, xj: int, xi: int, lj: int, li: int)
    ensures (xj + m * xi - xj) * lj == (li + m * lj - li) * xi
  {
    assert (m * xi) * lj == (m * lj) * xi;
  }

  lemma AddRowShrinks(b: Rows, i: nat, j: nat, m: int, v: Vec)
    requires i < |b| && j < |b| && i != j && |b[i]| == |b[j]|
    requires InLattice(v, b[j := Combine(1, b[j], m, b[i])])
    ensures InLattice(v, b)
  {
    var l :| Generates(l, b[j := Combine(1, b[j], m, b[i])], v);
    var l' := l[i := l[i] + m * l[j]];
    forall c | 0 <= c < |v| ensures Dot(l', ColumnOf(b, c)) == v[c] { WeightMoved(l, b, i, j, m, c); }
    assert Generates(l', b, v);
  }

  lemma AddRowLattice(b: Rows, i: nat, j: nat, m: int)
    requires i < |b| && j < |b| && i != j && |b[i]| == |b[j]|
    ensures SameLattice(b, b[j := Combine(1, b[j], m, b[i])])
  {
    var b' := b[j := Combine(1, b[j], m, b[i])];
    forall v ensures InLattice(v, b) <==> InLattice(v, b') {
      if InLattice(v, b') { AddRowShrinks(b, i, j, m, v); }
      if InLattice(v, b) {
        assert b'[j := Combine(1, b'[j], -m, b'[i])] == b by { AddedBack(b[j], m, b[i]); }
        AddRowShrinks(b', i, j, -m, v);
      }
    }
  }

  lemma AddedBack(r: Vec, m: int, s: Vec)
    requires |r| == |s|
    ensures Combine(1, Combine(1, r, m, s), -m, s) == r
  {
    forall c | 0 <= c < |r| ensures Combine(1, Combine(1, r, m, s), -m, s)[c] == r[c] { Opposite(m, s[c]); }
  }

  lemma Opposite(m: int, x: int)
    ensures (-m) * x == -(m * x)
  {
  }

  function SwapRows(b: Rows, i: nat): (b': Rows)
    requires i + 1 < |b|
    ensures |b'| == |b|
  {
    b[i := b[i + 1]][i + 1 := b[i]]
  }

  lemma SwapLattice(b: Rows, i: nat)
    requires i + 1 < |b|
    ensures SameLattice(b, SwapRows(b, i))
  {
    forall v ensures InLattice(v, b) <==> InLattice(v, SwapRows(b, i)) {
      if InLattice(v, b) { SwapKeeps(b, i, v); }
      if InLattice(v, SwapRows(b, i)) {
        SwapKeeps(SwapRows(b, i), i, v);
        assert SwapRows(SwapRows(b, i), i) == b;
      }
    }
  }

  lemma SwapKeeps(b: Rows, i: nat, v: Vec)
    requires i + 1 < |b| && InLattice(v, b)
    ensures InLattice(v, SwapRows(b, i))
  {
    var l :| Generates(l, b, v);
    forall c | 0 <= c < |v| ensures Dot(SwapVec(l, i), ColumnOf(SwapRows(b, i), c)) == v[c] {
      DotSwap(l, ColumnOf(b, c), i);
      assert ColumnOf(SwapRows(b, i), c) == SwapVec(ColumnOf(b, c), i);
    }
    assert Generates(SwapVec(l, i), SwapRows(b, i), v);
  }

  lemma LatticeChain(b: Rows, b': Rows, b'': Rows)
    requires SameLattice(b, b') && SameLattice(b', b'')
    ensures SameLattice(b, b'')
  {
  }

  /** The LP solver.  It looks for two points of the polyhedron, cut to some hyperplanes, that
      agree on given rows and differ as much as possible on an objective. */

  // The values of the objective at such a pair of points.
  datatype Sample = Sample(low: real, high: real) {
    function Shifted(v: real): Sample { Sample(low + v, high + v) }

    predicate MovesTo(q: Sample) { q == Shifted(q.low - low) }
  }

  function Ceil(x: real): int { -((-x).Floor) }

  // is_fixed: there is at most one integer between the two values.
  predicate IsFixed(p: Sample) { p.high - p.low < 2.0 && Ceil(p.low) >= p.high.Floor }

  datatype Solver = Solver(
    sample: (Rows, Rows, Vec) -> Sample,            // cuts, rows, objective
    duals: (Rows, Rows, Vec) -> seq<real>,          // one for each row
    otherDual: int -> real,                         // what get_alpha reads outside the rows
    emptyAfterCut: (Rows, Vec) -> bool,
    // what the answers mean
    isSample: (Rows, Rows, Vec, Sample) -> bool,    // the values at some optimum
    isDual: (Rows, Rows, Vec, seq<real>) -> bool,   // an optimal dual solution
    lowest: (Rows, Vec) -> real,                    // the range of an objective
    highest: (Rows, Vec) -> real,
    contains: Vec -> bool                           // the integer points, before any cut
  ) {
    function width(cuts: Rows, rows: Rows, o: Vec): real { sample(cuts, rows, o).high - sample(cuts, rows, o).low }

    predicate fixed(cuts: Rows, rows: Rows, o: Vec) { IsFixed(sample(cuts, rows, o)) }

    // cut_lp_to_hyperplane: the smallest integer that is not below the range.
    function CutValue(cuts: Rows, b: Vec): int { Ceil(lowest(cuts, b)) }

    predicate OnCut(cuts: Rows, b: Vec, x: Vec) { |b| == |x| && Dot(b, x) == CutValue(cuts, b) }

    // The integer points that are left after the cuts.
    predicate Inside(cuts: Rows, x: Vec) {
      if cuts == [] then contains(x)
      else
        var n := |cuts| - 1;
        Inside(cuts[..n], x) && OnCut(cuts[..n], cuts[n], x)
    }
  }

  // All that the loop itself relies on.
  ghost predicate NonNegative(s: Solver) { forall cuts, rows, o :: s.width(cuts, rows, o) >= 0.0 }

  /** What the answers mean is only known of a solver that also obeys the laws of linear
      programming. */

  ghost predicate SolveLaw(s: Solver, cuts: Rows, rows: Rows, o: Vec) {
    && |s.duals(cuts, rows, o)| == |rows|
    && s.isDual(cuts, rows, o, s.duals(cuts, rows, o))
    && s.isSample(cuts, rows, o, s.sample(cuts, rows, o))
  }

  // Points that agree on b agree on its multiples.
  ghost predicate RowLaw(s: Solver, cuts: Rows, rows: Rows, b: Vec, o: Vec, m: int) {
    |b| == |o| ==> s.width(cuts, rows + [b], Combine(1, o, m, b)) == s.width(cuts, rows + [b], o)
  }

  // An optimal multiplier of a row may replace the row.
  ghost predicate DualLaw(s: Solver, cuts: Rows, rows: Rows, b: Vec, o: Vec, a: seq<real>, m: int) {
    |b| == |o| && s.isDual(cuts, rows + [b], o, a + [m as real]) ==>
      && s.width(cuts, rows, Combine(1, o, m, b)) == s.width(cuts, rows + [b], o)
      && s.isDual(cuts, rows, Combine(1, o, m, b), a)
  }

  // An optimum with the row is one without it then; its values move by m times that of the row.
  ghost predicate ShiftLaw(s: Solver, cuts: Rows, rows: Rows, b: Vec, o: Vec, a: seq<real>, m: int, p: Sample) {
    |b| == |o| && s.isDual(cuts, rows + [b], o, a + [m as real]) && s.isSample(cuts, rows + [b], o, p) ==>
      exists q :: s.isSample(cuts, rows, Combine(1, o, m, b), q) && p.MovesTo(q) && (m == 0 ==> q == p)
  }

  // A row without width does not constrain anything.
  ghost predicate ZeroLaw(s: Solver, cuts: Rows, rows: Rows, b: Vec, o: Vec) {
    s.width(cuts, rows, b) == 0.0 ==> s.width(cuts, rows + [b], o) == s.width(cuts, rows, o)
  }

  // After a cut to b the width of b is zero, and zero widths stay zero.
  ghost predicate CutLaw(s: Solver, cuts: Rows, b: Vec, rows: Rows, o: Vec) {
    o == b || s.width(cuts, rows, o) == 0.0 ==> s.width(cuts + [b], rows, o) == 0.0
  }

  // An optimum lies within the range of the objective; without rows it is the range.
  ghost predicate RangeLaw(s: Solver, cuts: Rows, rows: Rows, o: Vec, p: Sample) {
    && (s.isSample(cuts, rows, o, p) ==>
          && p.high - p.low == s.width(cuts, rows, o)
          && s.lowest(cuts, o) <= p.low && p.high <= s.highest(cuts, o))
    && s.width(cuts, [], o) == s.highest(cuts, o) - s.lowest(cuts, o)
  }

  ghost predicate PointLaw(s: Solver, cuts: Rows, o: Vec, x: Vec) {
    && (s.Inside(cuts, x) && |o| == |x| ==> s.lowest(cuts, o) <= Dot(o, x) as real <= s.highest(cuts, o))
    && (s.emptyAfterCut(cuts, o) ==> !s.Inside(cuts + [o], x))
  }

  ghost predicate Sound(s: Solver) {
    && (forall cuts, rows, o :: SolveLaw(s, cuts, rows, o))
    && (forall cuts, rows, b, o, m :: RowLaw(s, cuts, rows, b, o, m))
    && (forall cuts, rows, b, o, a, m :: DualLaw(s, cuts, rows, b, o, a, m))
    && (forall cuts, rows, b, o, a, m, p :: ShiftLaw(s, cuts, rows, b, o, a, m, p))
    && (forall cuts, rows, b, o :: ZeroLaw(s, cuts, rows, b, o))
    && (forall cuts, b, rows, o :: CutLaw(s, cuts, b, rows, o))
    && (forall cuts, rows, o, p :: RangeLaw(s, cuts, rows, o, p))
    && (forall cuts, o, x :: PointLaw(s, cuts, o, x))
  }

  /** What is_fixed tells. */

  // The range of the objective holds at most one integer.
  ghost predicate Settled(s: Solver, cuts: Rows, o: Vec) { OneInteger(s.lowest(cuts, o), s.highest(cuts, o)) }

  ghost predicate OneInteger(low: real, high: real) {
    forall m: int, n: int :: Between(low, m, high) && Between(low, n, high) ==> m == n
  }

  predicate Between(low: real, m: int, high: real) { low <= m as real <= high }

  lemma FixedIsOne(p: Sample)
    requires p.low <= p.high
    ensures IsFixed(p) <==> OneInteger(p.low, p.high)
  {
    var c, f := Ceil(p.low), p.high.Floor;
    assert p.low <= c as real < p.low + 1.0 && f as real <= p.high < f as real + 1.0;
    if IsFixed(p) {
      forall m: int, n: int | Between(p.low, m, p.high) && Between(p.low, n, p.high) ensures m == n {
        assert c <= m <= f && c <= n <= f;
      }
    } else {
      assert c < f || c == f - 1 || p.high - p.low >= 2.0;
      assert c + 1 <= f;
      assert Between(p.low, c, p.high) && Between(p.low, c + 1, p.high);
    }
  }

  // The flag is what is_fixed gives at an optimum for the objective, moved by v.
  ghost predicate FlagOf(s: Solver, cuts: Rows, rows: Rows, o: Vec, flag: bool, v: real) {
    exists p: Sample :: s.isSample(cuts, rows, o, p) && flag == IsFixed(p.Shifted(v))
  }

  ghost predicate Whole(v: real) { v == v.Floor as real }

  lemma WholeIff(v: real)
    ensures Whole(v) <==> v.Floor == -((-v).Floor)
    ensures v.Floor == -((-v).Floor) ==> v == v.Floor as real
    ensures Whole(v) ==> v == v.Floor as real
    ensures v == 0.0 ==> Whole(v) && v.Floor == 0
  {
  }

  /** When an old flag, of a range of width w that has moved by v since, is still right. */
  ghost predicate Reliable(v: real, w: real) { Whole(v) || w < 1.0 || w >= 2.0 }

  lemma ReliableFlag(p: Sample, v: real, w: real)
    requires w == p.high - p.low && w >= 0.0 && Reliable(v, w)
    ensures IsFixed(p.Shifted(v)) == IsFixed(p)
  {
    if Whole(v) {
      var k := v.Floor;
      assert (p.high + v).Floor == p.high.Floor + k && Ceil(p.low + v) == Ceil(p.low) + k;
    } else if w < 1.0 {
      NarrowIsFixed(p);
      NarrowIsFixed(p.Shifted(v));
    }
  }

  lemma NarrowIsFixed(p: Sample)
    requires 0.0 <= p.high - p.low < 1.0
    ensures IsFixed(p)
  {
    assert p.low <= Ceil(p.low) as real && p.high.Floor as real <= p.high;
    assert p.high.Floor as real < p.low + 1.0 <= Ceil(p.low) as real + 1.0;
  }

  // Exactly then no way of moving the range can make the flag wrong.
  lemma ReusableIff(w: real)
    requires w >= 0.0
    ensures (forall low: real, v: real :: MovedFlag(low, v, w)) <==> w < 1.0 || w >= 2.0
  {
    if w < 1.0 || w >= 2.0 {
      forall low: real, v: real ensures MovedFlag(low, v, w) { ReliableFlag(Sample(low, low + w), v, w); }
    } else {
      var e := (2.0 - w) / 2.0;
      assert Ceil(0.0) == 0 && w.Floor == 1 && !IsFixed(Sample(0.0, 0.0 + w));
      assert 0.0 < e <= 0.5 && 1.0 < e + w < 2.0;
      assert Ceil(e) == 1 && (e + w).Floor == 1;
      assert !MovedFlag(0.0, e, w);
    }
  }

  ghost predicate MovedFlag(low: real, v: real, w: real) {
    IsFixed(Sample(low, low + w).Shifted(v)) == IsFixed(Sample(low, low + w))
  }

  // All rows are without width, each given those before it.
  ghost predicate ZeroRows(s: Solver, cuts: Rows, rows: Rows) {
    forall k: nat :: k < |rows| ==> s.width(cuts, rows[..k], rows[k]) == 0.0
  }

  lemma {:induction false} ZeroRowsFree(s: Solver, cuts: Rows, rows: Rows, o: Vec)
    requires Sound(s) && ZeroRows(s, cuts, rows)
    ensures s.width(cuts, rows, o) == s.width(cuts, [], o)
    decreases |rows|
  {
    if rows != [] {
      var n := |rows| - 1;
      forall k: nat | k < n ensures s.width(cuts, rows[..n][..k], rows[..n][k]) == 0.0 {
        assert rows[..n][..k] == rows[..k];
      }
      ZeroRowsFree(s, cuts, rows[..n], o);
      assert ZeroLaw(s, cuts, rows[..n], rows[n], o);
      assert rows == rows[..n] + [rows[n]];
    }
  }

  // Then a reliable flag says whether the objective is settled.
  lemma FlagIsRight(s: Solver, cuts: Rows, rows: Rows, o: Vec, flag: bool, v: real)
    requires Sound(s) && NonNegative(s) && ZeroRows(s, cuts, rows) && FlagOf(s, cuts, rows, o, flag, v)
    requires Reliable(v, s.width(cuts, rows, o))
    ensures flag <==> Settled(s, cuts, o)
  {
    var p: Sample :| s.isSample(cuts, rows, o, p) && flag == IsFixed(p.Shifted(v));
    assert RangeLaw(s, cuts, rows, o, p);
    ZeroRowsFree(s, cuts, rows, o);
    assert p.low == s.lowest(cuts, o) && p.high == s.highest(cuts, o);
    ReliableFlag(p, v, p.high - p.low);
    FixedIsOne(p);
  }

  ghost predicate SamePoints(s: Solver, cuts: Rows, cuts': Rows, n: nat) {
    forall x :: |x| == n ==> (s.Inside(cuts, x) <==> s.Inside(cuts', x))
  }

  // A cut to a settled row loses no integer point.
  lemma SettledCut(s: Solver, cuts: Rows, b: Vec)
    requires Sound(s) && Settled(s, cuts, b)
    ensures SamePoints(s, cuts, cuts + [b], |b|)
  {
    forall x | |x| == |b| ensures s.Inside(cuts, x) <==> s.Inside(cuts + [b], x) {
      InsideNext(s, cuts, b, x);
      if s.Inside(cuts, x) {
        assert PointLaw(s, cuts, b, x);
        var low := s.lowest(cuts, b);
        assert low <= Ceil(low) as real && Ceil(low) <= Dot(b, x);
        assert Between(low, Ceil(low), s.highest(cuts, b)) && Between(low, Dot(b, x), s.highest(cuts, b));
      }
    }
  }

  lemma InsideNext(s: Solver, cuts: Rows, b: Vec, x: Vec)
    ensures s.Inside(cuts + [b], x) <==> s.Inside(cuts, x) && s.OnCut(cuts, b, x)
  {
    assert (cuts + [b])[..|cuts|] == cuts;
  }

  ghost predicate NoPoints(s: Solver, cuts: Rows, n: nat) { forall x :: |x| == n ==> !s.Inside(cuts, x) }

  // A range of width less than 1 holds at most one integer.
  lemma NarrowSettled(s: Solver, cuts: Rows, o: Vec)
    requires Sound(s) && 0.0 <= s.width(cuts, [], o) < 1.0
    ensures Settled(s, cuts, o)
  {
    var p := Sample(s.lowest(cuts, o), s.highest(cuts, o));
    assert RangeLaw(s, cuts, [], o, p);
    NarrowIsFixed(p);
    FixedIsOne(p);
  }

  // How far the range behind a flag had moved, and its width, in an iteration.
  datatype Move = Move(shift: real, width: real)

  ghost predicate AllReliable(moves: seq<Move>) {
    forall k :: 0 <= k < |moves| ==> Reliable(moves[k].shift, moves[k].width)
  }

  // Rows without width take one value on the points that are left.
  lemma ZeroRowsAgree(s: Solver, cuts: Rows, rows: Rows, k: nat, x: Vec, y: Vec)
    requires Sound(s) && ZeroRows(s, cuts, rows) && k < |rows| && |x| == |y| == |rows[k]|
    requires s.Inside(cuts, x) && s.Inside(cuts, y)
    ensures Dot(rows[k], x) == Dot(rows[k], y)
  {
    forall l: nat | l < k ensures s.width(cuts, rows[..k][..l], rows[..k][l]) == 0.0 {
      assert rows[..k][..l] == rows[..l];
    }
    ZeroRowsFree(s, cuts, rows[..k], rows[k]);
    assert RangeLaw(s, cuts, [], rows[k], Sample(0.0, 0.0));
    assert PointLaw(s, cuts, rows[k], x) && PointLaw(s, cuts, rows[k], y);
  }

  function DualAt(s: Solver, duals: seq<real>, row: int): real {
    if 0 <= row < |duals| then duals[row] else s.otherDual(row)
  }

  lemma SliceLast(b: Rows, lo: nat, k: nat)
    requires lo <= k < |b|
    ensures b[lo..k + 1] == b[lo..k] + [b[k]]
  {
  }

  /** The state of isl_tab_compute_reduced_basis: the tableau's basis (without the
      constant row and column), the LP problem, and the loop's variables. */
  class Reduction {
    const solver: Solver
    const dim: nat
    const nBounded: nat
    const basis: array<Vec>
    var nZero: nat
    ghost const nZero0: nat
    // the LP problem; with each row, how many cuts there were when it was added
    var cuts: Rows
    var lpRows: Rows
    var snaps: seq<nat>
    // the loop
    var i: nat
    const f: array<real>
    const alpha: array2<real>
    var saved: nat
    var useSaved: bool
    var fSaved: real
    var fixedSaved: bool
    ghost var shiftSaved: real    // how far the range has moved since that flag was computed

    ghost function B(): (b: Rows)
      reads basis
      ensures |b| == basis.Length && forall r :: 0 <= r < |b| ==> b[r] == basis[r]
    {
      basis[..]
    }

    ghost predicate Sized()
      reads this, basis
    {
      && NonNegative(solver) && basis.Length == dim && nBounded <= dim && f.Length == nBounded
      && alpha.Length0 == 2 && alpha.Length1 == nBounded && saved < 2
      && forall r :: 0 <= r < dim ==> |basis[r]| == dim
    }

    ghost function Duals(j: nat, lo: nat, hi: nat): (a: seq<real>)
      requires lo <= hi <= alpha.Length1 && j < alpha.Length0
      reads alpha
      ensures |a| == hi - lo && forall k :: 0 <= k < |a| ==> a[k] == alpha[j, lo + k]
    {
      seq(hi - lo, k requires 0 <= k < hi - lo reads alpha => alpha[j, lo + k])
    }

    // The width of row k, given that the rows before it agree.
    ghost function Width(k: nat): real
      requires nZero0 <= k < basis.Length
      reads this, basis
    {
      solver.width(cuts, B()[nZero0..k], basis[k])
    }

    // The width of row i + 1 when row i is among the rows that agree.
    ghost predicate HasNext(w: real)
      requires nZero0 <= i && i + 1 < basis.Length
      reads this, basis
    {
      w == solver.width(cuts, B()[nZero0..i + 1], basis[i + 1])
    }

    // Deleting a row of the LP that is not known to be fixed undoes no cut.
    ghost predicate Undoable()
      reads this
    {
      && |snaps| == |lpRows|
      && forall j :: 0 <= j < |snaps| && nZero <= nZero0 + j ==> snaps[j] == |cuts|
    }

    /** What holds before every iteration, for any solver with non-negative widths: the
        row stack of the LP is exactly the rows of the basis from the first that is not an
        equality up to row i, and the first nZero widths are zero. */
    ghost predicate Shape()
      reads this, basis, f
    {
      && Sized() && Undoable()
      && nZero0 <= i < nBounded
      && nZero0 <= nZero <= i + 1
      && lpRows == B()[nZero0..i]
      && (forall k :: nZero0 <= k < nZero ==> f[k] == 0.0)
      && (useSaved ==> nZero <= i && i + 1 < nBounded && fSaved >= 0.0)
    }

    // `f` holds the widths, and saved results are those that solving again would give, up
    // to the shift of the flag.
    ghost predicate Accurate()
      requires Shape()
      reads this, basis, f, alpha
    {
      && (forall k :: nZero0 <= k <= i ==> f[k] == Width(k))
      && (useSaved ==>
            && HasNext(fSaved)
            && solver.isDual(cuts, B()[nZero0..i + 1], basis[i + 1], Duals(saved, nZero0, i + 1))
            && FlagOf(solver, cuts, B()[nZero0..i + 1], basis[i + 1], fixedSaved, shiftSaved))
    }

    ghost predicate Inv()
      reads this, basis, f, alpha
    {
      Shape() && (Sound(solver) ==> Accurate())
    }

    // a is the multiplier of row i in an optimal dual solution for row i + 1.
    ghost predicate IsMultiplier(a: real)
      requires nZero0 <= i && i + 1 < basis.Length
      reads this, basis
    {
      exists d :: solver.isDual(cuts, B()[nZero0..i + 1], basis[i + 1], d + [a])
    }

    method AddLpRow(row: Vec)
      modifies `lpRows, `snaps
      ensures lpRows == old(lpRows) + [row] && snaps == old(snaps) + [|cuts|]
    {
      lpRows, snaps := lpRows + [row], snaps + [|cuts|];
    }

    // del_lp_row rolls the tableau back to what it was before the row was added.
    method DelLpRow()
      requires lpRows != [] && |snaps| == |lpRows| && snaps[|snaps| - 1] <= |cuts|
      modifies `lpRows, `snaps, `cuts
      ensures lpRows == old(lpRows[..|lpRows| - 1]) && snaps == old(snaps[..|snaps| - 1])
      ensures cuts == old(cuts)[..old(snaps[|snaps| - 1])]
    {
      cuts := cuts[..snaps[|snaps| - 1]];
      lpRows, snaps := lpRows[..|lpRows| - 1], snaps[..|snaps| - 1];
    }

    method SaveAlpha(j: nat, first: int, n: nat, duals: seq<real>)
      requires j < alpha.Length0 && n <= alpha.Length1
      modifies alpha
      ensures forall k :: 0 <= k < n ==> alpha[j, k] == DualAt(solver, duals, first + k)
      ensures forall l, k :: 0 <= l < alpha.Length0 && 0 <= k < alpha.Length1 && (l != j || n <= k) ==>
                alpha[l, k] == old(alpha[l, k])
    {
      for k := 0 to n
        invariant forall q :: 0 <= q < k ==> alpha[j, q] == DualAt(solver, duals, first + q)
        invariant forall l, q :: 0 <= l < alpha.Length0 && 0 <= q < alpha.Length1 && (l != j || k <= q) ==>
                    alpha[l, q] == old(alpha[l, q])
      {
        alpha[j, k] := DualAt(solver, duals, first + k);
      }
    }

    // The saved multipliers and that of row i are those of the solver.
    lemma SavedDuals(duals: seq<real>, alphaI: real)
      requires Sized() && nZero0 <= i && i + 1 < nBounded && |duals| == i - nZero0 + 1
      requires alphaI == DualAt(solver, duals, i - nZero0)
      requires forall k :: 0 <= k < i ==> alpha[saved, k] == DualAt(solver, duals, k - nZero0)
      ensures duals == Duals(saved, nZero0, i) + [alphaI]
    {
    }

    // Solves for row i + 1 with row i in the LP problem.
    method SolveRow(row: int) returns (fNew: real, fixed: bool, alphaI: real)
      requires Sized() && nZero0 <= i && i + 1 < nBounded && lpRows == B()[nZero0..i + 1] && row == i - nZero0
      modifies alpha
      ensures Solved(fNew, fixed, alphaI)
      ensures Sound(solver) ==>
                && solver.isDual(cuts, B()[nZero0..i + 1], basis[i + 1], Duals(saved, nZero0, i) + [alphaI])
                && FlagOf(solver, cuts, B()[nZero0..i + 1], basis[i + 1], fixed, 0.0)
    {
      hide Sound, FlagOf;
      if Sound(solver) { SolvedLaws(cuts, lpRows, basis[i + 1]); }
      fNew := solver.width(cuts, lpRows, basis[i + 1]);
      fixed := solver.fixed(cuts, lpRows, basis[i + 1]);
      var duals := solver.duals(cuts, lpRows, basis[i + 1]);
      alphaI := DualAt(solver, duals, row);
      if i > 0 { SaveAlpha(saved, row - i, i, duals); }
      if Sound(solver) { SavedDuals(duals, alphaI); }
    }

    // Adds row i to the LP problem, for the width of row i + 1 and the multipliers.
    method SolveNext() returns (fNew: real, fixed: bool, alphaI: real, row: int)
      requires Sized() && Undoable() && nZero0 <= i && i + 1 < nBounded && lpRows == B()[nZero0..i]
      modifies `lpRows, `snaps, `cuts, alpha
      ensures lpRows == old(lpRows) && snaps == old(snaps) && cuts == old(cuts)
      ensures Solved(fNew, fixed, alphaI) && row == i - nZero0
      ensures Sound(solver) ==>
                && solver.isDual(cuts, B()[nZero0..i + 1], basis[i + 1], Duals(saved, nZero0, i) + [alphaI])
                && FlagOf(solver, cuts, B()[nZero0..i + 1], basis[i + 1], fixed, 0.0)
    {
      hide Sound, FlagOf, NonNegative;
      SliceLast(B(), nZero0, i);
      row := |lpRows|;
      AddLpRow(basis[i]);
      fNew, fixed, alphaI := SolveRow(row);
      DelLpRow();
      assert lpRows == old(lpRows) && cuts == old(cuts) && snaps == old(snaps);
    }

    // Results that have just been computed are those of an optimum.
    lemma SolvedLaws(c: Rows, rows: Rows, o: Vec)
      requires Sound(solver)
      ensures |solver.duals(c, rows, o)| == |rows| && solver.isDual(c, rows, o, solver.duals(c, rows, o))
      ensures FlagOf(solver, c, rows, o, solver.fixed(c, rows, o), 0.0)
    {
      assert SolveLaw(solver, c, rows, o);
      var p := solver.sample(c, rows, o);
      assert p.Shifted(0.0) == p;
    }

    // What solving for row i + 1 gives.
    ghost predicate Solved(fNew: real, fixed: bool, alphaI: real)
      requires nZero0 <= i && i + 1 < basis.Length
      reads this, basis
    {
      var rows, o := B()[nZero0..i + 1], basis[i + 1];
      && fNew == solver.width(cuts, rows, o) && fixed == solver.fixed(cuts, rows, o)
      && alphaI == DualAt(solver, solver.duals(cuts, rows, o), i - nZero0)
    }

    // The width of row i + 1 and the multiplier of row i, computed or saved.
    method Measure() returns (fNew: real, fixed: bool, alphaI: real, row: int, ghost shift: real)
      requires Inv() && i + 1 < nBounded
      modifies `lpRows, `snaps, `cuts, alpha
      ensures Inv() && lpRows == old(lpRows) && snaps == old(snaps) && cuts == old(cuts) && fNew >= 0.0
      ensures if i + 1 == nZero then alphaI == 0.0 && shift == 0.0 else row == i - nZero0
      ensures i + 1 == nZero ==>
                && fNew == solver.width(cuts, lpRows, basis[i + 1])
                && fixed == solver.fixed(cuts, lpRows, basis[i + 1])
      ensures !useSaved && i + 1 != nZero ==> Solved(fNew, fixed, alphaI)
      ensures Sound(solver) ==> HasNext(fNew)
      ensures Sound(solver) && i + 1 != nZero ==>
                && solver.isDual(cuts, B()[nZero0..i + 1], basis[i + 1], Duals(saved, nZero0, i) + [alphaI])
                && FlagOf(solver, cuts, B()[nZero0..i + 1], basis[i + 1], fixed, shift)
      ensures Sound(solver) && i + 1 == nZero ==> FlagOf(solver, cuts, lpRows, basis[i + 1], fixed, 0.0)
      ensures shift == if useSaved then shiftSaved else 0.0
    {
      shift := 0.0;
      if i + 1 == nZero {
        SliceLast(B(), nZero0, i);
        row := 0;
        assert Sound(solver) ==> f[i] == Width(i) && ZeroLaw(solver, cuts, lpRows, basis[i], basis[i + 1]);
        if Sound(solver) { SolvedLaws(cuts, lpRows, basis[i + 1]); }
        fNew := solver.width(cuts, lpRows, basis[i + 1]);
        fixed := solver.fixed(cuts, lpRows, basis[i + 1]);
        alphaI := 0.0;
      } else if useSaved {
        row := |lpRows|;
        fNew, fixed, alphaI := fSaved, fixedSaved, alpha[saved, i];
        shift := shiftSaved;
        assert Duals(saved, nZero0, i + 1) == Duals(saved, nZero0, i) + [alphaI];
      } else {
        fNew, fixed, alphaI, row := SolveNext();
      }
    }

    // One of the two roundings of the multiplier: the width of row i + 1 plus that
    // multiple of row i, without row i, and its duals.
    method Try(j: nat, mu: int, row: int) returns (w: real, fixed: bool)
      requires Sized() && nZero0 <= i && i + 1 < nBounded && lpRows == B()[nZero0..i] && j < 2
      requires row == i - nZero0
      modifies alpha
      ensures w == solver.width(cuts, lpRows, Combine(1, basis[i + 1], mu, basis[i]))
      ensures fixed == solver.fixed(cuts, lpRows, Combine(1, basis[i + 1], mu, basis[i]))
      ensures forall l, k :: 0 <= l < 2 && 0 <= k < nBounded && l != j ==> alpha[l, k] == old(alpha[l, k])
      ensures Sound(solver) ==>
                && solver.isDual(cuts, lpRows, Combine(1, basis[i + 1], mu, basis[i]), Duals(j, nZero0, i))
                && FlagOf(solver, cuts, lpRows, Combine(1, basis[i + 1], mu, basis[i]), fixed, 0.0)
    {
      var o := Combine(1, basis[i + 1], mu, basis[i]);
      hide Sound, FlagOf;
      if Sound(solver) { SolvedLaws(cuts, lpRows, o); }
      w := solver.width(cuts, lpRows, o);
      fixed := solver.fixed(cuts, lpRows, o);
      var duals := solver.duals(cuts, lpRows, o);
      if i > 0 { SaveAlpha(j, row - i, i, duals); }
      assert Sound(solver) ==> Duals(j, nZero0, i) == duals;
    }

    // Of the integers less than 1 away from the multiplier, mu gives the smallest width w;
    // of two that do, the larger.
    ghost predicate BestRounding(c: Rows, rows: Rows, a: real, mu: int, w: real, r: Vec, next: Vec)
      requires |r| == |next|
    {
      forall m :: NextTo(m, a) ==>
           var w' := solver.width(c, rows, Combine(1, next, m, r)); if m > mu then w < w' else w <= w'
    }

    // The multiple of row i that is added to row i + 1: the multiplier itself when it is
    // integral, else the rounding with the smaller width.  An integral multiplier keeps
    // the flag, although the range moves by that multiple of the value of row i.
    method Round(fNew: real, isFixed: bool, alphaI: real, row: int, ghost shift: real)
      returns (mu: int, w: real, fixed: bool, ghost shift': real)
      requires Inv() && i + 1 < nBounded && fNew >= 0.0
      requires if i + 1 == nZero then alphaI == 0.0 && shift == 0.0 else row == i - nZero0
      requires Sound(solver) ==> HasNext(fNew)
      requires Sound(solver) && i + 1 != nZero ==>
                 && solver.isDual(cuts, B()[nZero0..i + 1], basis[i + 1], Duals(saved, nZero0, i) + [alphaI])
                 && FlagOf(solver, cuts, B()[nZero0..i + 1], basis[i + 1], isFixed, shift)
      requires Sound(solver) && i + 1 == nZero ==> FlagOf(solver, cuts, lpRows, basis[i + 1], isFixed, 0.0)
      modifies `saved, alpha
      ensures saved < 2 && w >= 0.0 && NextTo(mu, alphaI)
      ensures Whole(alphaI) ==> w == fNew && fixed == isFixed
      ensures !Whole(alphaI) ==> fixed == solver.fixed(cuts, lpRows, Combine(1, basis[i + 1], mu, basis[i]))
      ensures Sound(solver) ==>
                && w == solver.width(cuts, lpRows, Combine(1, basis[i + 1], mu, basis[i]))
                && BestRounding(cuts, lpRows, alphaI, mu, w, basis[i], basis[i + 1])
      ensures Sound(solver) && i + 1 != nZero ==>
                solver.isDual(cuts, lpRows, Combine(1, basis[i + 1], mu, basis[i]), Duals(saved, nZero0, i))
      ensures Sound(solver) ==> FlagOf(solver, cuts, lpRows, Combine(1, basis[i + 1], mu, basis[i]), fixed, shift')
      ensures alphaI == 0.0 ==> shift' == shift
      ensures !Whole(alphaI) ==> shift' == 0.0
    {
      hide FlagOf, Sound, Whole;
      SliceLast(B(), nZero0, i);
      var lo, hi := alphaI.Floor, -((-alphaI).Floor);
      WholeIff(alphaI);
      shift' := shift;
      if lo == hi {
        mu, w, fixed := lo, fNew, isFixed;
        if Sound(solver) { shift' := RoundExact(fNew, isFixed, alphaI, mu, shift); }
      } else {
        shift' := 0.0;
        var w0, fixed0 := Try(0, lo, row);
        ghost var duals0 := Duals(0, nZero0, i);
        var w1, fixed1 := Try(1, hi, row);
        assert Duals(0, nZero0, i) == duals0;
        var j := if w0 < w1 then 0 else 1;
        mu, w, fixed := if j == 0 then lo else hi, if j == 0 then w0 else w1, if j == 0 then fixed0 else fixed1;
        saved := j;
      }
    }

    // An integral multiplier gives the width that has been measured.
    lemma RoundExact(fNew: real, isFixed: bool, alphaI: real, mu: int, shift: real) returns (shift': real)
      requires Sound(solver) && Inv() && i + 1 < nBounded && alphaI == mu as real && HasNext(fNew)
      requires i + 1 == nZero ==> mu == 0 && shift == 0.0 && FlagOf(solver, cuts, lpRows, basis[i + 1], isFixed, 0.0)
      requires i + 1 != nZero ==>
                 && solver.isDual(cuts, B()[nZero0..i + 1], basis[i + 1], Duals(saved, nZero0, i) + [alphaI])
                 && FlagOf(solver, cuts, B()[nZero0..i + 1], basis[i + 1], isFixed, shift)
      ensures fNew == solver.width(cuts, lpRows, Combine(1, basis[i + 1], mu, basis[i]))
      ensures i + 1 != nZero ==>
                solver.isDual(cuts, lpRows, Combine(1, basis[i + 1], mu, basis[i]), Duals(saved, nZero0, i))
      ensures FlagOf(solver, cuts, lpRows, Combine(1, basis[i + 1], mu, basis[i]), isFixed, shift')
      ensures mu == 0 ==> shift' == shift
    {
      hide FlagOf;
      SliceLast(B(), nZero0, i);
      shift' := shift;
      if i + 1 == nZero {
        CombineNothing(basis[i + 1], basis[i]);
        assert f[i] == Width(i) && ZeroLaw(solver, cuts, lpRows, basis[i], basis[i + 1]);
      } else {
        assert DualLaw(solver, cuts, lpRows, basis[i], basis[i + 1], Duals(saved, nZero0, i), mu);
        shift' := MovedBy(cuts, lpRows, basis[i], basis[i + 1], Duals(saved, nZero0, i), mu, isFixed, shift);
      }
    }

    // How far the range has moved when an integral multiplier m replaces the row b.
    lemma MovedBy(cuts: Rows, rows: Rows, b: Vec, o: Vec, a: seq<real>, m: int, flag: bool, shift: real)
      returns (shift': real)
      requires Sound(solver) && |b| == |o| && solver.isDual(cuts, rows + [b], o, a + [m as real])
      requires FlagOf(solver, cuts, rows + [b], o, flag, shift)
      ensures FlagOf(solver, cuts, rows, Combine(1, o, m, b), flag, shift')
      ensures m == 0 ==> shift' == shift
    {
      var p: Sample :| solver.isSample(cuts, rows + [b], o, p) && flag == IsFixed(p.Shifted(shift));
      assert ShiftLaw(solver, cuts, rows, b, o, a, m, p);
      var q :| solver.isSample(cuts, rows, Combine(1, o, m, b), q) && p.MovesTo(q) && (m == 0 ==> q == p);
      shift' := shift - (q.low - p.low);
      assert q.Shifted(shift') == p.Shifted(shift);
    }

    // The same within an iteration, when row i + 1 is final: its width is known, w is the
    // width it would have in place of row i, and `fixed` the flag for that.
    ghost predicate Mid(w: real, fixed: bool, shift: real)
      reads this, basis, f, alpha
    {
      && Sized() && Undoable() && w >= 0.0
      && nZero0 <= i && i + 1 < nBounded
      && nZero0 <= nZero <= i + 2
      && lpRows == B()[nZero0..i]
      && (forall k :: nZero0 <= k < nZero ==> f[k] == 0.0)
      && (Sound(solver) ==> forall k :: nZero0 <= k <= i + 1 ==> f[k] == Width(k))
      && (Sound(solver) && nZero <= i ==>
            && solver.isDual(cuts, lpRows, basis[i + 1], Duals(saved, nZero0, i)))
      && (Sound(solver) && nZero <= i + 1 ==>
            && w == solver.width(cuts, lpRows, basis[i + 1])
            && FlagOf(solver, cuts, lpRows, basis[i + 1], fixed, shift))
    }

    // Row i + 1 with a multiple of row i added to it; no width up to that row changes.
    method AddRow(mu: int)
      requires Sized() && nZero0 <= i && i + 1 < dim
      modifies basis
      ensures Sized() && SameLattice(old(B()), B())
      ensures B() == old(B())[i + 1 := Combine(1, old(basis[i + 1]), mu, basis[i])]
      ensures Sound(solver) ==> forall k :: nZero0 <= k <= i + 1 ==> Width(k) == old(Width(k))
    {
      AddRowLattice(B(), i, i + 1, mu);
      SliceLast(B(), nZero0, i);
      assert Sound(solver) ==> RowLaw(solver, cuts, B()[nZero0..i], basis[i], basis[i + 1], mu);
      ghost var b := B();
      basis[i + 1] := Combine(1, basis[i + 1], mu, basis[i]);
      assert B() == b[i + 1 := basis[i + 1]];
      forall k | Sound(solver) && nZero0 <= k <= i + 1 ensures Width(k) == old(Width(k)) {
        assert B()[nZero0..k] == b[nZero0..k];
      }
    }

    // The multiple m of row i that an optimal multiplier a suggests, and what the new row
    // i + 1 will be like.
    method PickMultiple()
      returns (fNew: real, m: int, w: real, fixed: bool, ghost a: real, ghost shift: real)
      requires Inv() && i + 1 < nBounded
      modifies `lpRows, `snaps, `cuts, `saved, alpha
      ensures Shape() && cuts == old(cuts) && lpRows == old(lpRows) && snaps == old(snaps)
      ensures fNew >= 0.0 && w >= 0.0 && NextTo(m, a) && (i + 1 == nZero ==> a == 0.0 && fNew == w)
      ensures old(Computed(B(), w, fixed, m, a))
      ensures shift != 0.0 ==> i + 1 != nZero && Whole(a) && (a != 0.0 || (old(useSaved) && old(shiftSaved) != 0.0))
      ensures Sound(solver) ==>
                && (forall k :: nZero0 <= k <= i ==> f[k] == Width(k)) && HasNext(fNew)
                && w == solver.width(cuts, lpRows, Combine(1, basis[i + 1], m, basis[i]))
                && FlagOf(solver, cuts, lpRows, Combine(1, basis[i + 1], m, basis[i]), fixed, shift)
                && BestRounding(cuts, lpRows, a, m, w, basis[i], basis[i + 1])
      ensures Sound(solver) && i + 1 != nZero ==>
                && old(IsMultiplier(a))
                && solver.isDual(cuts, lpRows, Combine(1, basis[i + 1], m, basis[i]), Duals(saved, nZero0, i))
    {
      hide FlagOf, Sound, Whole, NextTo, Combine, BestRounding;
      var isFixed, alphaI, row;
      ghost var shift0;
      fNew, isFixed, alphaI, row, shift0 := Measure();
      m, w, fixed, shift := Round(fNew, isFixed, alphaI, row, shift0);
      a := alphaI;
      WholeIff(alphaI);
    }

    // Row i + 1 gets that multiple of row i.
    method AddMultiple()
      returns (w: real, fixed: bool, ghost mu: int, ghost a: real, ghost shift: real)
      requires Inv() && i + 1 < nBounded
      modifies `lpRows, `snaps, `cuts, `saved, alpha, f, basis
      ensures Mid(w, fixed, shift) && cuts == old(cuts) && lpRows == old(lpRows) && SameLattice(old(B()), B())
      ensures B() == old(B())[i + 1 := Combine(1, old(basis[i + 1]), mu, old(basis[i]))]
      ensures f[i] == old(f[i]) && NextTo(mu, a) && (i + 1 == nZero ==> a == 0.0 && f[i + 1] == w)
      ensures w >= 0.0 && old(Computed(B(), w, fixed, mu, a))
      ensures Sound(solver) ==> BestRounding(old(cuts), old(lpRows), a, mu, w, old(basis[i]), old(basis[i + 1]))
      ensures Sound(solver) && i + 1 != nZero ==> old(IsMultiplier(a))
      ensures shift != 0.0 ==> i + 1 != nZero && Whole(a) && (a != 0.0 || (old(useSaved) && old(shiftSaved) != 0.0))
    {
      hide FlagOf, Sound, Whole, NextTo, Combine, SameLattice, BestRounding, Computed, IsMultiplier, Inv, NonNegative;
      MidBounds();
      var fNew, m;
      fNew, m, w, fixed, a, shift := PickMultiple();
      mu := m;
      f[i + 1] := fNew;
      SliceLast(B(), nZero0, i);
      ghost var b := B();
      AddRow(m);
      assert B()[nZero0..i] == b[nZero0..i];
    }

    // Where the width w and the flag for the new row i + 1 come from, for basis b.
    ghost predicate Computed(b: Rows, w: real, fixed: bool, mu: int, a: real)
      requires nZero0 <= i && i + 1 < |b|
      reads this
    {
      var rows, o := b[nZero0..i + 1], b[i + 1];
      && (i + 1 == nZero ==> w == solver.width(cuts, lpRows, o) && fixed == solver.fixed(cuts, lpRows, o))
      && (i + 1 != nZero && !useSaved ==>
            && a == DualAt(solver, solver.duals(cuts, rows, o), i - nZero0)
            && (Whole(a) ==> w == solver.width(cuts, rows, o) && fixed == solver.fixed(cuts, rows, o)))
      && (!Whole(a) && |b[i]| == |o| ==> fixed == solver.fixed(cuts, lpRows, Combine(1, o, mu, b[i])))
    }

    // Cuts to the hyperplane on which row k is fixed; its width and those that were zero
    // are zero afterwards.
    method Cut(k: nat) returns (empty: bool)
      requires Sized() && nZero0 <= k < dim
      modifies `cuts
      ensures empty == solver.emptyAfterCut(old(cuts), basis[k]) && cuts == old(cuts) + [basis[k]]
      ensures Sound(solver) ==> Width(k) == 0.0
      ensures Sound(solver) ==> forall l :: nZero0 <= l < dim && old(Width(l)) == 0.0 ==> Width(l) == 0.0
    {
      ghost var old' := cuts;
      empty := solver.emptyAfterCut(cuts, basis[k]);
      cuts := cuts + [basis[k]];
      assert Sound(solver) ==> CutLaw(solver, old', basis[k], B()[nZero0..k], basis[k]);
      forall l | Sound(solver) && nZero0 <= l < dim && solver.width(old', B()[nZero0..l], basis[l]) == 0.0
          ensures Width(l) == 0.0 {
        assert CutLaw(solver, old', basis[k], B()[nZero0..l], basis[l]);
      }
    }

    // The cut just made, to row k, leaves nothing.
    ghost predicate CutEmpties(before: Rows, k: nat)
      requires k < basis.Length
      reads this, basis
    {
      cuts == before + [basis[k]] && solver.emptyAfterCut(before, basis[k])
    }

    // Row k, of width w, is counted as fixed: there is a cut to it unless it has no width.
    ghost predicate Counts(before: Rows, count: nat, k: nat, w: real, empty: bool)
      requires k < basis.Length
      reads this, basis
    {
      && cuts == (if w == 0.0 then before else before + [basis[k]])
      && (empty <==> w != 0.0 && solver.emptyAfterCut(before, basis[k]))
      && nZero == if empty then count else count + 1
    }

    // Counts the next row as fixed.
    method CountRow(k: nat) returns (empty: bool)
      requires Sized() && nZero0 <= k == nZero < nBounded
      modifies `cuts, `nZero, f
      ensures Counts(old(cuts), old(nZero), k, old(f[k]), empty)
      ensures (forall l :: 0 <= l < f.Length && l != k ==> f[l] == old(f[l])) && (!empty ==> f[k] == 0.0)
      ensures Sound(solver) ==>
                && (old(f[k]) != 0.0 ==> Width(k) == 0.0)
                && forall l :: nZero0 <= l < dim && old(Width(l)) == 0.0 ==> Width(l) == 0.0
    {
      hide Sound;
      empty := false;
      if f[k] != 0.0 {
        empty := Cut(k);
        if empty { return; }
        f[k] := 0.0;
      }
      nZero := nZero + 1;
    }

    // All rows before i + 1 are fixed and row i + 1 turns out to be fixed as well.
    method DetectNext(w: real, ghost fixed: bool, ghost shift: real) returns (empty: bool)
      requires Mid(w, fixed, shift) && i + 1 == nZero && f[i + 1] == w
      modifies `cuts, `nZero, f
      ensures Counts(old(cuts), old(nZero), i + 1, w, empty) && (!empty ==> Mid(w, fixed, shift))
      ensures Sized() && f[i] == 0.0 && (Sound(solver) ==> ZeroWidths())
    {
      hide Sound, FlagOf;
      assert f[i] == 0.0;
      assert Sound(solver) ==> forall k :: nZero0 <= k <= i ==> Width(k) == 0.0;
      empty := CountRow(i + 1);
    }

    // The rows that are counted as fixed have no width.
    ghost predicate ZeroWidths()
      reads this, basis
    {
      nZero <= basis.Length && forall k :: nZero0 <= k < nZero ==> Width(k) == 0.0
    }

    // Deleting the last row of the LP undoes no cut when that row is not fixed.
    lemma UndoLast()
      requires Undoable() && lpRows != [] && nZero < nZero0 + |lpRows|
      ensures snaps[|snaps| - 1] == |cuts| && cuts[..|cuts|] == cuts
    {
    }

    // Rows i and i + 1 change places and row i is compared with its predecessor next, ...
    method SwapBack(w: real, fixed: bool, ghost shift: real)
      requires Mid(w, fixed, shift) && nZero < i
      modifies `i, `lpRows, `snaps, `cuts, `useSaved, `fSaved, `fixedSaved, `shiftSaved, basis
      ensures Inv() && i == old(i) - 1 && B() == SwapRows(old(B()), old(i)) && cuts == old(cuts)
      ensures Sound(solver) ==> ZeroWidths()
    {
      hide Sound, FlagOf, Inv, ZeroWidths, Mid, NonNegative, BackFacts;
      ghost var b, fs := B(), f[..];
      var j := i - 1;
      ghost var ds := BeforeSwap(b, fs, j, w, fixed, shift);
      ExchangeRows();
      useSaved, fSaved, fixedSaved, shiftSaved := true, w, fixed, shift;
      UndoLast();
      DelLpRow();
      i := j;
      SwappedBack(b, fs, ds);
    }

    method ExchangeRows()
      requires Sized() && i + 1 < dim
      modifies basis
      ensures Sized() && B() == SwapRows(old(B()), i)
    {
      ghost var b := B();
      basis[i], basis[i + 1] := basis[i + 1], basis[i];
      assert B() == SwapRows(b, i);
    }

    // What is known of widths and results before rows j + 1 and j + 2 of b change places.
    ghost predicate BackFacts(c: Rows, b: Rows, zero: nat, j: nat, fs: seq<real>, ds: seq<real>, w: real, fixed: bool,
                              shift: real)
    {
      && j + 2 < |b| && j + 2 < |fs| == nBounded && w >= 0.0 && nZero0 <= zero <= j
      && (forall k :: nZero0 <= k < zero ==> fs[k] == 0.0)
      && (Sound(solver) ==>
            && (forall k :: nZero0 <= k <= j ==> fs[k] == solver.width(c, b[nZero0..k], b[k]))
            && w == solver.width(c, b[nZero0..j + 1], b[j + 2])
            && solver.isDual(c, b[nZero0..j + 1], b[j + 2], ds)
            && FlagOf(solver, c, b[nZero0..j + 1], b[j + 2], fixed, shift))
    }

    lemma BeforeSwap(b: Rows, fs: seq<real>, j: nat, w: real, fixed: bool, shift: real) returns (ds: seq<real>)
      requires Mid(w, fixed, shift) && nZero <= j && i == j + 1 && b == B() && fs == f[..]
      ensures Sized() && Undoable() && i + 1 < dim && j + 1 <= nBounded && nZero0 <= j && w >= 0.0
      ensures |lpRows| == j + 1 - nZero0 && lpRows[..|lpRows| - 1] == b[nZero0..j]
      ensures ds == Duals(saved, nZero0, j + 1) && BackFacts(cuts, b, nZero, j, fs, ds, w, fixed, shift)
    {
      hide Sound, FlagOf, NonNegative;
      ds := Duals(saved, nZero0, j + 1);
      assert b[nZero0..j + 1][..j - nZero0] == b[nZero0..j];
    }

    // The state after going back.
    lemma SwappedBack(b: Rows, fs: seq<real>, ds: seq<real>)
      requires Sized() && Undoable() && i + 1 <= nBounded && nZero0 <= i && useSaved
      requires i + 2 < |b| && B() == SwapRows(b, i + 1) && lpRows == b[nZero0..i]
      requires fs == f[..] && ds == Duals(saved, nZero0, i + 1)
      requires BackFacts(cuts, b, nZero, i, fs, ds, fSaved, fixedSaved, shiftSaved)
      ensures Inv() && (Sound(solver) ==> ZeroWidths())
    {
      hide Sound, FlagOf, NonNegative;
      assert b[nZero0..i] == B()[nZero0..i] && B()[nZero0..i + 1] == b[nZero0..i + 1] && basis[i + 1] == B()[i + 1];
      forall k | Sound(solver) && nZero0 <= k <= i ensures f[k] == Width(k) {
        assert B()[nZero0..k] == b[nZero0..k] && basis[k] == B()[k] && f[k] == fs[k];
      }
    }

    // ... or there is no predecessor that is not fixed.
    method SwapHere(w: real, fixed: bool, ghost shift: real, onlyFirst: bool) returns (stop: bool)
      requires Mid(w, fixed, shift) && nZero == i
      modifies `cuts, `nZero, `useSaved, f, basis
      ensures Sized() && (!stop ==> Inv())
      ensures B() == SwapRows(old(B()), i)
      ensures if (onlyFirst && w < 2.0) || !fixed then
                cuts == old(cuts) && nZero == old(nZero) && f[nZero] == w && (stop <==> onlyFirst && w < 2.0)
              else
                Counts(old(cuts), old(nZero), i, w, stop)
      ensures Sound(solver) ==> ZeroWidths()
    {
      hide FlagOf, Sound;
      ghost var b := B();
      ExchangeRows();
      f[nZero] := w;
      useSaved := false;
      assert B()[nZero0..i] == b[nZero0..i];
      forall k | Sound(solver) && nZero0 <= k <= i ensures f[k] == Width(k) { assert B()[nZero0..k] == b[nZero0..k]; }
      stop := false;
      if onlyFirst && f[nZero] < 2.0 { return true; }
      if fixed { stop := CountRow(i); }
    }

    method Advance(ghost w: real, ghost fixed: bool, ghost shift: real)
      requires Mid(w, fixed, shift)
      modifies `i, `lpRows, `snaps, `useSaved
      ensures Inv() && i == old(i) + 1 && (Sound(solver) ==> ZeroWidths())
    {
      hide FlagOf, Sound;
      useSaved := false;
      SliceLast(B(), nZero0, i);
      forall k | Sound(solver) && nZero0 <= k < nZero ensures Width(k) == 0.0 {
        assert f[k] == 0.0 && f[k] == Width(k);
      }
      AddLpRow(basis[i]);
      i := i + 1;
    }

    ghost predicate FixedRows(b: Rows, n: nat)
      reads this, basis
    {
      && |b| == basis.Length
      && (forall r :: 0 <= r < basis.Length && (r < n || nBounded <= r) ==> basis[r] == b[r])
    }

    // The row that the loop counts as fixed if the flag is set: row i + 1 when all before it
    // are, or the row that has just taken place i when all before that are; else none.
    ghost function Candidate(count: nat, at: nat, swap: bool, onlyFirst: bool, w: real): (k: int)
      ensures -1 <= k <= at + 1
    {
      if at + 1 == count then at + 1 else if count == at && swap && !(onlyFirst && w < 2.0) then at else -1
    }

    /** One iteration of the loop: row i + 1 gets the best multiple of row i added to it and
        changes places with row i exactly when that makes row i less than 3/4 as wide; the
        loop goes back, stays or goes on accordingly.  A row is counted as fixed, after a
        cut to it, exactly when its place and the flag say so.  The loop only stops early
        when a cut leaves nothing or the first width is small enough. */
    method Step(onlyFirst: bool)
      returns (stop: bool, ghost mu: int, ghost a: real, ghost w: real, ghost fixed: bool, ghost shift: real)
      requires Inv() && i + 1 < nBounded
      modifies this, basis, f, alpha
      ensures !stop ==> Inv()
      ensures Sized() && SameLattice(old(B()), B()) && FixedRows(old(B()), old(nZero))
      ensures w >= 0.0 && NextTo(mu, a) && (old(i + 1 == nZero) ==> a == 0.0)
      ensures old(Computed(B(), w, fixed, mu, a))
      ensures Sound(solver) ==> BestRounding(old(cuts), old(lpRows), a, mu, w, old(basis[i]), old(basis[i + 1]))
      ensures Sound(solver) && old(i + 1 != nZero) ==> old(IsMultiplier(a))
      ensures var b, swap := old(B())[old(i) + 1 := Combine(1, old(basis[i + 1]), mu, old(basis[i]))],
              4.0 * w < 3.0 * old(f[i]);
              && B() == (if swap then SwapRows(b, old(i)) else b)
              && (!stop ==> i == if !swap then old(i) + 1 else if old(nZero < i) then old(i) - 1 else old(i))
              && var k := Candidate(old(nZero), old(i), swap, onlyFirst, w);
                 if fixed && k >= 0 then
                   Counts(old(cuts), old(nZero), k, w, stop)
                 else
                   && cuts == old(cuts) && nZero == old(nZero)
                   && (stop <==> onlyFirst && swap && w < 2.0 && nZero == old(i))
                   && (stop ==> nZero < nBounded && f[nZero] == w)
      ensures Sound(solver) ==> ZeroWidths()
      ensures var k := Candidate(old(nZero), old(i), 4.0 * w < 3.0 * old(f[i]), onlyFirst, w);
              Sound(solver) && Reliable(shift, w) && k >= 0 ==> (fixed <==> Settled(solver, old(cuts), basis[k]))
      ensures shift != 0.0 ==>
                old(i + 1 != nZero) && Whole(a) && (a != 0.0 || (old(useSaved) && old(shiftSaved) != 0.0))
    {
      hide SameLattice, Sound, Combine, NextTo, FlagOf, Whole, Settled, Reliable, Computed, Counts, ZeroWidths, Inv,
           Mid, IsMultiplier, BestRounding;
      ghost var b0 := B();
      MidBounds();
      var v, flag;
      v, flag, mu, a, shift := AddMultiple();
      w, fixed := v, flag;
      ghost var b1 := B();
      stop := Decide(v, flag, shift, onlyFirst);
      if 4.0 * w < 3.0 * old(f[i]) {
        SwapLattice(b1, old(i));
        LatticeChain(b0, b1, SwapRows(b1, old(i)));
      }
    }

    lemma MidBounds()
      requires Inv()
      ensures Sized() && nZero <= i + 1 && nZero0 <= i < nBounded
    {
      hide Sound;
    }

    // The second half of an iteration
    method Decide(w: real, fixed: bool, ghost shift: real, onlyFirst: bool) returns (stop: bool)
      requires Mid(w, fixed, shift) && nZero <= i + 1 && (i + 1 == nZero ==> f[i + 1] == w)
      modifies this, basis, f
      ensures Sized() && (!stop ==> Inv())
      ensures var swap := 4.0 * w < 3.0 * old(f[i]);
              && (swap ==> old(nZero <= i))
              && B() == (if swap then SwapRows(old(B()), old(i)) else old(B()))
              && (!stop ==> i == if !swap then old(i) + 1 else if old(nZero < i) then old(i) - 1 else old(i))
              && var k := Candidate(old(nZero), old(i), swap, onlyFirst, w);
                 if fixed && k >= 0 then
                   Counts(old(cuts), old(nZero), k, w, stop)
                 else
                   && cuts == old(cuts) && nZero == old(nZero)
                   && (stop <==> onlyFirst && swap && w < 2.0 && nZero == old(i))
                   && (stop ==> nZero < nBounded && f[nZero] == w)
      ensures Sound(solver) ==> ZeroWidths()
      ensures var k := Candidate(old(nZero), old(i), 4.0 * w < 3.0 * old(f[i]), onlyFirst, w);
              Sound(solver) && Reliable(shift, w) && k >= 0 ==> (fixed <==> Settled(solver, old(cuts), basis[k]))
    {
      hide Sound, FlagOf, Settled, Reliable;
      if Sound(solver) && Reliable(shift, w) { FlagOfRow(w, fixed, shift); }
      if i + 1 == nZero && fixed {
        stop := DetectNext(w, fixed, shift);
        if stop { return; }
      }
      if 4.0 * w < 3.0 * f[i] {
        if i > nZero {
          SwapBack(w, fixed, shift);
          stop := false;
        } else {
          stop := SwapHere(w, fixed, shift, onlyFirst);
        }
      } else {
        Advance(w, fixed, shift);
        stop := false;
      }
    }

    // When all rows before row i are fixed, a reliable flag says whether row i + 1 is settled.
    lemma FlagOfRow(w: real, fixed: bool, shift: real)
      requires Mid(w, fixed, shift) && Sound(solver) && Reliable(shift, w) && nZero <= i + 1
      ensures nZero >= i ==> (fixed <==> Settled(solver, cuts, basis[i + 1]))
    {
      if nZero >= i {
        forall k: nat | k < |lpRows| ensures solver.width(cuts, lpRows[..k], lpRows[k]) == 0.0 {
          assert f[nZero0 + k] == Width(nZero0 + k) == 0.0;
          assert B()[nZero0..i][..k] == B()[nZero0..nZero0 + k];
        }
        FlagIsRight(solver, cuts, lpRows, basis[i + 1], fixed, shift);
      }
    }

    // What an iteration does to the integer points: a reliable flag loses none.
    lemma PointsKept(before: Rows, count: nat, k: nat, w: real, empty: bool)
      requires Sound(solver) && Sized() && k < dim && Counts(before, count, k, w, empty)
      requires Settled(solver, before, basis[k])
      ensures SamePoints(solver, before, cuts, dim)
      ensures empty ==> NoPoints(solver, cuts, dim)
    {
      hide Settled;
      SettledCut(solver, before, basis[k]);
      if empty {
        forall x | |x| == dim ensures !solver.Inside(cuts, x) { assert PointLaw(solver, before, basis[k], x); }
      }
    }

    constructor (solver: Solver, rows: Rows, nZero: nat, nBounded: nat)
      requires NonNegative(solver) && nZero <= nBounded <= |rows| && forall r :: 0 <= r < |rows| ==> |rows[r]| == |rows|
      ensures Sized() && B() == rows && this.nZero == nZero0 == i == nZero && this.nBounded == nBounded
      ensures this.solver == solver && cuts == [] && lpRows == [] && snaps == [] && !useSaved
      ensures fresh(basis) && fresh(f) && fresh(alpha)
    {
      this.solver, this.dim, this.nBounded := solver, |rows|, nBounded;
      basis := new Vec[|rows|](r requires 0 <= r < |rows| => rows[r]);
      this.nZero, nZero0, i := nZero, nZero, nZero;
      cuts, lpRows, snaps, saved := [], [], [], 0;
      useSaved, fSaved, fixedSaved, shiftSaved := false, 0.0, false, 0.0;
      f := new real[nBounded];
      alpha := new real[2, nBounded];
      new;
      assert B() == rows;
    }

    ghost predicate AtStart()
      reads this, basis
    {
      Sized() && nZero == nZero0 == i <= nBounded && lpRows == [] && snaps == [] && !useSaved
    }

    // The first row that is not known to be fixed, before the loop: it is counted as fixed
    // when its width is less than 1.
    method Start() returns (stop: bool)
      requires AtStart() && i < nBounded
      modifies `cuts, `nZero, f
      ensures Sized() && (!stop ==> Inv())
      ensures var w := solver.width(old(cuts), [], basis[i]);
              if w < 1.0 then Counts(old(cuts), old(nZero), i, w, stop)
              else cuts == old(cuts) && nZero == old(nZero) && f[i] == w && !stop
      ensures Sound(solver) ==> ZeroWidths() && SamePoints(solver, old(cuts), cuts, dim)
      ensures Sound(solver) && stop ==> NoPoints(solver, cuts, dim)
    {
      hide Sound, SamePoints, NoPoints;
      stop := false;
      SamePointsItself(cuts);
      assert B()[nZero0..i] == [];
      f[i] := solver.width(cuts, lpRows, basis[i]);
      if f[i] < 1.0 {
        ghost var w := f[i];
        if Sound(solver) { NarrowSettled(solver, cuts, basis[i]); }
        stop := CountRow(i);
        if Sound(solver) { PointsKept(old(cuts), i, i, w, stop); }
      }
    }

    // Why the loop stopped early: the last cut, to a row of the basis, left nothing, or
    // the first row that is not fixed is known to be narrow.
    ghost predicate StoppedEarly(onlyFirst: bool)
      reads this, basis, f
    {
      || (cuts != [] && cuts[|cuts| - 1] in B() && solver.emptyAfterCut(cuts[..|cuts| - 1], cuts[|cuts| - 1]))
      || (onlyFirst && nZero < f.Length && f[nZero] < 2.0)
    }

    lemma LastCut(before: Rows, k: nat, onlyFirst: bool)
      requires k < basis.Length && cuts == before + [basis[k]] && solver.emptyAfterCut(before, basis[k])
      ensures StoppedEarly(onlyFirst)
    {
      assert cuts[..|cuts| - 1] == before && cuts[|cuts| - 1] == B()[k];
    }

    // What a run has done to the points of the polyhedron, for given flags.
    ghost predicate Faithful(before: Rows, after: Rows, moves: seq<Move>) {
      AllReliable(moves) ==> SamePoints(solver, before, after, dim)
    }

    method Iterate(onlyFirst: bool) returns (stopped: bool, ghost move: Move)
      requires Inv() && i + 1 < nBounded
      modifies this, basis, f, alpha
      ensures Sized() && SameLattice(old(B()), B()) && FixedRows(old(B()), old(nZero))
      ensures old(nZero) <= nZero && (if stopped then StoppedEarly(onlyFirst) else Inv())
      ensures Sound(solver) ==> ZeroWidths()
      ensures Sound(solver) && Reliable(move.shift, move.width) ==> SamePoints(solver, old(cuts), cuts, dim)
      ensures Sound(solver) && stopped && !onlyFirst && Reliable(move.shift, move.width) ==> NoPoints(solver, cuts, dim)
    {
      hide Sound, Settled, Reliable, Computed, BestRounding, IsMultiplier, SameLattice, Whole, NextTo, Inv;
      MidBounds();
      ghost var c, i0, n0, f0, mu, a, w, fixed, shift := cuts, i, nZero, f[i], 0, 0.0, 0.0, false, 0.0;
      stopped, mu, a, w, fixed, shift := Step(onlyFirst);
      move := Move(shift, w);
      ghost var k := Candidate(n0, i0, 4.0 * w < 3.0 * f0, onlyFirst, w);
      if fixed && k >= 0 {
        if stopped { LastCut(c, k, onlyFirst); }
        if Sound(solver) && Reliable(shift, w) { PointsKept(c, n0, k, w, stopped); }
      }
    }

    ghost predicate OneOf(cuts: Rows, x: Vec) { |x| == dim && solver.Inside(cuts, x) }

    ghost predicate SameOn(k: nat, x: Vec, y: Vec)
      reads basis
    {
      k < basis.Length && |basis[k]| == |x| == |y| && Dot(basis[k], x) == Dot(basis[k], y)
    }

    // The rows counted as fixed take one value on the points that are left.
    lemma RowsAgree(k: nat, x: Vec, y: Vec)
      requires Sound(solver) && Sized() && ZeroWidths() && nZero0 <= k < nZero && OneOf(cuts, x) && OneOf(cuts, y)
      ensures SameOn(k, x, y)
    {
      hide Sound;
      var rows := B()[nZero0..nZero];
      forall l: nat | l < |rows| ensures solver.width(cuts, rows[..l], rows[l]) == 0.0 {
        assert rows[..l] == B()[nZero0..nZero0 + l];
        assert Width(nZero0 + l) == 0.0;
      }
      ZeroRowsAgree(solver, cuts, rows, k - nZero0, x, y);
    }

    lemma Conclude(before: Rows, moves: seq<Move>, empty: bool)
      requires Sound(solver) && Sized() && ZeroWidths() && Faithful(before, cuts, moves)
      requires empty && AllReliable(moves) ==> NoPoints(solver, cuts, dim)
      ensures AllReliable(moves) ==>
                && SamePoints(solver, before, cuts, dim)
                && (forall k, x, y :: nZero0 <= k < nZero && OneOf(before, x) && OneOf(before, y) ==> SameOn(k, x, y))
                && (empty ==> NoPoints(solver, before, dim))
    {
      hide Sound, ZeroWidths, AllReliable, SameOn, Sized;
      if AllReliable(moves) {
        forall k, x, y | nZero0 <= k < nZero && OneOf(before, x) && OneOf(before, y) ensures SameOn(k, x, y) {
          RowsAgree(k, x, y);
        }
      }
    }

    lemma FaithfulChain(before: Rows, c: Rows, moves: seq<Move>, move: Move)
      requires Faithful(before, c, moves)
      requires Reliable(move.shift, move.width) ==> SamePoints(solver, c, cuts, dim)
      ensures Faithful(before, cuts, moves + [move])
    {
      hide Reliable;
      if AllReliable(moves + [move]) {
        assert (moves + [move])[|moves|] == move;
        forall k | 0 <= k < |moves| ensures Reliable(moves[k].shift, moves[k].width) {
          assert (moves + [move])[k] == moves[k];
        }
      }
    }

    lemma SamePointsItself(c: Rows)
      ensures SamePoints(solver, c, c, dim)
    {
    }

    lemma Begun(before: Rows)
      requires SamePoints(solver, before, cuts, dim)
      ensures Faithful(before, cuts, [])
    {
    }

    lemma InvBounds()
      requires Inv()
      ensures Sized() && nZero0 <= i < nBounded
    {
      hide Sound;
    }

    lemma SameLatticeItself(b: Rows)
      ensures SameLattice(b, b)
    {
    }

    /** At most `rounds` iterations.  Whatever the widths are, the lattice is kept, the rows
        of the known equalities and of the unbounded directions are not touched, and
        unless it stops early the loop is finished when row nBounded - 1 is reached.  For a
        sound solver, if all flags are reliable, no integer point of the polyhedron is lost by
        the cuts, so each row that is counted as fixed takes one value on all of them; and
        there are none if a cut has left nothing. */
    method Reduce(onlyFirst: bool, rounds: nat) returns (stopped: bool, finished: bool, ghost moves: seq<Move>)
      requires AtStart()
      modifies this, basis, f, alpha
      ensures SameLattice(old(B()), B()) && FixedRows(old(B()), old(nZero))
      ensures old(nZero) <= nZero
      ensures old(nBounded <= nZero + 1) ==> B() == old(B()) && nZero == old(nZero) && finished && !stopped
      ensures old(nBounded > nZero + 1) ==>
                if stopped then StoppedEarly(onlyFirst) else Inv() && (finished <==> i + 1 == nBounded)
      ensures Sound(solver) && AllReliable(moves) ==>
                && SamePoints(solver, old(cuts), cuts, dim)
                && (forall k, x, y :: nZero0 <= k < nZero && OneOf(old(cuts), x) && OneOf(old(cuts), y) ==>
                      SameOn(k, x, y))
                && (stopped && !onlyFirst ==> NoPoints(solver, old(cuts), dim))
    {
      hide Sound, SameLattice, Inv, ZeroWidths, SamePoints, NoPoints, Faithful;
      moves := [];
      if nBounded <= nZero + 1 {
        SameLatticeItself(B());
        SamePointsItself(cuts);
        return false, true, [];
      }
      SameLatticeItself(B());
      stopped := Start();
      finished := stopped || i + 1 == nBounded;
      if Sound(solver) { Begun(old(cuts)); }
      if stopped {
        LastCut(old(cuts), i, onlyFirst);
        if Sound(solver) { Conclude(old(cuts), moves, stopped && !onlyFirst); }
        return;
      }
      for k := 0 to rounds
        invariant Inv() && Sized() && old(nZero) <= nZero && !stopped && (finished <==> i + 1 == nBounded)
        invariant i < nBounded && nZero0 == old(nZero)
        invariant SameLattice(old(B()), B()) && FixedRows(old(B()), old(nZero))
        invariant Sound(solver) ==> ZeroWidths() && Faithful(old(cuts), cuts, moves)
      {
        if finished { break; }
        ghost var b, c := B(), cuts;
        ghost var move;
        stopped, move := Iterate(onlyFirst);
        LatticeChain(old(B()), b, B());
        finished := stopped || i + 1 == nBounded;
        if Sound(solver) { FaithfulChain(old(cuts), c, moves, move); }
        moves := moves + [move];
        assert moves[|moves| - 1] == move;
        if stopped { break; }
        InvBounds();
      }
      if Sound(solver) { Conclude(old(cuts), moves, stopped && !onlyFirst); }
    }
  }

  ghost predicate NextTo(m: int, a: real) { m as real - 1.0 < a < m as real + 1.0 }

  lemma CombineNothing(r: Vec, s: Vec)
    requires |r| == |s|
    ensures Combine(1, r, 0, s) == r
  {
  }
}
