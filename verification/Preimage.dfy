/** Plugging a multi-affine map into an affine expression, in place. */
module Preimage {
  import opened Arith
  import opened Gcd
  import opened QuasiAffine
  import opened RowSpan

  // The sizes of the groups of coefficients.
  datatype Layout = Layout(param: nat, before: nat, inputs: nat, after: nat, divMa: nat, divSrc: nat) {
    // coefficients in dst after the denominator
    function DstSize(): nat { 1 + param + before + inputs + after + divMa + divSrc }
    // and in src, for n variables that are replaced
    function SrcSize(n: nat): nat { 1 + param + before + n + after + divSrc }
    // and in an element of the map, after its denominator
    function MapSize(): nat { 1 + param + inputs + divMa }
  }

  // The map's expressions: denominator, constant and parameters, inputs, divisions.
  ghost predicate ValidMap(ma: seq<Vec>, lay: Layout) {
    forall i :: 0 <= i < |ma| ==> |ma[i]| == 1 + lay.MapSize() && ma[i][0] > 0
  }

  /** The value of an expression: the integer values of everything but the replaced variables. */
  datatype Point = Point(one: Vec, before: Vec, inputs: Vec, after: Vec, divMa: Vec, divSrc: Vec)

  ghost predicate Fits(pt: Point, lay: Layout) {
    && |pt.one| == 1 + lay.param && |pt.before| == lay.before && |pt.inputs| == lay.inputs
    && |pt.after| == lay.after && |pt.divMa| == lay.divMa && |pt.divSrc| == lay.divSrc
  }

  function DstPoint(pt: Point): Vec { pt.one + pt.before + pt.inputs + pt.after + pt.divMa + pt.divSrc }

  // The numerator of the map's expression i.
  ghost function MapNum(row: Vec, lay: Layout, pt: Point): int
    requires |row| == 1 + lay.MapSize() && Fits(pt, lay)
  {
    Dot(row[1..], pt.one + pt.inputs + pt.divMa)
  }

  // b times the value of the map's expression with the given numerator and denominator
  ghost function Frac(b: int, num: int, den: int): real
    requires den > 0
  {
    b as real * (num as real / den as real)
  }

  // b . v for the first n replaced variables
  ghost function Replaced(b: Vec, ma: seq<Vec>, lay: Layout, pt: Point, n: nat): real
    requires n <= |ma| == |b| && ValidMap(ma, lay) && Fits(pt, lay)
  {
    if n == 0 then 0.0 else Replaced(b, ma, lay, pt, n - 1) + Frac(b[n - 1], MapNum(ma[n - 1], lay, pt), ma[n - 1][0])
  }

  // src without its denominator is head | b | after | divs; this is what does not
  // depend on the replaced variables.
  ghost function Kept(c: Vec, n: nat, lay: Layout, pt: Point): int
    requires |c| == lay.SrcSize(n) && Fits(pt, lay)
  {
    var h := 1 + lay.param + lay.before;
    Dot(c[..h], pt.one + pt.before) + Dot(c[h + n..], pt.after + pt.divSrc)
  }

  // The numerator of src with the values of the map for the first n replaced variables.
  ghost function Partial(c: Vec, ma: seq<Vec>, lay: Layout, pt: Point, n: nat): real
    requires |c| == lay.SrcSize(|ma|) && ValidMap(ma, lay) && Fits(pt, lay) && n <= |ma|
  {
    var h := 1 + lay.param + lay.before;
    Kept(c, |ma|, lay, pt) as real + Replaced(c[h..h + |ma|], ma, lay, pt, n)
  }

  ghost predicate IsScaled(d: int, f: int, s: real) { d as real == f as real * s }

  /** Dot products group by group. */

  lemma {:induction false} DotConcat(a: Vec, b: Vec, x: Vec, y: Vec)
    requires |a| == |x| && |b| == |y|
    ensures Dot(a + b, x + y) == Dot(a, x) + Dot(b, y)
  {
    if b == [] {
      assert a + b == a && x + y == x;
    } else {
      var n := |b| - 1;
      assert (a + b)[..|a + b| - 1] == a + b[..n];
      DotConcat(a, b[..n], x, y[..n]);
      DotPrefix(a + b[..n], x + y, x + y[..n]);
      DotPrefix(b[..n], y, y[..n]);
    }
  }

  // The coefficients of a map's expression, spread over the groups of dst.
  function Spread(row: Vec, lay: Layout): (s: Vec)
    requires |row| == 1 + lay.MapSize()
    ensures |s| == lay.DstSize()
  {
    var p, q := 1 + 1 + lay.param, 1 + 1 + lay.param + lay.inputs;
    row[1..p] + Zeros(lay.before) + row[p..q] + Zeros(lay.after) + row[q..] + Zeros(lay.divSrc)
  }

  lemma SpreadDot(row: Vec, lay: Layout, pt: Point)
    requires |row| == 1 + lay.MapSize() && Fits(pt, lay)
    ensures Dot(Spread(row, lay), DstPoint(pt)) == MapNum(row, lay, pt)
  {
    var p, q := 2 + lay.param, 2 + lay.param + lay.inputs;
    SixGroups(row[1..p], Zeros(lay.before), row[p..q], Zeros(lay.after), row[q..], Zeros(lay.divSrc), pt);
    DotZeros(Zeros(lay.before), pt.before);
    DotZeros(Zeros(lay.after), pt.after);
    DotZeros(Zeros(lay.divSrc), pt.divSrc);
    DotConcat(row[1..p] + row[p..q], row[q..], pt.one + pt.inputs, pt.divMa);
    DotConcat(row[1..p], row[p..q], pt.one, pt.inputs);
    assert row[1..] == row[1..p] + row[p..q] + row[q..];
  }

  lemma SixGroups(a: Vec, b: Vec, c: Vec, d: Vec, e: Vec, f: Vec, pt: Point)
    requires |a| == |pt.one| && |b| == |pt.before| && |c| == |pt.inputs|
    requires |d| == |pt.after| && |e| == |pt.divMa| && |f| == |pt.divSrc|
    ensures Dot(a + b + c + d + e + f, DstPoint(pt)) ==
            Dot(a, pt.one) + Dot(b, pt.before) + Dot(c, pt.inputs) + Dot(d, pt.after) + Dot(e, pt.divMa) +
                Dot(f, pt.divSrc)
  {
    DotConcat(a + b + c + d + e, f, pt.one + pt.before + pt.inputs + pt.after + pt.divMa, pt.divSrc);
    DotConcat(a + b + c + d, e, pt.one + pt.before + pt.inputs + pt.after, pt.divMa);
    DotConcat(a + b + c, d, pt.one + pt.before + pt.inputs, pt.after);
    DotConcat(a + b, c, pt.one + pt.before, pt.inputs);
    DotConcat(a, b, pt.one, pt.before);
  }

  // dst before any variable is replaced
  function Initial(c: Vec, n: nat, lay: Layout): (d: Vec)
    requires |c| == lay.SrcSize(n)
    ensures |d| == lay.DstSize()
  {
    var h := 1 + lay.param + lay.before;
    c[..h] + Zeros(lay.inputs) + c[h + n..h + n + lay.after] + Zeros(lay.divMa) + c[h + n + lay.after..]
  }

  // d has the coefficients ab and wg, spread around the groups of replaced variables.
  lemma KeptGroups(d: Vec, ab: Vec, wg: Vec, pt: Point, kept: int)
    requires |ab| == |pt.one| + |pt.before| && |wg| == |pt.after| + |pt.divSrc|
    requires d == ab + Zeros(|pt.inputs|) + wg[..|pt.after|] + Zeros(|pt.divMa|) + wg[|pt.after|..]
    requires kept == Dot(ab, pt.one + pt.before) + Dot(wg, pt.after + pt.divSrc)
    ensures |d| == |DstPoint(pt)| && Dot(d, DstPoint(pt)) == kept
  {
    var a, b, w, g := ab[..|pt.one|], ab[|pt.one|..], wg[..|pt.after|], wg[|pt.after|..];
    assert ab == a + b && wg == w + g;
    SixGroups(a, b, Zeros(|pt.inputs|), w, Zeros(|pt.divMa|), g, pt);
    DotZeros(Zeros(|pt.inputs|), pt.inputs);
    DotZeros(Zeros(|pt.divMa|), pt.divMa);
    DotConcat(a, b, pt.one, pt.before);
    DotConcat(w, g, pt.after, pt.divSrc);
  }

  lemma InitialDot(c: Vec, n: nat, lay: Layout, pt: Point)
    requires |c| == lay.SrcSize(n) && Fits(pt, lay)
    ensures Dot(Initial(c, n, lay), DstPoint(pt)) == Kept(c, n, lay, pt)
  {
    var h := 1 + lay.param + lay.before;
    InitialGroups(c, n, lay);
    KeptGroups(Initial(c, n, lay), c[..h], c[h + n..], pt, Kept(c, n, lay, pt));
  }

  lemma InitialGroups(c: Vec, n: nat, lay: Layout)
    requires |c| == lay.SrcSize(n)
    ensures var h := 1 + lay.param + lay.before;
            var wg := c[h + n..];
            Initial(c, n, lay) == c[..h] + Zeros(lay.inputs) + wg[..lay.after] + Zeros(lay.divMa) + wg[lay.after..]
  {
    var h := 1 + lay.param + lay.before;
    var wg := c[h + n..];
    assert wg[..lay.after] == c[h + n..h + n + lay.after] && wg[lay.after..] == c[h + n + lay.after..];
  }

  /** One replaced variable. */

  // f (s + b v) when dst is f s, c1 = m / g, c2 = f b / g and v = num / m
  lemma StepValue(f: int, b: int, m: int, g: int, dst: int, num: int, s: real, s': real)
    requires m > 0 && g > 0 && Divides(g, m) && Divides(g, f * b) && IsScaled(dst, f, s) && s' == s + Frac(b, num, m)
    ensures IsScaled(DivExact(m, g) * dst + DivExact(f * b, g) * num, f * DivExact(m, g), s')
  {
    var c1, c2 := DivExact(m, g), DivExact(f * b, g);
    var v := num as real / m as real;
    RealTimes(c1, dst);
    RealTimes(c2, num);
    RealTimes(f, c1);
    RealTimes(c1, g);
    RealTimes(c2, g);
    RealTimes(f, b);
    RealCancel(num as real, m as real);
    StepReal(f as real, b as real, g as real, m as real, c1 as real, c2 as real, v, s);
  }

  lemma StepReal(f: real, b: real, g: real, m: real, c1: real, c2: real, v: real, s: real)
    requires g > 0.0 && c1 * g == m && c2 * g == f * b
    ensures c1 * (f * s) + c2 * (v * m) == (f * c1) * (s + b * v)
  {
    assert c2 * (v * m) == c2 * (v * (c1 * g)) == (c2 * g) * (v * c1);
    assert (f * b) * (v * c1) == (f * c1) * (b * v);
    assert c1 * (f * s) == (f * c1) * s;
    assert (f * c1) * (s + b * v) == (f * c1) * s + (f * c1) * (b * v);
  }

  lemma CombineDot(c1: int, d: Vec, c2: int, s: Vec, y: Vec)
    requires |d| == |s| <= |y|
    ensures Dot(Combine(c1, d, c2, s), y) == c1 * Dot(d, y) + c2 * Dot(s, y)
  {
    assert Combine(c1, d, c2, s) == AddVec(ScaleVec(c1, d), ScaleVec(c2, s));
    DotAdd(ScaleVec(c1, d), ScaleVec(c2, s), y);
    DotScale(c1, d, y);
    DotScale(c2, s, y);
  }

  // What has been achieved for the first n variables with factor f.
  ghost predicate Substituted(d: Vec, c: Vec, ma: seq<Vec>, lay: Layout, n: nat, f: int) {
    && |c| == lay.SrcSize(|ma|) && ValidMap(ma, lay) && n <= |ma| && |d| == lay.DstSize() && f > 0
    && forall pt :: Fits(pt, lay) ==> SubstitutedAt(d, c, ma, lay, n, f, pt)
  }

  ghost predicate SubstitutedAt(d: Vec, c: Vec, ma: seq<Vec>, lay: Layout, n: nat, f: int, pt: Point)
    requires |c| == lay.SrcSize(|ma|) && ValidMap(ma, lay) && n <= |ma| && |d| == lay.DstSize() && Fits(pt, lay)
  {
    IsScaled(Dot(d, DstPoint(pt)), f, Partial(c, ma, lay, pt, n))
  }

  lemma SubstitutedStart(c: Vec, ma: seq<Vec>, lay: Layout)
    requires |c| == lay.SrcSize(|ma|) && ValidMap(ma, lay)
    ensures Substituted(Initial(c, |ma|, lay), c, ma, lay, 0, 1)
  {
    forall pt | Fits(pt, lay) ensures SubstitutedAt(Initial(c, |ma|, lay), c, ma, lay, 0, 1, pt) {
      InitialDot(c, |ma|, lay, pt);
    }
  }

  lemma SubstitutedStep(d: Vec, c: Vec, ma: seq<Vec>, lay: Layout, n: nat, f: int, g: int)
    requires Substituted(d, c, ma, lay, n, f) && n < |ma|
    requires g > 0 && Divides(g, ma[n][0]) && Divides(g, f * c[1 + lay.param + lay.before + n])
    ensures var c1, c2 := DivExact(ma[n][0], g), DivExact(f * c[1 + lay.param + lay.before + n], g);
            f * c1 > 0 && Substituted(Combine(c1, d, c2, Spread(ma[n], lay)), c, ma, lay, n + 1, f * c1)
  {
    var h := 1 + lay.param + lay.before;
    var m, b := ma[n][0], c[h + n];
    var c1, c2 := DivExact(m, g), DivExact(f * b, g);
    PositiveProduct(c1, g, m, f);
    forall pt | Fits(pt, lay)
      ensures SubstitutedAt(Combine(c1, d, c2, Spread(ma[n], lay)), c, ma, lay, n + 1, f * c1, pt)
    {
      assert SubstitutedAt(d, c, ma, lay, n, f, pt);
      SubstitutedStepAt(d, c, ma, lay, n, f, g, pt);
    }
  }

  lemma SubstitutedStepAt(d: Vec, c: Vec, ma: seq<Vec>, lay: Layout, n: nat, f: int, g: int, pt: Point)
    requires |c| == lay.SrcSize(|ma|) && ValidMap(ma, lay) && n < |ma| && |d| == lay.DstSize() && Fits(pt, lay)
    requires SubstitutedAt(d, c, ma, lay, n, f, pt)
    requires g > 0 && Divides(g, ma[n][0]) && Divides(g, f * c[1 + lay.param + lay.before + n])
    ensures var c1, c2 := DivExact(ma[n][0], g), DivExact(f * c[1 + lay.param + lay.before + n], g);
            SubstitutedAt(Combine(c1, d, c2, Spread(ma[n], lay)), c, ma, lay, n + 1, f * c1, pt)
  {
    var h := 1 + lay.param + lay.before;
    var m, b := ma[n][0], c[h + n];
    var c1, c2 := DivExact(m, g), DivExact(f * b, g);
    CombineDot(c1, d, c2, Spread(ma[n], lay), DstPoint(pt));
    SpreadDot(ma[n], lay, pt);
    PartialStep(c, ma, lay, pt, n);
    StepValue(f, b, m, g, Dot(d, DstPoint(pt)), MapNum(ma[n], lay, pt), Partial(c, ma, lay, pt, n),
        Partial(c, ma, lay, pt, n + 1));
  }

  lemma PartialStep(c: Vec, ma: seq<Vec>, lay: Layout, pt: Point, n: nat)
    requires |c| == lay.SrcSize(|ma|) && ValidMap(ma, lay) && Fits(pt, lay) && n < |ma|
    ensures Partial(c, ma, lay, pt, n + 1) ==
            Partial(c, ma, lay, pt, n) + Frac(c[1 + lay.param + lay.before + n], MapNum(ma[n], lay, pt), ma[n][0])
  {
    var h := 1 + lay.param + lay.before;
    assert c[h..h + |ma|][n] == c[h + n];
  }

  lemma PositiveProduct(c1: int, g: int, m: int, f: int)
    requires c1 * g == m && m > 0 && g > 0 && f > 0
    ensures f * c1 > 0
  {
    assert c1 <= 0 ==> c1 * g <= 0;
  }

  // A variable with coefficient zero may be skipped.
  lemma SubstitutedSkip(d: Vec, c: Vec, ma: seq<Vec>, lay: Layout, n: nat, f: int)
    requires Substituted(d, c, ma, lay, n, f) && n < |ma| && c[1 + lay.param + lay.before + n] == 0
    ensures Substituted(d, c, ma, lay, n + 1, f)
  {
    forall pt | Fits(pt, lay) ensures SubstitutedAt(d, c, ma, lay, n + 1, f, pt) {
      assert SubstitutedAt(d, c, ma, lay, n, f, pt);
      PartialStep(c, ma, lay, pt, n);
    }
  }

  /** The operations on ranges of the array. */

  method CopyAt(dst: array<int>, o: nat, s: Vec)
    requires o + |s| <= dst.Length
    modifies dst
    ensures dst[o..o + |s|] == s
    ensures forall k :: 0 <= k < dst.Length && !(o <= k < o + |s|) ==> dst[k] == old(dst[k])
  {
    for i := 0 to |s|
      invariant forall k :: o <= k < o + i ==> dst[k] == s[k - o]
      invariant forall k :: 0 <= k < dst.Length && !(o <= k < o + i) ==> dst[k] == old(dst[k])
    {
      dst[o + i] := s[i];
    }
  }

  // isl_seq_combine of the range with s
  method CombineAt(dst: array<int>, o: nat, c1: int, c2: int, s: Vec)
    requires o + |s| <= dst.Length
    modifies dst
    ensures forall k :: o <= k < o + |s| ==> dst[k] == c1 * old(dst[k]) + c2 * s[k - o]
    ensures forall k :: 0 <= k < dst.Length && !(o <= k < o + |s|) ==> dst[k] == old(dst[k])
  {
    for i := 0 to |s|
      invariant forall k :: o <= k < o + i ==> dst[k] == c1 * old(dst[k]) + c2 * s[k - o]
      invariant forall k :: 0 <= k < dst.Length && !(o <= k < o + i) ==> dst[k] == old(dst[k])
    {
      dst[o + i] := c1 * dst[o + i] + c2 * s[i];
    }
  }

  // isl_seq_scale of the range
  method ScaleAt(dst: array<int>, o: nat, c1: int, n: nat)
    requires o + n <= dst.Length
    modifies dst
    ensures forall k :: o <= k < o + n ==> dst[k] == c1 * old(dst[k])
    ensures forall k :: 0 <= k < dst.Length && !(o <= k < o + n) ==> dst[k] == old(dst[k])
  {
    for i := 0 to n
      invariant forall k :: o <= k < o + i ==> dst[k] == c1 * old(dst[k])
      invariant forall k :: 0 <= k < dst.Length && !(o <= k < o + i) ==> dst[k] == old(dst[k])
    {
      dst[o + i] := c1 * dst[o + i];
    }
  }

  // The coefficients of dst before position r have been combined.
  ghost predicate CombinedTo(d': Vec, d: Vec, o: nat, r: nat, c1: int, c2: int, s: Vec) {
    && |d'| == |d| == o + |s| && o <= r <= |d|
    && (forall k :: o <= k < r ==> Combined(d'[k], d[k], c1, c2, s[k - o]))
    && (forall k :: 0 <= k < |d| && (k < o || r <= k) ==> d'[k] == d[k])
  }

  ghost predicate Combined(x': int, x: int, c1: int, c2: int, s: int) { x' == c1 * x + c2 * s }

  // A group of coefficients that the map's expression has, ...
  method CombineGroup(dst: array<int>, r: nat, c1: int, c2: int, g: Vec, ghost d: Vec, ghost o: nat, ghost s: Vec)
    requires CombinedTo(dst[..], d, o, r, c1, c2, s) && r + |g| <= dst.Length && s[r - o..r - o + |g|] == g
    modifies dst
    ensures CombinedTo(dst[..], d, o, r + |g|, c1, c2, s)
  {
    assert forall k :: r <= k < |d| ==> dst[..][k] == d[k];
    CombineAt(dst, r, c1, c2, g);
    forall k | r <= k < r + |g| ensures Combined(dst[k], d[k], c1, c2, s[k - o]) {
      assert s[k - o] == s[r - o..r - o + |g|][k - r] == g[k - r];
    }
  }

  // ... and one that it does not have.
  method ScaleGroup(dst: array<int>, r: nat, c1: int, n: nat, ghost d: Vec, ghost o: nat, ghost c2: int, ghost s: Vec)
    requires CombinedTo(dst[..], d, o, r, c1, c2, s) && r + n <= dst.Length && s[r - o..r - o + n] == Zeros(n)
    modifies dst
    ensures CombinedTo(dst[..], d, o, r + n, c1, c2, s)
  {
    assert forall k :: r <= k < |d| ==> dst[..][k] == d[k];
    ScaleAt(dst, r, c1, n);
    forall k | r <= k < r + n ensures Combined(dst[k], d[k], c1, c2, s[k - o]) {
      assert s[k - o] == s[r - o..r - o + n][k - r] == 0;
    }
  }

  // Six groups of dst, each combined with its group of the map's expression.
  method CombineGroups(dst: array<int>, o: nat, c1: int, c2: int, row: Vec, lay: Layout)
    requires dst.Length == o + lay.DstSize() && |row| == 1 + lay.MapSize()
    modifies dst
    ensures dst[o..] == Combine(c1, old(dst[o..]), c2, Spread(row, lay)) && dst[..o] == old(dst[..o])
  {
    ghost var d, s := dst[..], Spread(row, lay);
    SpreadGroups(row, lay);
    var q, r := 1, o;
    CombineGroup(dst, r, c1, c2, row[q..q + 1 + lay.param], d, o, s);
    q, r := q + 1 + lay.param, r + 1 + lay.param;
    ScaleGroup(dst, r, c1, lay.before, d, o, c2, s);
    r := r + lay.before;
    CombineGroup(dst, r, c1, c2, row[q..q + lay.inputs], d, o, s);
    q, r := q + lay.inputs, r + lay.inputs;
    ScaleGroup(dst, r, c1, lay.after, d, o, c2, s);
    r := r + lay.after;
    CombineGroup(dst, r, c1, c2, row[q..q + lay.divMa], d, o, s);
    r := r + lay.divMa;
    ScaleGroup(dst, r, c1, lay.divSrc, d, o, c2, s);
    CombinedAll(dst[..], d, o, c1, c2, s);
  }

  lemma SpreadGroups(row: Vec, lay: Layout)
    requires |row| == 1 + lay.MapSize()
    ensures var s, p, b, i, a, m := Spread(row, lay), 1 + lay.param, lay.before, lay.inputs, lay.after, lay.divMa;
            && s[..p] == row[1..1 + p] && s[p..p + b] == Zeros(b)
            && s[p + b..p + b + i] == row[1 + p..1 + p + i] && s[p + b + i..p + b + i + a] == Zeros(a)
            && s[p + b + i + a..p + b + i + a + m] == row[1 + p + i..1 + p + i + m]
            && s[p + b + i + a + m..] == Zeros(lay.divSrc)
  {
  }

  lemma CombinedAll(d': Vec, d: Vec, o: nat, c1: int, c2: int, s: Vec)
    requires CombinedTo(d', d, o, |d|, c1, c2, s)
    ensures d'[o..] == Combine(c1, d[o..], c2, s) && d'[..o] == d[..o]
  {
    forall k | 0 <= k < |s| ensures d'[o..][k] == Combine(c1, d[o..], c2, s)[k] {
      assert Combined(d'[o + k], d[o + k], c1, c2, s[k]);
    }
  }

  /** isl_seq_preimage: a / b in dst, where a is f times the numerator of src with the
      values of the map plugged in, and b is f times its denominator. */
  method SeqPreimage(dst: array<int>, src: Vec, ma: seq<Vec>, lay: Layout, hasDenom: bool) returns (f: int)
    requires var o := if hasDenom then 1 else 0; dst.Length == o + lay.DstSize() && |src| == o + lay.SrcSize(|ma|)
    requires ValidMap(ma, lay)
    modifies dst
    ensures f > 0 && (hasDenom ==> dst[0] == src[0] * f)
    ensures var o := if hasDenom then 1 else 0;
            forall pt :: Fits(pt, lay) ==>
                IsScaled(Dot(dst[o..], DstPoint(pt)), f, Partial(src[o..], ma, lay, pt, |ma|))
  {
    var o := if hasDenom then 1 else 0;
    ghost var c := src[o..];
    Initialize(dst, src, |ma|, lay, o);
    SubstitutedStart(c, ma, lay);
    f := 1;
    for i := 0 to |ma|
      invariant Substituted(dst[o..], c, ma, lay, i, f) && (hasDenom ==> dst[0] == src[0] * f)
    {
      f := ReplaceVariable(dst, src, ma, lay, o, i, f);
    }
    forall pt | Fits(pt, lay)
      ensures IsScaled(Dot(dst[o..], DstPoint(pt)), f, Partial(c, ma, lay, pt, |ma|))
    {
      assert SubstitutedAt(dst[o..], c, ma, lay, |ma|, f, pt);
    }
  }

  // Replaces variable i; o is the number of denominators.
  method ReplaceVariable(dst: array<int>, src: Vec, ma: seq<Vec>, lay: Layout, o: nat, i: nat, f: int) returns (f': int)
    requires o <= 1 && dst.Length == o + lay.DstSize() && |src| == o + lay.SrcSize(|ma|) && i < |ma|
    requires Substituted(dst[o..], src[o..], ma, lay, i, f) && (o == 1 ==> dst[0] == src[0] * f)
    modifies dst
    ensures Substituted(dst[o..], src[o..], ma, lay, i + 1, f') && (o == 1 ==> dst[0] == src[0] * f')
  {
    var b := src[o + 1 + lay.param + lay.before + i];
    assert b == src[o..][1 + lay.param + lay.before + i];
    if b == 0 {
      SubstitutedSkip(dst[o..], src[o..], ma, lay, i, f);
      return f;
    }
    var c1, c2 := ma[i][0], f * b;
    var g := Gcd.Gcd(c1, c2);
    SubstitutedStep(dst[o..], src[o..], ma, lay, i, f, g);
    c1, c2 := DivExact(c1, g), DivExact(c2, g);
    f' := f * c1;
    CombineGroups(dst, o, c1, c2, ma[i], lay);
    if o == 1 { ScaleDenominator(dst, src[0], f, c1); }
  }

  method ScaleDenominator(dst: array<int>, ghost d: int, ghost f: int, c1: int)
    requires dst.Length > 0 && dst[..1] == [d * f]
    modifies dst
    ensures dst[0] == d * (f * c1) && dst[1..] == old(dst[1..])
  {
    Regroup(d, f, c1);
    assert dst[0] == dst[..1][0];
    dst[0] := dst[0] * c1;
  }

  lemma Regroup(x: int, y: int, z: int)
    ensures (x * y) * z == x * (y * z)
  {
  }

  method Initialize(dst: array<int>, src: Vec, n: nat, lay: Layout, o: nat)
    requires o <= 1 && dst.Length == o + lay.DstSize() && |src| == o + lay.SrcSize(n)
    modifies dst
    ensures dst[o..] == Initial(src[o..], n, lay) && dst[..o] == src[..o]
  {
    var h := o + 1 + lay.param + lay.before;
    var d := src[..h] + Zeros(lay.inputs) + src[h + n..h + n + lay.after] + Zeros(lay.divMa) + src[h + n + lay.after..];
    CopyAt(dst, 0, d);
    assert dst[..] == d;
  }

  /** Over the scaled denominator, the result is the rational function it should be. */
  lemma SameFraction(num: int, f: int, s: real, d: int)
    requires IsScaled(num, f, s) && f > 0 && d > 0
    ensures (d * f) as real > 0.0 && num as real / (d * f) as real == s / d as real
  {
    RealTimes(d, f);
    var d', f' := d as real, f as real;
    assert d' * f' > 0.0;
    RealCancel(s, d');
    var q := s / d';
    assert f' * s == q * (d' * f');
    RealDivides(q, d' * f', f' * s);
  }

  lemma RealDivides(q: real, e: real, n: real)
    requires e != 0.0 && n == q * e
    ensures n / e == q
  {
  }
}
