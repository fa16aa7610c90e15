/** Loop nests as data, and the order in which they visit their iterations.

    A nest is a list of loops, outermost first.  `Enumerate` lists the vectors of
    loop values in execution order.  Three kinds of loops occur: the loops of the
    analysed nest, the bottom-tested tile loops that the tiling stage adds, and the
    point loops it leaves behind, whose bounds are clamped to one tile.
  */
module LoopNest {
  import Arith

  type Symbol = string
  type Env = map<Symbol, int>
  type Vec = seq<int>

  datatype Term = Term(symbol: Symbol, coefficient: int)
  datatype AffineExpr = AffineExpr(constant: int, terms: seq<Term>)

  function Lookup(env: Env, s: Symbol): int {
    if s in env then env[s] else 0
  }

  function EvalTerms(terms: seq<Term>, env: Env): int {
    if terms == [] then 0
    else terms[0].coefficient * Lookup(env, terms[0].symbol) + EvalTerms(terms[1..], env)
  }

  function Eval(e: AffineExpr, env: Env): int {
    e.constant + EvalTerms(e.terms, env)
  }

  predicate Mentions(e: AffineExpr, s: Symbol) {
    exists i :: 0 <= i < |e.terms| && e.terms[i].symbol == s && e.terms[i].coefficient != 0
  }

  // Binds the loop variables `ivs` to the values `vals`, from left to right.
  function Bind(env: Env, ivs: seq<Symbol>, vals: Vec): Env
    requires |vals| <= |ivs|
  {
    if vals == [] then env
    else Bind(env, ivs, vals[..|vals| - 1])[ivs[|vals| - 1] := vals[|vals| - 1]]
  }

  lemma {:induction false} EvalTermsUnmentioned(terms: seq<Term>, env: Env, s: Symbol, v: int)
    requires forall i :: 0 <= i < |terms| ==> terms[i].symbol != s || terms[i].coefficient == 0
    ensures EvalTerms(terms, env[s := v]) == EvalTerms(terms, env)
  {
    if terms == [] {
    } else {
      EvalTermsUnmentioned(terms[1..], env, s, v);
    }
  }

  // An expression that mentions none of the bound variables keeps its value.
  lemma {:induction false} EvalUnderBind(e: AffineExpr, env: Env, ivs: seq<Symbol>, vals: Vec)
    requires |vals| <= |ivs|
    requires forall j :: 0 <= j < |vals| ==> !Mentions(e, ivs[j])
    ensures Eval(e, Bind(env, ivs, vals)) == Eval(e, env)
  {
    if vals == [] {
    } else {
      var n := |vals| - 1;
      EvalUnderBind(e, env, ivs, vals[..n]);
      assert !Mentions(e, ivs[n]);
      EvalTermsUnmentioned(e.terms, Bind(env, ivs, vals[..n]), ivs[n], vals[n]);
    }
  }

  // Loops with any other step are not analysed.
  type Step = s: int | s >= 1 witness 1

  /** The loops.

      `Original` is `for (iv = lower; iv < upper; iv += step)`; its bounds may name the
      variables of enclosing loops.  `Tile` is the bottom-tested loop
      `do { ... iv += size } while (iv < bound)`.  `Point` runs from the value of
      the tile loop at position `tile` up to `min(tile value + size, bound)`.
    */
  datatype Loop =
    | Original(iv: Symbol, lower: AffineExpr, upper: AffineExpr, step: Step)
    | Tile(start: AffineExpr, bound: AffineExpr, size: int)
    | Point(tile: nat, end: AffineExpr, width: int)

  function Range(lo: int, hi: int): (r: Vec)
    ensures forall v :: v in r <==> lo <= v < hi
    ensures Increasing(r)
    decreases hi - lo
  {
    if lo >= hi then []
    else
      var rest := Range(lo + 1, hi);
      assert forall i :: 0 <= i < |rest| ==> rest[i] in rest;
      [lo] + rest
  }

  predicate OnStride(lo: int, hi: int, step: Step, v: int) { lo <= v < hi && (v - lo) % step == 0 }

  lemma NextStride(lo: int, hi: int, step: Step, v: int)
    requires lo < hi
    ensures OnStride(lo, hi, step, v) <==> v == lo || OnStride(lo + step, hi, step, v)
  {
    Arith.DivideShift(v - lo, step, -1);
    if lo < v < lo + step { Arith.DivModUnique(v - lo, step, 0, v - lo); }
  }

  function Strided(lo: int, hi: int, step: Step): (r: Vec)
    ensures forall v :: v in r <==> OnStride(lo, hi, step, v)
    ensures Increasing(r)
    decreases hi - lo
  {
    if lo >= hi then []
    else
      var rest := Strided(lo + step, hi, step);
      assert forall v :: OnStride(lo, hi, step, v) <==> v == lo || OnStride(lo + step, hi, step, v) by {
        forall v ensures OnStride(lo, hi, step, v) <==> v == lo || OnStride(lo + step, hi, step, v) {
          NextStride(lo, hi, step, v);
        }
      }
      assert forall i :: 0 <= i < |rest| ==> rest[i] in rest;
      [lo] + rest
  }

  // Unit steps visit the whole range.
  lemma {:induction false} StridedByOne(lo: int, hi: int)
    ensures Strided(lo, hi, 1) == Range(lo, hi)
    decreases hi - lo
  {
    if lo < hi { StridedByOne(lo + 1, hi); }
  }

  ghost predicate Increasing(s: Vec) {
    forall i, j :: 0 <= i < j < |s| ==> s[i] < s[j]
  }

  // The values of a bottom-tested tile loop: the start is always visited.
  function TileOrigins(start: int, bound: int, size: int): (r: Vec)
    requires size >= 1
    ensures |r| > 0 && r[0] == start && Increasing(r)
    ensures forall t :: t in r ==> t >= start
    decreases bound - start
  {
    if start + size < bound then [start] + TileOrigins(start + size, bound, size) else [start]
  }

  // The origin of the tile that holds `p`.
  function TileOf(start: int, size: int, p: int): (t: int)
    requires size >= 1 && start <= p
    ensures start <= t <= p < t + size
    decreases p - start
  {
    if p < start + size then start else TileOf(start + size, size, p)
  }

  lemma {:induction false} TileOfIsOrigin(start: int, bound: int, size: int, p: int)
    requires size >= 1 && start <= p < bound
    ensures TileOf(start, size, p) in TileOrigins(start, bound, size)
    decreases p - start
  {
    if p < start + size {
      assert TileOrigins(start, bound, size)[0] == start;
    } else {
      TileOfIsOrigin(start + size, bound, size, p);
    }
  }

  // A tile of the loop that holds `p` is the one TileOf names.
  lemma {:induction false} TileUnique(start: int, bound: int, size: int, p: int, t: int)
    requires size >= 1
    requires t in TileOrigins(start, bound, size) && t <= p < t + size
    ensures start <= p && t == TileOf(start, size, p)
    decreases bound - start
  {
    if t != start {
      TileUnique(start + size, bound, size, p, t);
    }
  }

  lemma {:induction false} TileOfMonotone(start: int, size: int, p: int, q: int)
    requires size >= 1 && start <= p <= q
    ensures TileOf(start, size, p) <= TileOf(start, size, q)
    decreases p - start
  {
    if p < start + size {
    } else {
      TileOfMonotone(start + size, size, p, q);
    }
  }

  predicate WellFormedLoops(loops: seq<Loop>) {
    forall k :: 0 <= k < |loops| ==>
      (loops[k].Tile? ==> loops[k].size >= 1) &&
      (loops[k].Point? ==> loops[k].tile < k)
  }

  function LoopVars(loops: seq<Loop>): (ivs: seq<Symbol>)
    ensures |ivs| == |loops|
    ensures forall i :: 0 <= i < |loops| && loops[i].Original? ==> ivs[i] == loops[i].iv
  {
    seq(|loops|, i requires 0 <= i < |loops| => if loops[i].Original? then loops[i].iv else "")
  }

  function Min(a: int, b: int): int { if a < b then a else b }

  // The values loop `k` takes, given the values of the loops around it.
  function Values(loops: seq<Loop>, env: Env, outer: Vec): (r: Vec)
    requires WellFormedLoops(loops) && |outer| < |loops|
    ensures Increasing(r)
  {
    match loops[|outer|]
    case Original(_, lower, upper, step) =>
      var inner := Bind(env, LoopVars(loops), outer);
      Strided(Eval(lower, inner), Eval(upper, inner), step)
    case Tile(start, bound, size) => TileOrigins(Eval(start, env), Eval(bound, env), size)
    case Point(tile, end, width) => Range(outer[tile], Min(outer[tile] + width, Eval(end, env)))
  }

  // The value vectors of a nest below the outer values `outer`, in execution order.
  function Enumerate(loops: seq<Loop>, env: Env, outer: Vec): seq<Vec>
    requires WellFormedLoops(loops) && |outer| <= |loops|
    decreases |loops| - |outer|, 1, 0
  {
    if |outer| == |loops| then [outer]
    else EnumerateValues(loops, env, outer, Values(loops, env, outer))
  }

  function EnumerateValues(loops: seq<Loop>, env: Env, outer: Vec, values: Vec): seq<Vec>
    requires WellFormedLoops(loops) && |outer| < |loops|
    decreases |loops| - |outer|, 0, |values|
  {
    if values == [] then []
    else Enumerate(loops, env, outer + [values[0]]) + EnumerateValues(loops, env, outer, values[1..])
  }

  // z agrees with the outer values and its other values belong to their loops.
  ghost predicate Completes(loops: seq<Loop>, env: Env, outer: Vec, z: Vec)
    requires WellFormedLoops(loops)
  {
    |z| == |loops| && outer <= z && forall k :: |outer| <= k < |loops| ==> z[k] in Values(loops, env, z[..k])
  }

  lemma {:induction false} EnumerateMembers(loops: seq<Loop>, env: Env, outer: Vec, z: Vec)
    requires WellFormedLoops(loops) && |outer| <= |loops|
    ensures z in Enumerate(loops, env, outer) <==> Completes(loops, env, outer, z)
    decreases |loops| - |outer|, 1, 0
  {
    if |outer| < |loops| {
      EnumerateValuesMembers(loops, env, outer, Values(loops, env, outer), z);
      CompletesNext(loops, env, outer, z);
    } else {
      assert z in [outer] <==> z == outer;
      if |z| == |loops| && outer <= z { assert z[..|outer|] == z; }
    }
  }

  // The first of the other values belongs to its loop.
  lemma CompletesNext(loops: seq<Loop>, env: Env, outer: Vec, z: Vec)
    requires WellFormedLoops(loops) && |outer| < |loops|
    ensures Completes(loops, env, outer, z) <==>
              |z| == |loops| && outer <= z && z[|outer|] in Values(loops, env, outer) &&
                  Completes(loops, env, outer + [z[|outer|]], z)
  {
    hide Values;
    if |z| == |loops| && outer <= z {
      assert z[..|outer|] == outer;
      assert z[..|outer| + 1] == outer + [z[|outer|]];
    }
  }

  lemma {:induction false} EnumerateValuesMembers(loops: seq<Loop>, env: Env, outer: Vec, values: Vec, z: Vec)
    requires WellFormedLoops(loops) && |outer| < |loops|
    ensures z in EnumerateValues(loops, env, outer, values) <==>
              |z| == |loops| && outer <= z && z[|outer|] in values && Completes(loops, env, outer + [z[|outer|]], z)
    decreases |loops| - |outer|, 0, |values|
  {
    if values != [] {
      EnumerateMembers(loops, env, outer + [values[0]], z);
      EnumerateValuesMembers(loops, env, outer, values[1..], z);
      assert values == [values[0]] + values[1..];
      if outer + [values[0]] <= z { PrefixNext(outer, values[0], z); }
    }
  }

  lemma PrefixNext(outer: Vec, v: int, z: Vec)
    requires outer + [v] <= z
    ensures outer <= z && z[|outer|] == v
  {
    assert z[|outer|] == (outer + [v])[|outer|];
    assert outer <= outer + [v];
  }

  // Lexicographic order on vectors of the same length.
  ghost predicate LexLess(a: Vec, b: Vec) {
    |a| == |b| && exists k :: FirstDifference(a, b, k)
  }

  ghost predicate FirstDifference(a: Vec, b: Vec, k: int)
    requires |a| == |b|
  {
    0 <= k < |a| && a[..k] == b[..k] && a[k] < b[k]
  }

  ghost predicate LexSorted(s: seq<Vec>) {
    forall i, j :: 0 <= i < j < |s| ==> LexLess(s[i], s[j])
  }

  lemma {:induction false} EnumerateSorted(loops: seq<Loop>, env: Env, outer: Vec)
    requires WellFormedLoops(loops) && |outer| <= |loops|
    ensures LexSorted(Enumerate(loops, env, outer))
    decreases |loops| - |outer|, 1, 0
  {
    if |outer| < |loops| {
      EnumerateValuesSorted(loops, env, outer, Values(loops, env, outer));
    }
  }

  lemma {:induction false} EnumerateValuesSorted(loops: seq<Loop>, env: Env, outer: Vec, values: Vec)
    requires WellFormedLoops(loops) && |outer| < |loops|
    requires Increasing(values)
    ensures LexSorted(EnumerateValues(loops, env, outer, values))
    decreases |loops| - |outer|, 0, |values|
  {
    if values != [] {
      var head, tail := Enumerate(loops, env, outer + [values[0]]), EnumerateValues(loops, env, outer, values[1..]);
      EnumerateSorted(loops, env, outer + [values[0]]);
      EnumerateValuesSorted(loops, env, outer, values[1..]);
      forall a, b | a in head && b in tail
        ensures LexLess(a, b)
      {
        EnumerateMembers(loops, env, outer + [values[0]], a);
        EnumerateValuesMembers(loops, env, outer, values[1..], b);
        PrefixNext(outer, values[0], a);
        assert a[..|outer|] == outer == b[..|outer|];
        var j :| 0 <= j < |values[1..]| && values[1..][j] == b[|outer|];
        assert values[1 + j] == b[|outer|];
        assert FirstDifference(a, b, |outer|);
      }
      forall i, j | 0 <= i < j < |head + tail| ensures LexLess((head + tail)[i], (head + tail)[j]) {
        if i < |head| <= j {
          assert (head + tail)[i] == head[i] && (head + tail)[j] == tail[j - |head|];
        } else if j < |head| {
          assert (head + tail)[i] == head[i] && (head + tail)[j] == head[j];
        } else {
          assert (head + tail)[i] == tail[i - |head|] && (head + tail)[j] == tail[j - |head|];
        }
      }
    }
  }

  lemma LexIrreflexive(a: Vec)
    ensures !LexLess(a, a)
  {
  }

  lemma LexAsymmetric(a: Vec, b: Vec)
    requires LexLess(a, b)
    ensures !LexLess(b, a)
  {
    var k :| FirstDifference(a, b, k);
    forall j | 0 <= j < |a| ensures !FirstDifference(b, a, j) {
      if j < k {
        assert a[..k][j] == b[..k][j];
      } else if k < j {
        assert b[..j][k] != a[..j][k];
      }
    }
  }

  // Distinct vectors that are ordered in every component are ordered lexicographically.
  lemma {:induction false} ComponentwiseIsLex(a: Vec, b: Vec)
    requires |a| == |b| && a != b
    requires forall k :: 0 <= k < |a| ==> a[k] <= b[k]
    ensures LexLess(a, b)
    decreases |a|
  {
    if a[0] < b[0] {
      assert FirstDifference(a, b, 0);
    } else {
      ComponentwiseIsLex(a[1..], b[1..]);
      var k :| FirstDifference(a[1..], b[1..], k);
      assert a[..k + 1] == [a[0]] + a[1..][..k] && b[..k + 1] == [b[0]] + b[1..][..k];
      assert FirstDifference(a, b, k + 1);
    }
  }
}
