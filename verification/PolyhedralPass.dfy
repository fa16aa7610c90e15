/** The pass: legality test, loop interchange and tiling of a rectangular nest. */
module PolyhedralPass {
  import opened Wrappers
  import opened LoopNest
  import opened Reordering

  // One analysed loop.  `inductionType` belongs to the loop's own induction variable;
  // the other fields travel when two loops are interchanged.
  datatype LoopDescriptor = LoopDescriptor(
    iv: Symbol,
    inductionType: nat,
    name: string,
    lower: AffineExpr,
    upper: AffineExpr,
    step: Step
  )

  // The nest as written: one `Original` loop per descriptor.
  function Written(loops: seq<LoopDescriptor>): (r: seq<Loop>)
    ensures |r| == |loops| && WellFormedLoops(r)
    ensures forall k :: 0 <= k < |r| ==> r[k] == Original(loops[k].iv, loops[k].lower, loops[k].upper, loops[k].step)
  {
    seq(|loops|, k requires 0 <= k < |loops| => Original(loops[k].iv, loops[k].lower, loops[k].upper, loops[k].step))
  }

  // The nest after tiling: the tile loops, then the clamped point loops.
  function Tiled(loops: seq<LoopDescriptor>, size: int): (r: seq<Loop>)
    requires size >= 1
    ensures |r| == 2 * |loops| && WellFormedLoops(r)
    ensures forall k :: 0 <= k < |loops| ==> r[k] == Tile(loops[k].lower, loops[k].upper, size)
    ensures forall k :: 0 <= k < |loops| ==> r[|loops| + k] == Point(k, loops[k].upper, size)
  {
    seq(|loops|, k requires 0 <= k < |loops| => Tile(loops[k].lower, loops[k].upper, size)) +
    seq(|loops|, k requires 0 <= k < |loops| => Point(k, loops[k].upper, size))
  }

  ghost predicate UnitSteps(loops: seq<LoopDescriptor>) {
    forall i :: 0 <= i < |loops| ==> loops[i].step == 1
  }

  // The pass's own test: unit steps, and no bound names an enclosing loop variable.
  ghost predicate Rectangular(loops: seq<LoopDescriptor>) {
    && UnitSteps(loops)
    && (forall i, j :: 0 <= j < i < |loops| ==>
         !Mentions(loops[i].lower, loops[j].iv) && !Mentions(loops[i].upper, loops[j].iv))
  }

  // A bound is computed before its loop starts, so it cannot name that loop's
  // variable or that of a loop inside it.
  ghost predicate Scoped(loops: seq<LoopDescriptor>) {
    forall i, j :: 0 <= i <= j < |loops| ==>
        !Mentions(loops[i].lower, loops[j].iv) && !Mentions(loops[i].upper, loops[j].iv)
  }

  // All bounds are known before the nest starts, and every step is one.
  ghost predicate Invariant(loops: seq<LoopDescriptor>) {
    UnitSteps(loops) && forall i, j :: 0 <= i < |loops| && 0 <= j < |loops| ==>
      !Mentions(loops[i].lower, loops[j].iv) && !Mentions(loops[i].upper, loops[j].iv)
  }

  lemma RectangularInvariant(loops: seq<LoopDescriptor>)
    requires Rectangular(loops) && Scoped(loops)
    ensures Invariant(loops) && UnitSteps(loops)
  {
  }

  // The iteration domain of a nest with invariant bounds.
  ghost predicate InBox(loops: seq<LoopDescriptor>, env: Env, x: Vec) {
    |x| == |loops| && forall k :: 0 <= k < |x| ==> Eval(loops[k].lower, env) <= x[k] < Eval(loops[k].upper, env)
  }

  lemma WrittenMembers(loops: seq<LoopDescriptor>, env: Env, z: Vec)
    requires Invariant(loops)
    ensures z in Enumerate(Written(loops), env, []) <==> InBox(loops, env, z)
  {
    var code := Written(loops);
    EnumerateMembers(code, env, [], z);
    if |z| == |loops| {
      forall k | 0 <= k < |z|
        ensures z[k] in Values(code, env, z[..k]) <==> Eval(loops[k].lower, env) <= z[k] < Eval(loops[k].upper, env)
      {
        EvalUnderBind(loops[k].lower, env, LoopVars(code), z[..k]);
        EvalUnderBind(loops[k].upper, env, LoopVars(code), z[..k]);
        StridedByOne(Eval(loops[k].lower, env), Eval(loops[k].upper, env));
      }
    }
  }

  // A vector of the tiled nest: the tile origins, then the point.
  function TiledVec(loops: seq<LoopDescriptor>, env: Env, size: int, x: Vec): (z: Vec)
    requires size >= 1 && |x| == |loops|
    requires forall k :: 0 <= k < |x| ==> Eval(loops[k].lower, env) <= x[k]
    ensures |z| == 2 * |x| && z[|x|..] == x
  {
    seq(|x|, k requires 0 <= k < |x| => TileOf(Eval(loops[k].lower, env), size, x[k])) + x
  }

  // The values of the loop at position k of the tiled nest, for a vector of the nest.
  lemma TiledValues(loops: seq<LoopDescriptor>, env: Env, size: int, z: Vec, k: nat)
    requires size >= 1 && |z| == 2 * |loops| && k < |loops|
    ensures Values(Tiled(loops, size), env, z[..k]) ==
            TileOrigins(Eval(loops[k].lower, env), Eval(loops[k].upper, env), size)
    ensures Values(Tiled(loops, size), env, z[..|loops| + k]) ==
            Range(z[k], Min(z[k] + size, Eval(loops[k].upper, env)))
  {
    var n, outer := |loops|, z[..|loops| + k];
    assert outer[k] == z[k];
    assert Tiled(loops, size)[n + k] == Point(k, loops[k].upper, size);
  }

  // The tiled nest visits a vector exactly when its point lies in the box and its
  // tile origins are those of that point.
  lemma TiledMembers(loops: seq<LoopDescriptor>, env: Env, size: int, z: Vec)
    requires size >= 1
    ensures z in Enumerate(Tiled(loops, size), env, []) <==>
              |z| == 2 * |loops| && InBox(loops, env, z[|loops|..]) && z == TiledVec(loops, env, size, z[|loops|..])
  {
    EnumerateMembers(Tiled(loops, size), env, [], z);
    if |z| == 2 * |loops| {
      if z in Enumerate(Tiled(loops, size), env, []) {
        TiledVisitsOnlyBox(loops, env, size, z);
      }
      if InBox(loops, env, z[|loops|..]) && z == TiledVec(loops, env, size, z[|loops|..]) {
        TiledVisitsBox(loops, env, size, z[|loops|..]);
      }
    }
  }

  lemma TiledVisitsOnlyBox(loops: seq<LoopDescriptor>, env: Env, size: int, z: Vec)
    requires size >= 1 && |z| == 2 * |loops|
    requires forall k :: 0 <= k < |z| ==> z[k] in Values(Tiled(loops, size), env, z[..k])
    ensures InBox(loops, env, z[|loops|..]) && z == TiledVec(loops, env, size, z[|loops|..])
  {
    forall k: nat | k < |loops| ensures PointOfTile(loops, env, size, z, k) {
      assert z[k] in Values(Tiled(loops, size), env, z[..k]);
      assert z[|loops| + k] in Values(Tiled(loops, size), env, z[..|loops| + k]);
      TiledPoint(loops, env, size, z, k);
    }
    TiledVecOfPoints(loops, env, size, z);
  }

  lemma TiledVecOfPoints(loops: seq<LoopDescriptor>, env: Env, size: int, z: Vec)
    requires size >= 1 && |z| == 2 * |loops|
    requires forall k: nat :: k < |loops| ==> PointOfTile(loops, env, size, z, k)
    ensures InBox(loops, env, z[|loops|..]) && z == TiledVec(loops, env, size, z[|loops|..])
  {
    var n, x := |loops|, z[|loops|..];
    forall k | 0 <= k < n ensures Eval(loops[k].lower, env) <= x[k] < Eval(loops[k].upper, env) {
      assert PointOfTile(loops, env, size, z, k);
    }
    var w := TiledVec(loops, env, size, x);
    forall k | 0 <= k < 2 * n ensures z[k] == w[k] {
      if k < n { assert PointOfTile(loops, env, size, z, k); } else { assert z[k] == x[k - n] == w[n..][k - n]; }
    }
  }

  ghost predicate PointOfTile(loops: seq<LoopDescriptor>, env: Env, size: int, z: Vec, k: nat)
    requires size >= 1 && |z| == 2 * |loops| && k < |loops|
  {
    var lo, p := Eval(loops[k].lower, env), z[|loops|..][k];
    lo <= p < Eval(loops[k].upper, env) && z[k] == TileOf(lo, size, p)
  }

  lemma TiledPoint(loops: seq<LoopDescriptor>, env: Env, size: int, z: Vec, k: nat)
    requires size >= 1 && |z| == 2 * |loops| && k < |loops|
    requires z[k] in Values(Tiled(loops, size), env, z[..k])
    requires z[|loops| + k] in Values(Tiled(loops, size), env, z[..|loops| + k])
    ensures PointOfTile(loops, env, size, z, k)
  {
    TiledValues(loops, env, size, z, k);
    TileUnique(Eval(loops[k].lower, env), Eval(loops[k].upper, env), size, z[|loops| + k], z[k]);
  }

  lemma TiledVisitsBox(loops: seq<LoopDescriptor>, env: Env, size: int, x: Vec)
    requires size >= 1 && InBox(loops, env, x)
    ensures var z := TiledVec(loops, env, size, x);
            forall k :: 0 <= k < |z| ==> z[k] in Values(Tiled(loops, size), env, z[..k])
  {
    var n, z := |loops|, TiledVec(loops, env, size, x);
    forall k | 0 <= k < 2 * n ensures z[k] in Values(Tiled(loops, size), env, z[..k]) {
      var j := if k < n then k else k - n;
      TiledValues(loops, env, size, z, j);
      TileOfIsOrigin(Eval(loops[j].lower, env), Eval(loops[j].upper, env), size, x[j]);
    }
  }

  /** Iteration orders. */

  // The iteration of the original nest that runs at loop values `z`: original
  // variable k is supplied by the loop at position source[k].
  function Coordinates(z: Vec, source: seq<nat>): (x: Vec)
    ensures |x| == |source|
  {
    seq(|source|, k requires 0 <= k < |source| => if source[k] < |z| then z[source[k]] else 0)
  }

  function Order(code: seq<Loop>, source: seq<nat>, env: Env): (r: seq<Vec>)
    requires WellFormedLoops(code)
    ensures |r| == |Enumerate(code, env, [])|
    ensures forall i :: 0 <= i < |r| ==> r[i] == Coordinates(Enumerate(code, env, [])[i], source)
  {
    var zs := Enumerate(code, env, []);
    seq(|zs|, i requires 0 <= i < |zs| => Coordinates(zs[i], source))
  }

  function Identity(n: nat): (s: seq<nat>)
    ensures |s| == n && forall k :: 0 <= k < n ==> s[k] == k
  {
    seq(n, k => k)
  }

  function Shift(source: seq<nat>, offset: nat): (s: seq<nat>)
    ensures |s| == |source| && forall k :: 0 <= k < |s| ==> s[k] == source[k] + offset
  {
    seq(|source|, k requires 0 <= k < |source| => source[k] + offset)
  }

  // The lexicographically ordered conflicting pairs of the domain.
  ghost predicate Dependence(body: Body, loops: seq<LoopDescriptor>, env: Env, x: Vec, y: Vec) {
    InBox(loops, env, x) && InBox(loops, env, y) && Conflict(body, x, y) && LexLess(x, y)
  }

  // A dependence with a negative distance in dimension `k`.
  ghost predicate Violation(body: Body, loops: seq<LoopDescriptor>, env: Env, k: int, x: Vec, y: Vec) {
    Dependence(body, loops, env, x, y) && 0 <= k < |x| && y[k] < x[k]
  }

  ghost predicate FullyPermutable(body: Body, loops: seq<LoopDescriptor>, env: Env) {
    forall k, x, y :: !Violation(body, loops, env, k, x, y)
  }

  // The loops of `now` are those of `before` in another order: `source` sends an
  // original loop to its present position and `origin` sends a position back.
  ghost predicate Rearranged(before: seq<LoopDescriptor>, now: seq<LoopDescriptor>, source: seq<nat>,
                             origin: seq<nat>) {
    && |now| == |before| == |source| == |origin|
    && (forall k: nat :: k < |source| ==> Sent(before, now, source, origin, k))
    && (forall j: nat :: j < |origin| ==> SentBack(before, now, source, origin, j))
  }

  ghost predicate Sent(before: seq<LoopDescriptor>, now: seq<LoopDescriptor>, source: seq<nat>, origin: seq<nat>,
                       k: nat)
    requires |now| == |before| == |source| == |origin| && k < |source|
  {
    && source[k] < |now| && origin[source[k]] == k
    && now[source[k]].lower == before[k].lower && now[source[k]].upper == before[k].upper
    && now[source[k]].step == before[k].step
  }

  ghost predicate SentBack(before: seq<LoopDescriptor>, now: seq<LoopDescriptor>, source: seq<nat>, origin: seq<nat>,
                           j: nat)
    requires |now| == |before| == |source| == |origin| && j < |origin|
  {
    origin[j] < |now| && source[origin[j]] == j && now[j].iv == before[j].iv
  }

  // The loop values at which the rearranged nest runs original iteration `x`.
  function Permuted(x: Vec, origin: seq<nat>): (z: Vec)
    ensures |z| == |origin|
  {
    Coordinates(x, origin)
  }

  /** Any order that visits the box once per point and orders points that are ordered
      in every dimension is a legal order of a fully permutable nest. */

  ghost predicate VisitsBoxOnce(loops: seq<LoopDescriptor>, env: Env, order: seq<Vec>) {
    Distinct(order) && forall x :: x in order <==> InBox(loops, env, x)
  }

  ghost predicate ComponentwiseLess(x: Vec, y: Vec) {
    |x| == |y| && x != y && forall k :: 0 <= k < |x| ==> x[k] <= y[k]
  }

  ghost predicate KeepsComponentOrder(order: seq<Vec>) {
    forall p, q :: 0 <= p < |order| && 0 <= q < |order| && ComponentwiseLess(order[p], order[q]) ==> p < q
  }

  lemma LexSortedDistinct(s: seq<Vec>)
    requires LexSorted(s)
    ensures Distinct(s)
  {
    forall i, j | 0 <= i < j < |s| ensures s[i] != s[j] {
      assert LexLess(s[i], s[j]);
      LexIrreflexive(s[i]);
    }
  }

  lemma LegalOrderPreservesMemory(body: Body, loops: seq<LoopDescriptor>, env: Env, order: seq<Vec>, m: Memory)
    requires Framed(body) && Invariant(loops)
    requires FullyPermutable(body, loops, env)
    requires VisitsBoxOnce(loops, env, order) && KeepsComponentOrder(order)
    ensures Execute(body, order, m) == Execute(body, Order(Written(loops), Identity(|loops|), env), m)
  {
    var s := Order(Written(loops), Identity(|loops|), env);
    OriginalOrder(loops, env);
    forall x, y | Dependence(body, loops, env, x, y) ensures ComponentwiseLess(x, y) {
      DependenceIsComponentwise(body, loops, env, x, y);
    }
    ConflictsKept(body, loops, env, s, order);
    ReorderPreservesMemory(body, s, order, m);
  }

  lemma DependenceIsComponentwise(body: Body, loops: seq<LoopDescriptor>, env: Env, x: Vec, y: Vec)
    requires FullyPermutable(body, loops, env) && Dependence(body, loops, env, x, y)
    ensures ComponentwiseLess(x, y)
  {
    LexIrreflexive(x);
    forall k | 0 <= k < |x| ensures x[k] <= y[k] {
      assert !Violation(body, loops, env, k, x, y);
    }
  }

  lemma ConflictsKept(body: Body, loops: seq<LoopDescriptor>, env: Env, s: seq<Vec>, order: seq<Vec>)
    requires VisitsBoxOnce(loops, env, s) && LexSorted(s)
    requires KeepsComponentOrder(order)
    requires forall x, y :: Dependence(body, loops, env, x, y) ==> ComponentwiseLess(x, y)
    ensures KeepsConflicts(body, s, order)
  {
    forall i, j | 0 <= i < j < |s| && Conflict(body, s[i], s[j]) ensures ComponentwiseLess(s[i], s[j]) {
      assert s[i] in s && s[j] in s;
      assert Dependence(body, loops, env, s[i], s[j]);
    }
  }

  // The nest as written visits its box in lexicographic order.
  lemma OriginalOrder(loops: seq<LoopDescriptor>, env: Env)
    requires Invariant(loops)
    ensures var s := Order(Written(loops), Identity(|loops|), env);
            VisitsBoxOnce(loops, env, s) && LexSorted(s)
  {
    var zs := Enumerate(Written(loops), env, []);
    var s := Order(Written(loops), Identity(|loops|), env);
    EnumerateSorted(Written(loops), env, []);
    forall z ensures z in zs <==> InBox(loops, env, z) { WrittenMembers(loops, env, z); }
    forall i | 0 <= i < |zs| ensures s[i] == zs[i] { assert zs[i] in zs; }
    assert s == zs;
    LexSortedDistinct(s);
  }

  ghost predicate AtMost(x: Vec, y: Vec) {
    |x| == |y| && forall k :: 0 <= k < |x| ==> x[k] <= y[k]
  }

  // Loop values whose iterations are ordered in every dimension are themselves
  // ordered in every loop.
  ghost predicate ReflectsOrder(zs: seq<Vec>, source: seq<nat>) {
    forall z, w :: z in zs && w in zs && AtMost(Coordinates(z, source), Coordinates(w, source)) ==> AtMost(z, w)
  }

  // A nest that runs exactly the iterations of the box, at loop values that reflect
  // their order, visits each once and keeps the component order.
  lemma ReflectingOrder(code: seq<Loop>, source: seq<nat>, loops: seq<LoopDescriptor>, env: Env)
    requires WellFormedLoops(code)
    requires ReflectsOrder(Enumerate(code, env, []), source)
    requires forall z :: z in Enumerate(code, env, []) ==> InBox(loops, env, Coordinates(z, source))
    requires forall x :: InBox(loops, env, x) ==>
             exists z :: z in Enumerate(code, env, []) && Coordinates(z, source) == x
    ensures VisitsBoxOnce(loops, env, Order(code, source, env))
    ensures KeepsComponentOrder(Order(code, source, env))
  {
    var zs, order := Enumerate(code, env, []), Order(code, source, env);
    EnumerateSorted(code, env, []);
    forall x ensures x in order <==> InBox(loops, env, x) {
      if x in order {
        var i :| 0 <= i < |order| && order[i] == x;
        assert zs[i] in zs;
      }
      if InBox(loops, env, x) {
        var z :| z in zs && Coordinates(z, source) == x;
        var i :| 0 <= i < |zs| && zs[i] == z;
        assert order[i] == x;
      }
    }
    forall p, q | 0 <= p < |zs| && 0 <= q < |zs| && p != q && AtMost(order[p], order[q])
        ensures p < q && !AtMost(order[q], order[p]) {
      ReflectedPair(zs, source, p, q);
    }
  }

  lemma ReflectedPair(zs: seq<Vec>, source: seq<nat>, p: nat, q: nat)
    requires LexSorted(zs) && ReflectsOrder(zs, source)
    requires p < |zs| && q < |zs| && p != q && AtMost(Coordinates(zs[p], source), Coordinates(zs[q], source))
    ensures p < q && !AtMost(Coordinates(zs[q], source), Coordinates(zs[p], source))
  {
    assert zs[p] in zs && zs[q] in zs;
    LexSortedDistinct(zs);
    ComponentwiseIsLex(zs[p], zs[q]);
    LexAsymmetric(zs[p], zs[q]);
    AtMostAntisymmetric(zs[p], zs[q]);
  }

  lemma AtMostAntisymmetric(x: Vec, y: Vec)
    ensures AtMost(x, y) && AtMost(y, x) ==> x == y
  {
  }

  /** Interchange and tiling give legal orders. */

  lemma RearrangedInvariant(before: seq<LoopDescriptor>, now: seq<LoopDescriptor>, source: seq<nat>, origin: seq<nat>)
    requires Rearranged(before, now, source, origin) && Invariant(before)
    ensures Invariant(now)
  {
    forall i: nat, j: nat | i < |now| && j < |now|
      ensures !Mentions(now[i].lower, now[j].iv) && !Mentions(now[i].upper, now[j].iv)
    {
      assert SentBack(before, now, source, origin, i) && SentBack(before, now, source, origin, j);
      assert Sent(before, now, source, origin, origin[i]);
    }
    forall i: nat | i < |now| ensures now[i].step == 1 {
      assert SentBack(before, now, source, origin, i) && Sent(before, now, source, origin, origin[i]);
    }
  }

  lemma BoxForward(before: seq<LoopDescriptor>, now: seq<LoopDescriptor>, source: seq<nat>, origin: seq<nat>,
                   env: Env, x: Vec)
    requires Rearranged(before, now, source, origin) && InBox(before, env, x)
    ensures InBox(now, env, Permuted(x, origin)) && Coordinates(Permuted(x, origin), source) == x
  {
    var z := Permuted(x, origin);
    forall j: nat | j < |z| ensures Eval(now[j].lower, env) <= z[j] < Eval(now[j].upper, env) {
      assert SentBack(before, now, source, origin, j);
      assert Sent(before, now, source, origin, origin[j]);
    }
    forall k: nat | k < |source| ensures Coordinates(z, source)[k] == x[k] {
      assert Sent(before, now, source, origin, k);
    }
  }

  lemma BoxBackward(before: seq<LoopDescriptor>, now: seq<LoopDescriptor>, source: seq<nat>, origin: seq<nat>,
                    env: Env, z: Vec)
    requires Rearranged(before, now, source, origin) && InBox(now, env, z)
    ensures InBox(before, env, Coordinates(z, source)) && Permuted(Coordinates(z, source), origin) == z
  {
    var x := Coordinates(z, source);
    forall k: nat | k < |x| ensures Eval(before[k].lower, env) <= x[k] < Eval(before[k].upper, env) {
      assert Sent(before, now, source, origin, k);
    }
    forall j: nat | j < |origin| ensures Permuted(x, origin)[j] == z[j] {
      assert SentBack(before, now, source, origin, j);
    }
  }

  lemma PermutedAtMost(z: Vec, w: Vec, source: seq<nat>, origin: seq<nat>)
    requires AtMost(Coordinates(z, source), Coordinates(w, source))
    requires Permuted(Coordinates(z, source), origin) == z && Permuted(Coordinates(w, source), origin) == w
    ensures AtMost(z, w)
  {
  }

  lemma InterchangedOrder(before: seq<LoopDescriptor>, now: seq<LoopDescriptor>, source: seq<nat>, origin: seq<nat>,
                          env: Env)
    requires Rearranged(before, now, source, origin) && Invariant(before)
    ensures VisitsBoxOnce(before, env, Order(Written(now), source, env))
    ensures KeepsComponentOrder(Order(Written(now), source, env))
  {
    RearrangedInvariant(before, now, source, origin);
    var zs := Enumerate(Written(now), env, []);
    forall x | InBox(before, env, x) ensures exists z :: z in zs && Coordinates(z, source) == x {
      BoxForward(before, now, source, origin, env, x);
      WrittenMembers(now, env, Permuted(x, origin));
    }
    forall z | z in zs ensures InBox(before, env, Coordinates(z, source)) &&
        Permuted(Coordinates(z, source), origin) == z {
      WrittenMembers(now, env, z);
      BoxBackward(before, now, source, origin, env, z);
    }
    forall z, w | z in zs && w in zs && AtMost(Coordinates(z, source), Coordinates(w, source)) ensures AtMost(z, w) {
      PermutedAtMost(z, w, source, origin);
    }
    ReflectingOrder(Written(now), source, before, env);
  }

  lemma TiledReflects(before: seq<LoopDescriptor>, now: seq<LoopDescriptor>, source: seq<nat>, origin: seq<nat>,
                      env: Env, size: int, z: Vec, w: Vec)
    requires Rearranged(before, now, source, origin) && size >= 1
    requires z in Enumerate(Tiled(now, size), env, []) && w in Enumerate(Tiled(now, size), env, [])
    requires AtMost(Coordinates(z, Shift(source, |now|)), Coordinates(w, Shift(source, |now|)))
    ensures AtMost(z, w)
  {
    TiledBackward(before, now, source, origin, env, size, z);
    TiledBackward(before, now, source, origin, env, size, w);
    var x := Permuted(Coordinates(z, Shift(source, |now|)), origin);
    var y := Permuted(Coordinates(w, Shift(source, |now|)), origin);
    TiledVecMonotone(now, env, size, x, y);
  }

  lemma TiledOrder(before: seq<LoopDescriptor>, now: seq<LoopDescriptor>, source: seq<nat>, origin: seq<nat>,
                   env: Env, size: int)
    requires Rearranged(before, now, source, origin) && Invariant(before) && size >= 1
    ensures var order := Order(Tiled(now, size), Shift(source, |now|), env);
            VisitsBoxOnce(before, env, order) && KeepsComponentOrder(order)
  {
    var zs, shifted := Enumerate(Tiled(now, size), env, []), Shift(source, |now|);
    forall x | InBox(before, env, x) ensures exists z :: z in zs && Coordinates(z, shifted) == x {
      TiledForward(before, now, source, origin, env, size, x);
    }
    forall z | z in zs ensures InBox(before, env, Coordinates(z, shifted)) {
      TiledBackward(before, now, source, origin, env, size, z);
    }
    forall z, w | z in zs && w in zs && AtMost(Coordinates(z, shifted), Coordinates(w, shifted)) ensures AtMost(z, w) {
      TiledReflects(before, now, source, origin, env, size, z, w);
    }
    ReflectingOrder(Tiled(now, size), shifted, before, env);
  }

  lemma SourceInRange(before: seq<LoopDescriptor>, now: seq<LoopDescriptor>, source: seq<nat>, origin: seq<nat>)
    requires Rearranged(before, now, source, origin)
    ensures forall k :: 0 <= k < |source| ==> source[k] < |now|
  {
    forall k: nat | k < |source| ensures source[k] < |now| {
      assert Sent(before, now, source, origin, k);
    }
  }

  lemma TiledForward(before: seq<LoopDescriptor>, now: seq<LoopDescriptor>, source: seq<nat>, origin: seq<nat>,
                     env: Env, size: int, x: Vec)
    requires Rearranged(before, now, source, origin) && InBox(before, env, x) && size >= 1
    ensures InBox(now, env, Permuted(x, origin))
    ensures var z := TiledVec(now, env, size, Permuted(x, origin));
            z in Enumerate(Tiled(now, size), env, []) && Coordinates(z, Shift(source, |now|)) == x
  {
    BoxForward(before, now, source, origin, env, x);
    var z := TiledVec(now, env, size, Permuted(x, origin));
    TiledMembers(now, env, size, z);
    SourceInRange(before, now, source, origin);
    TailCoordinates(z, source, |now|);
  }

  lemma TiledBackward(before: seq<LoopDescriptor>, now: seq<LoopDescriptor>, source: seq<nat>, origin: seq<nat>,
                      env: Env, size: int, z: Vec)
    requires Rearranged(before, now, source, origin) && size >= 1
    requires z in Enumerate(Tiled(now, size), env, [])
    ensures var x := Coordinates(z, Shift(source, |now|));
            InBox(before, env, x) && InBox(now, env, Permuted(x, origin)) &&
                TiledVec(now, env, size, Permuted(x, origin)) == z
  {
    TiledMembers(now, env, size, z);
    SourceInRange(before, now, source, origin);
    TailCoordinates(z, source, |now|);
    BoxBackward(before, now, source, origin, env, z[|now|..]);
  }

  lemma TailCoordinates(z: Vec, source: seq<nat>, n: nat)
    requires |z| == 2 * n && forall k :: 0 <= k < |source| ==> source[k] < n
    ensures Coordinates(z, Shift(source, n)) == Coordinates(z[n..], source)
  {
    forall k | 0 <= k < |source| ensures z[source[k] + n] == z[n..][source[k]] {
    }
  }

  lemma TiledVecMonotone(loops: seq<LoopDescriptor>, env: Env, size: int, x: Vec, y: Vec)
    requires size >= 1 && InBox(loops, env, x) && InBox(loops, env, y)
    requires forall k :: 0 <= k < |x| ==> x[k] <= y[k]
    ensures forall k :: 0 <= k < 2 * |x| ==> TiledVec(loops, env, size, x)[k] <= TiledVec(loops, env, size, y)[k]
  {
    forall k | 0 <= k < |x| ensures TiledVec(loops, env, size, x)[k] <= TiledVec(loops, env, size, y)[k] {
      TileOfMonotone(Eval(loops[k].lower, env), size, x[k], y[k]);
    }
  }

  /** The two main results on values. */

  // Interchange alone: any rearrangement of a fully permutable nest ends in the same memory.
  lemma InterchangePreservesMemory(body: Body, before: seq<LoopDescriptor>, now: seq<LoopDescriptor>,
                                   source: seq<nat>, origin: seq<nat>, env: Env, m: Memory)
    requires Framed(body) && Invariant(before) && FullyPermutable(body, before, env)
    requires Rearranged(before, now, source, origin)
    ensures Execute(body, Order(Written(now), source, env), m) ==
            Execute(body, Order(Written(before), Identity(|before|), env), m)
  {
    InterchangedOrder(before, now, source, origin, env);
    LegalOrderPreservesMemory(body, before, env, Order(Written(now), source, env), m);
  }

  // Interchange followed by tiling of every loop, for any tile size.
  lemma TilingPreservesMemory(body: Body, before: seq<LoopDescriptor>, now: seq<LoopDescriptor>,
                              source: seq<nat>, origin: seq<nat>, env: Env, size: int, m: Memory)
    requires Framed(body) && Invariant(before) && FullyPermutable(body, before, env)
    requires Rearranged(before, now, source, origin) && size >= 1
    ensures Execute(body, Order(Tiled(now, size), Shift(source, |now|), env), m) ==
            Execute(body, Order(Written(before), Identity(|before|), env), m)
  {
    TiledOrder(before, now, source, origin, env, size);
    LegalOrderPreservesMemory(body, before, env, Order(Tiled(now, size), Shift(source, |now|), env), m);
  }

  // The tiled nest visits every point of its box exactly once, ordered by tile origins
  // and then by point, also when the tile size does not divide an extent or an
  // extent is empty.
  lemma TilingVisitsBoxOnce(loops: seq<LoopDescriptor>, env: Env, size: int)
    requires Invariant(loops) && size >= 1
    ensures VisitsBoxOnce(loops, env, Order(Tiled(loops, size), Shift(Identity(|loops|), |loops|), env))
    ensures var zs := Enumerate(Tiled(loops, size), env, []);
            && LexSorted(zs)
            && (forall i :: 0 <= i < |zs| ==> |zs[i]| == 2 * |loops|)
            && forall i :: 0 <= i < |zs| ==>
                 InBox(loops, env, zs[i][|loops|..]) && zs[i] == TiledVec(loops, env, size, zs[i][|loops|..])
  {
    var zs := Enumerate(Tiled(loops, size), env, []);
    TiledOrder(loops, loops, Identity(|loops|), Identity(|loops|), env, size);
    EnumerateSorted(Tiled(loops, size), env, []);
    forall i | 0 <= i < |zs|
      ensures |zs[i]| == 2 * |loops|
      ensures InBox(loops, env, zs[i][|loops|..]) && zs[i] == TiledVec(loops, env, size, zs[i][|loops|..])
    {
      assert zs[i] in zs;
      TiledMembers(loops, env, size, zs[i]);
    }
  }

  /** The nest the pass rewrites in place. */

  // Two loops exchange everything but their induction variables.
  function Interchanged(loops: seq<LoopDescriptor>, a: nat, b: nat): (r: seq<LoopDescriptor>)
    requires a < |loops| && b < |loops|
    ensures |r| == |loops|
  {
    var x, y := loops[a], loops[b];
    loops[a := y.(iv := x.iv, inductionType := x.inductionType)][b := x.(iv := y.iv, inductionType := y.inductionType)]
  }

  function Redirect(position: nat, a: nat, b: nat): nat {
    if position == a then b else if position == b then a else position
  }

  function Redirected(source: seq<nat>, a: nat, b: nat): (r: seq<nat>)
    ensures |r| == |source| && forall k :: 0 <= k < |r| ==> r[k] == Redirect(source[k], a, b)
  {
    seq(|source|, k requires 0 <= k < |source| => Redirect(source[k], a, b))
  }

  // Loop i is the first one over `best`, or loop 0 when there is none.
  ghost predicate Picks(loops: seq<LoopDescriptor>, best: Symbol, i: nat) {
    && i < |loops|
    && (loops[i].iv == best || i == 0)
    && (forall k :: 0 <= k < i ==> loops[k].iv != best)
    && (loops[i].iv != best ==> forall k :: 0 <= k < |loops| ==> loops[k].iv != best)
  }

  /** Which loop goes innermost: one whose variable occurs most often in the last
      subscripts of the accesses. */

  function Uses(terms: seq<Term>, s: Symbol): nat {
    if terms == [] then 0
    else Uses(terms[..|terms| - 1], s) + if terms[|terms| - 1].symbol == s then 1 else 0
  }

  function LastTerms(a: MemoryAccess): seq<Term> {
    if a.access.subscripts == [] then [] else a.access.subscripts[|a.access.subscripts| - 1].terms
  }

  function Score(accesses: seq<MemoryAccess>, s: Symbol): nat {
    if accesses == [] then 0
    else Score(accesses[..|accesses| - 1], s) + Uses(LastTerms(accesses[|accesses| - 1]), s)
  }

  // The order in which the symbols with a score are visited, which is that of addresses.
  ghost predicate Lists(accesses: seq<MemoryAccess>, order: seq<Symbol>) {
    forall s :: s in order <==> Score(accesses, s) > 0
  }

  ghost predicate IsBest(accesses: seq<MemoryAccess>, best: Symbol) {
    Score(accesses, best) > 0 && forall s :: Score(accesses, s) <= Score(accesses, best)
  }

  // The loop that is picked is over a best symbol, or loop 0 when that is no loop variable.
  ghost predicate Picked(loops: seq<LoopDescriptor>, accesses: seq<MemoryAccess>, picked: Option<nat>) {
    if picked.Some? then
      |loops| >= 2 && exists best :: IsBest(accesses, best) && Picks(loops, best, picked.value)
    else
      |loops| < 2 || forall s :: Score(accesses, s) == 0
  }

  predicate Exchanges(loops: seq<LoopDescriptor>, picked: Option<nat>) {
    && picked.Some? && picked.value < |loops| && picked.value != |loops| - 1
    && loops[picked.value].inductionType == loops[|loops| - 1].inductionType
  }

  function Reordered(loops: seq<LoopDescriptor>, picked: Option<nat>): seq<LoopDescriptor> {
    if Exchanges(loops, picked) then Interchanged(loops, picked.value, |loops| - 1) else loops
  }

  function ReorderedSource(loops: seq<LoopDescriptor>, source: seq<nat>, picked: Option<nat>): seq<nat> {
    if Exchanges(loops, picked) then Redirected(source, picked.value, |loops| - 1) else source
  }

  method BestSymbol(accesses: seq<MemoryAccess>, order: seq<Symbol>) returns (best: Option<Symbol>)
    requires Lists(accesses, order)
    ensures best.Some? ==> IsBest(accesses, best.value)
    ensures best.None? <==> forall s :: Score(accesses, s) == 0
  {
    var score: map<Symbol, nat> := map[];
    for i := 0 to |accesses|
      invariant forall s :: ScoreIn(score, s) == Score(accesses[..i], s)
    {
      assert accesses[..i + 1][..i] == accesses[..i];
      var terms := LastTerms(accesses[i]);
      for k := 0 to |terms|
        invariant forall s :: ScoreIn(score, s) == Score(accesses[..i], s) + Uses(terms[..k], s)
      {
        assert terms[..k + 1][..k] == terms[..k];
        var s := terms[k].symbol;
        score := score[s := ScoreIn(score, s) + 1];
      }
      assert terms[..|terms|] == terms;
    }
    assert accesses[..|accesses|] == accesses;
    best := None;
    var max := 0;
    for i := 0 to |order|
      invariant forall k :: 0 <= k < i ==> Score(accesses, order[k]) <= max
      invariant if best.Some? then Score(accesses, best.value) == max > 0 else max == 0 && i == 0
    {
      assert order[i] in order;
      if ScoreIn(score, order[i]) > max { best, max := Some(order[i]), ScoreIn(score, order[i]); }
    }
    forall s ensures Score(accesses, s) <= max {
      if Score(accesses, s) > 0 { assert s in order; }
    }
  }

  function ScoreIn(score: map<Symbol, nat>, s: Symbol): nat { if s in score then score[s] else 0 }

  lemma TiledFromParts(loops: seq<LoopDescriptor>, size: int, tiles: seq<Loop>, code: seq<Loop>)
    requires size >= 1 && |tiles| == |loops| && |code| == 2 * |loops| && code[..|loops|] == tiles
    requires forall k :: 0 <= k < |loops| ==> tiles[k] == Tile(loops[k].lower, loops[k].upper, size)
    requires forall k :: 0 <= k < |loops| ==> code[|loops| + k] == Point(k, loops[k].upper, size)
    ensures code == Tiled(loops, size)
  {
    var t := Tiled(loops, size);
    forall k | 0 <= k < |code| ensures code[k] == t[k] {
      if k < |loops| {
        assert code[k] == tiles[k];
      } else {
        assert code[|loops| + (k - |loops|)] == t[|loops| + (k - |loops|)];
      }
    }
  }

  lemma InterchangeRearranges(before: seq<LoopDescriptor>, loops: seq<LoopDescriptor>,
                              source: seq<nat>, origin: seq<nat>, outer: nat, inner: nat)
    requires Rearranged(before, loops, source, origin) && outer < |loops| && inner < |loops|
    ensures Rearranged(before, Interchanged(loops, outer, inner), Redirected(source, outer, inner),
                       origin[outer := origin[inner]][inner := origin[outer]])
  {
    var loops', source' := Interchanged(loops, outer, inner), Redirected(source, outer, inner);
    var origin' := origin[outer := origin[inner]][inner := origin[outer]];
    assert SentBack(before, loops, source, origin, outer) && SentBack(before, loops, source, origin, inner);
    forall k: nat | k < |source| ensures Sent(before, loops', source', origin', k) {
      assert Sent(before, loops, source, origin, k);
    }
    forall j: nat | j < |origin| ensures SentBack(before, loops', source', origin', j) {
      assert SentBack(before, loops, source, origin, j);
    }
  }

  class LoopNestState {
    const env: Env
    const body: Body
    const written: seq<LoopDescriptor>     // the nest as analysed
    var loops: seq<LoopDescriptor>         // descriptors, updated by interchange
    var source: seq<nat>                   // loop position that supplies each payload variable
    var code: seq<Loop>                    // the emitted loops
    var tileSize: int                      // 0 while the nest is not tiled
    ghost var origin: seq<nat>             // inverse of source

    ghost predicate Valid()
      reads this
    {
      && Rearranged(written, loops, source, origin)
      && tileSize >= 0
      && code == (if tileSize == 0 then Written(loops) else Tiled(loops, tileSize))
    }

    // The iterations of the analysed nest in the order the emitted code runs them.
    ghost function Iterations(): seq<Vec>
      requires Valid()
      reads this
    {
      Order(code, if tileSize == 0 then source else Shift(source, |loops|), env)
    }

    ghost function OriginalIterations(): seq<Vec> {
      Order(Written(written), Identity(|written|), env)
    }

    constructor (env: Env, body: Body, nest: seq<LoopDescriptor>)
      ensures Valid() && this.env == env && this.body == body && written == nest
      ensures loops == nest && tileSize == 0 && source == Identity(|nest|)
    {
      this.env, this.body, written, loops := env, body, nest, nest;
      source, origin := Identity(|nest|), Identity(|nest|);
      code, tileSize := Written(nest), 0;
    }

    method IsRectangular() returns (ok: bool)
      ensures ok <==> Rectangular(loops)
    {
      for i := 0 to |loops|
        invariant forall k :: 0 <= k < i ==> loops[k].step == 1
        invariant forall k, j :: 0 <= j < k < i ==>
                  !Mentions(loops[k].lower, loops[j].iv) && !Mentions(loops[k].upper, loops[j].iv)
      {
        if loops[i].step != 1 { return false; }
        for j := 0 to i
          invariant forall l :: 0 <= l < j ==>
                    !Mentions(loops[i].lower, loops[l].iv) && !Mentions(loops[i].upper, loops[l].iv)
        {
          if Mentions(loops[i].lower, loops[j].iv) || Mentions(loops[i].upper, loops[j].iv) {
            return false;
          }
        }
      }
      return true;
    }

    // `noViolation(k)` is the emptiness query on the dependences with a negative
    // distance in dimension k.
    method IsTilingLegal(noViolation: nat -> bool) returns (legal: bool)
      requires forall k: nat :: k < |loops| ==>
               (noViolation(k) <==> forall x, y :: !Violation(body, loops, env, k, x, y))
      ensures legal <==> |loops| >= 2 && FullyPermutable(body, loops, env)
    {
      if |loops| < 2 { return false; }
      for k := 0 to |loops|
        invariant forall j, x, y :: 0 <= j < k ==> !Violation(body, loops, env, j, x, y)
      {
        if !noViolation(k) { return false; }
      }
      return true;
    }

    // Exchanges the bounds of two loops and the payload uses of their variables.  The
    // increments stay with the loops, so the steps must be the same.
    method ApplyLoopInterchange(outer: nat, inner: nat) returns (changed: bool)
      requires Valid() && UnitSteps(loops) && tileSize == 0 && outer < |loops| && inner < |loops|
      modifies this
      ensures Valid() && UnitSteps(loops) && tileSize == 0
      ensures changed <==> old(loops)[outer].inductionType == old(loops)[inner].inductionType
      ensures !changed ==> loops == old(loops) && source == old(source) && code == old(code)
      ensures changed ==>
                loops == Interchanged(old(loops), outer, inner) && source == Redirected(old(source), outer, inner)
    {
      var o, i := loops[outer], loops[inner];
      if o.inductionType != i.inductionType { return false; }
      // start values and compare operands
      code := code[outer := Original(o.iv, i.lower, i.upper, o.step)];
      code := code[inner := Original(i.iv, o.lower, o.upper, i.step)];
      // uses of the two induction variables in the payload
      var k := 0;
      ghost var was := source;
      while k < |source|
        invariant 0 <= k <= |source| == |was|
        invariant forall j :: k <= j < |source| ==> source[j] == was[j]
        invariant forall j :: 0 <= j < k ==>
                    source[j] == Redirect(was[j], outer, inner)
        modifies this`source
      {
        if source[k] == outer {
          source := source[k := inner];
        } else if source[k] == inner {
          source := source[k := outer];
        }
        k := k + 1;
      }
      // descriptor fields; the induction variables stay with their loops
      loops := loops[outer := i.(iv := o.iv, inductionType := o.inductionType)];
      loops := loops[inner := o.(iv := i.iv, inductionType := i.inductionType)];
      InterchangeRearranges(written, old(loops), was, origin, outer, inner);
      assert source == Redirected(was, outer, inner);
      origin := origin[outer := origin[inner]][inner := origin[outer]];
      assert code == Written(loops);
      return true;
    }

    // Exchanges the loop of the most used last subscript variable with the innermost one,
    // when their types allow it.
    method OptimizeLoopOrder(accesses: seq<MemoryAccess>, order: seq<Symbol>)
      returns (changed: bool, ghost picked: Option<nat>)
      requires Valid() && UnitSteps(loops) && tileSize == 0 && Lists(accesses, order)
      modifies this
      ensures Valid() && UnitSteps(loops) && tileSize == 0
      ensures Picked(old(loops), accesses, picked)
      ensures changed <==> Exchanges(old(loops), picked)
      ensures loops == Reordered(old(loops), picked) && source == ReorderedSource(old(loops), old(source), picked)
      ensures !changed ==> code == old(code)
    {
      picked := None;
      if |loops| < 2 { return false, None; }
      var best := BestSymbol(accesses, order);
      if best.None? { return false, None; }
      var bestIdx := 0;
      for i := 0 to |loops|
        invariant bestIdx == 0 && forall k :: 0 <= k < i ==> loops[k].iv != best.value
      {
        if loops[i].iv == best.value {
          bestIdx := i;
          break;
        }
      }
      picked := Some(bestIdx);
      assert Picks(loops, best.value, bestIdx);
      var innermost := |loops| - 1;
      if bestIdx != innermost {
        changed := ApplyLoopInterchange(bestIdx, innermost);
      } else {
        changed := false;
      }
    }

    method ApplyPolyhedralTiling(enabled: bool, size: int) returns (changed: bool)
      requires Valid() && tileSize == 0 && size >= 1
      modifies this`code, this`tileSize
      ensures Valid()
      ensures changed <==> enabled && |loops| >= 2
      ensures tileSize == if changed then size else 0
    {
      if !enabled || |loops| < 2 { return false; }
      // the tile loops around the original ones
      var tiles: seq<Loop> := [];
      for i := 0 to |loops|
        invariant |tiles| == i
        invariant forall k :: 0 <= k < i ==> tiles[k] == Tile(loops[k].lower, loops[k].upper, size)
      {
        tiles := tiles + [Tile(loops[i].lower, loops[i].upper, size)];
      }
      code := tiles + code;
      // each original loop now starts at its tile and stops at the clamped end
      for i := 0 to |loops|
        invariant |code| == 2 * |loops| && code[..|loops|] == tiles
        invariant forall k :: 0 <= k < i ==> code[|loops| + k] == Point(k, loops[k].upper, size)
        modifies this`code
      {
        code := code[|loops| + i := Point(i, loops[i].upper, size)];
      }
      tileSize := size;
      TiledFromParts(loops, size, tiles, code);
      return true;
    }

    // The legality of the nest, as the pass decides it.
    ghost predicate Accepted() {
      Rectangular(written) && |written| >= 2 && FullyPermutable(body, written, env)
    }

    // The pass on one nest: skip it, or test legality, reorder and tile.
    method Run(noViolation: nat -> bool, interchange: bool, accesses: seq<MemoryAccess>, order: seq<Symbol>,
               blocking: bool, size: int)
      returns (changed: bool, ghost picked: Option<nat>)
      requires Valid() && tileSize == 0 && loops == written && source == Identity(|written|)
      requires forall k: nat :: k < |loops| ==>
               (noViolation(k) <==> forall x, y :: !Violation(body, loops, env, k, x, y))
      requires Framed(body) && Scoped(loops) && size >= 1 && Lists(accesses, order)
      modifies this
      ensures Valid()
      ensures forall m :: Execute(body, Iterations(), m) == Execute(body, OriginalIterations(), m)
      ensures picked.Some? ==> Accepted() && interchange
      ensures Accepted() && interchange ==> Picked(written, accesses, picked)
      ensures loops == Reordered(written, picked)
      ensures source == ReorderedSource(written, Identity(|written|), picked)
      ensures tileSize == if Accepted() && blocking then size else 0
      ensures Accepted() && blocking ==> VisitsBoxOnce(written, env, Iterations())
      ensures changed <==> Exchanges(written, picked) || (Accepted() && blocking)
      ensures !changed ==> code == old(code)
    {
      hide Rectangular, FullyPermutable, VisitsBoxOnce, Picked, Lists, Framed, Execute, Invariant, Scoped;
      changed, picked := false, None;
      var rectangular := IsRectangular();
      if !rectangular { return; }
      var legal := IsTilingLegal(noViolation);
      if legal {
        RectangularInvariant(loops);
        if interchange { changed, picked := OptimizeLoopOrder(accesses, order); }
        var tiled := ApplyPolyhedralTiling(blocking, size);
        changed := changed || tiled;
        if tileSize == 0 {
          forall m ensures Execute(body, Iterations(), m) == Execute(body, OriginalIterations(), m) {
            InterchangePreservesMemory(body, written, loops, source, origin, env, m);
          }
        } else {
          TiledOrder(written, loops, source, origin, env, size);
          forall m ensures Execute(body, Iterations(), m) == Execute(body, OriginalIterations(), m) {
            TilingPreservesMemory(body, written, loops, source, origin, env, size, m);
          }
        }
      }
    }
  }

  function InductionVariables(nest: seq<LoopDescriptor>): (ivs: seq<Symbol>)
    ensures |ivs| == |nest| && forall k :: 0 <= k < |ivs| ==> ivs[k] == nest[k].iv
  {
    seq(|nest|, k requires 0 <= k < |nest| => nest[k].iv)
  }

  /** The pass on a nest around straight-line code: the dependences are those of the
      accesses that are collected from the code, and the final memory is that of the code. */
  method OptimizeNest(code: seq<Instruction>, nest: seq<LoopDescriptor>, env: Env,
                      noViolation: (seq<MemoryAccess>, nat) -> bool,
                      interchange: bool, order: seq<Symbol>, blocking: bool, size: int)
    returns (state: LoopNestState, changed: bool, ghost picked: Option<nat>)
    requires Scoped(nest) && size >= 1 && Lists(Accesses(code), order)
    requires forall k: nat :: k < |nest| ==>
               (noViolation(Accesses(code), k) <==>
                  forall x, y :: !Violation(StraightLine(code, env, InductionVariables(nest)), nest, env, k, x, y))
    ensures fresh(state) && state.Valid() && state.env == env && state.written == nest
    ensures var body := StraightLine(code, env, InductionVariables(nest));
            && (forall m :: Execute(body, state.Iterations(), m) ==
                            Execute(body, Order(Written(nest), Identity(|nest|), env), m))
            && var accepted := Rectangular(nest) && |nest| >= 2 && FullyPermutable(body, nest, env);
            && (accepted && interchange ==> Picked(nest, Accesses(code), picked))
            && (picked.Some? ==> accepted && interchange)
            && state.loops == Reordered(nest, picked)
            && state.tileSize == (if accepted && blocking then size else 0)
            && (accepted && blocking ==> VisitsBoxOnce(nest, env, state.Iterations()))
  {
    var body := StraightLine(code, env, InductionVariables(nest));
    StraightLineFramed(code, env, InductionVariables(nest));
    var accesses := CollectMemoryAccesses(code);
    state := new LoopNestState(env, body, nest);
    changed, picked := state.Run((k: nat) => noViolation(accesses, k), interchange, accesses, order, blocking, size);
    assert state.OriginalIterations() == Order(Written(nest), Identity(|nest|), env);
  }
}
