/** Sets, and the context in which AST expressions are generated. */
module AstBuild {
  import opened Arith
  import opened QuasiAffine
  import opened AstExpr

  // aff == 0 or aff >= 0, for an affine expression with denominator 1
  datatype Constraint = Constraint(isEq: bool, aff: Aff)
  type BasicSet = seq<Constraint>
  type Set = seq<BasicSet>

  ghost predicate ValidConstraint(ls: LocalSpace, c: Constraint) { ls.Has(c.aff) && c.aff.den == 1 }

  ghost predicate ValidBasic(ls: LocalSpace, b: BasicSet) {
    forall i :: 0 <= i < |b| ==> ValidConstraint(ls, b[i])
  }

  ghost predicate ValidSet(ls: LocalSpace, s: Set) {
    forall i :: 0 <= i < |s| ==> ValidBasic(ls, s[i])
  }

  ghost predicate Holds(ls: LocalSpace, c: Constraint, x: Vec)
    requires ls.Valid() && |x| == ls.nvar && ValidConstraint(ls, c)
  {
    var v := Num(c.aff, Extend(ls, x));
    if c.isEq then v == 0 else v >= 0
  }

  ghost predicate InBasic(ls: LocalSpace, b: BasicSet, x: Vec)
    requires ls.Valid() && |x| == ls.nvar && ValidBasic(ls, b)
  {
    forall i :: 0 <= i < |b| ==> Holds(ls, b[i], x)
  }

  ghost predicate InSet(ls: LocalSpace, s: Set, x: Vec)
    requires ls.Valid() && |x| == ls.nvar && ValidSet(ls, s)
  {
    exists i :: 0 <= i < |s| && InBasic(ls, s[i], x)
  }

  // Membership for points and sets of a given local space.
  ghost predicate Contains(ls: LocalSpace, s: Set, x: Vec) {
    ls.Valid() && |x| == ls.nvar && ValidSet(ls, s) && InSet(ls, s, x)
  }

  /** The operations of isl's set library that code generation relies on.  They are
      not modelled; `Sound` states what each promises for sets over one local space. */
  datatype SetOps = SetOps(
    isNonneg: (Set, Aff) -> bool,               // no point of the set makes the expression negative
    minVal: (Set, Aff) -> int,                  // minimum over the set, when there is one
    simpleHull: Set -> BasicSet,                // constraints that hold on the whole set
    removeDivs: BasicSet -> BasicSet,           // weaker constraints without integer divisions
    sortConstraints: BasicSet -> BasicSet,      // a permutation
    gistBasic: (BasicSet, BasicSet) -> BasicSet,
    gist: (Set, Set) -> Set,                    // simplified within a context
    intersect: (Set, Set) -> Set,
    union: (Set, Set) -> Set,
    subtract: (Set, Set) -> Set,
    coalesce: Set -> Set,
    isSubset: (Set, Set) -> bool,
    isDisjoint: (Set, Set) -> bool
  )

  ghost predicate BoundedBelow(ls: LocalSpace, s: Set, a: Aff, k: int)
    requires ls.Has(a)
  {
    forall x :: Contains(ls, s, x) ==> Num(a, Extend(ls, x)) >= k
  }

  ghost predicate SoundQueries(ls: LocalSpace, ops: SetOps) {
    && (forall s, a {:trigger ops.isNonneg(s, a)} :: ValidSet(ls, s) && ls.Has(a) && a.den == 1 ==>
          (ops.isNonneg(s, a) <==> BoundedBelow(ls, s, a, 0)))
    && (forall s, a, k, x {:trigger BoundedBelow(ls, s, a, k), Contains(ls, s, x)} ::
          ValidSet(ls, s) && ls.Has(a) && a.den == 1 && BoundedBelow(ls, s, a, k) && Contains(ls, s, x) ==>
          k <= ops.minVal(s, a) <= Num(a, Extend(ls, x)))
    && (forall s, t {:trigger ops.isSubset(s, t)} :: ValidSet(ls, s) && ValidSet(ls, t) ==>
          (ops.isSubset(s, t) <==> Included(ls, s, t)))
    && (forall s, t {:trigger ops.isDisjoint(s, t)} :: ValidSet(ls, s) && ValidSet(ls, t) ==>
          (ops.isDisjoint(s, t) <==> Disjoint(ls, s, t)))
  }

  ghost predicate Included(ls: LocalSpace, s: Set, t: Set) {
    forall x :: Contains(ls, s, x) ==> Contains(ls, t, x)
  }

  ghost predicate Disjoint(ls: LocalSpace, s: Set, t: Set) {
    forall x :: !(Contains(ls, s, x) && Contains(ls, t, x))
  }

  ghost predicate SoundBasic(ls: LocalSpace, ops: SetOps) {
    && (forall s {:trigger ops.simpleHull(s)} :: ValidSet(ls, s) ==>
          ValidBasic(ls, ops.simpleHull(s)) && Included(ls, s, [ops.simpleHull(s)]))
    && (forall b {:trigger ops.removeDivs(b)} :: ValidBasic(ls, b) ==>
          && ValidBasic(ls, ops.removeDivs(b)) && Included(ls, [b], [ops.removeDivs(b)])
          && forall i :: 0 <= i < |ops.removeDivs(b)| ==> Below(ls, ops.removeDivs(b)[i].aff, 0))
    && (forall b {:trigger ops.sortConstraints(b)} :: ValidBasic(ls, b) ==>
          multiset(ops.sortConstraints(b)) == multiset(b))
    && (forall b, c {:trigger ops.gistBasic(b, c)} :: ValidBasic(ls, b) && ValidBasic(ls, c) ==>
          && ValidBasic(ls, ops.gistBasic(b, c))
          && forall x :: Contains(ls, [c], x) ==> (Contains(ls, [ops.gistBasic(b, c)], x) <==> Contains(ls, [b], x)))
  }

  ghost predicate SoundSets(ls: LocalSpace, ops: SetOps) {
    && (forall s {:trigger ops.coalesce(s)} :: ValidSet(ls, s) ==>
          && ValidSet(ls, ops.coalesce(s))
          && forall x :: Contains(ls, ops.coalesce(s), x) <==> Contains(ls, s, x))
    && (forall s, t {:trigger ops.intersect(s, t)} :: ValidSet(ls, s) && ValidSet(ls, t) ==>
          && ValidSet(ls, ops.intersect(s, t))
          && forall x :: Contains(ls, ops.intersect(s, t), x) <==> Contains(ls, s, x) && Contains(ls, t, x))
    && (forall s, t {:trigger ops.union(s, t)} :: ValidSet(ls, s) && ValidSet(ls, t) ==>
          && ValidSet(ls, ops.union(s, t))
          && forall x :: Contains(ls, ops.union(s, t), x) <==> Contains(ls, s, x) || Contains(ls, t, x))
    && (forall s, t {:trigger ops.subtract(s, t)} :: ValidSet(ls, s) && ValidSet(ls, t) ==>
          && ValidSet(ls, ops.subtract(s, t))
          && forall x :: Contains(ls, ops.subtract(s, t), x) <==> Contains(ls, s, x) && !Contains(ls, t, x))
    && (forall s, t {:trigger ops.gist(s, t)} :: ValidSet(ls, s) && ValidSet(ls, t) ==>
          && ValidSet(ls, ops.gist(s, t))
          && forall x :: Contains(ls, t, x) ==> (Contains(ls, ops.gist(s, t), x) <==> Contains(ls, s, x)))
  }

  ghost predicate Sound(ls: LocalSpace, ops: SetOps) {
    SoundQueries(ls, ops) && SoundBasic(ls, ops) && SoundSets(ls, ops)
  }

  // A code generation context: the names of the variables, the domain within which
  // expressions are simplified, and the two options that matter here.
  datatype Build = Build(
    ls: LocalSpace,
    names: seq<string>,
    domain: Set,
    preferPdiv: bool,
    detectMinMax: bool,
    ops: SetOps
  ) {
    ghost predicate Valid() {
      ls.Valid() && |names| == ls.nvar && ValidSet(ls, domain) && Sound(ls, ops)
    }

    // `env` gives the variables the values `x` of a point of the domain.
    ghost predicate At(x: Vec, env: Env) {
      Contains(ls, domain, x) && |names| == ls.nvar && forall k :: 0 <= k < ls.nvar ==> Lookup(env, names[k]) == x[k]
    }

    function Restrict(s: Set): Build {
      this.(domain := ops.intersect(domain, s))
    }
  }

  lemma RestrictValid(b: Build, s: Set)
    requires b.Valid() && ValidSet(b.ls, s)
    ensures b.Restrict(s).Valid()
    ensures forall x, env :: b.Restrict(s).At(x, env) <==> b.At(x, env) && Contains(b.ls, s, x)
  {
  }

  lemma NonnegAt(b: Build, a: Aff, x: Vec, env: Env)
    requires b.Valid() && b.ls.Has(a) && a.den == 1 && b.At(x, env) && b.ops.isNonneg(b.domain, a)
    ensures Num(a, Extend(b.ls, x)) >= 0
  {
  }

  // The minimum is a lower bound when there is one.
  lemma MinValAt(b: Build, a: Aff, k: int, x: Vec, env: Env)
    requires b.Valid() && b.ls.Has(a) && a.den == 1 && b.At(x, env)
    requires BoundedBelow(b.ls, b.domain, a, k)
    ensures b.ops.minVal(b.domain, a) <= Num(a, Extend(b.ls, x))
  {
  }

  // The constraints of the simple hull, without integer divisions.
  function HullConstraints(b: Build): (h: BasicSet)
    requires b.Valid()
    ensures ValidBasic(b.ls, h)
    ensures forall i :: 0 <= i < |h| ==> Below(b.ls, h[i].aff, 0)
  {
    b.ops.removeDivs(b.ops.simpleHull(b.domain))
  }

  lemma HullHolds(b: Build, x: Vec, env: Env)
    requires b.Valid() && b.At(x, env)
    ensures forall i :: 0 <= i < |HullConstraints(b)| ==> Num(HullConstraints(b)[i].aff, Extend(b.ls, x)) >= 0
  {
    assert Contains(b.ls, [b.ops.simpleHull(b.domain)], x);
    assert Contains(b.ls, [HullConstraints(b)], x);
    var h := HullConstraints(b);
    assert InBasic(b.ls, [h][0], x);
    forall i | 0 <= i < |h| ensures Num(h[i].aff, Extend(b.ls, x)) >= 0 {
      assert Holds(b.ls, h[i], x);
    }
  }
}
