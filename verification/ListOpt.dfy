/** Minimum and maximum of a list of piecewise affine expressions. */
module ListOpt {
  import opened Arith
  import opened QuasiAffine
  import opened AstExpr
  import opened AstBuild
  import opened AstFromAff
  import opened AstFromPwAff

  /** Comparing two piecewise expressions on their shared domain. */

  // A rational value.
  ghost function Val(a: Aff, y: Vec): real
    requires |a.coef| <= |y| && a.den > 0
  {
    Num(a, y) as real / a.den as real
  }

  // a - a' >= 0, or a - a' - 1 >= 0, over the product of the denominators
  function AtLeast(a: Aff, a': Aff, strict: bool): (c: Constraint)
    requires |a.coef| == |a'.coef|
    ensures |c.aff.coef| == |a.coef| && c.aff.den == 1 && !c.isEq
  {
    var d := Difference(a, a');
    Constraint(false, d.(cst := d.cst - if strict then a.den * a'.den else 0))
  }

  lemma AtLeastHolds(ls: LocalSpace, a: Aff, a': Aff, strict: bool, x: Vec)
    requires ls.Valid() && ls.Has(a) && ls.Has(a') && |x| == ls.nvar
    ensures ValidSet(ls, [[AtLeast(a, a', strict)]])
    ensures Contains(ls, [[AtLeast(a, a', strict)]], x) <==>
            Val(a, Extend(ls, x)) >= Val(a', Extend(ls, x)) + if strict then 1.0 else 0.0
  {
    var y := Extend(ls, x);
    SingleConstraint(ls, AtLeast(a, a', strict), x);
    DifferenceNum(a, a', y);
    var s := if strict then 1 else 0;
    assert Num(AtLeast(a, a', strict).aff, y) == a'.den * Num(a, y) - a.den * Num(a', y) - s * (a.den * a'.den);
    CompareFractions(Num(a, y), a.den, Num(a', y), a'.den, s);
  }

  lemma CompareFractions(n: int, d: int, n': int, d': int, s: int)
    requires d > 0 && d' > 0
    ensures d' * n - d * n' - s * (d * d') >= 0 <==> n as real / d as real >= n' as real / d' as real + s as real
  {
    var v, v', e, e' := n as real / d as real, n' as real / d' as real, d as real, d' as real;
    assert n as real == v * e && n' as real == v' * e' by { Quotient(n as real, e); Quotient(n' as real, e'); }
    ProductReal(d', n);
    ProductReal(d, n');
    ProductReal(d, d');
    ProductReal(s, d * d');
    Factor(v, v', e, e', s as real);
    SignOfProduct(v - v' - s as real, e * e');
  }

  lemma Quotient(n: real, d: real)
    requires d != 0.0
    ensures n / d * d == n
  {
  }

  lemma ProductReal(a: int, b: int)
    ensures (a * b) as real == a as real * b as real
  {
  }

  lemma Factor(v: real, v': real, e: real, e': real, s: real)
    ensures e' * (v * e) - e * (v' * e') - s * (e * e') == (v - v' - s) * (e * e')
  {
    assert e' * (v * e) == v * (e * e');
    assert e * (v' * e') == v' * (e * e');
    assert (v - v' - s) * (e * e') == v * (e * e') - v' * (e * e') - s * (e * e');
  }

  lemma SignOfProduct(t: real, p: real)
    requires p > 0.0 || p == 0.0
    ensures p > 0.0 ==> (t * p >= 0.0 <==> t >= 0.0)
  {
  }

  ghost predicate InDomain(ls: LocalSpace, pa: PwAff, x: Vec) {
    exists k :: 0 <= k < |pa| && Contains(ls, pa[k].domain, x)
  }

  // Every piece that contains x has value v there.
  ghost predicate HasValue(ls: LocalSpace, pa: PwAff, x: Vec, v: real) {
    forall k :: 0 <= k < |pa| ==> PieceValue(ls, pa[k], x, v)
  }

  ghost predicate PieceValue(ls: LocalSpace, p: Piece, x: Vec, v: real) {
    ls.Valid() && |x| == ls.nvar && ls.Has(p.aff) && (Contains(ls, p.domain, x) ==> Val(p.aff, Extend(ls, x)) == v)
  }

  // The points of the shared domain where pa is at least pa', or at least pa' + 1.
  function GteSet(pa: PwAff, pa': PwAff, strict: bool, ghost ls: LocalSpace, ops: SetOps): (s: Set)
    requires ls.Valid() && Sound(ls, ops) && ValidPw(ls, pa) && ValidPw(ls, pa')
    ensures ValidSet(ls, s)
  {
    if pa == [] then []
    else
      assert ValidPiece(ls, pa[0]);
      ops.union(PieceGte(pa[0], pa', strict, ls, ops), GteSet(pa[1..], pa', strict, ls, ops))
  }

  function PieceGte(p: Piece, pa': PwAff, strict: bool, ghost ls: LocalSpace, ops: SetOps): (s: Set)
    requires ls.Valid() && Sound(ls, ops) && ValidPiece(ls, p) && ValidPw(ls, pa')
    ensures ValidSet(ls, s)
  {
    if pa' == [] then []
    else
      assert ValidPiece(ls, pa'[0]);
      AtLeastHolds(ls, p.aff, pa'[0].aff, strict, Zeros(ls.nvar));
      ops.union(ops.intersect(ops.intersect(p.domain, pa'[0].domain), [[AtLeast(p.aff, pa'[0].aff, strict)]]),
                PieceGte(p, pa'[1..], strict, ls, ops))
  }

  lemma {:induction false} PieceGteContains(p: Piece, pa': PwAff, strict: bool, ls: LocalSpace, ops: SetOps, x: Vec,
                                          v: real, v': real)
    requires ls.Valid() && Sound(ls, ops) && ValidPiece(ls, p) && ValidPw(ls, pa') && |x| == ls.nvar
    requires PieceValue(ls, p, x, v) && HasValue(ls, pa', x, v')
    ensures Contains(ls, PieceGte(p, pa', strict, ls, ops), x) <==>
            Contains(ls, p.domain, x) && InDomain(ls, pa', x) && v >= v' + if strict then 1.0 else 0.0
  {
    if pa' != [] {
      assert ValidPiece(ls, pa'[0]) && PieceValue(ls, pa'[0], x, v');
      forall k | 0 <= k < |pa'[1..]| ensures PieceValue(ls, pa'[1..][k], x, v') {
        assert PieceValue(ls, pa'[k + 1], x, v');
      }
      forall k | 0 <= k < |pa'[1..]| ensures ValidPiece(ls, pa'[1..][k]) { assert ValidPiece(ls, pa'[k + 1]); }
      PieceGteContains(p, pa'[1..], strict, ls, ops, x, v, v');
      AtLeastHolds(ls, p.aff, pa'[0].aff, strict, x);
      DomainStep(ls, pa', x);
    }
  }

  lemma DomainStep(ls: LocalSpace, pa: PwAff, x: Vec)
    requires pa != []
    ensures InDomain(ls, pa, x) <==> Contains(ls, pa[0].domain, x) || InDomain(ls, pa[1..], x)
  {
    if k :| 0 <= k < |pa| && Contains(ls, pa[k].domain, x) { assert k > 0 ==> pa[1..][k - 1] == pa[k]; }
    if k :| 0 <= k < |pa[1..]| && Contains(ls, pa[1..][k].domain, x) { assert pa[k + 1] == pa[1..][k]; }
  }

  lemma {:induction false} GteSetContains(pa: PwAff, pa': PwAff, strict: bool, ls: LocalSpace, ops: SetOps, x: Vec,
                                          v: real, v': real)
    requires ls.Valid() && Sound(ls, ops) && ValidPw(ls, pa) && ValidPw(ls, pa') && |x| == ls.nvar
    requires HasValue(ls, pa, x, v) && HasValue(ls, pa', x, v')
    ensures Contains(ls, GteSet(pa, pa', strict, ls, ops), x) <==>
            InDomain(ls, pa, x) && InDomain(ls, pa', x) && v >= v' + if strict then 1.0 else 0.0
  {
    if pa != [] {
      assert ValidPiece(ls, pa[0]) && PieceValue(ls, pa[0], x, v);
      forall k | 0 <= k < |pa[1..]| ensures PieceValue(ls, pa[1..][k], x, v) { assert PieceValue(ls, pa[k + 1], x, v); }
      forall k | 0 <= k < |pa[1..]| ensures ValidPiece(ls, pa[1..][k]) { assert ValidPiece(ls, pa[k + 1]); }
      PieceGteContains(pa[0], pa', strict, ls, ops, x, v, v');
      GteSetContains(pa[1..], pa', strict, ls, ops, x, v, v');
      DomainStep(ls, pa, x);
    }
  }

  /** Which element is chosen, given the values of all of them. */

  // Element p is at most element q; equality only counts for the earlier one, and the
  // strict comparison asks for a difference of at least one.
  ghost predicate LessAt(vals: seq<real>, p: nat, q: nat)
    requires p < |vals| && q < |vals|
  {
    if p < q then vals[p] <= vals[q] else vals[q] >= vals[p] + 1.0
  }

  ghost predicate ChosenAt(vals: seq<real>, i: nat, max: bool)
    requires i < |vals|
  {
    forall j: nat :: j < |vals| && j != i ==> if max then LessAt(vals, j, i) else LessAt(vals, i, j)
  }

  // Element i is optimal and no optimal element takes precedence.
  ghost predicate Best(vals: seq<real>, i: nat, max: bool) {
    i < |vals| && forall j: nat :: j < |vals| ==> NoBetter(vals[i], vals[j], if max then i < j else j < i, max)
  }

  // v is at least as good as w, and better if w would take precedence.
  predicate NoBetter(v: real, w: real, precedence: bool, max: bool) {
    (if max then w <= v else v <= w) && (precedence ==> v != w)
  }

  lemma {:induction false} BestExists(vals: seq<real>, max: bool) returns (i: nat)
    requires vals != []
    ensures Best(vals, i, max)
  {
    var n := |vals| - 1;
    if n == 0 {
      i := 0;
    } else {
      var rest := vals[..n];
      var b := BestExists(rest, max);
      i := if NoBetter(vals[b], vals[n], max, max) then b else n;
      forall j: nat | j < |vals| ensures NoBetter(vals[i], vals[j], if max then i < j else j < i, max) {
        if j < n { assert NoBetter(rest[b], rest[j], if max then b < j else j < b, max); }
      }
    }
  }

  lemma BestUnique(vals: seq<real>, i: nat, j: nat, max: bool)
    requires Best(vals, i, max) && Best(vals, j, max)
    ensures i == j
  {
    assert NoBetter(vals[i], vals[j], if max then i < j else j < i, max);
    assert NoBetter(vals[j], vals[i], if max then j < i else i < j, max);
  }

  // Elements that would take precedence over the best one are worse by at least one.
  ghost predicate Separated(vals: seq<real>, max: bool) {
    forall i: nat, j: nat :: Best(vals, i, max) && j < |vals| && (if max then i < j else j < i) ==>
      if max then vals[i] >= vals[j] + 1.0 else vals[j] >= vals[i] + 1.0
  }

  // Only the best element can be chosen, and it is exactly when it is separated.
  lemma ChosenIsBest(vals: seq<real>, i: nat, max: bool)
    requires i < |vals|
    ensures ChosenAt(vals, i, max) <==> Best(vals, i, max) && Separated(vals, max)
  {
    if ChosenAt(vals, i, max) {
      forall j: nat | j < |vals|
        ensures NoBetter(vals[i], vals[j], if max then i < j else j < i, max)
      {
        assert j != i ==> if max then LessAt(vals, j, i) else LessAt(vals, i, j);
      }
      forall k: nat, j: nat | Best(vals, k, max) && j < |vals| && (if max then k < j else j < k)
        ensures if max then vals[k] >= vals[j] + 1.0 else vals[j] >= vals[k] + 1.0
      {
        BestUnique(vals, i, k, max);
        assert if max then LessAt(vals, j, i) else LessAt(vals, i, j);
      }
    }
  }

  // Integer values are always separated.
  lemma IntegersSeparated(vals: seq<real>, max: bool)
    requires forall j: nat :: j < |vals| ==> vals[j] == vals[j].Floor as real
    ensures Separated(vals, max)
  {
    forall i: nat, j: nat | Best(vals, i, max) && j < |vals| && (if max then i < j else j < i)
      ensures if max then vals[i] >= vals[j] + 1.0 else vals[j] >= vals[i] + 1.0
    {
      assert vals[i] == vals[i].Floor as real && vals[j] == vals[j].Floor as real;
      assert if max then vals[i].Floor > vals[j].Floor else vals[j].Floor > vals[i].Floor;
    }
  }

  /** The list and its values at a point. */

  ghost predicate ValidList(ls: LocalSpace, list: seq<PwAff>) {
    forall i :: 0 <= i < |list| ==> ValidPw(ls, list[i])
  }

  ghost predicate Values(ls: LocalSpace, list: seq<PwAff>, x: Vec, vals: seq<real>) {
    && ls.Valid() && |x| == ls.nvar && |vals| == |list|
    && forall i: nat :: i < |list| ==> ElementAt(ls, list, i, x, vals[i])
  }

  ghost predicate ElementAt(ls: LocalSpace, list: seq<PwAff>, i: nat, x: Vec, v: real) {
    i < |list| && HasValue(ls, list[i], x, v)
  }

  ghost predicate InAll(ls: LocalSpace, list: seq<PwAff>, x: Vec) {
    forall i: nat :: i < |list| ==> InDomain(ls, list[i], x)
  }

  function Less(list: seq<PwAff>, p: nat, q: nat, ghost ls: LocalSpace, ops: SetOps): (s: Set)
    requires ls.Valid() && Sound(ls, ops) && ValidList(ls, list) && p < |list| && q < |list|
    ensures ValidSet(ls, s)
  {
    GteSet(list[q], list[p], p >= q, ls, ops)
  }

  lemma LessContains(list: seq<PwAff>, p: nat, q: nat, ls: LocalSpace, ops: SetOps, x: Vec, vals: seq<real>)
    requires ls.Valid() && Sound(ls, ops) && ValidList(ls, list) && p < |list| && q < |list|
    requires Values(ls, list, x, vals)
    ensures Contains(ls, Less(list, p, q, ls, ops), x) <==>
            InDomain(ls, list[p], x) && InDomain(ls, list[q], x) && LessAt(vals, p, q)
  {
    assert ElementAt(ls, list, p, x, vals[p]) && ElementAt(ls, list, q, x, vals[q]);
    GteSetContains(list[q], list[p], p >= q, ls, ops, x, vals[q], vals[p]);
  }

  // isl_pw_aff_intersect_domain
  function IntersectDomain(pa: PwAff, s: Set, ghost ls: LocalSpace, ops: SetOps): (r: PwAff)
    requires Sound(ls, ops) && ValidPw(ls, pa) && ValidSet(ls, s)
    ensures |r| == |pa| && ValidPw(ls, r)
    ensures forall k :: 0 <= k < |pa| ==> r[k] == Piece(ops.intersect(pa[k].domain, s), pa[k].aff)
  {
    assert forall k :: 0 <= k < |pa| ==> ValidPiece(ls, pa[k]);
    seq(|pa|, k requires 0 <= k < |pa| => Piece(ops.intersect(pa[k].domain, s), pa[k].aff))
  }

  function Condition(list: seq<PwAff>, i: nat, j: nat, max: bool, ghost ls: LocalSpace, ops: SetOps): (s: Set)
    requires ls.Valid() && Sound(ls, ops) && ValidList(ls, list) && i < |list| && j < |list|
    ensures ValidSet(ls, s)
  {
    if max then Less(list, j, i, ls, ops) else Less(list, i, j, ls, ops)
  }

  // Element i where the conditions against the first n others hold.
  function Restricted(list: seq<PwAff>, i: nat, n: nat, max: bool, ghost ls: LocalSpace, ops: SetOps): (r: PwAff)
    requires ls.Valid() && Sound(ls, ops) && ValidList(ls, list) && i < |list| && n <= |list|
    ensures |r| == |list[i]| && ValidPw(ls, r)
  {
    if n == 0 then list[i]
    else
      var r := Restricted(list, i, n - 1, max, ls, ops);
      if n - 1 == i then r else IntersectDomain(r, Condition(list, i, n - 1, max, ls, ops), ls, ops)
  }

  function Flat(parts: seq<PwAff>): (r: PwAff) {
    if parts == [] then [] else Flat(parts[..|parts| - 1]) + parts[|parts| - 1]
  }

  function Parts(list: seq<PwAff>, max: bool, ghost ls: LocalSpace, ops: SetOps): (parts: seq<PwAff>)
    requires ls.Valid() && Sound(ls, ops) && ValidList(ls, list)
    ensures |parts| == |list| && forall i :: 0 <= i < |list| ==> parts[i] == Restricted(list, i, |list|, max, ls, ops)
  {
    seq(|list|, i requires 0 <= i < |list| => Restricted(list, i, |list|, max, ls, ops))
  }

  ghost predicate AtIndex(res: PwAff, m: nat, p: Piece) { m < |res| && res[m] == p }

  lemma {:induction false} FlatPiece(parts: seq<PwAff>, m: nat, p: Piece) returns (i: nat, k: nat)
    requires AtIndex(Flat(parts), m, p)
    ensures i < |parts| && AtIndex(parts[i], k, p) && m == |Flat(parts[..i])| + k
  {
    var n := |parts| - 1;
    var before := Flat(parts[..n]);
    if m < |before| {
      i, k := FlatPiece(parts[..n], m, p);
      assert parts[..n][..i] == parts[..i];
    } else {
      i, k := n, m - |before|;
    }
  }

  lemma {:induction false} FlatIndex(parts: seq<PwAff>, i: nat, k: nat)
    requires i < |parts| && k < |parts[i]|
    ensures AtIndex(Flat(parts), |Flat(parts[..i])| + k, parts[i][k])
  {
    var n := |parts| - 1;
    if i < n {
      FlatIndex(parts[..n], i, k);
      assert parts[..n][..i] == parts[..i];
    }
  }

  lemma {:induction false} FlatValid(ls: LocalSpace, parts: seq<PwAff>)
    requires forall i :: 0 <= i < |parts| ==> ValidPw(ls, parts[i])
    ensures ValidPw(ls, Flat(parts))
  {
    if parts != [] {
      var n := |parts| - 1;
      FlatValid(ls, parts[..n]);
      var a, b := Flat(parts[..n]), parts[n];
      forall k | 0 <= k < |a + b| ensures ValidPiece(ls, (a + b)[k]) {
        if k < |a| { assert ValidPiece(ls, a[k]); } else { assert ValidPiece(ls, b[k - |a|]); }
      }
    }
  }

  ghost predicate BetterThan(ls: LocalSpace, list: seq<PwAff>, x: Vec, vals: seq<real>, i: nat, j: nat, max: bool)
    requires |vals| == |list| && i < |list| && j < |list|
  {
    InDomain(ls, list[j], x) && if max then LessAt(vals, j, i) else LessAt(vals, i, j)
  }

  lemma {:induction false} RestrictedAt(list: seq<PwAff>, i: nat, n: nat, max: bool, ls: LocalSpace, ops: SetOps,
                                        x: Vec, vals: seq<real>, k: nat)
    requires ls.Valid() && Sound(ls, ops) && ValidList(ls, list) && i < |list| && n <= |list| && k < |list[i]|
    requires Values(ls, list, x, vals)
    ensures Restricted(list, i, n, max, ls, ops)[k].aff == list[i][k].aff
    ensures Contains(ls, Restricted(list, i, n, max, ls, ops)[k].domain, x) <==>
            Contains(ls, list[i][k].domain, x) && AllBetter(ls, list, x, vals, i, n, max)
  {
    if n > 0 {
      RestrictedAt(list, i, n - 1, max, ls, ops, x, vals, k);
      AllBetterStep(ls, list, x, vals, i, n - 1, max);
      if n - 1 != i { RestrictedNext(list, i, n - 1, max, ls, ops, x, vals, k); }
    }
  }

  ghost predicate AllBetter(ls: LocalSpace, list: seq<PwAff>, x: Vec, vals: seq<real>, i: nat, n: nat, max: bool)
    requires |vals| == |list| && i < |list| && n <= |list|
  {
    forall j: nat :: j < n && j != i ==> BetterThan(ls, list, x, vals, i, j, max)
  }

  lemma AllBetterStep(ls: LocalSpace, list: seq<PwAff>, x: Vec, vals: seq<real>, i: nat, n: nat, max: bool)
    requires |vals| == |list| && i < |list| && n < |list|
    ensures AllBetter(ls, list, x, vals, i, n + 1, max) <==>
            AllBetter(ls, list, x, vals, i, n, max) && (n != i ==> BetterThan(ls, list, x, vals, i, n, max))
  {
  }

  lemma RestrictedNext(list: seq<PwAff>, i: nat, n: nat, max: bool, ls: LocalSpace, ops: SetOps, x: Vec,
                       vals: seq<real>, k: nat)
    requires ls.Valid() && Sound(ls, ops) && ValidList(ls, list) && i < |list| && n < |list| && n != i && k < |list[i]|
    requires Values(ls, list, x, vals)
    requires Contains(ls, Restricted(list, i, n, max, ls, ops)[k].domain, x) ==> Contains(ls, list[i][k].domain, x)
    ensures var r, r' := Restricted(list, i, n, max, ls, ops)[k], Restricted(list, i, n + 1, max, ls, ops)[k];
            && r'.aff == r.aff
            && (Contains(ls, r'.domain, x) <==> Contains(ls, r.domain, x) && BetterThan(ls, list, x, vals, i, n, max))
  {
    var s := Condition(list, i, n, max, ls, ops);
    var r := Restricted(list, i, n, max, ls, ops);
    assert ValidPiece(ls, r[k]);
    ConditionContains(list, i, n, max, ls, ops, x, vals);
    assert Contains(ls, list[i][k].domain, x) ==> InDomain(ls, list[i], x);
    RestrictStep(ls, ops, r[k].domain, s, x);
  }

  lemma RestrictStep(ls: LocalSpace, ops: SetOps, d: Set, s: Set, x: Vec)
    requires Sound(ls, ops) && ValidSet(ls, d) && ValidSet(ls, s)
    ensures Contains(ls, ops.intersect(d, s), x) <==> Contains(ls, d, x) && Contains(ls, s, x)
  {
  }

  lemma ConditionContains(list: seq<PwAff>, i: nat, j: nat, max: bool, ls: LocalSpace, ops: SetOps, x: Vec,
                          vals: seq<real>)
    requires ls.Valid() && Sound(ls, ops) && ValidList(ls, list) && i < |list| && j < |list| &&
             Values(ls, list, x, vals)
    ensures Contains(ls, Condition(list, i, j, max, ls, ops), x) <==>
            InDomain(ls, list[i], x) && BetterThan(ls, list, x, vals, i, j, max)
  {
    if max { LessContains(list, j, i, ls, ops, x, vals); } else { LessContains(list, i, j, ls, ops, x, vals); }
  }

  // A restricted piece holds the points of the original piece at which all domains
  // hold and the element is chosen.
  lemma ElementChosen(list: seq<PwAff>, i: nat, max: bool, ls: LocalSpace, ops: SetOps, x: Vec, vals: seq<real>, k: nat)
    requires ls.Valid() && Sound(ls, ops) && ValidList(ls, list) && i < |list| && k < |list[i]|
    requires Values(ls, list, x, vals)
    ensures Restricted(list, i, |list|, max, ls, ops)[k].aff == list[i][k].aff
    ensures Contains(ls, Restricted(list, i, |list|, max, ls, ops)[k].domain, x) <==>
            Contains(ls, list[i][k].domain, x) && InAll(ls, list, x) && Best(vals, i, max) && Separated(vals, max)
  {
    RestrictedAt(list, i, |list|, max, ls, ops, x, vals, k);
    ChosenIsBest(vals, i, max);
    if Contains(ls, list[i][k].domain, x) && AllBetter(ls, list, x, vals, i, |list|, max) {
      forall j: nat | j < |list| ensures InDomain(ls, list[j], x) {
        assert j != i ==> BetterThan(ls, list, x, vals, i, j, max);
      }
      forall j: nat | j < |vals| && j != i ensures if max then LessAt(vals, j, i) else LessAt(vals, i, j) {
        assert BetterThan(ls, list, x, vals, i, j, max);
      }
      assert ChosenAt(vals, i, max);
    }
  }

  ghost predicate OncePerElement(ls: LocalSpace, list: seq<PwAff>, x: Vec) {
    forall i: nat, k: nat, l: nat :: i < |list| && k < |list[i]| && l < |list[i]| ==>
      (Contains(ls, list[i][k].domain, x) && Contains(ls, list[i][l].domain, x) ==> k == l)
  }

  ghost predicate HasBestValue(ls: LocalSpace, a: Aff, x: Vec, vals: seq<real>, max: bool) {
    ls.Valid() && |x| == ls.nvar && ls.Has(a) && exists b: nat :: Best(vals, b, max) && Val(a, Extend(ls, x)) == vals[b]
  }

  lemma PieceIsBest(list: seq<PwAff>, max: bool, ls: LocalSpace, ops: SetOps, x: Vec, vals: seq<real>, m: nat)
    requires ls.Valid() && Sound(ls, ops) && ValidList(ls, list) && list != [] && Values(ls, list, x, vals)
    requires m < |Flat(Parts(list, max, ls, ops))| && Contains(ls, Flat(Parts(list, max, ls, ops))[m].domain, x)
    ensures HasBestValue(ls, Flat(Parts(list, max, ls, ops))[m].aff, x, vals, max)
    ensures InAll(ls, list, x) && Separated(vals, max)
  {
    var parts := Parts(list, max, ls, ops);
    var i, k := FlatPiece(parts, m, Flat(parts)[m]);
    ElementChosen(list, i, max, ls, ops, x, vals, k);
    assert ElementAt(ls, list, i, x, vals[i]) && PieceValue(ls, list[i][k], x, vals[i]);
  }

  lemma OnePiece(list: seq<PwAff>, max: bool, ls: LocalSpace, ops: SetOps, x: Vec, vals: seq<real>, m: nat, l: nat)
    requires ls.Valid() && Sound(ls, ops) && ValidList(ls, list) && list != [] && Values(ls, list, x, vals)
    requires OncePerElement(ls, list, x) && m < |Flat(Parts(list, max, ls, ops))| &&
             l < |Flat(Parts(list, max, ls, ops))|
    requires var res := Flat(Parts(list, max, ls, ops));
             Contains(ls, res[m].domain, x) && Contains(ls, res[l].domain, x)
    ensures m == l
  {
    var parts := Parts(list, max, ls, ops);
    var i, k := FlatPiece(parts, m, Flat(parts)[m]);
    var j, q := FlatPiece(parts, l, Flat(parts)[l]);
    ElementChosen(list, i, max, ls, ops, x, vals, k);
    ElementChosen(list, j, max, ls, ops, x, vals, q);
    BestUnique(vals, i, j, max);
  }

  lemma SeparatedCovered(list: seq<PwAff>, max: bool, ls: LocalSpace, ops: SetOps, x: Vec, vals: seq<real>)
    requires ls.Valid() && Sound(ls, ops) && ValidList(ls, list) && list != [] && Values(ls, list, x, vals)
    requires InAll(ls, list, x) && Separated(vals, max)
    ensures InDomain(ls, Flat(Parts(list, max, ls, ops)), x)
  {
    var b := BestExists(vals, max);
    assert InDomain(ls, list[b], x);
    var k :| 0 <= k < |list[b]| && Contains(ls, list[b][k].domain, x);
    ElementChosen(list, b, max, ls, ops, x, vals, k);
    FlatIndex(Parts(list, max, ls, ops), b, k);
  }

  ghost predicate Optimal(list: seq<PwAff>, max: bool, ls: LocalSpace, res: PwAff, x: Vec, vals: seq<real>)
    requires ls.Valid() && ValidList(ls, list)
  {
    && (forall m :: 0 <= m < |res| && Contains(ls, res[m].domain, x) ==> HasBestValue(ls, res[m].aff, x, vals, max))
    && (forall m, l :: 0 <= m < |res| && 0 <= l < |res| ==>
          (Contains(ls, res[m].domain, x) && Contains(ls, res[l].domain, x) ==> m == l))
    && (InDomain(ls, res, x) <==> InAll(ls, list, x) && Separated(vals, max))
  }

  /** The pieces give the optimum, are disjoint, and cover the point exactly when the
      elements are separated there; in particular when their values are integers. */
  lemma OptMeans(list: seq<PwAff>, max: bool, ls: LocalSpace, ops: SetOps, x: Vec, vals: seq<real>)
    requires ls.Valid() && Sound(ls, ops) && ValidList(ls, list) && list != [] && Values(ls, list, x, vals)
    requires OncePerElement(ls, list, x)
    ensures Optimal(list, max, ls, Flat(Parts(list, max, ls, ops)), x, vals)
  {
    var res := Flat(Parts(list, max, ls, ops));
    forall m | 0 <= m < |res| && Contains(ls, res[m].domain, x)
      ensures HasBestValue(ls, res[m].aff, x, vals, max)
      ensures InAll(ls, list, x) && Separated(vals, max)
    {
      PieceIsBest(list, max, ls, ops, x, vals, m);
    }
    forall m, l | 0 <= m < |res| && 0 <= l < |res| && Contains(ls, res[m].domain, x) && Contains(ls, res[l].domain, x)
      ensures m == l
    {
      OnePiece(list, max, ls, ops, x, vals, m, l);
    }
    if InAll(ls, list, x) && Separated(vals, max) { SeparatedCovered(list, max, ls, ops, x, vals); }
  }

  /** On integer values the pieces cover the whole shared domain. */
  lemma IntegersCovered(list: seq<PwAff>, max: bool, ls: LocalSpace, ops: SetOps, x: Vec, vals: seq<real>)
    requires ls.Valid() && Sound(ls, ops) && ValidList(ls, list) && list != [] && Values(ls, list, x, vals)
    requires OncePerElement(ls, list, x) && forall j: nat :: j < |vals| ==> vals[j] == vals[j].Floor as real
    ensures InDomain(ls, Flat(Parts(list, max, ls, ops)), x) <==> InAll(ls, list, x)
  {
    IntegersSeparated(vals, max);
    OptMeans(list, max, ls, ops, x, vals);
  }

  // min(x/2, 0), each on the whole line
  function HalfAndZero(): seq<PwAff> {
    [[Piece([[]], Aff(2, 0, [1]))], [Piece([[]], Aff(1, 0, [0]))]]
  }

  const LINE := LocalSpace(1, [])

  lemma HalfElement(a: Aff, v: real)
    requires (a == Aff(2, 0, [1]) && v == 0.5) || (a == Aff(1, 0, [0]) && v == 0.0)
    ensures ValidPw(LINE, [Piece([[]], a)]) && HasValue(LINE, [Piece([[]], a)], [1], v)
    ensures InDomain(LINE, [Piece([[]], a)], [1])
  {
    var p := Piece([[]], a);
    assert Extend(LINE, [1]) == [1];
    assert InBasic(LINE, [[]][0], [1]) && Contains(LINE, p.domain, [1]);
    assert Dot([1], [1]) == Dot([1][..0], [1]) + 1 && Dot([0], [1]) == Dot([0][..0], [1]) + 0;
    assert [p][0] == p && ValidPiece(LINE, p) && PieceValue(LINE, p, [1], v);
  }

  lemma HalfList()
    ensures ValidList(LINE, HalfAndZero()) && InAll(LINE, HalfAndZero(), [1]) &&
            OncePerElement(LINE, HalfAndZero(), [1])
    ensures Values(LINE, HalfAndZero(), [1], [0.5, 0.0])
  {
    var list, vals := HalfAndZero(), [0.5, 0.0];
    HalfElement(Aff(2, 0, [1]), 0.5);
    HalfElement(Aff(1, 0, [0]), 0.0);
    forall i: nat | i < 2 ensures ElementAt(LINE, list, i, [1], vals[i]) {}
  }

  /** On other values it may not: at x = 1, min(x/2, 0) is not defined, since 1/2 is
      larger than 0 but not by one. */
  lemma HalfNotCovered(ops: SetOps)
    requires Sound(LINE, ops)
    ensures ValidList(LINE, HalfAndZero()) && InAll(LINE, HalfAndZero(), [1])
    ensures !InDomain(LINE, Flat(Parts(HalfAndZero(), false, LINE, ops)), [1])
  {
    HalfList();
    OptMeans(HalfAndZero(), false, LINE, ops, [1], [0.5, 0.0]);
    HalfNotSeparated();
  }

  lemma HalfNotSeparated()
    ensures !Separated([0.5, 0.0], false)
  {
    var vals := [0.5, 0.0];
    assert Best(vals, 1, false);
    assert vals[0] < vals[1] + 1.0;
  }

  // Element i on the points where it is chosen.
  method RestrictElement(list: seq<PwAff>, i: nat, max: bool, ghost ls: LocalSpace, ops: SetOps) returns (pa: PwAff)
    requires ls.Valid() && Sound(ls, ops) && ValidList(ls, list) && i < |list|
    ensures pa == Restricted(list, i, |list|, max, ls, ops)
  {
    pa := list[i];
    for j := 0 to |list|
      invariant pa == Restricted(list, i, j, max, ls, ops)
    {
      if j == i { continue; }
      var dom := if max then Less(list, j, i, ls, ops) else Less(list, i, j, ls, ops);
      pa := IntersectDomain(pa, dom, ls, ops);
    }
  }

  /** isl_pw_aff_list_opt */
  method ListOpt(list: seq<PwAff>, max: bool, ghost ls: LocalSpace, ops: SetOps) returns (res: PwAff)
    requires ls.Valid() && Sound(ls, ops) && ValidList(ls, list) && list != []
    ensures ValidPw(ls, res)
    ensures forall x, vals :: Values(ls, list, x, vals) && OncePerElement(ls, list, x) ==>
            Optimal(list, max, ls, res, x, vals)
  {
    ghost var parts := Parts(list, max, ls, ops);
    res := [];
    for i := 0 to |list|
      invariant res == Flat(parts[..i])
    {
      var pa := RestrictElement(list, i, max, ls, ops);
      assert parts[..i + 1][..i] == parts[..i];
      res := res + pa;
    }
    assert parts[..|list|] == parts;
    FlatValid(ls, parts);
    forall x, vals | Values(ls, list, x, vals) && OncePerElement(ls, list, x)
        ensures Optimal(list, max, ls, res, x, vals) {
      OptMeans(list, max, ls, ops, x, vals);
    }
  }
}
