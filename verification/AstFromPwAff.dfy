/** AST expressions from piecewise affine expressions.

    Consecutive pieces are collected into groups: one affine expression on a union of
    domains, or the minimum or maximum of several.  The groups become nested selects,
    the last one without its condition.
  */
module AstFromPwAff {
  import opened Arith
  import opened QuasiAffine
  import opened AstExpr
  import opened AstBuild
  import opened Wrappers
  import opened AstFromAff
  import opened AstFromAffProof
  import opened AstFromSet

  datatype Piece = Piece(domain: Set, aff: Aff)
  type PwAff = seq<Piece>

  datatype State = NoPiece | Single | Minimum | Maximum

  // A group of pieces: entry i has domain sets[i] and, unless it is a single
  // expression, value affs[i].
  datatype Group = Group(state: State, sets: seq<Set>, affs: seq<Aff>)

  ghost predicate ValidPiece(ls: LocalSpace, p: Piece) {
    ValidSet(ls, p.domain) && ls.Has(p.aff)
  }

  ghost predicate ValidPw(ls: LocalSpace, pa: PwAff) {
    forall i :: 0 <= i < |pa| ==> ValidPiece(ls, pa[i])
  }

  ghost predicate ValidGroup(ls: LocalSpace, g: Group) {
    && |g.sets| == |g.affs|
    && (g.state.NoPiece? <==> g.sets == [])
    && (g.state.Single? ==> |g.sets| == 1)
    && (forall i :: 0 <= i < |g.sets| ==> ValidSet(ls, g.sets[i]))
    && (forall i :: 0 <= i < |g.affs| ==> ls.Has(g.affs[i]))
    && (g.state.Minimum? || g.state.Maximum? ==> |g.affs| >= 2 && forall i :: 0 <= i < |g.affs| ==>
         !IsRational(g.affs[i]))
  }

  // The groups so far; the last one is still being extended.
  ghost predicate ValidGroups(ls: LocalSpace, gs: seq<Group>) {
    gs != [] && forall i :: 0 <= i < |gs| ==> ValidGroup(ls, gs[i])
  }

  // a.den * a'.den * (a - a')
  function Difference(a: Aff, a': Aff): (r: Aff)
    requires |a.coef| == |a'.coef|
    ensures |r.coef| == |a.coef| && r.den == 1
  {
    AddAff(ScaleAff(a'.den, a), ScaleAff(-a.den, a'))
  }

  // The points where two expressions are equal, or the first is at least the second.
  function EqSet(a: Aff, a': Aff): Set
    requires |a.coef| == |a'.coef|
  {
    [[Constraint(true, Difference(a, a'))]]
  }

  function GeSet(a: Aff, a': Aff): Set
    requires |a.coef| == |a'.coef|
  {
    [[Constraint(false, Difference(a, a'))]]
  }

  predicate IsRational(a: Aff) { a.den != 1 }

  // With (domain, a) added to the group, is each value still the minimum (or maximum)
  // on its own domain within the build domain?
  predicate Extends(g: Group, domain: Set, a: Aff, isMin: bool, b: Build)
    requires b.Valid() && ValidGroup(b.ls, g) && b.ls.Has(a)
  {
    && !IsRational(a) && !(|g.affs| == 1 && IsRational(g.affs[0]))
    && b.detectMinMax
    && forall i :: 0 <= i < |g.sets| ==>
         && b.ops.isSubset(b.ops.intersect(b.domain, g.sets[i]), if isMin then GeSet(a, g.affs[i])
              else GeSet(g.affs[i], a))
         && b.ops.isSubset(b.ops.intersect(b.domain, domain), if isMin then GeSet(g.affs[i], a)
              else GeSet(a, g.affs[i]))
  }

  function Extended(g: Group, state: State, domain: Set, a: Aff): Group {
    Group(state, g.sets + [domain], g.affs + [a])
  }

  // The group after taking in a piece; None when it cannot.
  function ExtendGroup(g: Group, domain: Set, a: Aff, b: Build): (r: Option<Group>)
    requires b.Valid() && ValidGroup(b.ls, g) && ValidSet(b.ls, domain) && b.ls.Has(a)
    ensures r.Some? ==> ValidGroup(b.ls, r.value)
  {
    if g.state.Single? && b.ops.isSubset(domain, EqSet(a, g.affs[0])) then
      Some(Group(Single, [b.ops.union(g.sets[0], domain)], g.affs))
    else if g.state.Single? && b.ops.isSubset(g.sets[0], EqSet(a, g.affs[0])) then
      Some(Group(Single, [b.ops.union(g.sets[0], domain)], [a]))
    else if (g.state.Single? || g.state.Minimum?) && Extends(g, domain, a, true, b) then
      Some(Extended(g, Minimum, domain, a))
    else if (g.state.Single? || g.state.Maximum?) && Extends(g, domain, a, false, b) then
      Some(Extended(g, Maximum, domain, a))
    else None
  }

  // Takes one more piece into the groups.
  function AddPiece(gs: seq<Group>, domain: Set, a: Aff, b: Build): (r: seq<Group>)
    requires b.Valid() && ValidGroups(b.ls, gs) && ValidSet(b.ls, domain) && b.ls.Has(a)
    ensures ValidGroups(b.ls, r) && !r[|r| - 1].state.NoPiece?
  {
    var n := |gs| - 1;
    var single := Group(Single, [domain], [a]);
    if gs[n].state.NoPiece? then gs[..n] + [single]
    else
      match ExtendGroup(gs[n], domain, a, b)
      case Some(g) => gs[..n] + [g]
      case None => gs + [single]
  }

  function AddPieces(gs: seq<Group>, pa: PwAff, b: Build): (r: seq<Group>)
    requires b.Valid() && ValidGroups(b.ls, gs) && ValidPw(b.ls, pa)
    ensures ValidGroups(b.ls, r) && (pa != [] ==> !r[|r| - 1].state.NoPiece?)
    decreases |pa|
  {
    if pa == [] then gs
    else
      assert ValidPiece(b.ls, pa[0]);
      AddPieces(AddPiece(gs, pa[0].domain, pa[0].aff, b), pa[1..], b)
  }

  /** From groups to an expression. */

  datatype Choice = Choice(domain: Set, state: State, affs: seq<Aff>)

  ghost predicate ValidChoice(ls: LocalSpace, c: Choice) {
    && ValidSet(ls, c.domain) && c.affs != [] && (c.state.Minimum? || c.state.Maximum? ==> |c.affs| >= 2)
    && forall i :: 0 <= i < |c.affs| ==> ls.Has(c.affs[i])
  }

  ghost predicate ValidChoices(ls: LocalSpace, cs: seq<Choice>) {
    forall i :: 0 <= i < |cs| ==> ValidChoice(ls, cs[i])
  }

  function UnionAll(sets: seq<Set>, b: Build): (r: Set)
    requires b.Valid() && sets != [] && forall i :: 0 <= i < |sets| ==> ValidSet(b.ls, sets[i])
    ensures ValidSet(b.ls, r)
  {
    var n := |sets| - 1;
    if n == 0 then sets[0] else b.ops.union(UnionAll(sets[..n], b), sets[n])
  }

  function ToChoice(g: Group, b: Build): (c: Choice)
    requires b.Valid() && ValidGroup(b.ls, g) && !g.state.NoPiece?
    ensures ValidChoice(b.ls, c)
  {
    var all := UnionAll(g.sets, b);
    Choice(if g.state.Single? then all else b.ops.coalesce(all), g.state, g.affs)
  }

  // The groups that hold pieces, as choices.
  function ToChoices(gs: seq<Group>, b: Build): (cs: seq<Choice>)
    requires b.Valid() && forall i :: 0 <= i < |gs| ==> ValidGroup(b.ls, gs[i])
    ensures ValidChoices(b.ls, cs)
    ensures forall i :: 0 <= i < |gs| && !gs[i].state.NoPiece? ==> ToChoice(gs[i], b) in cs
    ensures forall c :: c in cs ==> exists i :: 0 <= i < |gs| && !gs[i].state.NoPiece? && c == ToChoice(gs[i], b)
  {
    if gs == [] then []
    else
      var n := |gs| - 1;
      var rest := ToChoices(gs[..n], b);
      if gs[n].state.NoPiece? then rest else rest + [ToChoice(gs[n], b)]
  }

  // Sorting by the number of disjuncts.
  function Insert(c: Choice, cs: seq<Choice>): (r: seq<Choice>)
    ensures multiset(r) == multiset(cs) + multiset{c}
  {
    if cs == [] then [c]
    else if |c.domain| <= |cs[0].domain| then [c] + cs
    else
      assert cs == [cs[0]] + cs[1..];
      [cs[0]] + Insert(c, cs[1..])
  }

  function Sorted(cs: seq<Choice>): (r: seq<Choice>)
    ensures multiset(r) == multiset(cs)
  {
    if cs == [] then []
    else
      assert cs == [cs[0]] + cs[1..];
      Insert(cs[0], Sorted(cs[1..]))
  }

  function FromAffs(affs: seq<Aff>, b: Build): (es: seq<Expr>)
    requires b.Valid() && forall i :: 0 <= i < |affs| ==> b.ls.Has(affs[i])
    ensures |es| == |affs| && forall i :: 0 <= i < |es| ==> es[i] == FromAff(affs[i], b, |b.ls.divs|)
  {
    seq(|affs|, i requires 0 <= i < |affs| => FromAff(affs[i], b, |b.ls.divs|))
  }

  // The expression of one choice, simplified within its own domain.
  function FromChoice(c: Choice, b: Build): Expr
    requires b.Valid() && ValidChoice(b.ls, c)
  {
    RestrictValid(b, c.domain);
    var inside := b.Restrict(c.domain);
    if c.state.Single? then FromAff(c.affs[0], inside, |b.ls.divs|)
    else Op(if c.state.Minimum? then Min else Max, FromAffs(c.affs, inside))
  }

  function BuildPieces(cs: seq<Choice>, domain: Set, b: Build): Expr
    requires b.Valid() && cs != [] && ValidChoices(b.ls, cs) && ValidSet(b.ls, domain)
    decreases |cs|
  {
    assert ValidChoice(b.ls, cs[0]);
    if |cs| == 1 then FromChoice(cs[0], b)
    else Op(Select, [FromSet(b.ops.gist(cs[0].domain, domain), b), FromChoice(cs[0], b),
        BuildPieces(cs[1..], domain, b)])
  }

  function DomainOf(pa: PwAff, b: Build): (r: Set)
    requires b.Valid() && pa != [] && ValidPw(b.ls, pa)
    ensures ValidSet(b.ls, r)
  {
    UnionAll(Domains(b.ls, pa), b)
  }

  function Domains(ghost ls: LocalSpace, pa: PwAff): (r: seq<Set>)
    requires ValidPw(ls, pa)
    ensures |r| == |pa| && forall i :: 0 <= i < |r| ==> r[i] == pa[i].domain && ValidSet(ls, r[i])
  {
    assert forall i :: 0 <= i < |pa| ==> ValidPiece(ls, pa[i]);
    seq(|pa|, i requires 0 <= i < |pa| => pa[i].domain)
  }

  function FinalChoices(pa: PwAff, b: Build): (cs: seq<Choice>)
    requires b.Valid() && pa != [] && ValidPw(b.ls, pa)
    ensures cs != [] && ValidChoices(b.ls, cs)
  {
    var gs := AddPieces([Group(NoPiece, [], [])], pa, b);
    var cs := ToChoices(gs, b);
    SortedChoices(cs, b.ls);
    assert ToChoice(gs[|gs| - 1], b) in cs;
    Sorted(cs)
  }

  function FromPwAff(pa: PwAff, b: Build): Expr
    requires b.Valid() && pa != [] && ValidPw(b.ls, pa)
  {
    BuildPieces(FinalChoices(pa, b), DomainOf(pa, b), b)
  }

  lemma SortedChoices(cs: seq<Choice>, ls: LocalSpace)
    requires ValidChoices(ls, cs)
    ensures forall c :: c in Sorted(cs) <==> c in cs
    ensures ValidChoices(ls, Sorted(cs)) && |Sorted(cs)| == |cs|
  {
    var r := Sorted(cs);
    forall c ensures c in r <==> c in cs {
      assert c in multiset(r) <==> c in multiset(cs);
    }
    assert |r| == |multiset(r)| == |multiset(cs)| == |cs|;
    forall i | 0 <= i < |r| ensures ValidChoice(ls, r[i]) {
      assert r[i] in cs;
    }
  }

  /** Correctness at one point x of the build domain where the piecewise expression is q. */

  // a is exactly q at y
  ghost predicate Exactly(a: Aff, y: Vec, q: int)
    requires |a.coef| <= |y|
  {
    Num(a, y) == q * a.den
  }

  // Every piece that contains x has value q there.
  ghost predicate ValueAt(ls: LocalSpace, pa: PwAff, x: Vec, q: int)
    requires ls.Valid() && ValidPw(ls, pa) && |x| == ls.nvar
  {
    forall i :: 0 <= i < |pa| ==>
        ValidPiece(ls, pa[i]) && (Contains(ls, pa[i].domain, x) ==> Exactly(pa[i].aff, Extend(ls, x), q))
  }

  // If x is in entry i of the group, then the group has value q at x.
  ghost predicate EntryMeans(ls: LocalSpace, g: Group, i: nat, x: Vec, q: int)
    requires ls.Valid() && ValidGroup(ls, g) && i < |g.sets| && |x| == ls.nvar
  {
    Contains(ls, g.sets[i], x) ==>
      && Exactly(g.affs[i], Extend(ls, x), q)
      && (!g.state.Single? ==>
            forall j :: 0 <= j < |g.affs| ==>
              g.affs[j].den == 1 && if g.state.Minimum? then Num(g.affs[j], Extend(ls, x)) >= q
                  else Num(g.affs[j], Extend(ls, x)) <= q)
  }

  ghost predicate GroupMeans(ls: LocalSpace, g: Group, x: Vec, q: int)
    requires ls.Valid() && ValidGroup(ls, g) && |x| == ls.nvar
  {
    forall i: nat :: i < |g.sets| ==> EntryMeans(ls, g, i, x, q)
  }

  ghost predicate InGroup(ls: LocalSpace, g: Group, x: Vec) {
    exists i :: 0 <= i < |g.sets| && Contains(ls, g.sets[i], x)
  }

  lemma DifferenceNum(a: Aff, a': Aff, y: Vec)
    requires |a.coef| == |a'.coef| <= |y|
    ensures Num(Difference(a, a'), y) == a'.den * Num(a, y) - a.den * Num(a', y)
  {
    AffNum(a, a, a'.den, 1, y);
    AffNum(a', a', -a.den, 1, y);
    AffNum(ScaleAff(a'.den, a), ScaleAff(-a.den, a'), 1, 1, y);
    assert -a.den * Num(a', y) == -(a.den * Num(a', y));
  }

  lemma SingleConstraint(ls: LocalSpace, c: Constraint, x: Vec)
    requires ls.Valid() && ValidConstraint(ls, c) && |x| == ls.nvar
    ensures ValidSet(ls, [[c]])
    ensures Contains(ls, [[c]], x) <==> Holds(ls, c, x)
  {
    assert forall i :: 0 <= i < |[c]| ==> ValidConstraint(ls, [c][i]);
    SingleContains(ls, [c], x);
    if InBasic(ls, [c], x) { assert Holds(ls, [c][0], x); }
  }

  // Where a equals an expression that is exactly q, it is exactly q.
  lemma EqualExactly(ls: LocalSpace, a: Aff, a': Aff, x: Vec, q: int)
    requires ls.Valid() && ls.Has(a) && ls.Has(a') && |x| == ls.nvar
    requires Contains(ls, EqSet(a, a'), x)
    ensures Exactly(a, Extend(ls, x), q) <==> Exactly(a', Extend(ls, x), q)
  {
    var y := Extend(ls, x);
    SingleConstraint(ls, Constraint(true, Difference(a, a')), x);
    DifferenceNum(a, a', y);
    if Exactly(a, y, q) { CrossCancel(Num(a, y), a.den, Num(a', y), a'.den, q); }
    if Exactly(a', y, q) { CrossCancel(Num(a', y), a'.den, Num(a, y), a.den, q); }
  }

  lemma CrossCancel(n: int, d: int, n': int, d': int, q: int)
    requires d > 0 && d' > 0 && d' * n == d * n' && n == q * d
    ensures n' == q * d'
  {
    var t := q * d';
    assert d * n' == d * t;
    assert n' > t ==> d * n' > d * t;
    assert n' < t ==> d * n' < d * t;
  }

  // With integer coefficients, membership in GeSet is the comparison of the values.
  lemma GeSetAt(ls: LocalSpace, a: Aff, a': Aff, x: Vec)
    requires ls.Valid() && ls.Has(a) && ls.Has(a') && !IsRational(a) && !IsRational(a') && |x| == ls.nvar
    ensures ValidSet(ls, GeSet(a, a'))
    ensures Contains(ls, GeSet(a, a'), x) <==> Num(a, Extend(ls, x)) >= Num(a', Extend(ls, x))
  {
    SingleConstraint(ls, Constraint(false, Difference(a, a')), x);
    DifferenceNum(a, a', Extend(ls, x));
  }

  lemma SubsetAt(b: Build, s: Set, t: Set, x: Vec)
    requires b.Valid() && ValidSet(b.ls, s) && ValidSet(b.ls, t) && b.ops.isSubset(s, t) && Contains(b.ls, s, x)
    ensures Contains(b.ls, t, x)
  {
    assert Included(b.ls, s, t);
  }

  // What the test of Extends gives at x for entry i.
  lemma ExtendsAt(g: Group, domain: Set, a: Aff, isMin: bool, b: Build, x: Vec, env: Env, i: nat)
    requires b.Valid() && ValidGroup(b.ls, g) && b.ls.Has(a) && ValidSet(b.ls, domain) && b.At(x, env) && i < |g.sets|
    requires Extends(g, domain, a, isMin, b) && !IsRational(g.affs[i])
    ensures var v, w := Num(a, Extend(b.ls, x)), Num(g.affs[i], Extend(b.ls, x));
            && (Contains(b.ls, g.sets[i], x) ==> if isMin then v >= w else v <= w)
            && (Contains(b.ls, domain, x) ==> if isMin then w >= v else w <= v)
  {
    GeSetAt(b.ls, a, g.affs[i], x);
    GeSetAt(b.ls, g.affs[i], a, x);
    var here, there := b.ops.intersect(b.domain, g.sets[i]), b.ops.intersect(b.domain, domain);
    if Contains(b.ls, g.sets[i], x) {
      SubsetAt(b, here, if isMin then GeSet(a, g.affs[i]) else GeSet(g.affs[i], a), x);
    }
    if Contains(b.ls, domain, x) {
      SubsetAt(b, there, if isMin then GeSet(g.affs[i], a) else GeSet(a, g.affs[i]), x);
    }
  }

  lemma ExtendedMeans(g: Group, domain: Set, a: Aff, isMin: bool, b: Build, x: Vec, env: Env, q: int)
    requires b.Valid() && ValidGroup(b.ls, g) && b.ls.Has(a) && ValidSet(b.ls, domain) && b.At(x, env)
    requires g.state == Single || g.state == (if isMin then Minimum else Maximum)
    requires Extends(g, domain, a, isMin, b)
    requires GroupMeans(b.ls, g, x, q) && (Contains(b.ls, domain, x) ==> Exactly(a, Extend(b.ls, x), q))
    ensures var g' := Extended(g, if isMin then Minimum else Maximum, domain, a);
            ValidGroup(b.ls, g') && GroupMeans(b.ls, g', x, q)
  {
    forall j: nat | j < |g.sets| ensures KeepsExtremum(b.ls, g, domain, a, isMin, j, x, q) {
      ExtendsAt(g, domain, a, isMin, b, x, env, j);
      assert EntryMeans(b.ls, g, j, x, q);
    }
    ExtendedEntries(b.ls, g, domain, a, isMin, x, q);
  }

  // The new value and the value of entry j do not pass each other where they count.
  ghost predicate KeepsExtremum(ls: LocalSpace, g: Group, domain: Set, a: Aff, isMin: bool, j: nat, x: Vec, q: int)
    requires ls.Valid() && ValidGroup(ls, g) && ls.Has(a) && |x| == ls.nvar && j < |g.sets|
  {
    var y := Extend(ls, x);
    && (Contains(ls, g.sets[j], x) ==> if isMin then Num(a, y) >= q else Num(a, y) <= q)
    && (Contains(ls, domain, x) ==> if isMin then Num(g.affs[j], y) >= q else Num(g.affs[j], y) <= q)
  }

  lemma ExtendedEntries(ls: LocalSpace, g: Group, domain: Set, a: Aff, isMin: bool, x: Vec, q: int)
    requires ls.Valid() && ValidGroup(ls, g) && ls.Has(a) && !IsRational(a) && |x| == ls.nvar && ValidSet(ls, domain)
    requires g.state == (if isMin then Minimum else Maximum) || (g.state.Single? && !IsRational(g.affs[0]))
    requires forall j: nat :: j < |g.sets| ==>
             EntryMeans(ls, g, j, x, q) && KeepsExtremum(ls, g, domain, a, isMin, j, x, q)
    requires Contains(ls, domain, x) ==> Exactly(a, Extend(ls, x), q)
    ensures var g' := Extended(g, if isMin then Minimum else Maximum, domain, a);
            ValidGroup(ls, g') && GroupMeans(ls, g', x, q)
  {
    var g' := Extended(g, if isMin then Minimum else Maximum, domain, a);
    var n := |g.sets|;
    forall i: nat | i <= n ensures EntryMeans(ls, g', i, x, q) {
      if i < n {
        assert EntryMeans(ls, g, i, x, q) && KeepsExtremum(ls, g, domain, a, isMin, i, x, q);
      } else {
        var y := Extend(ls, x);
        forall j: nat | j < n && Contains(ls, domain, x)
          ensures if isMin then Num(g'.affs[j], y) >= q else Num(g'.affs[j], y) <= q
        {
          assert KeepsExtremum(ls, g, domain, a, isMin, j, x, q);
        }
      }
    }
  }

  lemma WidenedMeans(g: Group, domain: Set, a: Aff, kept: Aff, b: Build, x: Vec, env: Env, q: int)
    requires b.Valid() && ValidGroup(b.ls, g) && g.state.Single? && b.ls.Has(a) && ValidSet(b.ls, domain) &&
             b.At(x, env)
    requires (kept == g.affs[0] && b.ops.isSubset(domain, EqSet(a, g.affs[0]))) ||
             (kept == a && b.ops.isSubset(g.sets[0], EqSet(a, g.affs[0])))
    requires GroupMeans(b.ls, g, x, q) && (Contains(b.ls, domain, x) ==> Exactly(a, Extend(b.ls, x), q))
    ensures var g' := Group(Single, [b.ops.union(g.sets[0], domain)], [kept]);
            ValidGroup(b.ls, g') && GroupMeans(b.ls, g', x, q)
  {
    SingleConstraint(b.ls, Constraint(true, Difference(a, g.affs[0])), x);
    assert EntryMeans(b.ls, g, 0, x, q);
    if Contains(b.ls, EqSet(a, g.affs[0]), x) { EqualExactly(b.ls, a, g.affs[0], x, q); }
    if kept == g.affs[0] && b.ops.isSubset(domain, EqSet(a, g.affs[0])) {
      if Contains(b.ls, domain, x) { SubsetAt(b, domain, EqSet(a, g.affs[0]), x); }
    } else {
      if Contains(b.ls, g.sets[0], x) { SubsetAt(b, g.sets[0], EqSet(a, g.affs[0]), x); }
    }
  }

  // Extending a group keeps its values and adds the points of the new piece.
  lemma ExtendGroupMeans(g: Group, domain: Set, a: Aff, b: Build, x: Vec, env: Env, q: int)
    requires b.Valid() && ValidGroup(b.ls, g) && ValidSet(b.ls, domain) && b.ls.Has(a) && b.At(x, env)
    requires GroupMeans(b.ls, g, x, q) && (Contains(b.ls, domain, x) ==> Exactly(a, Extend(b.ls, x), q))
    ensures var r := ExtendGroup(g, domain, a, b);
            r.Some? ==>
              && GroupMeans(b.ls, r.value, x, q)
              && (InGroup(b.ls, g, x) || Contains(b.ls, domain, x) ==> InGroup(b.ls, r.value, x))
  {
    if g.state.Single? && b.ops.isSubset(domain, EqSet(a, g.affs[0])) {
      assert g.affs == [g.affs[0]];
      WidenedMeans(g, domain, a, g.affs[0], b, x, env, q);
      WidenedContains(g, domain, g.affs[0], b, x);
    } else if g.state.Single? && b.ops.isSubset(g.sets[0], EqSet(a, g.affs[0])) {
      WidenedMeans(g, domain, a, a, b, x, env, q);
      WidenedContains(g, domain, a, b, x);
    } else if (g.state.Single? || g.state.Minimum?) && Extends(g, domain, a, true, b) {
      ExtendedMeans(g, domain, a, true, b, x, env, q);
      ExtendedContains(g, Minimum, domain, a, b.ls, x);
    } else if (g.state.Single? || g.state.Maximum?) && Extends(g, domain, a, false, b) {
      ExtendedMeans(g, domain, a, false, b, x, env, q);
      ExtendedContains(g, Maximum, domain, a, b.ls, x);
    }
  }

  lemma WidenedContains(g: Group, domain: Set, kept: Aff, b: Build, x: Vec)
    requires b.Valid() && ValidGroup(b.ls, g) && g.state.Single? && ValidSet(b.ls, domain)
    ensures InGroup(b.ls, g, x) || Contains(b.ls, domain, x) ==>
            InGroup(b.ls, Group(Single, [b.ops.union(g.sets[0], domain)], [kept]), x)
  {
    var g' := Group(Single, [b.ops.union(g.sets[0], domain)], [kept]);
    if InGroup(b.ls, g, x) || Contains(b.ls, domain, x) {
      assert Contains(b.ls, g'.sets[0], x);
    }
  }

  lemma ExtendedContains(g: Group, state: State, domain: Set, a: Aff, ls: LocalSpace, x: Vec)
    ensures InGroup(ls, g, x) || Contains(ls, domain, x) ==> InGroup(ls, Extended(g, state, domain, a), x)
  {
    var g' := Extended(g, state, domain, a);
    if InGroup(ls, g, x) {
      var i :| 0 <= i < |g.sets| && Contains(ls, g.sets[i], x);
      assert Contains(ls, g'.sets[i], x);
    } else if Contains(ls, domain, x) {
      assert Contains(ls, g'.sets[|g.sets|], x);
    }
  }

  ghost predicate GroupsMean(ls: LocalSpace, gs: seq<Group>, x: Vec, q: int)
    requires ls.Valid() && ValidGroups(ls, gs) && |x| == ls.nvar
  {
    forall i :: 0 <= i < |gs| ==> GroupMeans(ls, gs[i], x, q)
  }

  ghost predicate InGroups(ls: LocalSpace, gs: seq<Group>, x: Vec) {
    exists i :: 0 <= i < |gs| && InGroup(ls, gs[i], x)
  }

  lemma AddPieceMeans(gs: seq<Group>, domain: Set, a: Aff, b: Build, x: Vec, env: Env, q: int)
    requires b.Valid() && ValidGroups(b.ls, gs) && ValidSet(b.ls, domain) && b.ls.Has(a) && b.At(x, env)
    requires GroupsMean(b.ls, gs, x, q) && (Contains(b.ls, domain, x) ==> Exactly(a, Extend(b.ls, x), q))
    ensures GroupsMean(b.ls, AddPiece(gs, domain, a, b), x, q)
    ensures InGroups(b.ls, gs, x) || Contains(b.ls, domain, x) ==> InGroups(b.ls, AddPiece(gs, domain, a, b), x)
  {
    hide Sound;
    var n, single, r := |gs| - 1, Group(Single, [domain], [a]), AddPiece(gs, domain, a, b);
    assert GroupMeans(b.ls, gs[n], x, q);
    ExtendGroupMeans(gs[n], domain, a, b, x, env, q);
    assert GroupMeans(b.ls, single, x, q) by {
      assert EntryMeans(b.ls, single, 0, x, q);
    }
    if Contains(b.ls, domain, x) {
      assert Contains(b.ls, single.sets[0], x);
      assert InGroup(b.ls, single, x);
      assert InGroup(b.ls, r[|r| - 1], x);
    } else if InGroups(b.ls, gs, x) {
      var i :| 0 <= i < |gs| && InGroup(b.ls, gs[i], x);
      assert InGroup(b.ls, r[i], x);
    }
  }

  lemma {:induction false} AddPiecesMean(gs: seq<Group>, pa: PwAff, b: Build, x: Vec, env: Env, q: int)
    requires b.Valid() && ValidGroups(b.ls, gs) && ValidPw(b.ls, pa) && b.At(x, env)
    requires GroupsMean(b.ls, gs, x, q) && ValueAt(b.ls, pa, x, q)
    ensures GroupsMean(b.ls, AddPieces(gs, pa, b), x, q)
    ensures InGroups(b.ls, gs, x) || (exists i :: 0 <= i < |pa| && Contains(b.ls, pa[i].domain, x)) ==>
              InGroups(b.ls, AddPieces(gs, pa, b), x)
    decreases |pa|
  {
    if pa != [] {
      assert ValidPiece(b.ls, pa[0]);
      var gs' := AddPiece(gs, pa[0].domain, pa[0].aff, b);
      AddPieceMeans(gs, pa[0].domain, pa[0].aff, b, x, env, q);
      AddPiecesMean(gs', pa[1..], b, x, env, q);
      if i :| 0 <= i < |pa| && Contains(b.ls, pa[i].domain, x) {
        assert i > 0 ==> pa[1..][i - 1] == pa[i];
      }
    }
  }

  lemma {:induction false} UnionAllContains(sets: seq<Set>, b: Build, x: Vec)
    requires b.Valid() && sets != [] && forall i :: 0 <= i < |sets| ==> ValidSet(b.ls, sets[i])
    ensures Contains(b.ls, UnionAll(sets, b), x) <==> exists i :: 0 <= i < |sets| && Contains(b.ls, sets[i], x)
  {
    var n := |sets| - 1;
    if n > 0 {
      UnionAllContains(sets[..n], b, x);
      assert forall i :: 0 <= i < n ==> sets[..n][i] == sets[i];
    }
  }

  // A choice contains the points of its group.
  lemma ToChoiceContains(g: Group, b: Build, x: Vec)
    requires b.Valid() && ValidGroup(b.ls, g) && !g.state.NoPiece?
    ensures Contains(b.ls, ToChoice(g, b).domain, x) <==> InGroup(b.ls, g, x)
  {
    UnionAllContains(g.sets, b, x);
  }

  lemma FromAffIsSafe(a: Aff, b: Build, x: Vec, env: Env)
    requires b.Valid() && b.ls.Has(a) && b.At(x, env) && a.den == 1
    ensures Means(FromAff(a, b, |b.ls.divs|), env, Num(a, Extend(b.ls, x)))
  {
    FromAffMeans(a, b, |b.ls.divs|, x, env);
  }

  // The expression of a choice that contains x evaluates to the value of its group.
  lemma FromChoiceMeans(g: Group, b: Build, x: Vec, env: Env, q: int)
    requires b.Valid() && ValidGroup(b.ls, g) && !g.state.NoPiece? && b.At(x, env)
    requires GroupMeans(b.ls, g, x, q) && InGroup(b.ls, g, x)
    ensures Means(FromChoice(ToChoice(g, b), b), env, q)
  {
    var c := ToChoice(g, b);
    ToChoiceContains(g, b, x);
    RestrictValid(b, c.domain);
    var inside, y := b.Restrict(c.domain), Extend(b.ls, x);
    var i :| 0 <= i < |g.sets| && Contains(b.ls, g.sets[i], x);
    assert EntryMeans(b.ls, g, i, x, q);
    if g.state.Single? {
      MultipleIsExact(Num(g.affs[0], y), g.affs[0].den, q);
      FromAffMeans(g.affs[0], inside, |b.ls.divs|, x, env);
    } else {
      var es := FromAffs(g.affs, inside);
      forall j | 0 <= j < |es| ensures Means(es[j], env, Num(g.affs[j], y)) {
        FromAffIsSafe(g.affs[j], inside, x, env);
      }
      ExtremumMeans(es, g.state.Minimum?, env, i, q);
    }
  }

  lemma ExtremumMeans(es: seq<Expr>, isMin: bool, env: Env, i: nat, q: int)
    requires i < |es| && Eval(es[i], env) == q
    requires forall j :: 0 <= j < |es| ==> Safe(es[j], env) && if isMin then Eval(es[j], env) >= q
             else Eval(es[j], env) <= q
    ensures Means(Op(if isMin then Min else Max, es), env, q)
  {
    EvalAllAt(es, env);
    var vs := EvalAll(es, env);
    assert vs[i] == q;
  }

  // Among the choices that contain x, each one has value q there.
  ghost predicate ChoiceMeans(c: Choice, b: Build, x: Vec, env: Env, q: int)
    requires b.Valid() && ValidChoice(b.ls, c)
  {
    Contains(b.ls, c.domain, x) ==> Means(FromChoice(c, b), env, q)
  }

  ghost predicate AllMean(cs: seq<Choice>, b: Build, x: Vec, env: Env, q: int)
    requires b.Valid() && ValidChoices(b.ls, cs)
  {
    forall i :: 0 <= i < |cs| ==> ValidChoice(b.ls, cs[i]) && ChoiceMeans(cs[i], b, x, env, q)
  }

  ghost predicate SomeContains(ls: LocalSpace, cs: seq<Choice>, x: Vec) {
    exists i :: 0 <= i < |cs| && Contains(ls, cs[i].domain, x)
  }

  lemma {:induction false} BuildPiecesMeans(cs: seq<Choice>, domain: Set, b: Build, x: Vec, env: Env, q: int)
    requires b.Valid() && cs != [] && ValidChoices(b.ls, cs) && ValidSet(b.ls, domain) && b.At(x, env)
    requires Contains(b.ls, domain, x)
    requires AllMean(cs, b, x, env, q) && SomeContains(b.ls, cs, x)
    ensures Means(BuildPieces(cs, domain, b), env, q)
    decreases |cs|
  {
    assert ValidChoice(b.ls, cs[0]) && ChoiceMeans(cs[0], b, x, env, q);
    if |cs| > 1 {
      if !Contains(b.ls, cs[0].domain, x) {
        var i :| 0 <= i < |cs| && Contains(b.ls, cs[i].domain, x);
        assert cs[1..][i - 1] == cs[i];
        BuildPiecesMeans(cs[1..], domain, b, x, env, q);
      }
      SelectChoice(cs[0], BuildPieces(cs[1..], domain, b), domain, b, x, env, q);
    }
  }

  lemma SelectChoice(c: Choice, rest: Expr, domain: Set, b: Build, x: Vec, env: Env, q: int)
    requires b.Valid() && ValidChoice(b.ls, c) && ValidSet(b.ls, domain) && b.At(x, env) && Contains(b.ls, domain, x)
    requires ChoiceMeans(c, b, x, env, q) && (!Contains(b.ls, c.domain, x) ==> Means(rest, env, q))
    ensures Means(Op(Select, [FromSet(b.ops.gist(c.domain, domain), b), FromChoice(c, b), rest]), env, q)
  {
    var test := FromSet(b.ops.gist(c.domain, domain), b);
    FromSetDecides(b.ops.gist(c.domain, domain), b, x, env);
    SelectMeans(test, FromChoice(c, b), rest, env, Contains(b.ls, c.domain, x), q);
  }

  lemma SelectMeans(test: Expr, e: Expr, rest: Expr, env: Env, truth: bool, q: int)
    requires Decides(test, env, truth) && (if truth then Means(e, env, q) else Means(rest, env, q))
    ensures Means(Op(Select, [test, e, rest]), env, q)
  {
    EvalSelect(test, e, rest, env);
  }

  lemma FinalChoicesMean(pa: PwAff, b: Build, x: Vec, env: Env, q: int)
    requires b.Valid() && pa != [] && ValidPw(b.ls, pa) && b.At(x, env) && ValueAt(b.ls, pa, x, q)
    requires exists i :: 0 <= i < |pa| && Contains(b.ls, pa[i].domain, x)
    ensures AllMean(FinalChoices(pa, b), b, x, env, q) && SomeContains(b.ls, FinalChoices(pa, b), x)
  {
    var start := [Group(NoPiece, [], [])];
    assert GroupMeans(b.ls, start[0], x, q);
    AddPiecesMean(start, pa, b, x, env, q);
    SortedMean(AddPieces(start, pa, b), b, x, env, q);
  }

  lemma SortedMean(gs: seq<Group>, b: Build, x: Vec, env: Env, q: int)
    requires b.Valid() && b.At(x, env) && ValidGroups(b.ls, gs) && GroupsMean(b.ls, gs, x, q) && InGroups(b.ls, gs, x)
    ensures ValidChoices(b.ls, Sorted(ToChoices(gs, b)))
    ensures AllMean(Sorted(ToChoices(gs, b)), b, x, env, q) && SomeContains(b.ls, Sorted(ToChoices(gs, b)), x)
  {
    var cs := ToChoices(gs, b);
    SortedChoices(cs, b.ls);
    var sorted := Sorted(cs);
    forall i | 0 <= i < |sorted| ensures ValidChoice(b.ls, sorted[i]) && ChoiceMeans(sorted[i], b, x, env, q) {
      assert sorted[i] in cs;
      MemberMeans(gs, sorted[i], b, x, env, q);
    }
    MemberContains(gs, sorted, b, x, env, q);
  }

  lemma MemberMeans(gs: seq<Group>, c: Choice, b: Build, x: Vec, env: Env, q: int)
    requires b.Valid() && b.At(x, env) && ValidGroups(b.ls, gs) && GroupsMean(b.ls, gs, x, q) && c in ToChoices(gs, b)
    ensures ValidChoice(b.ls, c) && ChoiceMeans(c, b, x, env, q)
  {
    var j :| 0 <= j < |gs| && !gs[j].state.NoPiece? && c == ToChoice(gs[j], b);
    GroupChoice(gs, j, b, x, env, q);
  }

  lemma MemberContains(gs: seq<Group>, cs: seq<Choice>, b: Build, x: Vec, env: Env, q: int)
    requires b.Valid() && b.At(x, env) && ValidGroups(b.ls, gs) && GroupsMean(b.ls, gs, x, q) && InGroups(b.ls, gs, x)
    requires forall c :: c in ToChoices(gs, b) ==> c in cs
    ensures SomeContains(b.ls, cs, x)
  {
    var j :| 0 <= j < |gs| && InGroup(b.ls, gs[j], x);
    GroupChoice(gs, j, b, x, env, q);
    assert ToChoice(gs[j], b) in cs;
  }

  lemma GroupChoice(gs: seq<Group>, j: nat, b: Build, x: Vec, env: Env, q: int)
    requires b.Valid() && b.At(x, env) && ValidGroups(b.ls, gs) && GroupsMean(b.ls, gs, x, q) && j < |gs|
    ensures !gs[j].state.NoPiece? ==> ChoiceMeans(ToChoice(gs[j], b), b, x, env, q)
    ensures InGroup(b.ls, gs[j], x) ==> !gs[j].state.NoPiece? && Contains(b.ls, ToChoice(gs[j], b).domain, x)
  {
    assert GroupMeans(b.ls, gs[j], x, q);
    if !gs[j].state.NoPiece? {
      ToChoiceContains(gs[j], b, x);
      if InGroup(b.ls, gs[j], x) { FromChoiceMeans(gs[j], b, x, env, q); }
    }
  }

  /** At every point of the build domain and of the piecewise expression's own domain
      where its value is the integer q, the generated expression evaluates to q. */
  lemma FromPwAffMeans(pa: PwAff, b: Build, x: Vec, env: Env, q: int)
    requires b.Valid() && pa != [] && ValidPw(b.ls, pa) && b.At(x, env) && ValueAt(b.ls, pa, x, q)
    requires exists i :: 0 <= i < |pa| && Contains(b.ls, pa[i].domain, x)
    ensures Means(FromPwAff(pa, b), env, q)
  {
    FinalChoicesMean(pa, b, x, env, q);
    UnionAllContains(Domains(b.ls, pa), b, x);
    var i :| 0 <= i < |pa| && Contains(b.ls, pa[i].domain, x);
    assert Contains(b.ls, Domains(b.ls, pa)[i], x);
    BuildPiecesMeans(FinalChoices(pa, b), DomainOf(pa, b), b, x, env, q);
  }
}
