/** The array of pieces under construction holds the groups that AstFromPwAff defines. */
module AstFromPwAffState {
  import opened QuasiAffine
  import opened AstExpr
  import opened AstBuild
  import opened Wrappers
  import opened AstFromPwAff

  // What the pieces from i on add to the groups.
  ghost function Rest(gs: seq<Group>, pa: PwAff, i: nat, b: Build): (r: seq<Group>)
    requires b.Valid() && ValidGroups(b.ls, gs) && ValidPw(b.ls, pa) && i <= |pa|
    decreases |pa| - i
  {
    if i == |pa| then gs
    else
      assert ValidPiece(b.ls, pa[i]);
      Rest(AstFromPwAff.AddPiece(gs, pa[i].domain, pa[i].aff, b), pa, i + 1, b)
  }

  lemma {:induction false} RestAdds(gs: seq<Group>, pa: PwAff, i: nat, b: Build)
    requires b.Valid() && ValidGroups(b.ls, gs) && ValidPw(b.ls, pa) && i <= |pa|
    ensures Rest(gs, pa, i, b) == AddPieces(gs, pa[i..], b)
    decreases |pa| - i
  {
    if i < |pa| {
      assert ValidPiece(b.ls, pa[i]);
      assert pa[i..][0] == pa[i] && pa[i..][1..] == pa[i + 1..];
      RestAdds(AstFromPwAff.AddPiece(gs, pa[i].domain, pa[i].aff, b), pa, i + 1, b);
    }
  }

  /** isl_from_pw_aff_data: entry n of the array is the one that is still extended. */
  class FromPwAffData {
    const b: Build
    const p: array<Group>
    var n: nat

    constructor (b: Build, max: nat)
      requires max > 0
      ensures this.b == b && p.Length == max && fresh(p) && n == 0 && Groups() == [Group(NoPiece, [], [])]
    {
      this.b, n := b, 0;
      p := new Group[max](_ => Group(NoPiece, [], []));
      new;
      assert p[..1] == [Group(NoPiece, [], [])];
    }

    ghost predicate Valid()
      reads this, p
    {
      b.Valid() && n < p.Length && ValidGroups(b.ls, Groups())
    }

    ghost function Groups(): (gs: seq<Group>)
      requires n < p.Length
      reads this, p
      ensures |gs| == n + 1 && gs[n] == p[n]
    {
      p[..n + 1]
    }

    // set_single, extend_min, extend_max and extend_domain replace the current entry.
    method Store(g: Group)
      requires n < p.Length
      modifies p
      ensures Groups() == old(Groups())[..n] + [g]
    {
      p[n] := g;
    }

    // `extends`, for a minimum or a maximum
    method Extends(domain: Set, a: Aff, isMin: bool) returns (r: bool)
      requires Valid() && b.ls.Has(a)
      ensures r == AstFromPwAff.Extends(p[n], domain, a, isMin, b)
    {
      var g := p[n];
      assert g == Groups()[n] && ValidGroup(b.ls, g);
      if IsRational(a) || (|g.affs| == 1 && IsRational(g.affs[0])) || !b.detectMinMax { return false; }
      var within := b.ops.intersect(b.domain, domain);
      for i := 0 to |g.sets|
        invariant forall k :: 0 <= k < i ==> Fits(g, within, a, isMin, k)
      {
        var valid := if isMin then GeSet(a, g.affs[i]) else GeSet(g.affs[i], a);
        if !b.ops.isSubset(b.ops.intersect(b.domain, g.sets[i]), valid) {
          assert !Fits(g, within, a, isMin, i);
          return false;
        }
        valid := if isMin then GeSet(g.affs[i], a) else GeSet(a, g.affs[i]);
        if !b.ops.isSubset(within, valid) {
          assert !Fits(g, within, a, isMin, i);
          return false;
        }
      }
      assert forall k {:trigger g.sets[k]} :: 0 <= k < |g.sets| ==> Fits(g, within, a, isMin, k);
      r := true;
    }

    ghost predicate Fits(g: Group, within: Set, a: Aff, isMin: bool, k: int)
      requires 0 <= k < |g.sets| == |g.affs| && |g.affs[k].coef| == |a.coef|
    {
      && b.ops.isSubset(b.ops.intersect(b.domain, g.sets[k]), if isMin then GeSet(a, g.affs[k])
           else GeSet(g.affs[k], a))
      && b.ops.isSubset(within, if isMin then GeSet(g.affs[k], a) else GeSet(a, g.affs[k]))
    }

    // The states "single", "min" and "max" of ast_expr_from_pw_aff: can the current
    // entry take in the piece?
    method TryCurrent(domain: Set, a: Aff) returns (taken: bool)
      requires Valid() && ValidSet(b.ls, domain) && b.ls.Has(a)
      modifies p
      ensures taken == ExtendGroup(old(p[n]), domain, a, b).Some?
      ensures taken ==> Groups() == old(Groups())[..n] + [ExtendGroup(old(p[n]), domain, a, b).value]
      ensures !taken ==> Groups() == old(Groups())
    {
      var g := p[n];
      assert g == Groups()[n] && ValidGroup(b.ls, g);
      if g.state.Single? {
        var eq := EqSet(a, g.affs[0]);
        if b.ops.isSubset(domain, eq) {
          Store(Group(Single, [b.ops.union(g.sets[0], domain)], g.affs));
          return true;
        }
        if b.ops.isSubset(g.sets[0], eq) {
          Store(Group(Single, [b.ops.union(g.sets[0], domain)], [a]));
          return true;
        }
      }
      taken := TryExtreme(g, domain, a);
    }

    method TryExtreme(g: Group, domain: Set, a: Aff) returns (taken: bool)
      requires Valid() && ValidSet(b.ls, domain) && b.ls.Has(a) && g == p[n]
      modifies p
      ensures var min, max := CanTake(g, Minimum, domain, a), CanTake(g, Maximum, domain, a);
              && taken == (min || max)
              && Groups() == if taken then old(Groups())[..n] +
                   [Extended(g, if min then Minimum else Maximum, domain, a)] else old(Groups())
    {
      taken := false;
      if g.state.Single? || g.state.Minimum? {
        taken := Extends(domain, a, true);
        if taken { Store(Extended(g, Minimum, domain, a)); }
      }
      if !taken && (g.state.Single? || g.state.Maximum?) {
        taken := Extends(domain, a, false);
        if taken { Store(Extended(g, Maximum, domain, a)); }
      }
    }

    ghost predicate CanTake(g: Group, state: State, domain: Set, a: Aff)
      requires b.Valid() && ValidGroup(b.ls, g) && b.ls.Has(a)
    {
      (g.state.Single? || g.state == state) && AstFromPwAff.Extends(g, domain, a, state.Minimum?, b)
    }

    // ast_expr_from_pw_aff; a new entry is only taken when there is room for it
    method AddPiece(domain: Set, a: Aff)
      requires Valid() && ValidSet(b.ls, domain) && b.ls.Has(a) && (n + 1 < p.Length || p[n].state.NoPiece?)
      modifies this, p
      ensures Valid() && Groups() == AstFromPwAff.AddPiece(old(Groups()), domain, a, b)
      ensures n <= if old(p[n]).state.NoPiece? then old(n) else old(n) + 1
    {
      ghost var gs := Groups();
      if p[n].state.NoPiece? {
        Store(Group(Single, [domain], [a]));
      } else {
        var taken := TryCurrent(domain, a);
        if !taken {
          n := n + 1;
          Store(Group(Single, [domain], [a]));
          assert Groups()[..n] == gs;
        }
      }
      assert Groups() == AstFromPwAff.AddPiece(gs, domain, a, b);
    }

    // isl_pw_aff_foreach_piece with ast_expr_from_pw_aff
    method AddPieces(pa: PwAff)
      requires Valid() && ValidPw(b.ls, pa) && |pa| <= p.Length && n == 0 && p[0].state.NoPiece?
      modifies this, p
      ensures Valid() && Groups() == AstFromPwAff.AddPieces(old(Groups()), pa, b)
    {
      hide AstFromPwAff.AddPiece, AstFromPwAff.AddPieces;
      ghost var r := Rest(Groups(), pa, 0, b);
      RestAdds(Groups(), pa, 0, b);
      assert pa[0..] == pa;
      for i := 0 to |pa|
        invariant Valid() && (n < i || (i == 0 && n == 0 && p[0].state.NoPiece?))
        invariant Rest(Groups(), pa, i, b) == r
      {
        assert ValidPiece(b.ls, pa[i]);
        AddPiece(pa[i].domain, pa[i].aff);
      }
    }
  }

  /** isl_ast_build_expr_from_pw_aff_internal */
  method FromPwAff(pa: PwAff, b: Build) returns (e: Expr)
    requires b.Valid() && pa != [] && ValidPw(b.ls, pa)
    ensures e == AstFromPwAff.FromPwAff(pa, b)
  {
    var data := new FromPwAffData(b, |pa|);
    data.AddPieces(pa);
    var gs := data.p[..data.n + 1];
    var choices := ToChoices(gs, b);
    SortedChoices(choices, b.ls);
    assert ToChoice(gs[|gs| - 1], b) in choices;
    e := BuildPieces(Sorted(choices), DomainOf(pa, b), b);
  }
}
