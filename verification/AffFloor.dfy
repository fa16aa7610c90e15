/** Quasi-affine expressions that own their integer divisions: floor and normalization. */
module AffFloor {
  import opened Arith
  import opened Gcd
  import opened QuasiAffine
  import opened AffDivs
  import opened AffNormal

  /** An isl_aff: its local space and the vector of denominator, constant and coefficients. */
  class QuasiAff {
    var ls: LocalSpace
    var aff: Aff

    ghost predicate Valid()
      reads this
    {
      ls.Valid() && ls.Has(aff)
    }

    constructor (ls: LocalSpace, aff: Aff)
      requires ls.Valid() && ls.Has(aff)
      ensures Valid() && this.ls == ls && this.aff == aff
    {
      this.ls, this.aff := ls, aff;
    }

    method VecNormalize()
      requires Valid()
      modifies this`aff
      ensures old(Reduced(aff)) ==> aff == old(aff)
      ensures Valid() && SameValue(ls, old(aff), ls, aff) && Reduced(aff)
      ensures old(aff.den) == 1 ==> aff == old(aff)
    {
      var g := VecGcd([aff.cst] + aff.coef, aff.den);
      assert Divides(g, aff.den) && Divides(g, ([aff.cst] + aff.coef)[0]);
      if aff.den == 1 { DividesOne(g); }
      if g != 0 && g != 1 {
        forall i | 0 <= i < |aff.coef| ensures Divides(g, aff.coef[i]) {
          assert Divides(g, ([aff.cst] + aff.coef)[i + 1]);
        }
        PositiveFactor(DivExact(aff.den, g), g);
        ghost var a := aff;
        aff := Aff(DivExact(aff.den, g), DivExact(aff.cst, g), DownVec(aff.coef, g));
        ScaledReduced(a, aff);
        forall x | |x| == ls.nvar ensures SameValueAt(ls, a, ls, aff, x) { ScaledDown(ls, a, g, x); }
      }
    }

    // Plugs division j into division i.
    method SubstituteDiv(j: nat, i: nat)
      requires Valid() && j < i < |ls.divs| && (ls.divs[j].den == 1 || ls.divs[i].coef[ls.nvar + j] == 1)
      modifies this`ls
      ensures Valid() && SameDivs(old(ls), ls) && ls == WithDiv(old(ls), i, SubstitutedDiv(old(ls), j, i))
    {
      SubstitutedDivs(ls, j, i);
      ls := WithDiv(ls, i, SubstitutedDiv(ls, j, i));
    }

    // Plugs division i into all later ones.
    method PlugIntoLater(i: nat)
      requires Valid() && i < |ls.divs| && ls.divs[i].den == 1
      modifies this`ls
      ensures Valid() && Plugged(old(ls), ls, i, |ls.divs|) && ls == PluggedInto(old(ls), i, i + 1)
    {
      for k := i + 1 to |ls.divs|
        invariant Valid() && |ls.divs| == |old(ls).divs| && Plugged(old(ls), ls, i, k)
        invariant PluggedInto(old(ls), i, i + 1) == PluggedInto(ls, i, k)
      {
        PlugStep(old(ls), ls, i, k);
        SubstituteDiv(i, k);
      }
    }

    method PlugIn(i: nat)
      requires Valid() && i < |ls.divs| && ls.divs[i].den == 1 && Eliminated(ls, aff, i)
      modifies this
      ensures Valid() && |ls.divs| == |old(ls).divs| && SameNum(old(ls), old(aff), ls, aff) &&
              Eliminated(ls, aff, i + 1)
      ensures ls == PluggedInto(old(ls), i, i + 1) && aff == Subst(old(aff), ls.nvar + i, old(ls.divs[i]))
    {
      hide SameNum, SameDivs, Subst, Eliminated;
      ghost var ls0, aff0 := ls, aff;
      PlugIntoLater(i);
      aff := Subst(aff, ls.nvar + i, ls.divs[i]);
      SameDivsNum(ls0, ls, aff0);
      PlugInSame(ls, aff0, i);
      SameNumChain(ls0, aff0, ls, aff0, ls, aff);
      EliminatedStep(ls0, aff0, ls, i);
    }

    // Afterwards nothing refers to a division by one.
    method PlugInIntegralDivs()
      requires Valid()
      modifies this
      ensures Valid() && SameNum(old(ls), old(aff), ls, aff)
      ensures NoIntegral(ls, aff) && (ls, aff) == IntegralForm(old(ls), old(aff), 0)
    {
      for i := 0 to |ls.divs|
        invariant Valid() && |ls.divs| == |old(ls).divs| && SameNum(old(ls), old(aff), ls, aff)
        invariant Eliminated(ls, aff, i) && IntegralForm(old(ls), old(aff), 0) == IntegralForm(ls, aff, i)
      {
        if ls.divs[i].den != 1 { continue; }
        ghost var ls0, aff0 := ls, aff;
        PlugIn(i);
        SameNumChain(old(ls), old(aff), ls0, aff0, ls, aff);
      }
    }

    // Only division i differs, and not in any value.
    ghost predicate OnlyRewritten(ls0: LocalSpace, i: nat)
      reads this
    {
      && SameDivs(ls0, ls) && i < |ls.divs| == |ls0.divs|
      && forall k :: 0 <= k < |ls.divs| && k != i ==> ls.divs[k] == ls0.divs[k]
    }

    // One step of the inner loop
    method PlugUnit(j: nat, i: nat, ghost ls0: LocalSpace)
      requires Valid() && j < i && OnlyRewritten(ls0, i)
      modifies this`ls
      ensures Valid() && OnlyRewritten(ls0, i) && ls.divs[i].coef[ls.nvar + j] != 1 && ls == UnitStep(old(ls), j, i)
    {
      if ls.divs[i].coef[ls.nvar + j] != 1 { return; }
      SubstituteDiv(j, i);
      SubstitutedAway(old(ls), j, i);
      SameDivsChain(ls0, old(ls), ls);
    }

    // Plugs the divisions that occur in division i with coefficient one into it.
    method PlugUnitsInto(i: nat)
      requires Valid() && 0 < i < |ls.divs|
      modifies this`ls
      ensures Valid() && OnlyRewritten(old(ls), i) && !UnitPredecessor(ls, i) && ls == UnitInto(old(ls), 0, i)
    {
      hide SameDivs, UnitStep, UnitInto;
      SameDivsItself(ls);
      for j := 0 to i
        invariant Valid() && OnlyRewritten(old(ls), i) && (j == i ==> !UnitPredecessor(ls, i))
        invariant UnitInto(old(ls), 0, i) == UnitInto(ls, j, i)
      {
        ghost var ls1 := ls;
        PlugUnit(j, i, old(ls));
        UnitIntoStep(ls1, j, i);
      }
      UnitIntoEnd(ls, i);
    }

    // Afterwards no division occurs with coefficient one in the next one.
    method PlugInUnitDivs()
      requires Valid()
      modifies this`ls
      ensures Valid() && SameNum(old(ls), aff, ls, aff) && ls == UnitForm(old(ls), 1)
      ensures NoUnitPredecessor(ls)
    {
      hide UnitInto, UnitForm, SameDivs;
      var i := 1;
      SameDivsItself(ls);
      while i < |ls.divs|
        invariant 1 <= i && Valid() && |ls.divs| == |old(ls).divs| && SameDivs(old(ls), ls)
        invariant UnitForm(old(ls), 1) == UnitForm(ls, i)
        invariant forall k: nat :: 0 < k < i && k < |ls.divs| ==> !UnitPredecessor(ls, k)
      {
        ghost var ls0 := ls;
        PlugUnitsInto(i);
        SameDivsChain(old(ls), ls0, ls);
        UnitFormStep(ls0, i);
        UnitsKept(ls0, ls, i);
        i := i + 1;
      }
      UnitFormEnd(ls, i);
      SameDivsNum(old(ls), ls, aff);
    }

    method SwapDiv(j: nat)
      requires Valid() && j + 1 < |ls.divs| && CmpDiv(ls, j, j + 1) >= 0
      modifies this
      ensures Valid() && ls == SwapDivs(old(ls), j) && aff == old(aff).(coef := SwapVec(old(aff).coef, ls.nvar + j))
      ensures SameNum(old(ls), old(aff), ls, aff) && Rearranges(old(ls), old(aff), ls, aff)
    {
      hide SameNum, CmpDiv, Selects, NoIntegral;
      if ls.divs[j + 1].coef[ls.nvar + j] != 0 { DependentLater(ls, j); }
      SwapSelects(ls, j);
      if NoIntegral(ls, aff) { SwapNoIntegral(ls, aff, j); }
      SwapSame(ls, aff, j);
      aff := aff.(coef := SwapVec(aff.coef, ls.nvar + j));
      ls := SwapDivs(ls, j);
    }

    method MergeDivs(a: nat, b: nat)
      requires Valid() && a < |ls.divs| && b < |ls.divs| && a != b && CmpDiv(ls, a, b) == 0
      modifies this`aff
      ensures Valid() && SameNum(ls, old(aff), ls, aff) && Rearranges(ls, old(aff), ls, aff)
      ensures aff == old(aff).(coef := MergedCoef(old(aff).coef, ls.nvar + a, ls.nvar + b))
    {
      hide SameNum, Selects, NoIntegral;
      MergeSame(ls, aff, a, b);
      SelectsItself(ls);
      if NoIntegral(ls, aff) { MergeNoIntegral(ls, aff, a, b); }
      if aff.coef[ls.nvar + b] == 0 {
        assert MergedCoef(aff.coef, ls.nvar + a, ls.nvar + b) == aff.coef;
        return;
      }
      aff := aff.(coef := MergedCoef(aff.coef, ls.nvar + a, ls.nvar + b));
    }

    // One comparison of sort_divs: division j + 1 is merged with its predecessor or moves up.
    method MoveUp(j: nat, ghost i: nat)
      requires Inserting(ls, aff, j, i) && CmpDiv(ls, j, j + 1) >= 0
      modifies this
      ensures |ls.divs| == |old(ls).divs| && SameNum(old(ls), old(aff), ls, aff)
      ensures Rearranges(old(ls), old(aff), ls, aff) && Inserting(ls, aff, j - 1, i)
      ensures old(Ordered(ls, aff, j, j + 1)) ==> ls == old(ls) && aff == old(aff)
    {
      hide SameNum, Rearranges;
      if CmpDiv(ls, j, j + 1) == 0 {
        MergeDivs(j, j + 1);
        InsertingMerge(ls, old(aff), aff, j, i);
      } else {
        SwapDiv(j);
        InsertingSwap(old(ls), old(aff), ls, aff, j, i);
      }
    }

    // The body of the inner loop of sort_divs
    method Compare(j: nat, ghost i: nat, ghost ls0: LocalSpace, ghost aff0: Aff) returns (inPlace: bool)
      requires InsertionAt(ls0, aff0, ls, aff, j, i) == Underway
      modifies this
      ensures inPlace ==> InsertionEnd(ls0, aff0, ls, aff, i) == Finished
      ensures !inPlace ==> InsertionAt(ls0, aff0, ls, aff, j - 1, i) == Underway
      ensures old(SortedTo(ls, aff, i)) && j >= 0 ==> ls == old(ls) && aff == old(aff)
    {
      if SortedTo(ls, aff, i) { SortedNext(ls, aff, i, j); }
      InsertionMeans(ls0, aff0, ls, aff, j, i);
      inPlace := CmpDiv(ls, j, j + 1) < 0;
      if inPlace {
        InsertionDone(ls0, aff0, ls, aff, j, i);
      } else {
        MoveUp(j, i);
        InsertionStep(ls0, aff0, old(ls), old(aff), ls, aff, j - 1, i);
      }
    }

    // The inner loop of sort_divs
    method InsertDiv(i: nat)
      requires Valid() && 0 < i < |ls.divs| && SortedTo(ls, aff, i - 1)
      modifies this
      ensures |ls.divs| == |old(ls).divs| && SameNum(old(ls), old(aff), ls, aff) && SortedTo(ls, aff, i)
      ensures Rearranges(old(ls), old(aff), ls, aff)
      ensures old(SortedTo(ls, aff, i)) ==> ls == old(ls) && aff == old(aff)
    {
      hide *;
      var j := i - 1;
      InsertionStart(ls, aff, i);
      while j >= 0
        invariant -1 <= j < i && InsertionAt(old(ls), old(aff), ls, aff, j, i) == Underway
        invariant old(SortedTo(ls, aff, i)) ==> ls == old(ls) && aff == old(aff)
      {
        var inPlace := Compare(j, i, old(ls), old(aff));
        if inPlace {
          InsertionFinished(old(ls), old(aff), ls, aff, i);
          return;
        }
        j := j - 1;
      }
      InsertionDone(old(ls), old(aff), ls, aff, j, i);
      InsertionFinished(old(ls), old(aff), ls, aff, i);
    }

    // Afterwards the divisions are sorted, and of divisions that are the same only the
    // first has a coefficient.
    method SortDivs()
      requires Valid()
      modifies this
      ensures Valid() && |ls.divs| == |old(ls).divs| && SameNum(old(ls), old(aff), ls, aff)
      ensures Rearranges(old(ls), old(aff), ls, aff) && SortedTo(ls, aff, |ls.divs| - 1)
      ensures old(SortedTo(ls, aff, |ls.divs| - 1)) ==> ls == old(ls) && aff == old(aff)
    {
      hide SameNum, Selects, NoIntegral;
      var i := 1;
      SameNumItself(ls, aff);
      SelectsItself(ls);
      while i < |ls.divs|
        invariant 1 <= i && Valid() && |ls.divs| == |old(ls).divs| && SameNum(old(ls), old(aff), ls, aff)
        invariant Rearranges(old(ls), old(aff), ls, aff) && SortedTo(ls, aff, i - 1)
        invariant old(SortedTo(ls, aff, |ls.divs| - 1)) ==> ls == old(ls) && aff == old(aff)
      {
        ghost var ls0, aff0 := ls, aff;
        InsertDiv(i);
        SameNumChain(old(ls), old(aff), ls0, aff0, ls, aff);
        RearrangesChain(old(ls), old(aff), ls0, aff0, ls, aff);
        i := i + 1;
      }
    }

    // Which divisions occur in the expression, or in a division that does.
    method GetActive() returns (active: array<bool>)
      requires Valid()
      ensures fresh(active) && active.Length == |ls.divs|
      ensures ClosedFrom(ls, aff, active[..], 0)
    {
      active := new bool[|ls.divs|];
      for k := 0 to |ls.divs|
        invariant forall q :: 0 <= q < k ==> active[q] == (aff.coef[ls.nvar + q] != 0)
      {
        active[k] := aff.coef[ls.nvar + k] != 0;
      }
      for i := |ls.divs| downto 0
        invariant ClosedFrom(ls, aff, active[..], i)
      {
        ghost var before := active[..];
        if active[i] { MarkReferred(active, i); }
        ClosedStep(ls, aff, before, active[..], i);
      }
    }

    // The divisions that division i refers to become active.
    method MarkReferred(active: array<bool>, i: nat)
      requires Valid() && active.Length == |ls.divs| && i < |ls.divs|
      modifies active
      ensures forall q :: 0 <= q < |ls.divs| ==> active[q] == (old(active[q]) || RefersTo(ls, i, q))
    {
      for j := 0 to i
        invariant forall q :: 0 <= q < j ==> active[q] == (old(active[q]) || RefersTo(ls, i, q))
        invariant forall q :: j <= q < |ls.divs| ==> active[q] == old(active[q])
      {
        if ls.divs[i].coef[ls.nvar + j] != 0 { active[j] := true; }
      }
    }

    // Drops the divisions after the last one that occurs in the expression.
    method DropTail()
      requires Valid()
      modifies this
      ensures Valid() && SameNum(old(ls), old(aff), ls, aff) && Prunes(old(ls), old(aff), ls, aff)
      ensures ls.divs != [] ==> aff.coef[ls.nvar + |ls.divs| - 1] != 0
      ensures old(ls.divs != [] ==> aff.coef[ls.nvar + |ls.divs| - 1] != 0) ==> ls == old(ls) && aff == old(aff)
    {
      hide SameNum, Prunes;
      var pos := LastNonZero(aff.coef[ls.nvar..]) + 1;
      SameNumItself(ls, aff);
      PrunesItself(ls, aff);
      LastInTail(aff.coef, ls.nvar);
      if pos < |ls.divs| {
        CutSame(ls, aff, pos);
        CutPrunes(ls, aff, pos);
        aff := aff.(coef := aff.coef[..ls.nvar + pos]);
        ls := LocalSpace(ls.nvar, ls.divs[..pos]);
      }
    }

    // Drops every division that nothing refers to any more.
    method RemoveUnusedDivs()
      requires Valid()
      modifies this
      ensures Valid() && SameNum(old(ls), old(aff), ls, aff) && Prunes(old(ls), old(aff), ls, aff)
      ensures forall k: nat :: k < |ls.divs| ==> Used(ls, aff, k)
      ensures old(AllUsed(ls, aff)) ==> ls == old(ls) && aff == old(aff)
    {
      hide SameNum, Prunes;
      if AllUsed(ls, aff) && ls.divs != [] { LastUsed(ls, aff); }
      DropTail();
      if |ls.divs| <= 1 { return; }
      ghost var ls0, aff0 := ls, aff;
      SameNumItself(ls, aff);
      PrunesItself(ls, aff);
      var active := GetActive();
      ghost var a := active[..];
      PrunedStart(ls, aff, a);
      if AllUsed(ls, aff) { AllActive(ls, aff, a, 0); }
      for k := |ls.divs| - 1 downto 0
        invariant active[..] == a && k < |ls.divs| && |ls.divs| <= |a|
        invariant Valid() && SameNum(ls0, aff0, ls, aff) && Prunes(ls0, aff0, ls, aff)
        invariant Pruned(ls, aff, a, k)
        invariant AllUsed(ls0, aff0) ==> ls == ls0 && aff == aff0
      {
        assert active[k] == a[k];
        if active[k] {
          PrunedKept(ls, aff, a, k);
        } else {
          ghost var ls1, aff1 := ls, aff;
          DropUnused(k, a);
          SameNumChain(ls0, aff0, ls1, aff1, ls, aff);
          PrunesChain(ls0, aff0, ls1, aff1, ls, aff);
        }
      }
      SameNumChain(old(ls), old(aff), ls0, aff0, ls, aff);
      PrunesChain(old(ls), old(aff), ls0, aff0, ls, aff);
    }

    method DropUnused(k: nat, ghost active: seq<bool>)
      requires Valid() && k < |ls.divs| && Pruned(ls, aff, active, k + 1) && !active[k]
      modifies this
      ensures Valid() && SameNum(old(ls), old(aff), ls, aff) && Pruned(ls, aff, active, k)
      ensures |ls.divs| == |old(ls).divs| - 1 && Prunes(old(ls), old(aff), ls, aff)
    {
      hide SameNum, Prunes;
      PrunedUnused(ls, aff, active, k);
      DropSame(ls, aff, k);
      DropPrunes(ls, aff, k);
      PrunedDropped(ls, aff, active, k);
      aff := aff.(coef := Without(aff.coef, ls.nvar + k));
      ls := DropDiv(ls, k);
    }

    /** isl_aff_normalize */
    method Normalize() returns (ghost start: Aff, ghost fused: LocalSpace)
      requires Valid()
      modifies this
      ensures Valid() && IsNormalOf(old(ls), old(aff), start, fused, ls, aff)
      ensures old(aff.den) == 1 ==> aff.den == 1
      ensures old(Settled(ls, aff)) ==> ls == old(ls) && aff == old(aff)
    {
      hide SameNum, SortedTo, Rearranges, NoIntegral, Reduced, SameValue, IsNormalOf, NoUnitPredecessor, Prunes, Used,
           IntegralForm, UnitForm;
      ghost var ls0, aff0 := ls, aff;
      VecNormalize();
      start := aff;
      PlugInIntegralDivs();
      ghost var ls2 := ls;
      ghost var aff2 := aff;
      PlugInUnitDivs();
      fused := ls;
      SortDivs();
      ghost var ls4, aff4 := ls, aff;
      RemoveUnusedDivs();
      AllPasses(ls0, aff0, start, ls2, aff2, fused, ls4, aff4, ls, aff);
    }

    // The last three passes have nothing to do on an expression that is settled.
    static method KeepsDuplicate() returns (a: QuasiAff)
      ensures a.ls == Duplicates() && a.aff == LastDuplicate() && CmpDiv(a.ls, 0, 1) == 0
    {
      DuplicatesSettled();
      a := new QuasiAff(Duplicates(), LastDuplicate());
      var _, _ := a.Normalize();
    }

    /** isl_aff_floor: the value of the result is the floor of that of the argument.  Apart from
        the simple cases it is the normal form of q plus one new division r, where the
        argument is q m + r divided by m, with all coefficients of r in (-m/2, m/2]. */
    method TakeFloor() returns (ghost q: Aff, ghost r: Aff, ghost start: Aff, ghost fused: LocalSpace)
      requires Valid()
      modifies this
      ensures Valid() && ls.nvar == old(ls.nvar) && aff.den == 1
      ensures forall x :: |x| == ls.nvar ==> Num(aff, Extend(ls, x)) == Floor(old(aff), Extend(old(ls), x))
      ensures if old(aff.den) == 1 then ls == old(ls) && aff == old(aff)
              else if LastNonZero(old(aff.coef)) == -1 then
                ls == old(ls) && aff == Aff(1, old(aff.cst) / old(aff.den), old(aff.coef))
              else SplitAff(old(aff), q, r) &&
                   IsNormalOf(WithNew(old(ls), r), q.(coef := q.coef + [1]), start, fused, ls, aff)
    {
      q, r, start, fused := aff, aff, aff, ls;
      if aff.den == 1 { return; }
      ghost var ls0, aff0 := ls, aff;
      if LastNonZero(aff.coef) == -1 {
        aff := Aff(1, aff.cst / aff.den, aff.coef);
        forall x | |x| == ls.nvar ensures Num(aff, Extend(ls, x)) == Floor(aff0, Extend(ls, x)) {
          DotZeros(aff.coef, Extend(ls, x));
        }
        return;
      }
      var quotients, rest := SplitByDenominator([aff.cst] + aff.coef, aff.den);
      var div := Aff(aff.den, rest[0], rest[1..]);
      q, r := Aff(1, quotients[0], quotients[1..]), div;
      forall i | 0 <= i < |aff.coef| ensures Rounded(aff.coef[i], aff.den, q.coef[i], r.coef[i]) {
        assert Rounded(([aff.cst] + aff.coef)[i + 1], aff.den, quotients[i + 1], rest[i + 1]);
      }
      assert Rounded(([aff.cst] + aff.coef)[0], aff.den, quotients[0], rest[0]);
      ls := LocalSpace(ls.nvar, ls.divs + [div]);
      aff := Aff(1, quotients[0], quotients[1..] + [1]);
      ghost var ls1, aff1 := ls, aff;
      start, fused := Normalize();
      FloorOfNormal(ls0, aff0, q, r, start, fused, ls, aff);
    }
  }

  // Rounded quotients, and remainders of absolute value at most m / 2, on two vectors.
  method SplitByDenominator(c: Vec, m: int) returns (q: Vec, r: Vec)
    requires m > 0
    ensures |q| == |r| == |c| && forall i :: 0 <= i < |c| ==> Rounded(c[i], m, q[i], r[i])
  {
    var v, div := new int[|c|](i requires 0 <= i < |c| => c[i]), new int[|c|](i requires 0 <= i < |c| => c[i]);
    var half := m / 2;
    for i := 0 to |c|
      invariant forall k :: 0 <= k < i ==> Rounded(c[k], m, v[k], div[k])
      invariant forall k :: i <= k < |c| ==> v[k] == div[k] == c[k]
    {
      div[i] := div[i] % m;
      v[i] := v[i] / m;
      assert c[i] == v[i] * m + div[i];
      if div[i] > half {
        assert (v[i] + 1) * m == v[i] * m + m;
        div[i] := div[i] - m;
        v[i] := v[i] + 1;
      }
    }
    q, r := v[..], div[..];
  }
}
