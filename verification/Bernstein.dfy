/** Extraction of Bernstein coefficients: an enumeration of multi-degrees that keeps
    the multinomial coefficients up to date by exact divisions. */
module Bernstein {
  import opened Arith
  import opened Gcd
  import opened Wrappers

  type Degrees = seq<int>

  /** Factorials; 1 for what is not positive. */

  function Fact(x: int): (r: int)
    ensures r > 0
    decreases if x < 0 then 0 else x
  {
    if x <= 1 then 1 else
      Positive(x, Fact(x - 1));
      x * Fact(x - 1)
  }

  lemma Positive(x: int, y: int)
    requires x > 0 && y > 0
    ensures x * y > 0
  {
  }

  function FactProd(k: Degrees): (r: int)
    ensures r > 0
  {
    if k == [] then 1 else
      Positive(FactProd(k[..|k| - 1]), Fact(k[|k| - 1]));
      FactProd(k[..|k| - 1]) * Fact(k[|k| - 1])
  }

  function Sum(k: Degrees): int {
    if k == [] then 0 else Sum(k[..|k| - 1]) + k[|k| - 1]
  }

  predicate NonNeg(k: Degrees) { forall i :: 0 <= i < |k| ==> k[i] >= 0 }

  function Binomial(a: nat, b: nat): (r: nat) {
    if a == 0 || b == 0 then 1 else Binomial(a - 1, b) + Binomial(a, b - 1)
  }

  lemma {:induction false} BinomialFact(a: nat, b: nat)
    ensures Binomial(a, b) * (Fact(a) * Fact(b)) == Fact(a + b)
  {
    if a > 0 && b > 0 {
      BinomialFact(a - 1, b);
      BinomialFact(a, b - 1);
      FactStep(a);
      FactStep(b);
      FactStep(a + b);
      Pascal(Binomial(a - 1, b), Binomial(a, b - 1), Fact(a - 1), Fact(b - 1), Fact(a), Fact(b), a, b, Fact(a + b - 1));
    }
  }

  lemma FactStep(x: nat)
    requires x > 0
    ensures Fact(x) == x * Fact(x - 1)
  {
  }

  lemma Pascal(p: int, q: int, fa: int, fb: int, ga: int, gb: int, a: int, b: int, f: int)
    requires ga == a * fa && gb == b * fb && p * (fa * gb) == f && q * (ga * fb) == f
    ensures (p + q) * (ga * gb) == (a + b) * f
  {
    assert p * (ga * gb) == a * (p * (fa * gb)) by { Rearrange(p, a, fa, gb); }
    assert q * (ga * gb) == b * (q * (ga * fb)) by { Rearrange(q, b, fb, ga); Commute(ga, gb); Commute(fb, ga); }
    assert (p + q) * (ga * gb) == p * (ga * gb) + q * (ga * gb);
    assert (a + b) * f == a * f + b * f;
  }

  lemma Rearrange(p: int, a: int, f: int, g: int)
    ensures p * ((a * f) * g) == a * (p * (f * g))
  {
    assert p * ((a * f) * g) == p * (a * (f * g)) == (p * a) * (f * g);
    assert a * (p * (f * g)) == (a * p) * (f * g);
  }

  lemma Commute(x: int, y: int)
    ensures x * y == y * x
  {
  }

  // The factorials of exponents divide that of a larger total.
  lemma {:induction false} MultinomialExists(k: Degrees, d: nat) returns (m: int)
    requires NonNeg(k) && Sum(k) <= d
    ensures m * FactProd(k) == Fact(d)
  {
    if k == [] {
      m := Fact(d);
    } else {
      var n := |k| - 1;
      var e := d - k[n];
      SumNonNeg(k[..n]);
      var m0 := MultinomialExists(k[..n], e);
      BinomialFact(e, k[n]);
      m := Binomial(e, k[n]) * m0;
      Regroup(Binomial(e, k[n]), m0, FactProd(k[..n]), Fact(k[n]));
    }
  }

  lemma {:induction false} SumNonNeg(k: Degrees)
    requires NonNeg(k)
    ensures Sum(k) >= 0
  {
    if k != [] { SumNonNeg(k[..|k| - 1]); }
  }

  lemma Regroup(c: int, m: int, p: int, f: int)
    ensures (c * m) * (p * f) == c * ((m * p) * f)
  {
    assert (c * m) * (p * f) == c * (m * (p * f));
    assert m * (p * f) == (m * p) * f;
  }

  // One division: it is exact, and completes the factorial of the exponent.
  lemma DivisionExact(m: int, p: Degrees, v: int, d: nat)
    requires v > 0 && NonNeg(p) && Sum(p) + v <= d && m * (FactProd(p) * Fact(v - 1)) == Fact(d)
    ensures Divides(v, m) && DivExact(m, v) * (FactProd(p) * Fact(v)) == Fact(d)
  {
    var k := p + [v];
    assert k[..|p|] == p;
    var x := MultinomialExists(k, d);
    var f := FactProd(p) * Fact(v - 1);
    Positive(FactProd(p), Fact(v - 1));
    assert Fact(v) == v * Fact(v - 1);
    MoveFactor(x, FactProd(p), v, Fact(v - 1));
    SameFactor(m, x * v, f);
    MultipleDivides(v, m, x);
    assert DivExact(m, v) == x by { MultipleIsExact(m, v, x); }
  }

  lemma MoveFactor(x: int, p: int, v: int, f: int)
    ensures x * (p * (v * f)) == (x * v) * (p * f)
  {
    assert x * (p * (v * f)) == x * (v * (p * f)) by { assert p * (v * f) == v * (p * f); }
  }

  lemma SameFactor(x: int, y: int, f: int)
    requires f > 0 && x * f == y * f
    ensures x == y
  {
    assert (x - y) * f == 0;
    assert x - y > 0 ==> (x - y) * f > 0;
    assert x - y < 0 ==> (y - x) * f > 0;
  }

  /** The multi-degrees in the order in which they are visited. */

  function Up(prefix: Degrees, left: nat, n: nat): (ts: seq<Degrees>)
    requires 0 < |prefix| < n
    decreases n - |prefix|, left + 2
  {
    if |prefix| == n - 1 then [prefix + [left]] else Level(prefix, left, 0, n)
  }

  function Level(prefix: Degrees, left: nat, from: nat, n: nat): (ts: seq<Degrees>)
    requires 0 < |prefix| < n - 1
    decreases n - |prefix|, if from <= left then left + 1 - from else 0
  {
    if from > left then [] else Up(prefix + [from], left - from, n) + Level(prefix, left, from + 1, n)
  }

  function Down(v: int, d: int, n: nat): (ts: seq<Degrees>)
    requires n >= 2 && v <= d
    decreases v + 1
  {
    if v < 0 then [] else Up([v], d - v, n) + Down(v - 1, d, n)
  }

  function All(n: nat, d: int): seq<Degrees>
    requires n >= 2
  {
    Down(d, d, n)
  }

  // The tuples that start with the prefix and have `left` more to distribute.
  ghost predicate Extends(t: Degrees, prefix: Degrees, left: int, n: nat) {
    |t| == n && |prefix| <= n && t[..|prefix|] == prefix && NonNeg(t[|prefix|..]) && Sum(t[|prefix|..]) == left
  }

  lemma {:induction false} SumFirst(k: Degrees)
    requires k != []
    ensures Sum(k) == k[0] + Sum(k[1..])
  {
    if |k| > 1 {
      var n := |k| - 1;
      SumFirst(k[..n]);
      assert k[..n][1..] == k[1..][..n - 1];
    }
  }

  lemma ExtendsStep(t: Degrees, prefix: Degrees, left: int, n: nat)
    requires |prefix| < n
    ensures Extends(t, prefix, left, n) <==>
            |t| == n && t[|prefix|] >= 0 && Extends(t, prefix + [t[|prefix|]], left - t[|prefix|], n)
  {
    var p := |prefix|;
    if |t| == n {
      var tail := t[p..];
      SumFirst(tail);
      assert tail[1..] == t[p + 1..];
      assert t[..p + 1] == t[..p] + [t[p]];
      assert t[..p + 1][..p] == t[..p];
      if NonNeg(tail) {
        assert tail[0] >= 0;
        var rest := t[p + 1..];
        forall i | 0 <= i < |rest| ensures rest[i] >= 0 { assert rest[i] == tail[i + 1]; }
      }
      if t[p] >= 0 && NonNeg(t[p + 1..]) {
        forall i | 0 <= i < |tail| ensures tail[i] >= 0 { assert i > 0 ==> tail[i] == t[p + 1..][i - 1]; }
      }
    }
  }

  lemma {:induction false} UpMembers(t: Degrees, prefix: Degrees, left: nat, n: nat)
    requires 0 < |prefix| < n
    ensures t in Up(prefix, left, n) <==> Extends(t, prefix, left, n)
    decreases n - |prefix|, left + 2
  {
    ExtendsStep(t, prefix, left, n);
    if |prefix| == n - 1 {
      if |t| == n && t[..n - 1] == prefix {
        assert t == prefix + [t[n - 1]];
        assert t[n - 1..] == [t[n - 1]] && [t[n - 1]][..0] == [];
        assert Sum(t[n - 1..]) == t[n - 1];
      }
      assert prefix + [left] in Up(prefix, left, n);
    } else {
      LevelMembers(t, prefix, left, 0, n);
    }
  }

  lemma {:induction false} LevelMembers(t: Degrees, prefix: Degrees, left: nat, from: nat, n: nat)
    requires 0 < |prefix| < n - 1
    ensures t in Level(prefix, left, from, n) <==> Extends(t, prefix, left, n) && t[|prefix|] >= from
    decreases n - |prefix|, if from <= left then left + 1 - from else 0
  {
    ExtendsStep(t, prefix, left, n);
    if from > left {
      if Extends(t, prefix, left, n) { SumNonNeg(t[|prefix| + 1..]); }
    } else {
      UpMembers(t, prefix + [from], left - from, n);
      LevelMembers(t, prefix, left, from + 1, n);
      assert Extends(t, prefix + [from], left - from, n) ==> t[|prefix|] == t[..|prefix| + 1][|prefix|] == from;
    }
  }

  lemma {:induction false} DownMembers(t: Degrees, v: int, d: int, n: nat)
    requires n >= 2 && v <= d
    ensures t in Down(v, d, n) <==> |t| == n && NonNeg(t) && Sum(t) == d && t[0] <= v
    decreases v + 1
  {
    if v >= 0 {
      DownMembers(t, v - 1, d, n);
      UpMembers(t, [v], d - v, n);
      if |t| == n {
        SumFirst(t);
        assert t[..1] == [t[0]];
        assert NonNeg(t) <==> t[0] >= 0 && NonNeg(t[1..]) by {
          if NonNeg(t) { assert forall i :: 0 <= i < n - 1 ==> t[1..][i] == t[i + 1]; }
          if t[0] >= 0 && NonNeg(t[1..]) { forall i | 0 <= i < n
              ensures t[i] >= 0 { assert i > 0 ==> t[i] == t[1..][i - 1]; } }
        }
      }
    }
  }

  /** Exactly the tuples of n exponents with sum d, ... */
  lemma AllMembers(t: Degrees, n: nat, d: int)
    requires n >= 2
    ensures t in All(n, d) <==> |t| == n && NonNeg(t) && Sum(t) == d
  {
    DownMembers(t, d, d, n);
    if |t| == n && NonNeg(t) && Sum(t) == d {
      SumFirst(t);
      assert NonNeg(t[1..]);
      SumNonNeg(t[1..]);
    }
  }

  ghost predicate Distinct(ts: seq<Degrees>) {
    forall i, j :: 0 <= i < j < |ts| ==> ts[i] != ts[j]
  }

  lemma DistinctAppend(a: seq<Degrees>, b: seq<Degrees>)
    requires Distinct(a) && Distinct(b) && forall t :: t in a ==> t !in b
    ensures Distinct(a + b)
  {
    var s := a + b;
    forall i, j | 0 <= i < j < |s| ensures s[i] != s[j] {
      if i < |a| <= j {
        assert s[i] in a && s[j] in b;
      }
    }
  }

  lemma {:induction false} UpDistinct(prefix: Degrees, left: nat, n: nat)
    requires 0 < |prefix| < n
    ensures Distinct(Up(prefix, left, n))
    decreases n - |prefix|, left + 2
  {
    if |prefix| < n - 1 { LevelDistinct(prefix, left, 0, n); }
  }

  lemma {:induction false} LevelDistinct(prefix: Degrees, left: nat, from: nat, n: nat)
    requires 0 < |prefix| < n - 1
    ensures Distinct(Level(prefix, left, from, n))
    decreases n - |prefix|, if from <= left then left + 1 - from else 0
  {
    if from <= left {
      var a, b := Up(prefix + [from], left - from, n), Level(prefix, left, from + 1, n);
      UpDistinct(prefix + [from], left - from, n);
      LevelDistinct(prefix, left, from + 1, n);
      forall t | t in a ensures t !in b {
        UpMembers(t, prefix + [from], left - from, n);
        LevelMembers(t, prefix, left, from + 1, n);
        assert t[|prefix|] == t[..|prefix| + 1][|prefix|];
      }
      DistinctAppend(a, b);
    }
  }

  lemma {:induction false} DownDistinct(v: int, d: int, n: nat)
    requires n >= 2 && v <= d
    ensures Distinct(Down(v, d, n))
    decreases v + 1
  {
    if v >= 0 {
      var a, b := Up([v], d - v, n), Down(v - 1, d, n);
      UpDistinct([v], d - v, n);
      DownDistinct(v - 1, d, n);
      forall t | t in a ensures t !in b {
        UpMembers(t, [v], d - v, n);
        DownMembers(t, v - 1, d, n);
        assert t[0] == t[..1][0];
      }
      DistinctAppend(a, b);
    }
  }

  /** ... each once. */
  lemma AllDistinct(n: nat, d: int)
    requires n >= 2
    ensures Distinct(All(n, d))
  {
    DownDistinct(d, d, n);
  }

  /** The enumerator. */

  // What is still to be visited below the current value of k[0].
  ghost function Rest(k: Degrees, left: Degrees, i: nat, n: nat): (ts: seq<Degrees>)
    requires n >= 2 && i < n && i <= |left| && |k| == n && forall l :: 0 <= l < i ==> left[l] >= 0
    requires forall l :: 1 <= l <= i ==> k[l] >= -1
  {
    if i == 0 then []
    else
      (if i == n - 1 then [k[..n - 1] + [left[n - 2]]] else Level(k[..i], left[i - 1], k[i] + 1, n)) +
          Rest(k, left, i - 1, n)
  }

  lemma {:induction false} RestFrame(k: Degrees, left: Degrees, k': Degrees, left': Degrees, i: nat, n: nat)
    requires n >= 2 && i < n && i <= |left| && i <= |left'| && |k| == |k'| == n
    requires forall l :: 0 <= l < i ==> left[l] >= 0 && left'[l] == left[l]
    requires (forall l :: 1 <= l <= i ==> k[l] >= -1) && (forall l :: 0 <= l <= i ==> k'[l] == k[l])
    ensures Rest(k', left', i, n) == Rest(k, left, i, n)
  {
    if i > 0 {
      RestFrame(k, left, k', left', i - 1, n);
      assert k'[..i] == k[..i];
    }
  }

  // The exponents chosen so far, what is left for the others, and the partial
  // multinomial coefficients d! / (k[0]! .. k[l]!).
  ghost predicate Chosen(k: Degrees, left: Degrees, multinom: Degrees, powers: seq<Degrees>, i: nat, n: nat, d: nat) {
    && n >= 2 && i < n && |k| == |left| == |multinom| == |powers| == n
    && (forall l :: 0 <= l < i ==> ChosenAt(k, left, multinom, powers, l, d))
    && multinom[i] * FactProd(k[..i + 1]) == Fact(d)
    && (i > 0 ==> -1 <= k[i] && (i < n - 1 ==> k[i] <= left[i - 1]) && (i == n - 1 ==> k[i] == -1))
  }

  ghost predicate ChosenAt(k: Degrees, left: Degrees, multinom: Degrees, powers: seq<Degrees>, l: nat, d: nat) {
    && l < |k| == |left| == |multinom| == |powers|
    && 0 <= k[l] <= d && left[l] >= 0 && Sum(k[..l + 1]) + left[l] == d
    && powers[l] == k[..l + 1] && multinom[l] * FactProd(k[..l + 1]) == Fact(d)
  }

  // What one selection contributes: the coefficient of the powers, divided.
  datatype Term = Term(k: Degrees, powers: Degrees, divisor: int, tight: bool)

  ghost predicate IsVertex(k: Degrees, i: nat) {
    i < |k| && forall j :: 0 <= j < |k| && j != i ==> k[j] == 0
  }

  lemma {:induction false} SumOfVertex(k: Degrees, i: nat)
    requires IsVertex(k, i)
    ensures Sum(k) == k[i]
  {
    var n := |k| - 1;
    if i == n { SumOfZeros(k[..n]); } else { SumOfVertex(k[..n], i); }
  }

  lemma {:induction false} SumOfZeros(k: Degrees)
    requires forall j :: 0 <= j < |k| ==> k[j] == 0
    ensures Sum(k) == 0
  {
    if k != [] { SumOfZeros(k[..|k| - 1]); }
  }

  lemma {:induction false} SumAtLeast(k: Degrees, i: nat, j: nat)
    requires NonNeg(k) && i < j < |k|
    ensures Sum(k) >= k[i] + k[j]
  {
    var n := |k| - 1;
    if j < n { SumAtLeast(k[..n], i, j); } else { SumAtLeastOne(k[..n], i); }
  }

  lemma {:induction false} SumAtLeastOne(k: Degrees, i: nat)
    requires NonNeg(k) && i < |k|
    ensures Sum(k) >= k[i]
  {
    var n := |k| - 1;
    if i < n { SumAtLeastOne(k[..n], i); } else { SumNonNeg(k[..n]); }
  }

  // The bound is attained when a single, integral vertex is selected.
  method IsTight(k: array<int>, d: nat, integral: int -> bool) returns (tight: bool)
    requires NonNeg(k[..]) && Sum(k[..]) == d
    ensures tight <==> d == 0 || exists i: nat :: IsVertex(k[..], i) && k[i] == d && integral(k.Length - 1 - i)
  {
    if d == 0 { return true; }
    for i := 0 to k.Length
      invariant forall j :: 0 <= j < i ==> k[j] == 0
    {
      if k[i] == 0 { continue; }
      if k[i] != d {
        if v: nat :| IsVertex(k[..], v) { SumOfVertex(k[..], v); }
        return false;
      }
      forall j | 0 <= j < k.Length && j != i ensures k[j] == 0 { if j > i { SumAtLeast(k[..], i, j); } }
      assert IsVertex(k[..], i);
      return integral(k.Length - 1 - i);
    }
    SumOfZeros(k[..]);
    assert false;
  }

  lemma SumStep(k: Degrees, i: nat)
    requires i < |k|
    ensures Sum(k[..i + 1]) == Sum(k[..i]) + k[i] && FactProd(k[..i + 1]) == FactProd(k[..i]) * Fact(k[i])
  {
    assert k[..i + 1][..i] == k[..i];
  }

  lemma ChosenNonNeg(k: Degrees, left: Degrees, multinom: Degrees, powers: seq<Degrees>, i: nat, n: nat, d: nat)
    requires Chosen(k, left, multinom, powers, i, n, d) && i > 0
    ensures NonNeg(k[..i]) && left[i - 1] >= 0 && Sum(k[..i]) == d - left[i - 1] <= d && powers[i - 1] == k[..i]
  {
    assert ChosenAt(k, left, multinom, powers, i - 1, d) && k[..i - 1 + 1] == k[..i];
    forall l | 0 <= l < i ensures k[..i][l] >= 0 { assert ChosenAt(k, left, multinom, powers, l, d); }
  }

  // The terms emitted so far.
  ghost predicate Emitted(out: seq<Term>, visited: seq<Degrees>, n: nat, d: nat, checkTight: bool,
                          integral: int -> bool) {
    && |out| == |visited|
    && forall j :: 0 <= j < |out| ==> out[j].k == visited[j] && GoodTerm(out[j], n, d, checkTight, integral)
  }

  ghost predicate GoodTerm(t: Term, n: nat, d: nat, checkTight: bool, integral: int -> bool) {
    && |t.k| == n && t.powers == t.k && t.divisor * FactProd(t.k) == Fact(d)
    && (t.tight <==> checkTight && (d == 0 || exists i: nat :: IsVertex(t.k, i) && t.k[i] == d && integral(n - 1 - i)))
  }

  /** The loop's arrays. */
  class Enumerator {
    const n: nat
    const d: nat
    const k: array<int>
    const left: array<int>
    const multinom: array<int>
    const c: array<Degrees>   // which powers have been selected

    constructor (n: nat, d: nat)
      requires n >= 2
      ensures this.n == n && this.d == d && Apart() && fresh(k) && fresh(left) && fresh(multinom) && fresh(c)
    {
      this.n, this.d := n, d;
      k, left, multinom, c := new int[n], new int[n], new int[n], new Degrees[n](_ => []);
    }

    ghost predicate Apart() {
      && n >= 2 && k.Length == left.Length == multinom.Length == c.Length == n
      && k != left && k != multinom && left != multinom
    }

    ghost predicate At(i: nat)
      reads k, left, multinom, c
    {
      Apart() && Chosen(k[..], left[..], multinom[..], c[..], i, n, d)
    }

    // Divides the factorial of the last exponent out of the last multinomial.
    method DivideOut(ghost p: Degrees, v: nat)
      requires Apart() && NonNeg(p) && Sum(p) + v <= d && multinom[n - 1] * FactProd(p) == Fact(d)
      modifies multinom
      ensures multinom[n - 1] * (FactProd(p) * Fact(v)) == Fact(d)
      ensures multinom[..n - 1] == old(multinom[..n - 1])
    {
      var i, j := n - 1, 2;
      while j <= v
        invariant 2 <= j && (j <= v + 1 || j == 2)
        invariant multinom[i] * (FactProd(p) * Fact(j - 1)) == Fact(d)
        invariant multinom[..i] == old(multinom[..i])
      {
        DivisionExact(multinom[i], p, j, d);
        multinom[i] := DivExact(multinom[i], j);
        j := j + 1;
      }
      assert Fact(j - 1) == Fact(v);
    }

    // The last exponent takes what is left; its factorial is divided out.
    method Finish(checkTight: bool, integral: int -> bool) returns (t: Term)
      requires n >= 2 && At(n - 1)
      modifies k, multinom
      ensures left[n - 2] >= 0 && t.k == old(k[..n - 1]) + [left[n - 2]] && GoodTerm(t, n, d, checkTight, integral)
      ensures k[..n - 1] == old(k[..n - 1]) && multinom[..n - 1] == old(multinom[..n - 1])
    {
      var i := n - 1;
      ghost var p := k[..i];
      FinishReady(k[..], left[..], multinom[..], c[..], n, d);
      DivideOut(p, left[i - 1]);
      k[n - 1] := left[n - 2];
      assert k[..] == p + [left[i - 1]];
      var tight := false;
      if checkTight { tight := IsTight(k, d, integral); }
      t := Term(k[..], c[i - 1] + [left[i - 1]], multinom[i], tight);
    }

    // The next value of exponent i, and on to the one after it.
    method Descend(i: nat)
      requires At(i) && 0 < i < n - 1 && k[i] < left[i - 1]
      modifies k, left, multinom, c
      ensures At(i + 1)
      ensures k[i] == old(k[i]) + 1 && k[i + 1] == -1 && left[i] == left[i - 1] - k[i]
      ensures k[..i] == old(k[..i]) && left[..i] == old(left[..i]) && multinom[0] == old(multinom[0])
    {
      ghost var p := k[..i];
      ChosenNonNeg(k[..], left[..], multinom[..], c[..], i, n, d);
      SumStep(k[..], i);
      k[i] := k[i] + 1;
      if k[i] != 0 {
        DivisionExact(multinom[i], p, k[i], d);
        multinom[i] := DivExact(multinom[i], k[i]);
      }
      c[i] := c[i - 1] + [k[i]];
      left[i] := left[i - 1] - k[i];
      k[i + 1] := -1;
      multinom[i + 1] := multinom[i];
      SumStep(k[..], i);
      SumStep(k[..], i + 1);
      assert k[..][..i] == p;
      ChosenNext(old(k[..]), old(left[..]), old(multinom[..]), old(c[..]), k[..], left[..], multinom[..], c[..], i, n,
          d);
    }

    // Finishes a selection and goes back to the level above.
    method Emit(checkTight: bool, integral: int -> bool) returns (t: Term)
      requires n >= 2 && At(n - 1) && RestReady(k[..], left[..], n - 1, n)
      modifies k, multinom
      ensures At(n - 2) && RestReady(k[..], left[..], n - 2, n) && GoodTerm(t, n, d, checkTight, integral)
      ensures old(Rest(k[..], left[..], n - 1, n)) == [t.k] + Rest(k[..], left[..], n - 2, n)
      ensures k[0] == old(k[0]) && multinom[0] == old(multinom[0]) && (n > 2 ==> k[n - 2] >= 0)
    {
      ghost var k1, left1, m1, c1 := k[..], left[..], multinom[..], c[..];
      ChosenBack(k1, left1, m1, c1, n - 1, n, d);
      assert ChosenAt(k1, left1, m1, c1, n - 2, d);
      t := Finish(checkTight, integral);
      assert k[..][..n - 1] == k1[..n - 1] && multinom[..][..n - 1] == m1[..n - 1];
      assert k[0] == k[..n - 1][0] && multinom[0] == multinom[..n - 1][0] && k[n - 2] == k[..n - 1][n - 2];
      RestBack(k1, left1, k[..], left[..], n - 1, n);
      SameBelow(k1, left1, m1, c1, k[..], left[..], multinom[..], c[..], n - 2, n, d);
    }

    method DescendRest(i: nat)
      requires At(i) && 0 < i < n - 1 && k[i] < left[i - 1] && RestReady(k[..], left[..], i, n)
      modifies k, left, multinom, c
      ensures At(i + 1) && RestReady(k[..], left[..], i + 1, n) && k[i + 1] == -1
      ensures Rest(k[..], left[..], i + 1, n) == old(Rest(k[..], left[..], i, n))
      ensures k[0] == old(k[0]) && left[0] == old(left[0]) && multinom[0] == old(multinom[0])
    {
      ghost var k1, left1 := k[..], left[..];
      Descend(i);
      assert k[..][..i] == k1[..i] && left[..][..i] == left1[..i];
      assert k[0] == k[..i][0] && left[0] == left[..i][0];
      RestDescend(k1, left1, k[..], left[..], i, n);
    }

    // How long it can take until the next emission: on the way down, or up and down again.
    ghost function Steps(i: nat): nat
      requires Apart() && i < n
      reads k
    {
      if k[i] == -1 || i == n - 1 then n - i else n + i
    }

    ghost predicate Going(i: nat)
      reads k, left, multinom, c
    {
      At(i) && RestReady(k[..], left[..], i, n)
    }

    // One turn of the inner loop: emit and go back, go back, or go on.
    method Turn(i: nat, checkTight: bool, integral: int -> bool) returns (i': nat, t: Option<Term>)
      requires Going(i) && 0 < i
      modifies k, left, multinom, c
      ensures Going(i')
      ensures var rest, rest' := old(Rest(k[..], left[..], i, n)), Rest(k[..], left[..], i', n);
              if t.Some? then GoodTerm(t.value, n, d, checkTight, integral) && rest == [t.value.k] + rest'
              else rest == rest' && Steps(i') < old(Steps(i))
      ensures k[0] == old(k[0]) && left[0] == old(left[0]) && multinom[0] == old(multinom[0])
    {
      ChosenBack(k[..], left[..], multinom[..], c[..], i, n, d);
      t := None;
      if i == n - 1 {
        var term := Emit(checkTight, integral);
        i', t := i - 1, Some(term);
      } else if k[i] >= left[i - 1] {
        assert Level(k[..i], left[i - 1], k[i] + 1, n) == [];
        i' := i - 1;
      } else {
        DescendRest(i);
        i' := i + 1;
      }
    }

    method Begin(k0: nat)
      requires Apart() && k0 <= d && multinom[0] * Fact(k0) == Fact(d)
      modifies k, left, multinom, c
      ensures multinom[0] == old(multinom[0]) && Going(1)
      ensures Rest(k[..], left[..], 1, n) == Up([k0], d - k0, n)
    {
      k[0], c[0], left[0] := k0, [k0], d - k0;
      k[1] := -1;
      multinom[1] := multinom[0];
      ChosenStart(k[..], left[..], multinom[..], c[..], n, d);
    }

    // All selections with the given first exponent.
    method EnumerateBelow(k0: nat, checkTight: bool, integral: int -> bool) returns (out: seq<Term>)
      requires Apart() && k0 <= d && multinom[0] * Fact(k0) == Fact(d)
      modifies k, left, multinom, c
      ensures multinom[0] == old(multinom[0])
      ensures Emitted(out, Up([k0], d - k0, n), n, d, checkTight, integral)
    {
      out := [];
      Begin(k0);
      var i: nat := 1;
      ghost var visited: seq<Degrees>, rest := [], Rest(k[..], left[..], 1, n);
      while i > 0
        invariant i < n && Going(i) && multinom[0] == old(multinom[0])
        invariant rest == Rest(k[..], left[..], i, n)
        invariant visited + rest == Up([k0], d - k0, n)
        invariant Emitted(out, visited, n, d, checkTight, integral)
        decreases |rest|, Steps(i)
      {
        var t;
        ghost var before := rest;
        i, t := Turn(i, checkTight, integral);
        rest := Rest(k[..], left[..], i, n);
        if t.Some? {
          EmittedStep(out, visited, before, t.value, rest, n, d, checkTight, integral);
          out := out + [t.value];
          visited := visited + [t.value.k];
        }
      }
    }
  }

  lemma ChosenNext(k: Degrees, left: Degrees, multinom: Degrees, c: seq<Degrees>,
                   k': Degrees, left': Degrees, multinom': Degrees, c': seq<Degrees>, i: nat, n: nat, d: nat)
    requires Chosen(k, left, multinom, c, i, n, d) && 0 < i < n - 1 && k[i] < left[i - 1]
    requires |k'| == |left'| == |multinom'| == |c'| == n
    requires k'[..i] == k[..i] && left'[..i] == left[..i] && multinom'[..i] == multinom[..i] && c'[..i] == c[..i]
    requires k'[i] == k[i] + 1 && k'[i + 1] == -1 && left'[i] == left[i - 1] - k'[i] && c'[i] == c[i - 1] + [k'[i]]
    requires multinom'[i] * FactProd(k'[..i + 1]) == Fact(d) && multinom'[i + 1] == multinom'[i]
    ensures Chosen(k', left', multinom', c', i + 1, n, d)
  {
    ChosenNonNeg(k, left, multinom, c, i, n, d);
    SumStep(k', i);
    SumStep(k', i + 1);
    SumNonNeg(k[..i]);
    forall l | 0 <= l < i ensures ChosenAt(k', left', multinom', c', l, d) {
      ChosenKept(k, left, multinom, c, k', left', multinom', c', i, l, d);
    }
    assert ChosenAt(k, left, multinom, c, i - 1, d) && k[..i - 1 + 1] == k[..i];
    assert c'[i] == k'[..i + 1];
    assert ChosenAt(k', left', multinom', c', i, d);
  }

  lemma ChosenKept(k: Degrees, left: Degrees, multinom: Degrees, c: seq<Degrees>,
                   k': Degrees, left': Degrees, multinom': Degrees, c': seq<Degrees>, i: nat, l: nat, d: nat)
    requires ChosenAt(k, left, multinom, c, l, d) && l < i <= |k|
    requires |k'| == |left'| == |multinom'| == |c'| == |k|
    requires k'[..i] == k[..i] && left'[..i] == left[..i] && multinom'[..i] == multinom[..i] && c'[..i] == c[..i]
    ensures ChosenAt(k', left', multinom', c', l, d)
  {
    SamePrefix(k, k', i, l);
    assert left'[l] == left'[..i][l] && multinom'[l] == multinom'[..i][l] && c'[l] == c'[..i][l];
  }

  lemma SamePrefix(k: Degrees, k': Degrees, i: nat, l: nat)
    requires l < i <= |k| == |k'| && k'[..i] == k[..i]
    ensures k'[l] == k[l] && k'[..l + 1] == k[..l + 1]
  {
    assert k'[..l + 1] == k'[..i][..l + 1] && k'[l] == k'[..i][l];
  }

  lemma FinishReady(k: Degrees, left: Degrees, multinom: Degrees, c: seq<Degrees>, n: nat, d: nat)
    requires n >= 2 && Chosen(k, left, multinom, c, n - 1, n, d)
    ensures var p, v := k[..n - 1], left[n - 2];
            && v >= 0 && c[n - 2] == p && NonNeg(p) && Sum(p) + v <= d && multinom[n - 1] * FactProd(p) == Fact(d)
            && NonNeg(p + [v]) && Sum(p + [v]) == d && FactProd(p + [v]) == FactProd(p) * Fact(v)
  {
    ChosenNonNeg(k, left, multinom, c, n - 1, n, d);
    SumStep(k, n - 1);
    var p, v := k[..n - 1], left[n - 2];
    assert k[..n - 1 + 1] == k && FactProd(k) == FactProd(p) * 1;
    SumStep(p + [v], n - 1);
    assert (p + [v])[..n - 1] == p && (p + [v])[..n - 1 + 1] == p + [v];
  }

  ghost predicate RestReady(k: Degrees, left: Degrees, i: nat, n: nat) {
    && n >= 2 && i < n && i <= |left| && |k| == n
    && (forall l :: 0 <= l < i ==> left[l] >= 0)
    && (forall l :: 1 <= l <= i ==> k[l] >= -1)
  }

  lemma ChosenStart(k: Degrees, left: Degrees, multinom: Degrees, c: seq<Degrees>, n: nat, d: nat)
    requires n >= 2 && |k| == |left| == |multinom| == |c| == n && 0 <= k[0] <= d
    requires left[0] == d - k[0] && c[0] == [k[0]] && k[1] == -1 && multinom[1] == multinom[0]
    requires multinom[0] * Fact(k[0]) == Fact(d)
    ensures Chosen(k, left, multinom, c, 1, n, d) && RestReady(k, left, 1, n)
    ensures Rest(k, left, 1, n) == Up([k[0]], d - k[0], n)
  {
    SumStep(k, 0);
    SumStep(k, 1);
    assert k[..1] == [k[0]] && k[..0] == [];
    assert ChosenAt(k, left, multinom, c, 0, d);
  }

  lemma ChosenBack(k: Degrees, left: Degrees, multinom: Degrees, c: seq<Degrees>, i: nat, n: nat, d: nat)
    requires Chosen(k, left, multinom, c, i, n, d) && 0 < i
    ensures Chosen(k, left, multinom, c, i - 1, n, d)
  {
    assert ChosenAt(k, left, multinom, c, i - 1, d);
    if i > 1 {
      assert ChosenAt(k, left, multinom, c, i - 2, d);
      SumStep(k, i - 1);
      assert k[..i - 2 + 1] == k[..i - 1] && k[..i - 1 + 1] == k[..i];
    }
  }

  // The same choices below level i, in arrays that may differ from there on.
  lemma SameBelow(k: Degrees, left: Degrees, multinom: Degrees, c: seq<Degrees>,
                  k': Degrees, left': Degrees, multinom': Degrees, c': seq<Degrees>, i: nat, n: nat, d: nat)
    requires Chosen(k, left, multinom, c, i, n, d) && i < n - 1
    requires |k'| == |left'| == |multinom'| == |c'| == n
    requires k'[..i + 1] == k[..i + 1] && left' == left && multinom'[..i + 1] == multinom[..i + 1] && c' == c
    ensures Chosen(k', left', multinom', c', i, n, d)
  {
    forall l | 0 <= l < i ensures ChosenAt(k', left', multinom', c', l, d) {
      ChosenKept(k, left, multinom, c, k', left', multinom', c', i + 1, l, d);
    }
    assert k'[i] == k'[..i + 1][i] && multinom'[i] == multinom'[..i + 1][i];
  }

  lemma RestBack(k: Degrees, left: Degrees, k': Degrees, left': Degrees, i: nat, n: nat)
    requires RestReady(k, left, i, n) && i == n - 1 && |k'| == n && |left'| >= i
    requires k'[..i] == k[..i] && left' == left
    ensures RestReady(k', left', i - 1, n)
    ensures Rest(k, left, i, n) == [k[..n - 1] + [left[n - 2]]] + Rest(k', left', i - 1, n)
  {
    forall l | 0 <= l <= i - 1 ensures k'[l] == k[l] { assert k'[l] == k'[..i][l]; }
    RestFrame(k, left, k', left', i - 1, n);
  }

  lemma RestDescend(k: Degrees, left: Degrees, k': Degrees, left': Degrees, i: nat, n: nat)
    requires RestReady(k, left, i, n) && 0 < i < n - 1 && |k'| == n && |left'| == |left| == n && k[i] < left[i - 1]
    requires k'[..i] == k[..i] && left'[..i] == left[..i]
    requires k'[i] == k[i] + 1 && k'[i + 1] == -1 && left'[i] == left[i - 1] - k'[i]
    ensures RestReady(k', left', i + 1, n) && Rest(k', left', i + 1, n) == Rest(k, left, i, n)
  {
    forall l | 0 <= l <= i - 1 ensures k'[l] == k[l] && left'[l] == left[l] {
      assert k'[l] == k'[..i][l] && left'[l] == left'[..i][l];
    }
    RestFrame(k, left, k', left', i - 1, n);
    var p, v := k[..i], k'[i];
    assert k'[..i + 1] == p + [v];
    assert Level(p, left[i - 1], v, n) == Up(p + [v], left'[i], n) + Level(p, left[i - 1], v + 1, n);
  }

  lemma EmittedStep(out: seq<Term>, visited: seq<Degrees>, before: seq<Degrees>, t: Term, rest: seq<Degrees>,
                    n: nat, d: nat, checkTight: bool, integral: int -> bool)
    requires Emitted(out, visited, n, d, checkTight, integral) && GoodTerm(t, n, d, checkTight, integral)
    requires before == [t.k] + rest
    ensures Emitted(out + [t], visited + [t.k], n, d, checkTight, integral)
    ensures visited + [t.k] + rest == visited + before && |rest| < |before|
  {
  }

  /** extract_coefficients: one term for each multi-degree, with its multinomial
      coefficient as divisor. */
  method ExtractCoefficients(n: nat, d: int, checkTight: bool, integral: int -> bool) returns (out: seq<Term>)
    requires n >= 2
    ensures d < 0 ==> out == []
    ensures d >= 0 ==> Emitted(out, All(n, d), n, d, checkTight, integral)
  {
    out := [];
    if d < 0 { return; }
    var e := new Enumerator(n, d);
    e.multinom[0] := 1;
    ghost var visited: seq<Degrees> := [];
    var k0 := d;
    while k0 >= 0
      invariant -1 <= k0 <= d && e.Apart()
      invariant k0 >= 0 ==> e.multinom[0] * Fact(k0) == Fact(d)
      invariant visited + Down(k0, d, n) == All(n, d)
      invariant Emitted(out, visited, n, d, checkTight, integral)
    {
      var more := e.EnumerateBelow(k0, checkTight, integral);
      ghost var m := e.multinom[0];
      e.multinom[0] := e.multinom[0] * k0;
      NextFactor(m, k0, d);
      out := out + more;
      visited := visited + Up([k0], d - k0, n);
      k0 := k0 - 1;
    }
  }

  lemma NextFactor(m: int, k: nat, d: nat)
    requires m * Fact(k) == Fact(d)
    ensures k > 0 ==> (m * k) * Fact(k - 1) == Fact(d)
  {
    if k > 0 {
      FactStep(k);
      Assoc(m, k, Fact(k - 1));
    }
  }

  lemma Assoc(x: int, y: int, z: int)
    ensures x * (y * z) == (x * y) * z
  {
  }

  /** Every tuple of n non-negative exponents with sum d is the multi-degree of exactly
      one term, and the divisor of the term is d! / (k[0]! .. k[n-1]!). */
  lemma EachOnce(out: seq<Term>, n: nat, d: nat, checkTight: bool, integral: int -> bool, k: Degrees)
    requires n >= 2 && Emitted(out, All(n, d), n, d, checkTight, integral)
    ensures (exists j :: 0 <= j < |out| && out[j].k == k) <==> |k| == n && NonNeg(k) && Sum(k) == d
    ensures forall i, j :: 0 <= i < j < |out| ==> out[i].k != out[j].k
    ensures forall j :: 0 <= j < |out| ==> out[j].divisor * FactProd(out[j].k) == Fact(d)
  {
    AllMembers(k, n, d);
    AllDistinct(n, d);
    if k in All(n, d) {
      var j :| 0 <= j < |out| && All(n, d)[j] == k;
      assert out[j].k == k;
    }
    forall j | 0 <= j < |out| ensures out[j].divisor * FactProd(out[j].k) == Fact(d) {
      assert GoodTerm(out[j], n, d, checkTight, integral);
    }
  }
}
