/** Greatest common divisors and exact division. */
module Gcd {
  import opened Arith

  function GcdNat(a: nat, b: nat): (g: nat)
    ensures g == 0 <==> a == 0 && b == 0
    ensures g > 0 ==> a % g == 0 && b % g == 0
    decreases b
  {
    if b == 0 then a
    else
      var g := GcdNat(b, a % b);
      assert a % g == 0 by { Recompose(a, b, g); }
      g
  }

  lemma Recompose(a: nat, b: nat, g: nat)
    requires g > 0 && b > 0 && b % g == 0 && (a % b) % g == 0
    ensures a % g == 0
  {
    var k := a / b * (b / g) + (a % b) / g;
    assert a == (a / b) * b + a % b && b == (b / g) * g && a % b == ((a % b) / g) * g;
    assert (a / b) * ((b / g) * g) == (a / b * (b / g)) * g;
    assert a == k * g;
    MultipleIsExact(a, g, k);
  }

  // Every common divisor divides it.
  lemma {:induction false} GcdNatGreatest(a: nat, b: nat, d: nat)
    requires d > 0 && a % d == 0 && b % d == 0
    ensures GcdNat(a, b) % d == 0
    decreases b
  {
    if b > 0 {
      RemainderMultiple(a, b, d);
      GcdNatGreatest(b, a % b, d);
    }
  }

  lemma RemainderMultiple(a: nat, b: nat, d: nat)
    requires d > 0 && b > 0 && a % d == 0 && b % d == 0
    ensures (a % b) % d == 0
  {
    var k := a / d - (a / b) * (b / d);
    assert a == (a / b) * b + a % b && b == (b / d) * d && a == (a / d) * d;
    assert (a / b) * ((b / d) * d) == ((a / b) * (b / d)) * d;
    assert a % b == k * d;
    MultipleIsExact(a % b, d, k);
  }

  lemma GcdGreatest(a: int, b: int, d: nat)
    requires d > 0 && Divides(d, a) && Divides(d, b)
    ensures Gcd(a, b) % d == 0
  {
    AbsMultiple(a, d);
    AbsMultiple(b, d);
    GcdNatGreatest(Abs(a), Abs(b), d);
  }

  lemma AbsMultiple(a: int, d: nat)
    requires d > 0 && Divides(d, a)
    ensures Abs(a) % d == 0
  {
    var q := DivExact(a, d);
    MultipleIsExact(Abs(a), d, if a < 0 then -q else q);
  }

  // Never negative; zero only for two zeros.
  function Gcd(a: int, b: int): (g: nat)
    ensures g == 0 <==> a == 0 && b == 0
    ensures g > 0 ==> Divides(g, a) && Divides(g, b)
  {
    NegDivides(Abs(a), GcdNat(Abs(a), Abs(b)));
    NegDivides(Abs(b), GcdNat(Abs(a), Abs(b)));
    GcdNat(Abs(a), Abs(b))
  }

  predicate Divides(d: int, a: int) { d != 0 && DivExact(a, d) * d == a }

  // isl_int_divexact
  function DivExact(a: int, b: int): int { if b > 0 then a / b else if b < 0 then -(a / (-b)) else 0 }

  lemma NegDivides(a: int, g: nat)
    ensures g > 0 && a % g == 0 ==> Divides(g, a) && Divides(g, -a)
  {
    if g > 0 && a % g == 0 {
      MultipleIsExact(-a, g, -(a / g));
    }
  }

  function Lcm(a: int, b: int): (m: nat)
    requires a != 0 && b != 0
    ensures m > 0 && Divides(a, m) && Divides(b, m)
  {
    var g := Gcd(a, b);
    var m := Abs(DivExact(a, g) * b);
    LcmDivides(a, b, g);
    m
  }

  lemma LcmDivides(a: int, b: int, g: int)
    requires a != 0 && b != 0 && g > 0 && Divides(g, a) && Divides(g, b)
    ensures var m := Abs(DivExact(a, g) * b); m > 0 && Divides(a, m) && Divides(b, m)
  {
    var a', b' := DivExact(a, g), DivExact(b, g);
    var m := Abs(a' * b);
    assert a' * b == a' * (b' * g) == (a' * g) * b' == b' * a;
    assert a' != 0;
    assert a' * b != 0;
    MultipleDivides(b, m, if a' * b < 0 then -a' else a');
    MultipleDivides(a, m, if a' * b < 0 then -b' else b');
  }

  lemma MultipleDivides(d: int, m: int, k: int)
    requires d != 0 && m == k * d
    ensures Divides(d, m)
  {
    if d > 0 { MultipleIsExact(m, d, k); } else { MultipleIsExact(m, -d, -k); }
  }
}
