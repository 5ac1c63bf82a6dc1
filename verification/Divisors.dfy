/** Greatest common divisors and least common multiples, as `n_fold` needs them. */
module Divisors {
  import opened Arithmetic

  function Gcd(a: nat, b: nat): nat
    decreases b
  {
    if b == 0 then a else Gcd(b, a % b)
  }

  function Lcm(a: nat, b: nat): nat
    requires a > 0
  {
    GcdPositive(a, b);
    a / Gcd(a, b) * b
  }

  predicate Divides(d: nat, n: nat) {
    d > 0 && n % d == 0
  }

  lemma {:induction false} GcdPositive(a: nat, b: nat)
    requires a > 0 || b > 0
    ensures Gcd(a, b) > 0
    decreases b
  {
    if b > 0 {
      GcdPositive(b, a % b);
    }
  }

  lemma DividesMultiple(d: nat, k: nat)
    requires d > 0
    ensures Divides(d, k * d) && Divides(d, d * k)
  {
    MultipleMod(k, d);
    assert k * d == d * k;
  }

  lemma DividesLinear(d: nat, a: nat, b: nat, q: nat)
    requires Divides(d, a) && Divides(d, b)
    ensures Divides(d, b * q + a)
    ensures a >= b * q ==> Divides(d, a - b * q)
  {
    var x, y := a / d, b / d;
    assert a == d * x && b == d * y;
    assert b * q == d * (y * q);
    assert b * q + a == d * (y * q + x);
    DividesMultiple(d, y * q + x);
    if a >= b * q {
      assert a - b * q == d * (x - y * q);
      if x < y * q {
        assert false;
      }
      DividesMultiple(d, x - y * q);
    }
  }

  lemma Division(a: nat, b: nat)
    requires b > 0
    ensures a == b * (a / b) + a % b
  {
  }

  lemma DividesRemainder(d: nat, a: nat, b: nat)
    requires b > 0 && Divides(d, a) && Divides(d, b)
    ensures Divides(d, a % b)
  {
    Division(a, b);
    DividesLinear(d, a, b, a / b);
  }

  lemma DividesBack(d: nat, a: nat, b: nat)
    requires b > 0 && Divides(d, b) && Divides(d, a % b)
    ensures Divides(d, a)
  {
    Division(a, b);
    DividesLinear(d, a % b, b, a / b);
  }

  /** `gcd` divides both arguments, and every common divisor divides it. */
  lemma {:induction false} GcdIsGreatest(a: nat, b: nat)
    requires a > 0 || b > 0
    ensures Divides(Gcd(a, b), a) && Divides(Gcd(a, b), b)
    ensures forall d: nat :: Divides(d, a) && Divides(d, b) ==> Divides(d, Gcd(a, b))
    decreases b
  {
    GcdPositive(a, b);
    if b > 0 {
      GcdIsGreatest(b, a % b);
      DividesBack(Gcd(a, b), a, b);
      forall d: nat | Divides(d, a) && Divides(d, b)
        ensures Divides(d, Gcd(a, b))
      {
        DividesRemainder(d, a, b);
      }
    } else {
      assert a % a == 0;
    }
  }

  lemma {:induction false} Bezout(a: nat, b: nat) returns (x: int, y: int)
    ensures a * x + b * y == Gcd(a, b)
    decreases b
  {
    if b == 0 {
      x, y := 1, 0;
    } else {
      var q, r := a / b, a % b;
      var u, v := Bezout(b, r);
      x, y := v, u - q * v;
      BezoutStep(a, b, q, r, u, v);
    }
  }

  lemma BezoutStep(a: int, b: int, q: int, r: int, u: int, v: int)
    requires a == b * q + r
    ensures a * v + b * (u - q * v) == b * u + r * v
  {
    assert a * v == (b * q) * v + r * v by { MulDistributes(b * q, r, v); }
    assert b * (u - q * v) == b * u - b * (q * v) by { MulDistributes(u, -(q * v), b); }
    MulAssociative(b, q, v);
  }

  /** `lcm` is a common multiple and divides every other one. */
  lemma LcmIsLeast(a: nat, b: nat)
    requires a > 0 && b > 0
    ensures Lcm(a, b) > 0 && Divides(a, Lcm(a, b)) && Divides(b, Lcm(a, b))
    ensures forall m: nat :: Divides(a, m) && Divides(b, m) ==> Divides(Lcm(a, b), m)
  {
    GcdIsGreatest(a, b);
    var g := Gcd(a, b);
    var p, q := a / g, b / g;
    assert a == g * p && b == g * q;
    assert p > 0 && q > 0;
    assert Lcm(a, b) == p * b;
    DividesMultiple(b, p);
    assert p * b == a * q by { MulAssociative(p, g, q); }
    DividesMultiple(a, q);
    assert p * b >= b by { MulMonotone(1, p, b); }
    forall m: nat | Divides(a, m) && Divides(b, m)
      ensures Divides(Lcm(a, b), m)
    {
      LcmDivides(a, b, m, p, g);
    }
  }

  lemma LcmDivides(a: nat, b: nat, m: nat, p: nat, g: nat)
    requires a > 0 && b > 0 && p > 0 && g > 0 && a == g * p && g == Gcd(a, b)
    requires Divides(a, m) && Divides(b, m)
    ensures p * b > 0 && Divides(p * b, m)
  {
    var x, y := Bezout(a, b);
    var s, t := m / a, m / b;
    assert m == a * s && m == b * t;
    var k := t * x + s * y;
    BezoutProduct(a, b, g, x, y, m, s, t);
    assert a * b == g * (p * b) by { MulAssociative(g, p, b); }
    assert m * g == g * ((p * b) * k) by { MulAssociative(g, p * b, k); }
    CancelLeft(g, m, (p * b) * k);
    MulMonotone(1, p, b);
    FactorNonNegative(p * b, k);
    DividesMultiple(p * b, k);
  }

  lemma BezoutProduct(a: int, b: int, g: int, x: int, y: int, m: int, s: int, t: int)
    requires a * x + b * y == g && m == a * s && m == b * t
    ensures m * g == (a * b) * (t * x + s * y)
  {
    MulDistributes(a * x, b * y, m);
    assert m * (a * x) == (a * b) * (t * x) by { FourFactors(b, t, a, x); }
    assert m * (b * y) == (a * b) * (s * y) by { FourFactors(a, s, b, y); }
    MulDistributes(t * x, s * y, a * b);
  }
}
