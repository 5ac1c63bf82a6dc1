/** Facts about products and remainders that the solver needs spelled out. */
module Arithmetic {

  lemma MulMonotone(a: nat, b: nat, p: nat)
    requires a <= b
    ensures a * p <= b * p
  {
  }

  lemma MulAssociative(a: int, p: int, q: int)
    ensures a * (p * q) == (a * p) * q
  {
  }

  lemma MulDistributes(a: int, b: int, q: int)
    ensures (a + b) * q == a * q + b * q
  {
  }

  lemma FourFactors(a: int, b: int, c: int, d: int)
    ensures (a * b) * (c * d) == (a * c) * (b * d)
  {
    assert (a * b) * (c * d) == a * (b * (c * d)) by { MulAssociative(a, b, c * d); }
    assert b * (c * d) == c * (b * d);
    MulAssociative(a, c, b * d);
  }

  lemma CancelLeft(g: nat, m: int, n: int)
    requires g > 0 && g * m == g * n
    ensures m == n
  {
    assert g * (m - n) == 0;
    if m != n {
      if m > n { MulMonotone(1, m - n, g); } else { MulMonotone(1, n - m, g); }
      assert false;
    }
  }

  lemma FactorNonNegative(n: int, k: int)
    requires n > 0 && n * k >= 0
    ensures k >= 0
  {
    if k < 0 {
      MulMonotone(1, -k, n);
      assert false;
    }
  }

  lemma LargeMultiple(k: int, m: int)
    requires m > 0 && k != 0
    ensures k * m >= m || k * m <= -m
  {
    if k > 0 {
      MulMonotone(1, k, m);
    } else {
      MulMonotone(1, -k, m);
    }
  }

  lemma SmallMultiple(k: int, m: int)
    requires -m < k * m < m
    ensures k == 0
  {
    if k != 0 {
      LargeMultiple(k, m);
      assert false;
    }
  }

  lemma MulSucc(k: int, n: int)
    ensures (k + 1) * n == k * n + n
  {
  }

  function Quotient(x: nat, d: nat): nat
    requires d > 0
  {
    x / d
  }

  lemma DivisionUnique(x: int, d: nat, q: int, r: nat)
    requires r < d && x == q * d + r
    ensures x / d == q && x % d == r
  {
    var q', r' := x / d, x % d;
    assert x == q' * d + r';
    if q > q' {
      MulMonotone(1, q - q', d);
      MulDistributes(q', q - q', d);
      assert false;
    } else if q < q' {
      MulMonotone(1, q' - q, d);
      MulDistributes(q, q' - q, d);
      assert false;
    }
  }

  lemma MultipleMod(k: int, d: nat)
    requires d > 0
    ensures (k * d) % d == 0 && (k * d) / d == k
  {
    DivisionUnique(k * d, d, k, 0);
  }

  method DivMod(x: nat, d: nat) returns (q: nat, r: nat)
    requires d > 0
    ensures x == q * d + r && r < d
  {
    q, r := x / d, x % d;
  }

  // --------------------------------------------------------------------- sums

  function Sum(ns: seq<nat>): nat {
    if ns == [] then 0 else Sum(ns[..|ns| - 1]) + ns[|ns| - 1]
  }

  lemma {:induction false} SumAtLeast(ms: seq<nat>, ns: seq<nat>, k: int)
    requires |ms| == |ns| && forall i :: 0 <= i < |ms| ==> ns[i] >= ms[i]
    ensures Sum(ns) >= Sum(ms)
    ensures 0 <= k < |ms| && ns[k] > ms[k] ==> Sum(ns) > Sum(ms)
  {
    if ms != [] {
      SumAtLeast(ms[..|ms| - 1], ns[..|ns| - 1], k);
    }
  }

  /** Terms that are no smaller and add up to no more are equal. */
  lemma SumEqual(ms: seq<nat>, ns: seq<nat>)
    requires |ms| == |ns| && (forall i :: 0 <= i < |ms| ==> ns[i] >= ms[i]) && Sum(ns) <= Sum(ms)
    ensures ms == ns
  {
    forall i | 0 <= i < |ms|
      ensures ms[i] == ns[i]
    {
      SumAtLeast(ms, ns, i);
    }
  }
}
