/** Byte strings and the numbers they spell, big-endian and little-endian. */
module Bytes {
  import opened Arithmetic

  type Byte = b: int | 0 <= b < 256

  type U32 = n: int | 0 <= n < 0x1_0000_0000

  /** 256^n */
  function Pow256(n: nat): (p: nat)
    ensures p >= 1
  {
    if n == 0 then 1 else 256 * Pow256(n - 1)
  }

  /** The number a byte string spells, most significant byte first. */
  function Value(s: seq<Byte>): nat {
    if s == [] then 0 else s[0] * Pow256(|s| - 1) + Value(s[1..])
  }

  /** The low `len` bytes of `n`, most significant first: what `to_be_bytes`
      gives after an `as` cast to a `len`-byte integer. */
  function BigEndian(n: nat, len: nat): (s: seq<Byte>)
    ensures |s| == len
  {
    if len == 0 then [] else BigEndian(n / 256, len - 1) + [n % 256]
  }

  function Reverse(s: seq<Byte>): (r: seq<Byte>)
    ensures |r| == |s|
    ensures forall i :: 0 <= i < |s| ==> r[i] == s[|s| - 1 - i]
  {
    seq(|s|, i requires 0 <= i < |s| => s[|s| - 1 - i])
  }

  /** `to_le_bytes` after an `as` cast to a `len`-byte integer. */
  function LittleEndian(n: nat, len: nat): (s: seq<Byte>)
    ensures |s| == len
  {
    Reverse(BigEndian(n, len))
  }

  function LittleValue(s: seq<Byte>): nat {
    Value(Reverse(s))
  }

  function Zeros(n: nat): (s: seq<Byte>)
    ensures |s| == n
    ensures forall i :: 0 <= i < n ==> s[i] == 0
  {
    seq(n, i => 0)
  }

  lemma Pow256Values()
    ensures Pow256(1) == 0x100
    ensures Pow256(2) == 0x1_0000
    ensures Pow256(4) == 0x1_0000_0000
    ensures Pow256(8) == 0x1_0000_0000_0000_0000
  {
    assert Pow256(2) == 256 * Pow256(1);
    assert Pow256(3) == 256 * Pow256(2);
    assert Pow256(4) == 256 * Pow256(3);
    assert Pow256(5) == 256 * Pow256(4);
    assert Pow256(6) == 256 * Pow256(5);
    assert Pow256(7) == 256 * Pow256(6);
  }

  lemma {:induction false} Pow256Add(a: nat, b: nat)
    ensures Pow256(a + b) == Pow256(a) * Pow256(b)
  {
    if a > 0 {
      Pow256Add(a - 1, b);
      assert Pow256(a + b) == 256 * (Pow256(a - 1) * Pow256(b));
    }
  }

  lemma {:induction false} ValueBound(s: seq<Byte>)
    ensures Value(s) < Pow256(|s|)
  {
    if s != [] {
      ValueBound(s[1..]);
      var p := Pow256(|s| - 1);
      MulMonotone(s[0], 255, p);
      assert Pow256(|s|) == 256 * p;
    }
  }

  lemma {:induction false} ValueConcat(a: seq<Byte>, b: seq<Byte>)
    ensures Value(a + b) == Value(a) * Pow256(|b|) + Value(b)
  {
    if a == [] {
      assert a + b == b;
    } else {
      ValueConcat(a[1..], b);
      assert (a + b)[1..] == a[1..] + b;
      Pow256Add(|a| - 1, |b|);
      var p, q := Pow256(|a| - 1), Pow256(|b|);
      MulAssociative(a[0], p, q);
      MulDistributes(a[0] * p, Value(a[1..]), q);
    }
  }

  /** A number that fits is recovered from its bytes. */
  lemma {:induction false} ValueOfBigEndian(n: nat, len: nat)
    requires n < Pow256(len)
    ensures Value(BigEndian(n, len)) == n
  {
    if len > 0 {
      ValueOfBigEndian(n / 256, len - 1);
      ValueConcat(BigEndian(n / 256, len - 1), [n % 256]);
      assert Value([n % 256]) == n % 256;
    }
  }

  /** A number that does not fit is cut to what does. */
  lemma {:induction false} ValueOfCut(n: nat, len: nat)
    ensures Value(BigEndian(n, len)) == n % Pow256(len)
  {
    if len > 0 {
      ValueOfCut(n / 256, len - 1);
      ValueConcat(BigEndian(n / 256, len - 1), [n % 256]);
      assert Value([n % 256]) == n % 256 && Pow256(1) == 256;
      ModByFactor(n, Pow256(len - 1));
    }
  }

  lemma ModByFactor(n: nat, p: nat)
    requires p > 0
    ensures n % (256 * p) == n / 256 % p * 256 + n % 256
  {
    var m, low := n / 256, n % 256;
    var q, r := m / p, m % p;
    MulDistributes(q * p, r, 256);
    MulAssociative(q, p, 256);
    assert n == q * (256 * p) + (r * 256 + low);
    DivisionUnique(n, 256 * p, q, r * 256 + low);
  }

  /** Bytes are recovered from the number they spell. */
  lemma {:induction false} BigEndianOfValue(s: seq<Byte>)
    ensures BigEndian(Value(s), |s|) == s
  {
    if s != [] {
      var front, last := s[..|s| - 1], s[|s| - 1];
      assert s == front + [last];
      ValueConcat(front, [last]);
      assert Value([last]) == last && Pow256(1) == 256;
      DivisionUnique(Value(s), 256, Value(front), last);
      BigEndianOfValue(front);
    }
  }

  lemma LittleValueOfLittleEndian(n: nat, len: nat)
    requires n < Pow256(len)
    ensures LittleValue(LittleEndian(n, len)) == n
  {
    assert Reverse(Reverse(BigEndian(n, len))) == BigEndian(n, len);
    ValueOfBigEndian(n, len);
  }

  lemma LittleValueBound(s: seq<Byte>)
    ensures LittleValue(s) < Pow256(|s|)
  {
    ValueBound(Reverse(s));
  }

  lemma {:induction false} ValueOfZeros(n: nat)
    ensures Value(Zeros(n)) == 0
  {
    if n > 0 {
      assert Zeros(n)[1..] == Zeros(n - 1);
      ValueOfZeros(n - 1);
    }
  }

  lemma {:induction false} ZeroValueIsZeros(s: seq<Byte>)
    requires Value(s) == 0
    ensures s == Zeros(|s|)
  {
    if s != [] {
      var p := Pow256(|s| - 1);
      if s[0] >= 1 {
        MulMonotone(1, s[0], p);
        assert false;
      }
      ZeroValueIsZeros(s[1..]);
      assert s == [s[0]] + s[1..];
    }
  }
}
