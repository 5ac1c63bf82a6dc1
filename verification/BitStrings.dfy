/** Byte strings as bit strings: cutting bits out, and rotating to the right. */
module BitStrings {
  import opened Arithmetic
  import opened Bytes

  // ------------------------------------------------------------------- bits

  type Bit = b: int | 0 <= b < 2

  function Pow2(k: nat): (p: nat)
    ensures p >= 1
  {
    if k == 0 then 1 else 2 * Pow2(k - 1)
  }

  /** The low `k` binary digits of `n`, most significant first. */
  function LowBits(n: nat, k: nat): (b: seq<Bit>)
    ensures |b| == k
    decreases n, k
  {
    if k == 0 then [] else LowBits(n / 2, k - 1) + [n % 2]
  }

  function FromBits(b: seq<Bit>): nat {
    if b == [] then 0 else 2 * FromBits(b[..|b| - 1]) + b[|b| - 1]
  }

  lemma {:induction false} FromLowBits(n: nat, k: nat)
    requires n < Pow2(k)
    ensures FromBits(LowBits(n, k)) == n
    decreases k
  {
    if k > 0 {
      FromLowBits(n / 2, k - 1);
      assert LowBits(n, k)[..k - 1] == LowBits(n / 2, k - 1);
    }
  }

  lemma {:induction false} LowBitsFrom(b: seq<Bit>)
    ensures FromBits(b) < Pow2(|b|)
    ensures LowBits(FromBits(b), |b|) == b
  {
    if b != [] {
      LowBitsFrom(b[..|b| - 1]);
      DivisionUnique(FromBits(b), 2, FromBits(b[..|b| - 1]), b[|b| - 1]);
      assert b == b[..|b| - 1] + [b[|b| - 1]];
    }
  }

  function ByteBits(b: Byte): (r: seq<Bit>)
    ensures |r| == 8
  {
    LowBits(b, 8)
  }

  function ByteOf(b: seq<Bit>): Byte
    requires |b| == 8
  {
    LowBitsFrom(b);
    assert Pow2(4) == 16;
    assert Pow2(8) == 256;
    FromBits(b)
  }

  lemma ByteOfByteBits(b: Byte)
    ensures ByteOf(ByteBits(b)) == b
  {
    assert Pow2(4) == 16;
    assert Pow2(8) == 256;
    FromLowBits(b, 8);
  }

  lemma ByteBitsOfByteOf(b: seq<Bit>)
    requires |b| == 8
    ensures ByteBits(ByteOf(b)) == b
  {
    LowBitsFrom(b);
  }

  /** `b | (bit << (7 - j))` */
  function OrBit(b: Byte, j: nat, bit: Bit): Byte
    requires j < 8
  {
    ByteOf(OrIn(ByteBits(b), j, bit))
  }

  function OrIn(b: seq<Bit>, j: nat, bit: Bit): (r: seq<Bit>)
    requires j < |b|
    ensures |r| == |b|
  {
    if bit == 1 then b[j := 1] else b
  }

  /** A byte string as the bit string it stands for. */
  function Bits(s: seq<Byte>): (b: seq<Bit>)
    ensures |b| == 8 * |s|
  {
    if s == [] then [] else ByteBits(s[0]) + Bits(s[1..])
  }

  /** The `n` bytes a string of `8 * n` bits stands for. */
  function Unbits(b: seq<Bit>, n: nat): (s: seq<Byte>)
    requires |b| == 8 * n
    ensures |s| == n
    decreases n
  {
    if n == 0 then [] else [ByteOf(b[..8])] + Unbits(b[8..], n - 1)
  }

  lemma {:induction false} BitsIndex(s: seq<Byte>, q: nat, j: nat)
    requires q < |s| && j < 8
    ensures Bits(s)[8 * q + j] == ByteBits(s[q])[j]
  {
    if q > 0 {
      BitsIndex(s[1..], q - 1, j);
    }
  }

  lemma BitsCons(b: Byte, s: seq<Byte>)
    ensures Bits([b] + s) == ByteBits(b) + Bits(s)
  {
    assert ([b] + s)[1..] == s;
  }

  lemma {:induction false} BitsConcat(a: seq<Byte>, b: seq<Byte>)
    ensures Bits(a + b) == Bits(a) + Bits(b)
  {
    if a == [] {
      assert a + b == b;
    } else {
      BitsConcat(a[1..], b);
      BitsCons(a[0], a[1..] + b);
      BitsCons(a[0], a[1..]);
      assert a + b == [a[0]] + (a[1..] + b) && a == [a[0]] + a[1..];
    }
  }

  lemma {:induction false} BitsOfUnbits(b: seq<Bit>, n: nat)
    requires |b| == 8 * n
    ensures Bits(Unbits(b, n)) == b
    decreases n
  {
    if n > 0 {
      BitsOfUnbits(b[8..], n - 1);
      ByteBitsOfByteOf(b[..8]);
      BitsCons(ByteOf(b[..8]), Unbits(b[8..], n - 1));
      assert b == b[..8] + b[8..];
    }
  }

  lemma {:induction false} UnbitsOfBits(s: seq<Byte>)
    ensures Unbits(Bits(s), |s|) == s
  {
    if s != [] {
      UnbitsOfBits(s[1..]);
      ByteOfByteBits(s[0]);
      assert Bits(s)[..8] == ByteBits(s[0]) && Bits(s)[8..] == Bits(s[1..]);
    }
  }

  lemma BitsUpdate(s: seq<Byte>, q: nat, j: nat, bit: Bit)
    requires q < |s| && j < 8
    ensures Bits(s[q := OrBit(s[q], j, bit)]) == OrIn(Bits(s), 8 * q + j, bit)
  {
    var c := OrBit(s[q], j, bit);
    var front, back := s[..q], s[q + 1..];
    assert s == front + ([s[q]] + back) && s[q := c] == front + ([c] + back);
    BitsConcat(front, [s[q]] + back);
    BitsConcat(front, [c] + back);
    BitsCons(s[q], back);
    BitsCons(c, back);
    ByteBitsOfByteOf(OrIn(ByteBits(s[q]), j, bit));
    SpliceBits(Bits(front), ByteBits(s[q]), Bits(back), j, bit);
  }

  lemma SpliceBits(a: seq<Bit>, b: seq<Bit>, c: seq<Bit>, j: nat, bit: Bit)
    requires j < |b|
    ensures a + (OrIn(b, j, bit) + c) == OrIn(a + (b + c), |a| + j, bit)
  {
  }

  function ZeroBits(n: nat): seq<Bit> {
    seq(n, _ => 0)
  }

  /** `out` holds the first `n` bits of `buf` from `startBit` on, then zeros. */
  ghost predicate Extracted(buf: seq<Byte>, startBit: nat, n: nat, out: seq<Byte>) {
    && startBit + n <= 8 * |buf|
    && n <= 8 * |out|
    && Bits(out) == Bits(buf)[startBit..startBit + n] + ZeroBits(8 * |out| - n)
  }

  /** `nbits` bits of `buf` from `startBit` on, zero-padded to whole bytes. */
  method ExtractBits(buf: seq<Byte>, startBit: nat, nbits: nat) returns (out: seq<Byte>)
    requires startBit + nbits <= 8 * |buf|
    ensures |out| == (nbits + 7) / 8
    ensures Extracted(buf, startBit, nbits, out)
  {
    var o := new Byte[(nbits + 7) / 8](_ => 0);
    assert o[..] == Zeros(o.Length);
    ExtractNone(buf, startBit, o.Length);
    for i := 0 to nbits
      invariant Extracted(buf, startBit, i, o[..])
    {
      var srcByte, srcBit := (startBit + i) / 8, (startBit + i) % 8;
      var bit := ByteBits(buf[srcByte])[srcBit];
      ghost var before := o[..];
      ExtractNext(buf, startBit, i, before);
      var c := OrBit(o[i / 8], i % 8, bit);
      o[i / 8] := c;
      assert o[..] == before[i / 8 := c];
    }
    out := o[..];
  }

  lemma ExtractNone(buf: seq<Byte>, startBit: nat, n: nat)
    requires startBit <= 8 * |buf|
    ensures Extracted(buf, startBit, 0, Zeros(n))
  {
    BitsOfZeros(n);
  }

  lemma ExtractNext(buf: seq<Byte>, startBit: nat, i: nat, out: seq<Byte>)
    requires Extracted(buf, startBit, i, out)
    requires startBit + i < 8 * |buf| && i < 8 * |out|
    ensures var bit := ByteBits(buf[(startBit + i) / 8])[(startBit + i) % 8];
            Extracted(buf, startBit, i + 1, out[i / 8 := OrBit(out[i / 8], i % 8, bit)])
  {
    var srcByte, srcBit := (startBit + i) / 8, (startBit + i) % 8;
    var bit := ByteBits(buf[srcByte])[srcBit];
    BitsIndex(buf, srcByte, srcBit);
    BitsUpdate(out, i / 8, i % 8, bit);
    NextBit(Bits(buf), startBit, i, Bits(out), bit);
  }

  lemma NextBit(src: seq<Bit>, start: nat, i: nat, dst: seq<Bit>, bit: Bit)
    requires start + i < |src| && i < |dst| && bit == src[start + i]
    requires dst == src[start..start + i] + ZeroBits(|dst| - i)
    ensures OrIn(dst, i, bit) == src[start..start + i + 1] + ZeroBits(|dst| - i - 1)
  {
    var done, rest := src[start..start + i], ZeroBits(|dst| - i - 1);
    assert ZeroBits(|dst| - i) == [0] + rest;
    assert src[start..start + i + 1] == done + [bit];
    assert OrIn(dst, i, bit) == done + [bit] + rest;
  }

  lemma {:induction false} BitsOfZeros(n: nat)
    ensures Bits(Zeros(n)) == ZeroBits(8 * n)
  {
    if n > 0 {
      BitsOfZeros(n - 1);
      assert Zeros(n) == [0] + Zeros(n - 1);
      BitsCons(0, Zeros(n - 1));
      LowBitsOfZero(8);
    }
  }

  lemma {:induction false} LowBitsOfZero(k: nat)
    ensures LowBits(0, k) == ZeroBits(k)
    decreases k
  {
    if k > 0 {
      LowBitsOfZero(k - 1);
    }
  }

  // --------------------------------------------------------------- rotation

  function RotatedBits(b: seq<Bit>, m: nat): seq<Bit>
    requires m <= |b|
    ensures |RotatedBits(b, m)| == |b|
  {
    b[|b| - m..] + b[..|b| - m]
  }

  function RotatedBy(s: seq<Byte>, m: nat): (r: seq<Byte>)
    requires m <= 8 * |s|
    ensures |r| == |s|
  {
    Unbits(RotatedBits(Bits(s), m), |s|)
  }

  function RotatedOnce(s: seq<Byte>): (r: seq<Byte>)
    requires s != []
    ensures |r| == |s|
  {
    RotatedBy(s, 1)
  }

  /** `s` as a bit string rotated right by one bit, `k` times. */
  function Rotated(s: seq<Byte>, k: nat): (r: seq<Byte>)
    requires s != []
    ensures |r| == |s|
    decreases k
  {
    if k == 0 then s else RotatedOnce(Rotated(s, k - 1))
  }

  lemma RotatedBitsOnce(b: seq<Bit>, m: nat)
    requires m < |b|
    ensures RotatedBits(RotatedBits(b, m), 1) == RotatedBits(b, m + 1)
  {
    var n, r := |b|, RotatedBits(b, m);
    assert r[n - 1..] == [b[n - m - 1]];
    assert r[..n - 1] == b[n - m..] + b[..n - m - 1];
    assert [b[n - m - 1]] + b[n - m..] == b[n - m - 1..];
  }

  lemma RotatedByNothing(s: seq<Byte>)
    requires s != []
    ensures RotatedBy(s, 0) == s
  {
    UnbitsOfBits(s);
    assert RotatedBits(Bits(s), 0) == Bits(s);
  }

  /** Rotating by `x` and then by `y` is rotating by `x + y`. */
  lemma {:induction false} RotatedTwice(s: seq<Byte>, x: nat, y: nat)
    requires s != []
    ensures Rotated(Rotated(s, x), y) == Rotated(s, x + y)
    decreases y
  {
    if y > 0 {
      RotatedTwice(s, x, y - 1);
      assert Rotated(s, x + y) == RotatedOnce(Rotated(s, x + y - 1));
    }
  }

  lemma {:induction false} RotatedUpTo(s: seq<Byte>, m: nat)
    requires s != [] && m <= 8 * |s|
    ensures Rotated(s, m) == RotatedBy(s, m)
    decreases m
  {
    if m == 0 {
      RotatedByNothing(s);
    } else {
      RotatedUpTo(s, m - 1);
      BitsOfUnbits(RotatedBits(Bits(s), m - 1), |s|);
      RotatedBitsOnce(Bits(s), m - 1);
    }
  }

  lemma RotatedFully(s: seq<Byte>)
    requires s != []
    ensures Rotated(s, 8 * |s|) == s
  {
    RotatedUpTo(s, 8 * |s|);
    UnbitsOfBits(s);
    assert RotatedBits(Bits(s), 8 * |s|) == Bits(s);
  }

  /** Whole turns do not matter. */
  lemma {:induction false} RotatedWraps(s: seq<Byte>, n: nat, q: nat, m: nat, k: nat)
    requires s != [] && n == 8 * |s| && k == q * n + m
    ensures Rotated(s, k) == Rotated(s, m)
    decreases q
  {
    if q > 0 {
      OneTurnBack(n, q, m, k);
      RotatedWraps(s, n, q - 1, m, k - n);
      RotatedTurn(s, k - n);
    }
  }

  lemma OneTurnBack(n: nat, q: nat, m: nat, k: nat)
    requires q > 0 && k == q * n + m
    ensures k >= n && k - n == (q - 1) * n + m
  {
    MulSucc(q - 1, n);
    MulMonotone(0, q - 1, n);
  }

  lemma RotatedTurn(s: seq<Byte>, k: nat)
    requires s != []
    ensures Rotated(s, 8 * |s| + k) == Rotated(s, k)
  {
    RotatedFully(s);
    RotatedTwice(s, 8 * |s|, k);
  }

  lemma RotatedRemainder(s: seq<Byte>, k: nat, n: nat, q: nat, m: nat)
    requires s != [] && n == 8 * |s| && m < n && k == q * n + m
    ensures Rotated(s, k) == RotatedBy(s, m)
  {
    RotatedWraps(s, n, q, m, k);
    RotatedUpTo(s, m);
  }

  method RotateRight(buf: seq<Byte>, k: nat) returns (r: seq<Byte>)
    requires |buf| > 0
    ensures r == Rotated(buf, k)
  {
    var totalBits := |buf| * 8;
    var q, m := DivMod(k, totalBits);
    RotatedRemainder(buf, k, totalBits, q, m);
    if m == 0 {
      RotatedByNothing(buf);
      r := buf;
    } else {
      r := ExtractBits(buf + buf, totalBits - m, totalBits);
      DoubledIsRotated(buf, m, r);
    }
  }

  lemma DoubledIsRotated(s: seq<Byte>, m: nat, r: seq<Byte>)
    requires 0 < m < 8 * |s| && |r| == |s|
    requires Extracted(s + s, 8 * |s| - m, 8 * |s|, r)
    ensures r == RotatedBy(s, m)
  {
    BitsConcat(s, s);
    DoubledSlice(Bits(s), Bits(s + s), m, Bits(r));
    UnbitsOfBits(r);
  }

  lemma DoubledSlice(b: seq<Bit>, twice: seq<Bit>, m: nat, r: seq<Bit>)
    requires m <= |b| && twice == b + b && |r| == |b|
    requires r == twice[|b| - m..2 * |b| - m]
    ensures r == RotatedBits(b, m)
  {
  }

  // ------------------------------------------------------------ rotation as a sum

  lemma {:induction false} Pow2Add(a: nat, b: nat)
    ensures Pow2(a + b) == Pow2(a) * Pow2(b)
  {
    if a > 0 {
      Pow2Add(a - 1, b);
      MulAssociative(2, Pow2(a - 1), Pow2(b));
    }
  }

  lemma {:induction false} FromBitsConcat(x: seq<Bit>, y: seq<Bit>)
    ensures FromBits(x + y) == FromBits(x) * Pow2(|y|) + FromBits(y)
  {
    if y == [] {
      assert x + y == x;
    } else {
      var front := y[..|y| - 1];
      FromBitsConcat(x, front);
      assert (x + y)[..|x + y| - 1] == x + front;
      MulAssociative(2, FromBits(x), Pow2(|front|));
      MulAssociative(FromBits(x), 2, Pow2(|front|));
    }
  }

  lemma {:induction false} Pow2OfBytes(n: nat)
    ensures Pow2(8 * n) == Pow256(n)
  {
    if n > 0 {
      Pow2OfBytes(n - 1);
      Pow2Add(8, 8 * (n - 1));
      assert Pow2(4) == 16;
      assert Pow2(8) == 256;
    }
  }

  /** The bits of a byte string spell the number that its bytes spell. */
  lemma {:induction false} ValueOfBits(s: seq<Byte>)
    ensures FromBits(Bits(s)) == Value(s)
  {
    if s != [] {
      ValueOfBits(s[1..]);
      FromBitsConcat(ByteBits(s[0]), Bits(s[1..]));
      ByteOfByteBits(s[0]);
      Pow2OfBytes(|s| - 1);
    }
  }

  lemma BitsRotatedOnce(b: seq<Bit>)
    requires b != []
    ensures 2 * FromBits(RotatedBits(b, 1)) == FromBits(b) + (if FromBits(b) % 2 == 0 then 0 else Pow2(|b|) - 1)
  {
    var front, last := b[..|b| - 1], b[|b| - 1];
    MovedToFront(b, front, last);
    LastAside(b, front, last);
    Halved(FromBits(b), FromBits(front), last, Pow2(|front|), FromBits(RotatedBits(b, 1)));
  }

  lemma LastAside(b: seq<Bit>, front: seq<Bit>, last: Bit)
    requires b != [] && front == b[..|b| - 1] && last == b[|b| - 1]
    ensures FromBits(b) == 2 * FromBits(front) + last && Pow2(|b|) == 2 * Pow2(|front|)
  {
  }

  lemma Halved(whole: nat, front: nat, last: Bit, p: nat, moved: nat)
    requires whole == 2 * front + last && moved == (if last == 0 then 0 else p) + front
    ensures 2 * moved == whole + if whole % 2 == 0 then 0 else 2 * p - 1
  {
  }

  lemma MovedToFront(b: seq<Bit>, front: seq<Bit>, last: Bit)
    requires b != [] && front == b[..|b| - 1] && last == b[|b| - 1]
    ensures FromBits(RotatedBits(b, 1)) == (if last == 0 then 0 else Pow2(|front|)) + FromBits(front)
  {
    assert RotatedBits(b, 1) == [last] + front;
    FromBitsConcat([last], front);
    assert [last][..0] == [] && FromBits([last]) == last;
  }

  lemma ValueOfRotated(s: seq<Byte>)
    requires s != []
    ensures Value(Rotated(s, 1)) == FromBits(RotatedBits(Bits(s), 1))
  {
    assert Rotated(s, 1) == RotatedOnce(Rotated(s, 0));
    BitsOfUnbits(RotatedBits(Bits(s), 1), |s|);
    ValueOfBits(Rotated(s, 1));
  }

  /** One turn to the right halves the number; a low bit that drops out comes back at
      the top. */
  lemma RotationHalves(s: seq<Byte>)
    requires s != []
    ensures 2 * Value(Rotated(s, 1)) == Value(s) + if Value(s) % 2 == 0 then 0 else Pow256(|s|) - 1
  {
    BitsRotatedOnce(Bits(s));
    ValueOfRotated(s);
    ValueOfBits(s);
    Pow2OfBytes(|s|);
  }
}
