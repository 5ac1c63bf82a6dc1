/**
  The n-fold function of section 5.1 of RFC 3961 as `iron-crypto` computes it:
  rotate-and-repeat the input up to the least common multiple of the two
  lengths, then add the pieces with end-around carry.
 */
module NFold {
  import opened Arithmetic
  import opened Bytes
  import opened Divisors
  import opened BitStrings

  // ------------------------------------------------ ones' complement addition

  /** Addition with end-around carry below `limit`. */
  function OnesSum(x: nat, y: nat, limit: nat): nat
    requires x < limit && y < limit
  {
    if x + y < limit then x + y else x + y + 1 - limit
  }

  /** One column of a big-endian addition: `low` and `cout` are the digit and carry of `x + y + cin`. */
  lemma CarryColumn(low: int, cout: int, x: int, y: int, cin: int, p: int, tail: int, a: int, b: int)
    requires x + y + cin == low + 256 * cout
    requires tail + cin * p == a + b
    ensures low * p + tail + cout * (256 * p) == (x * p + a) + (y * p + b)
  {
    MulAssociative(cout, 256, p);
    MulDistributes(low, 256 * cout, p);
    MulDistributes(x + y, cin, p);
    MulDistributes(x, y, p);
  }

  lemma AddColumn(x: Byte, y: Byte, cin: Bit, tail: seq<Byte>, a: nat, b: nat)
    requires Value(tail) + cin * Pow256(|tail|) == a + b
    ensures Value([(x + y + cin) % 256] + tail) + (x + y + cin) / 256 * Pow256(|tail| + 1)
         == (x * Pow256(|tail|) + a) + (y * Pow256(|tail|) + b)
  {
    var sum := x + y + cin;
    assert ([sum % 256] + tail)[1..] == tail;
    CarryColumn(sum % 256, sum / 256, x, y, cin, Pow256(|tail|), Value(tail), a, b);
  }

  /** `tail` is the sum of the bytes from `i` on, but for the carry. */
  ghost predicate Added(a: seq<Byte>, b: seq<Byte>, i: nat, tail: seq<Byte>, carry: Bit) {
    && i <= |a| == |b| && |tail| == |a| - i
    && Value(tail) + carry * Pow256(|tail|) == Value(a[i..]) + Value(b[i..])
  }

  lemma ColumnStep(a: seq<Byte>, b: seq<Byte>, i: nat, tail: seq<Byte>, carry: Bit)
    requires i < |a| == |b| && Added(a, b, i + 1, tail, carry)
    ensures var sum := a[i] + b[i] + carry;
            Added(a, b, i, [sum % 256] + tail, sum / 256)
  {
    AddColumn(a[i], b[i], carry, tail, Value(a[i + 1..]), Value(b[i + 1..]));
    assert a[i..][1..] == a[i + 1..] && b[i..][1..] == b[i + 1..];
  }

  /** Bytes `i..` of `after` are those of `before` plus one, but for `carry` into byte `i - 1`. */
  ghost predicate Incremented(before: seq<Byte>, after: seq<Byte>, i: nat, carry: Bit) {
    && i <= |before| == |after|
    && after[..i] == before[..i]
    && Value(after[i..]) + carry * Pow256(|before| - i) == Value(before[i..]) + 1
  }

  lemma CarryStep(before: seq<Byte>, current: seq<Byte>, i: nat, carry: Bit)
    requires i < |before| && Incremented(before, current, i + 1, carry)
    ensures var low: Byte := (current[i] + carry) % 256;
            Incremented(before, current[i := low], i, (current[i] + carry) / 256)
  {
    assert current[i] == current[..i + 1][i] == before[i];
    AddColumn(current[i], 0, carry, current[i + 1..], Value(before[i + 1..]), 1);
    var low: Byte := (current[i] + carry) % 256;
    assert current[i := low][i..] == [low] + current[i + 1..];
    assert before[i..][1..] == before[i + 1..];
    assert current[i := low][..i] == current[..i + 1][..i];
    assert before[..i] == before[..i + 1][..i];
  }

  lemma NoCarryOut(before: seq<Byte>, after: seq<Byte>, carry: Bit)
    requires Value(before) + 1 < Pow256(|before|)
    requires Incremented(before, after, 0, carry)
    ensures carry == 0
  {
    assert before[0..] == before;
    if carry == 1 {
      assert false;
    }
  }

  lemma SuffixIncrement(before: seq<Byte>, after: seq<Byte>, i: nat)
    requires Incremented(before, after, i, 0)
    ensures Value(after) == Value(before) + 1
  {
    assert before == before[..i] + before[i..] && after == after[..i] + after[i..];
    ValueConcat(before[..i], before[i..]);
    ValueConcat(after[..i], after[i..]);
  }

  /** The first loop: the sum of the two byte strings, digit by digit, and its carry out. */
  method AddColumns(a: seq<Byte>, b: seq<Byte>) returns (result: array<Byte>, carry: Bit)
    requires |a| == |b|
    ensures fresh(result) && result.Length == |a|
    ensures Value(result[..]) + carry * Pow256(|a|) == Value(a) + Value(b)
  {
    var len := |a|;
    result := new Byte[len](_ => 0);
    carry := 0;
    var i := len;
    while i > 0
      invariant 0 <= i <= len
      invariant Added(a, b, i, result[i..], carry)
    {
      i := i - 1;
      ghost var tail := result[i + 1..];
      ColumnStep(a, b, i, tail, carry);
      var sum := a[i] + b[i] + carry;
      var low: Byte := sum % 256;
      result[i] := low;
      carry := sum / 256;
      assert result[i..] == [low] + tail;
    }
    AllAdded(a, b, result[..], carry);
    assert result[0..] == result[..];
  }

  lemma AllAdded(a: seq<Byte>, b: seq<Byte>, sum: seq<Byte>, carry: Bit)
    requires |a| == |b| && Added(a, b, 0, sum, carry)
    ensures Value(sum) + carry * Pow256(|a|) == Value(a) + Value(b)
  {
    assert a[0..] == a && b[0..] == b;
  }

  /** One pass of the carry loop: `carry` is added in at the bottom byte. */
  method AddCarry(result: array<Byte>) returns (carry: Bit)
    requires Value(result[..]) + 1 < Pow256(result.Length)
    modifies result
    ensures carry == 0
    ensures Value(result[..]) == old(Value(result[..])) + 1
  {
    carry := 1;
    ghost var before := result[..];
    var i := result.Length;
    while carry > 0
      invariant 0 <= i <= result.Length
      invariant Incremented(before, result[..], i, carry)
      invariant i == 0 ==> carry == 0
      decreases i
    {
      i := i - 1;
      ghost var current := result[..];
      CarryStep(before, current, i, carry);
      var sum := result[i] + carry;
      var low: Byte := sum % 256;
      result[i] := low;
      carry := sum / 256;
      assert result[..] == current[i := low];
      if i == 0 {
        NoCarryOut(before, result[..], carry);
        break;
      }
    }
    SuffixIncrement(before, result[..], i);
  }

  /** `passes` counts the iterations of the outer carry loop. */
  method OnesComplementAdd(a: seq<Byte>, b: seq<Byte>) returns (r: seq<Byte>, ghost passes: nat)
    requires |a| == |b|
    ensures |r| == |a|
    ensures Value(a) < Pow256(|a|) && Value(b) < Pow256(|a|)
    ensures Value(r) == OnesSum(Value(a), Value(b), Pow256(|a|))
    ensures passes == if Value(a) + Value(b) < Pow256(|a|) then 0 else 1
  {
    ValueBound(a);
    ValueBound(b);
    var result, carry := AddColumns(a, b);
    ValueBound(result[..]);
    passes := 0;
    while carry > 0
      invariant carry == 1 ==> passes == 0 && Value(result[..]) + Pow256(|a|) == Value(a) + Value(b)
      invariant carry == 0 ==>
                  && Value(result[..]) == OnesSum(Value(a), Value(b), Pow256(|a|))
                  && passes == if Value(a) + Value(b) < Pow256(|a|) then 0 else 1
      decreases carry
    {
      passes := passes + 1;
      carry := AddCarry(result);
    }
    r := result[..];
  }

  // ----------------------------------------------------------------- n-fold

  /** How far each copy is rotated relative to the one before. */
  const STEP: nat := 13

  /** `reps` copies of `input`, copy `i` rotated right by `13 * i` bits. */
  function Copies(input: seq<Byte>, reps: nat): seq<Byte>
    requires input != []
  {
    if reps == 0 then [] else Copies(input, reps - 1) + Rotated(input, 13 * (reps - 1))
  }

  lemma {:induction false} CopiesLength(input: seq<Byte>, reps: nat)
    requires input != []
    ensures |Copies(input, reps)| == reps * |input|
  {
    if reps > 0 {
      CopiesLength(input, reps - 1);
      MulSucc(reps - 1, |input|);
    }
  }

  function Repetitions(inLen: nat, outLen: nat): nat
    requires inLen > 0
  {
    Quotient(Lcm(8 * inLen, 8 * outLen), 8 * inLen)
  }

  predicate Congruent(x: nat, y: nat, m: nat)
    requires m > 0
  {
    (x - y) % m == 0
  }

  /** What section 5.1 of RFC 3961 asks of `r`: the copies taken `n` bytes at a
      time and summed with end-around carry. The sum is zero only when there
      is nothing to add. */
  ghost predicate IsNFold(input: seq<Byte>, n: nat, r: seq<Byte>)
    requires |input| > 0 && n > 0
  {
    && |r| == n
    && Pow256(n) > 1
    && Congruent(Value(r), Value(Copies(input, Repetitions(|input|, n))), Pow256(n) - 1)
    && (Value(r) == 0 <==> Value(input) == 0)
  }

  lemma CongruentBelow(x: nat, y: nat, m: nat)
    requires m > 0 && x <= m && y <= m && (x == 0 <==> y == 0)
    requires Congruent(x, y, m)
    ensures x == y
  {
    var k := (x - y) / m;
    assert x - y == k * m;
    SmallMultiple(k, m);
  }

  lemma CongruentTrans(x: nat, y: nat, z: nat, m: nat)
    requires m > 0 && Congruent(x, z, m) && Congruent(y, z, m)
    ensures Congruent(x, y, m)
  {
    DifferenceMod(x - z, y - z, m);
  }

  lemma DifferenceMod(a: int, b: int, m: nat)
    requires m > 0 && a % m == 0 && b % m == 0
    ensures (a - b) % m == 0
  {
    var k, l := a / m, b / m;
    MulDistributes(k, -l, m);
    MultipleMod(k - l, m);
  }

  /** The conditions leave only one result. */
  lemma NFoldUnique(input: seq<Byte>, n: nat, r: seq<Byte>, r': seq<Byte>)
    requires |input| > 0 && n > 0
    requires IsNFold(input, n, r) && IsNFold(input, n, r')
    ensures r == r'
  {
    CongruentTrans(Value(r), Value(r'), Value(Copies(input, Repetitions(|input|, n))), Pow256(n) - 1);
    ValueBound(r);
    ValueBound(r');
    CongruentBelow(Value(r), Value(r'), Pow256(n) - 1);
    BigEndianOfValue(r);
    BigEndianOfValue(r');
  }

  lemma LcmOfEqual(a: nat)
    requires a > 0
    ensures Lcm(a, a) == a
  {
    LcmIsLeast(a, a);
    assert Divides(a, a);
    DividesEachOther(a, Lcm(a, a));
  }

  lemma DividesEachOther(a: nat, b: nat)
    requires a > 0 && b > 0 && Divides(a, b) && Divides(b, a)
    ensures a == b
  {
    if a < b {
      DivisionUnique(a, b, 0, a);
      assert false;
    }
    if b < a {
      DivisionUnique(b, a, 0, b);
      assert false;
    }
  }

  /** Folding to the input's own length changes nothing. */
  lemma NFoldIdentity(input: seq<Byte>)
    requires |input| > 0
    ensures IsNFold(input, |input|, input)
  {
    LcmOfEqual(8 * |input|);
    assert Repetitions(|input|, |input|) == 1;
    CopiesOnce(input);
    assert Pow256(|input|) == 256 * Pow256(|input| - 1);
    MultipleMod(0, Pow256(|input|) - 1);
  }

  /** The copies fill a whole number of `n`-byte chunks. */
  lemma Tiling(len: nat, n: nat)
    requires len > 0 && n > 0
    ensures var l := Lcm(8 * len, 8 * n);
            && Repetitions(len, n) >= 1
            && Repetitions(len, n) * len == l / (8 * n) * n
  {
    LcmIsLeast(8 * len, 8 * n);
    var l := Lcm(8 * len, 8 * n);
    var reps, chunks := l / (8 * len), l / (8 * n);
    assert l == reps * (8 * len) && l == chunks * (8 * n);
    assert reps * (8 * len) == 8 * (reps * len) && chunks * (8 * n) == 8 * (chunks * n);
  }

  /** `acc` is the end-around sum of the first `c` chunks of `big`. */
  ghost predicate Folded(acc: seq<Byte>, big: seq<Byte>, n: nat, c: nat)
    requires n > 0
  {
    && |acc| == n
    && c * n <= |big|
    && Pow256(n) > 1
    && Congruent(Value(acc), Value(big[..c * n]), Pow256(n) - 1)
    && (Value(acc) == 0 <==> Value(big[..c * n]) == 0)
  }

  lemma OnesSumCongruent(x: nat, y: nat, v: nat, limit: nat)
    requires limit > 1 && x < limit && v < limit && Congruent(x, y, limit - 1)
    ensures Congruent(OnesSum(x, v, limit), y * limit + v, limit - 1)
  {
    var m := limit - 1;
    var k := (x - y) / m;
    assert x - y == k * m;
    assert y * limit == y * m + y;
    var carry := if x + v < limit then 0 else 1;
    assert OnesSum(x, v, limit) - (y * limit + v) == (k - y - carry) * m by {
      MulDistributes(k, 0 - y - carry, m);
      MulDistributes(0 - y, 0 - carry, m);
    }
    MultipleMod(k - y - carry, m);
  }

  lemma FoldNext(acc: seq<Byte>, big: seq<Byte>, n: nat, c: nat, next: seq<Byte>)
    requires n > 0 && Folded(acc, big, n, c) && (c + 1) * n <= |big| && |next| == n
    requires c * n + n == (c + 1) * n
    requires var chunk := big[c * n..(c + 1) * n];
             && Value(acc) < Pow256(n) && Value(chunk) < Pow256(n)
             && Value(next) == OnesSum(Value(acc), Value(chunk), Pow256(n))
    ensures Folded(next, big, n, c + 1)
  {
    var chunk, front := big[c * n..(c + 1) * n], big[..c * n];
    assert big[..(c + 1) * n] == front + chunk;
    ValueConcat(front, chunk);
    FoldNumbers(Value(acc), Value(front), Value(chunk), Pow256(n));
  }

  lemma FoldNumbers(x: nat, y: nat, v: nat, limit: nat)
    requires limit > 1 && x < limit && v < limit && Congruent(x, y, limit - 1) && (x == 0 <==> y == 0)
    ensures Congruent(OnesSum(x, v, limit), y * limit + v, limit - 1)
    ensures OnesSum(x, v, limit) == 0 <==> y * limit + v == 0
  {
    OnesSumCongruent(x, y, v, limit);
    NoLess(y, limit);
  }

  lemma CopiesZero(input: seq<Byte>, reps: nat)
    requires reps >= 1 && input != []
    ensures Value(Copies(input, reps)) == 0 <==> Value(input) == 0
  {
    CopiesNonZero(input, reps);
    if Value(input) == 0 {
      ZeroValueIsZeros(input);
      CopiesOfZeros(|input|, reps);
      ValueOfZeros(reps * |input|);
    }
  }

  lemma CopiesNonZero(input: seq<Byte>, reps: nat)
    requires reps >= 1 && input != []
    ensures Value(Copies(input, reps)) >= Value(input)
  {
    CopiesStart(input, reps);
    var rest := Copies(input, reps)[|input|..];
    assert Copies(input, reps) == input + rest;
    ValuePrefix(input, rest);
  }

  lemma ValuePrefix(a: seq<Byte>, b: seq<Byte>)
    ensures Value(a + b) >= Value(a)
  {
    ValueConcat(a, b);
    NoLess(Value(a), Pow256(|b|));
  }

  lemma NoLess(v: nat, p: nat)
    requires p >= 1
    ensures v * p >= v
  {
    MulMonotone(1, p, v);
  }

  lemma {:induction false} CopiesStart(input: seq<Byte>, reps: nat)
    requires reps >= 1 && input != []
    ensures |Copies(input, reps)| >= |input| && Copies(input, reps)[..|input|] == input
  {
    if reps == 1 {
      CopiesOnce(input);
    } else {
      CopiesStart(input, reps - 1);
    }
  }

  lemma {:induction false} CopiesOfZeros(len: nat, reps: nat)
    requires len > 0
    ensures Copies(Zeros(len), reps) == Zeros(reps * len)
  {
    if reps > 0 {
      CopiesOfZeros(len, reps - 1);
      RotatedZeros(len, 13 * (reps - 1));
      MulSucc(reps - 1, len);
    }
  }

  lemma {:induction false} RotatedZeros(len: nat, k: nat)
    requires len > 0
    ensures Rotated(Zeros(len), k) == Zeros(len)
    decreases k
  {
    if k > 0 {
      RotatedZeros(len, k - 1);
      BitsOfZeros(len);
      assert RotatedBits(ZeroBits(8 * len), 1) == ZeroBits(8 * len);
      UnbitsOfBits(Zeros(len));
    }
  }

  /** The first loop: the copies, one rotation after the other. */
  method Stretch(input: seq<Byte>, numReps: nat) returns (big: seq<Byte>)
    requires input != [] && numReps >= 1
    ensures big == Copies(input, numReps)
  {
    var current := input;
    big := current;
    CopiesOnce(input);
    for i := 1 to numReps
      invariant current == Rotated(input, 13 * (i - 1))
      invariant big == Copies(input, i)
    {
      CopiesNext(input, i);
      current := RotateRight(current, STEP);
      big := big + current;
    }
  }

  /** The second loop: the chunks, added up. */
  method Compress(big: seq<Byte>, outBytes: nat, numChunks: nat) returns (acc: seq<Byte>)
    requires outBytes > 0 && |big| == numChunks * outBytes
    ensures Folded(acc, big, outBytes, numChunks)
  {
    acc := Zeros(outBytes);
    FoldNone(big, outBytes);
    for c := 0 to numChunks
      invariant Folded(acc, big, outBytes, c)
    {
      MulSucc(c, outBytes);
      MulMonotone(c + 1, numChunks, outBytes);
      var next, _ := OnesComplementAdd(acc, big[c * outBytes..(c + 1) * outBytes]);
      FoldNext(acc, big, outBytes, c, next);
      acc := next;
    }
  }

  lemma CopiesNext(input: seq<Byte>, i: nat)
    requires input != [] && i >= 1
    ensures Rotated(Rotated(input, 13 * (i - 1)), STEP) == Rotated(input, 13 * i)
    ensures Copies(input, i + 1) == Copies(input, i) + Rotated(input, 13 * i)
  {
    var x := 13 * (i - 1);
    assert 13 * i == x + STEP;
    RotatedTwice(input, x, STEP);
  }

  lemma CopiesOnce(input: seq<Byte>)
    requires input != []
    ensures Copies(input, 1) == input
  {
    assert Copies(input, 0) == [];
    assert Copies(input, 1) == [] + input;
  }

  lemma FoldNone(big: seq<Byte>, n: nat)
    requires n > 0
    ensures Folded(Zeros(n), big, n, 0)
  {
    ValueOfZeros(n);
    assert big[..0 * n] == [];
    assert Pow256(n) == 256 * Pow256(n - 1);
    MultipleMod(0, Pow256(n) - 1);
  }

  method NFold(input: seq<Byte>, outBytes: nat) returns (acc: seq<Byte>)
    requires input != [] && outBytes > 0
    ensures IsNFold(input, outBytes, acc)
    ensures |input| == outBytes ==> acc == input
  {
    Tiling(|input|, outBytes);
    var inBits, outBits := |input| * 8, outBytes * 8;
    var lcmBits := Lcm(inBits, outBits);
    var big := Stretch(input, lcmBits / inBits);
    CopiesLength(input, lcmBits / inBits);
    acc := Compress(big, outBytes, lcmBits / outBits);
    assert big[..|big|] == big;
    CopiesZero(input, lcmBits / inBits);
    if |input| == outBytes {
      NFoldIdentity(input);
      NFoldUnique(input, outBytes, input, acc);
    }
  }

  // ------------------------------------------------- folding to a multiple length

  lemma LcmOfMultiple(a: nat, k: nat)
    requires a > 0 && k > 0
    ensures Lcm(a, k * a) == k * a
  {
    DividesMultiple(a, k);
    LcmIsLeast(a, k * a);
    assert Divides(k * a, k * a);
    DividesEachOther(k * a, Lcm(a, k * a));
  }

  lemma RepetitionsOfMultiple(len: nat, k: nat)
    requires len > 0 && k > 0
    ensures Repetitions(len, k * len) == k
  {
    LcmOfMultiple(8 * len, k);
    EightTimes(k, len);
    DivisionUnique(k * (8 * len), 8 * len, k, 0);
  }

  lemma EightTimes(k: nat, len: nat)
    ensures 8 * (k * len) == k * (8 * len)
  {
  }

  /** A result `k` times as long as the input is `k` copies of it, each turned thirteen
      bits further than the one before. */
  lemma NFoldMultiple(input: seq<Byte>, k: nat, n: nat)
    requires input != [] && k > 0 && n == k * |input| && n > 0
    ensures IsNFold(input, n, Copies(input, k))
  {
    CopiesLength(input, k);
    RepetitionsOfMultiple(|input|, k);
    assert Pow256(n) == 256 * Pow256(n - 1);
    CopiesZero(input, k);
    CongruentSelf(Value(Copies(input, k)), Pow256(n) - 1);
  }

  lemma CongruentSelf(x: nat, m: nat)
    requires m > 0
    ensures Congruent(x, x, m)
  {
  }

  lemma ByteTurn(x: Byte, i: nat) returns (y: Byte, z: Byte)
    ensures Rotated([x], i) == [y] && Rotated([x], i + 1) == [z] && z == y / 2 + y % 2 * 128
  {
    y, z := Rotated([x], i)[0], Rotated([x], i + 1)[0];
    assert Rotated([x], i) == [y] && Rotated([x], i + 1) == [z];
    RotatedTwice([x], i, 1);
    RotationHalves([y]);
    assert Pow256(1) == 256 && Value([y]) == y && Value([z]) == z;
  }

  lemma Halving2(x: Byte, a: Byte, b: Byte)
    requires a == x / 2 + x % 2 * 128 && b == a / 2 + a % 2 * 128
    ensures b == x / 4 + x % 4 * 64
  {
  }

  lemma Halving3(x: Byte, b: Byte, c: Byte)
    requires b == x / 4 + x % 4 * 64 && c == b / 2 + b % 2 * 128
    ensures c == x / 8 + x % 8 * 32
  {
    var h, l := x / 4, x % 4;
    assert x == 4 * h + l;
    assert x / 8 == h / 2 && x % 8 == l + h % 2 * 4;
    assert b / 2 == h / 2 + l * 32 && b % 2 == h % 2;
  }

  lemma Halving4(x: Byte, c: Byte, d: Byte)
    requires c == x / 8 + x % 8 * 32 && d == c / 2 + c % 2 * 128
    ensures d == x / 16 + x % 16 * 16
  {
    var h, l := x / 8, x % 8;
    assert x == 8 * h + l;
    assert x / 16 == h / 2 && x % 16 == l + h % 2 * 8;
    assert c / 2 == h / 2 + l * 16 && c % 2 == h % 2;
  }

  lemma Halving5(x: Byte, d: Byte, y: Byte)
    requires d == x / 16 + x % 16 * 16 && y == d / 2 + d % 2 * 128
    ensures y == x / 32 + x % 32 * 8
  {
    var h, l := x / 16, x % 16;
    assert x == 16 * h + l;
    assert x / 32 == h / 2 && x % 32 == l + h % 2 * 16;
    assert d / 2 == h / 2 + l * 8 && d % 2 == h % 2;
  }

  lemma FiveTurns(x: Byte) returns (y: Byte)
    ensures Rotated([x], 5) == [y] && y == x / 32 + x % 32 * 8
  {
    var x0, a := ByteTurn(x, 0);
    var _, b := ByteTurn(x, 1);
    var _, c := ByteTurn(x, 2);
    var _, d := ByteTurn(x, 3);
    var d', y' := ByteTurn(x, 4);
    Halving2(x, a, b);
    Halving3(x, b, c);
    Halving4(x, c, d);
    Halving5(x, d, y');
    y := y';
  }

  /** One octet folded to two: the octet, and the octet turned by thirteen bits, which
      is by five. */
  lemma OneToTwo(x: Byte, r: seq<Byte>)
    requires IsNFold([x], 2, r)
    ensures r == [x, x / 32 + x % 32 * 8]
  {
    var y := FiveTurns(x);
    RotatedTurn([x], 5);
    TwoCopies([x], [y]);
    NFoldMultiple([x], 2, 2);
    NFoldUnique([x], 2, r, Copies([x], 2));
  }

  lemma TwoCopies(input: seq<Byte>, turned: seq<Byte>)
    requires input != [] && Rotated(input, 13) == turned
    ensures Copies(input, 2) == input + turned
  {
    CopiesOnce(input);
  }
}
