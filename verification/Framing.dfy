/**
  Stream framing (`iron_ldap::framing`): BER messages delimited by their outer
  header, and the length-prefixed buffers of section 3.4 of RFC 4752, both read
  from a stream that arrives in pieces of any size.
 */
module Framing {
  import opened Options
  import opened Arithmetic
  import opened Bytes

  /** `usize` arithmetic wraps here. */
  const WORD: nat := 0x1_0000_0000_0000_0000

  datatype Error = UnexpectedTag(tag: Byte) | IndefiniteLength | UnexpectedEof | Undecodable

  // -------------------------------------------------------------- BER headers

  /** What a buffer says about the length of the message at its start. */
  datatype Length = Need | Total(n: nat) | Bad(error: Error)

  function LengthOctets(b: Byte): nat {
    b % 128
  }

  predicate LongForm(b: Byte) {
    b >= 128
  }

  function BerLength(buf: seq<Byte>): Length {
    if buf == [] then Need
    else if buf[0] != 0x30 then Bad(UnexpectedTag(buf[0]))
    else if |buf| < 2 then Need
    else if !LongForm(buf[1]) then Total(2 + buf[1])
    else if LengthOctets(buf[1]) == 0 then Bad(IndefiniteLength)
    else if |buf| < 2 + LengthOctets(buf[1]) then Need
    else
      var n := LengthOctets(buf[1]);
      Total((2 + n + Value(buf[2..2 + n]) % WORD) % WORD)
  }

  /** The shift drops the bits that leave the word; the check beside it never fires. */
  method BerMessageLen(buf: seq<Byte>) returns (r: Length)
    ensures r == BerLength(buf)
  {
    if buf == [] {
      return Need;
    }
    if buf[0] != 0x30 {
      return Bad(UnexpectedTag(buf[0]));
    }
    if |buf| < 2 {
      return Need;
    }
    var first := buf[1];
    if first / 128 == 0 {
      return Total(2 + first);
    }
    var numOctets := first % 128;
    if numOctets == 0 {
      return Bad(IndefiniteLength);
    }
    if |buf| < 2 + numOctets {
      return Need;
    }
    var length := 0;
    for i := 0 to numOctets
      invariant length == Value(buf[2..2 + i]) % WORD
    {
      ShiftIn(buf[2..2 + i], buf[2 + i]);
      assert buf[2..2 + i + 1] == buf[2..2 + i] + [buf[2 + i]];
      length := length * 256 % WORD + buf[2 + i];
    }
    r := Total((2 + numOctets + length) % WORD);
  }

  lemma ShiftIn(s: seq<Byte>, b: Byte)
    ensures Value(s) % WORD * 256 % WORD + b == Value(s + [b]) % WORD
  {
    ValueConcat(s, [b]);
    assert Value([b]) == b && Pow256(1) == 256;
    ShiftWord(Value(s), b);
  }

  lemma ShiftWord(v: nat, b: Byte)
    ensures v % WORD * 256 % WORD + b == (v * 256 + b) % WORD
  {
    var q, r := v / WORD, v % WORD;
    var q', r' := r * 256 / WORD, r * 256 % WORD;
    assert r' % 256 == 0;
    assert v * 256 + b == (q * 256 + q') * WORD + (r' + b);
    DivisionUnique(v * 256 + b, WORD, q * 256 + q', r' + b);
  }

  /** Once the header says something, later bytes do not change it. */
  lemma HeaderIsFinal(buf: seq<Byte>, more: seq<Byte>)
    requires !BerLength(buf).Need?
    ensures BerLength(buf + more) == BerLength(buf)
  {
    if buf[0] == 0x30 && LongForm(buf[1]) && LengthOctets(buf[1]) != 0 {
      var n := LengthOctets(buf[1]);
      assert (buf + more)[2..2 + n] == buf[2..2 + n];
    }
  }

  /** The length the header really spells. */
  function TrueTotal(buf: seq<Byte>): nat
    requires BerLength(buf).Total?
  {
    if LongForm(buf[1]) then 2 + LengthOctets(buf[1]) + Value(buf[2..2 + LengthOctets(buf[1])]) else 2 + buf[1]
  }

  /** The computed length is the true one exactly when that fits a word. */
  lemma LengthIsTrue(buf: seq<Byte>)
    requires BerLength(buf).Total?
    ensures BerLength(buf).n == TrueTotal(buf) <==> TrueTotal(buf) < WORD
  {
  }

  lemma NineOctets(buf: seq<Byte>)
    requires |buf| == 11 && buf[0] == 0x30 && buf[1] == 0x89 && Value(buf[2..11]) == WORD
    ensures BerLength(buf) == Total(11) && TrueTotal(buf) == 11 + WORD
  {
  }

  lemma OneAndZeros(n: nat)
    ensures Value([1] + Zeros(n)) == Pow256(n)
  {
    ValueConcat([1], Zeros(n));
    ValueOfZeros(n);
    assert Value([1]) == 1;
  }

  /** Nine length octets that spell 2^64: the message is taken to end with its
      header. */
  lemma LengthOverflows()
    ensures var buf := [0x30, 0x89, 1, 0, 0, 0, 0, 0, 0, 0, 0];
            BerLength(buf) == Total(11) && TrueTotal(buf) == 11 + WORD
  {
    var buf: seq<Byte> := [0x30, 0x89, 1, 0, 0, 0, 0, 0, 0, 0, 0];
    assert buf[2..11] == [1] + Zeros(8);
    OneAndZeros(8);
    Pow256Values();
    NineOctets(buf);
  }

  // ----------------------------------------------------------------- streams

  datatype Outcome<M> = Message(value: M) | End | Failed(error: Error)

  /** Everything the stream still holds. */
  function Flatten(chunks: seq<seq<Byte>>): seq<Byte> {
    if chunks == [] then [] else chunks[0] + Flatten(chunks[1..])
  }

  /** The next message of a byte stream, and what is left after it. */
  function NextMessage<M>(decode: seq<Byte> -> Option<M>, s: seq<Byte>): (Outcome<M>, seq<Byte>) {
    match BerLength(s)
    case Bad(e) => (Failed(e), s)
    case Total(t) =>
      if |s| < t then (Failed(UnexpectedEof), s)
      else (match decode(s[..t])
            case Some(m) => (Message(m), s[t..])
            case None => (Failed(Undecodable), s))
    case Need => if s == [] then (End, s) else (Failed(UnexpectedEof), s)
  }

  /** The next length-prefixed buffer of a byte stream, and what is left after it. */
  function NextBuffer(s: seq<Byte>): (Outcome<seq<Byte>>, seq<Byte>) {
    if |s| >= 4 && |s| >= 4 + Value(s[..4]) then (Message(s[4..4 + Value(s[..4])]), s[4 + Value(s[..4])..])
    else if s == [] then (End, s)
    else (Failed(UnexpectedEof), s)
  }

  /** All messages up to the end of the stream or the first error. */
  function AllMessages<M>(decode: seq<Byte> -> Option<M>, s: seq<Byte>): (seq<M>, Outcome<M>)
    requires decode([]).None?
    decreases |s|
  {
    var (o, rest) := NextMessage(decode, s);
    if o.Message? then
      MessageIsNotEmpty(decode, s);
      var (ms, end) := AllMessages(decode, rest);
      ([o.value] + ms, end)
    else ([], o)
  }

  /** The stream `s` gives the messages `ms` and then those of `rest`. */
  ghost predicate ReadSoFar<M>(decode: seq<Byte> -> Option<M>, s: seq<Byte>, ms: seq<M>, rest: seq<Byte>)
    requires decode([]).None?
  {
    AllMessages(decode, s) == (ms + AllMessages(decode, rest).0, AllMessages(decode, rest).1)
  }

  lemma ReadSoFarStart<M>(decode: seq<Byte> -> Option<M>, s: seq<Byte>)
    requires decode([]).None?
    ensures ReadSoFar(decode, s, [], s)
  {
    var all := AllMessages(decode, s);
    assert [] + all.0 == all.0;
  }

  lemma ReadSoFarNext<M>(decode: seq<Byte> -> Option<M>, s: seq<Byte>, ms: seq<M>, rest: seq<Byte>)
    requires decode([]).None? && ReadSoFar(decode, s, ms, rest)
    ensures var (o, rest') := NextMessage(decode, rest);
            if o.Message? then ReadSoFar(decode, s, ms + [o.value], rest') else AllMessages(decode, s) == (ms, o)
  {
    var (o, rest') := NextMessage(decode, rest);
    if o.Message? {
      var more := AllMessages(decode, rest').0;
      assert ms + ([o.value] + more) == ms + [o.value] + more;
    } else {
      assert ms + [] == ms;
    }
  }

  function AllBuffers(s: seq<Byte>): (seq<seq<Byte>>, Outcome<seq<Byte>>)
    decreases |s|
  {
    var (o, rest) := NextBuffer(s);
    if o.Message? then
      var (ps, end) := AllBuffers(rest);
      ([o.value] + ps, end)
    else ([], o)
  }

  lemma MessageIsNotEmpty<M>(decode: seq<Byte> -> Option<M>, s: seq<Byte>)
    requires decode([]).None? && NextMessage(decode, s).0.Message?
    ensures |NextMessage(decode, s).1| < |s|
  {
    assert s[..0] == [];
  }

  /** A connection: the bytes buffered across calls and the pieces still to
      arrive, after which the peer has closed. */
  class Reader {
    var buf: seq<Byte>
    var arriving: seq<seq<Byte>>

    constructor (chunks: seq<seq<Byte>>)
      requires forall i :: 0 <= i < |chunks| ==> chunks[i] != []
      ensures Valid() && Remaining() == Flatten(chunks)
    {
      buf, arriving := [], chunks;
    }

    /** A read returns at least one byte unless the peer has closed. */
    ghost predicate Valid()
      reads this
    {
      forall i :: 0 <= i < |arriving| ==> arriving[i] != []
    }

    ghost function Remaining(): seq<Byte>
      reads this
    {
      buf + Flatten(arriving)
    }

    method Fill() returns (n: nat)
      requires Valid()
      modifies this
      ensures Valid() && Remaining() == old(Remaining())
      ensures n == 0 ==> buf == old(buf) && arriving == [] && Remaining() == buf
      ensures n > 0 ==> |arriving| == old(|arriving|) - 1 && old(buf) <= buf
    {
      if arriving == [] {
        return 0;
      }
      n := |arriving[0]|;
      buf := buf + arriving[0];
      arriving := arriving[1..];
    }

    /** The result depends on the bytes, not on how they are cut up. */
    method ReadMessage<M>(decode: seq<Byte> -> Option<M>) returns (o: Outcome<M>)
      requires Valid()
      modifies this
      ensures Valid()
      ensures (o, Remaining()) == NextMessage(decode, old(Remaining()))
    {
      while true
        invariant Valid() && Remaining() == old(Remaining())
        decreases |arriving|
      {
        var len := BerMessageLen(buf);
        if len.Bad? {
          HeaderIsFinal(buf, Flatten(arriving));
          return Failed(len.error);
        }
        if len.Total? {
          HeaderIsFinal(buf, Flatten(arriving));
          if |buf| >= len.n {
            assert Remaining()[..len.n] == buf[..len.n];
            assert Remaining()[len.n..] == buf[len.n..] + Flatten(arriving);
            match decode(buf[..len.n]) {
              case None => return Failed(Undecodable);
              case Some(m) =>
                buf := buf[len.n..];
                return Message(m);
            }
          }
        }
        var n := Fill();
        if n == 0 {
          if buf == [] {
            return End;
          }
          return Failed(UnexpectedEof);
        }
      }
    }

    method ReadSizedBuffer() returns (o: Outcome<seq<Byte>>)
      requires Valid()
      modifies this
      ensures Valid()
      ensures (o, Remaining()) == NextBuffer(old(Remaining()))
    {
      while true
        invariant Valid() && Remaining() == old(Remaining())
        decreases |arriving|
      {
        if |buf| >= 4 {
          assert Remaining()[..4] == buf[..4];
          var len := Value(buf[..4]);
          if |buf| >= 4 + len {
            var payload := buf[4..4 + len];
            assert Remaining()[4..4 + len] == payload;
            assert Remaining()[4 + len..] == buf[4 + len..] + Flatten(arriving);
            buf := buf[4 + len..];
            return Message(payload);
          }
        }
        var n := Fill();
        if n == 0 {
          if buf == [] {
            return End;
          }
          return Failed(UnexpectedEof);
        }
      }
    }

    /** Successive calls give the messages of the byte stream and its end condition. */
    method ReadAllMessages<M>(decode: seq<Byte> -> Option<M>) returns (ms: seq<M>, end: Outcome<M>)
      requires Valid() && decode([]).None?
      modifies this
      ensures (ms, end) == AllMessages(decode, old(Remaining()))
    {
      ms := [];
      ReadSoFarStart(decode, Remaining());
      while true
        invariant Valid() && ReadSoFar(decode, old(Remaining()), ms, Remaining())
        decreases |Remaining()|
      {
        ghost var before := Remaining();
        end := ReadMessage(decode);
        ReadSoFarNext(decode, old(Remaining()), ms, before);
        if !end.Message? {
          return;
        }
        MessageIsNotEmpty(decode, before);
        ms := ms + [end.value];
      }
    }

    method ReadAllBuffers() returns (ps: seq<seq<Byte>>, end: Outcome<seq<Byte>>)
      requires Valid()
      modifies this
      ensures (ps, end) == AllBuffers(old(Remaining()))
    {
      ps := [];
      ghost var all := AllBuffers(Remaining());
      assert [] + all.0 == all.0;
      while true
        invariant Valid()
        invariant AllBuffers(old(Remaining())) == (ps + AllBuffers(Remaining()).0, AllBuffers(Remaining()).1)
        decreases |Remaining()|
      {
        end := ReadSizedBuffer();
        if !end.Message? {
          assert ps + [] == ps;
          return;
        }
        assert ps + ([end.value] + AllBuffers(Remaining()).0) == ps + [end.value] + AllBuffers(Remaining()).0;
        ps := ps + [end.value];
      }
    }
  }

  // ------------------------------------------------------------------ writing

  /** `write_sized_buffer`: the length as a `u32`, then the bytes. */
  function SizedBuffer(payload: seq<Byte>): seq<Byte> {
    BigEndian(|payload|, 4) + payload
  }

  function SizedBuffers(payloads: seq<seq<Byte>>): seq<Byte> {
    if payloads == [] then [] else SizedBuffer(payloads[0]) + SizedBuffers(payloads[1..])
  }

  lemma NextOfSized(payload: seq<Byte>, rest: seq<Byte>)
    requires |payload| < 0x1_0000_0000
    ensures NextBuffer(SizedBuffer(payload) + rest) == (Message(payload), rest)
  {
    var s := SizedBuffer(payload) + rest;
    Pow256Values();
    ValueOfBigEndian(|payload|, 4);
    assert s[..4] == BigEndian(|payload|, 4);
    assert s[4..4 + |payload|] == payload && s[4 + |payload|..] == rest;
  }

  lemma {:induction false} BuffersComeBack(payloads: seq<seq<Byte>>)
    requires forall i :: 0 <= i < |payloads| ==> |payloads[i]| < 0x1_0000_0000
    ensures AllBuffers(SizedBuffers(payloads)) == (payloads, End)
  {
    if payloads != [] {
      NextOfSized(payloads[0], SizedBuffers(payloads[1..]));
      BuffersComeBack(payloads[1..]);
      assert payloads == [payloads[0]] + payloads[1..];
    }
  }

  lemma {:induction false} BuffersAreShort(s: seq<Byte>)
    ensures forall i :: 0 <= i < |AllBuffers(s).0| ==> |AllBuffers(s).0[i]| < 0x1_0000_0000
    decreases |s|
  {
    if NextBuffer(s).0.Message? {
      BuffersAreShort(NextBuffer(s).1);
      ValueBound(s[..4]);
      Pow256Values();
    }
  }

  /** What is written is read back exactly when every payload's length fits its prefix. */
  lemma SizedRoundTrip(payloads: seq<seq<Byte>>)
    ensures AllBuffers(SizedBuffers(payloads)) == (payloads, End) <==>
              forall i :: 0 <= i < |payloads| ==> |payloads[i]| < 0x1_0000_0000
  {
    if AllBuffers(SizedBuffers(payloads)) == (payloads, End) {
      BuffersAreShort(SizedBuffers(payloads));
    } else if forall i :: 0 <= i < |payloads| ==> |payloads[i]| < 0x1_0000_0000 {
      BuffersComeBack(payloads);
    }
  }

  // ---------------------------------------------------------- what a peer sends

  /** A SEQUENCE with its length in the short form (`octets == 0`) or in that many
      octets (section 8.1.3 of X.690). */
  datatype Sequence = Sequence(octets: nat, content: seq<Byte>)

  predicate Sendable(m: Sequence) {
    if m.octets == 0 then |m.content| < 128
    else m.octets < 128 && |m.content| < Pow256(m.octets) && 2 + m.octets + |m.content| < 0x1_0000_0000_0000_0000
  }

  function Encoded(m: Sequence): seq<Byte>
    requires Sendable(m)
  {
    if m.octets == 0 then [0x30, |m.content|] + m.content
    else [0x30, 128 + m.octets] + BigEndian(|m.content|, m.octets) + m.content
  }

  function Sent(ms: seq<Sequence>): seq<Byte>
    requires forall i :: 0 <= i < |ms| ==> Sendable(ms[i])
  {
    if ms == [] then [] else Encoded(ms[0]) + Sent(ms[1..])
  }

  lemma LengthOfEncoded(m: Sequence, rest: seq<Byte>)
    requires Sendable(m)
    ensures BerLength(Encoded(m) + rest) == Total(|Encoded(m)|)
  {
    var s := Encoded(m) + rest;
    if m.octets > 0 {
      LongLength(s, m.octets, |m.content|);
    }
  }

  lemma LongLength(s: seq<Byte>, k: nat, n: nat)
    requires 1 <= k < 128 && n < Pow256(k) && 2 + k + n < WORD && |s| >= 2 + k
    requires s[0] == 0x30 && s[1] == 128 + k && s[2..2 + k] == BigEndian(n, k)
    ensures BerLength(s) == Total(2 + k + n)
  {
    ValueOfBigEndian(n, k);
    LongForms(s, k);
    FitsWord(n);
    FitsWord(2 + k + n);
  }

  lemma LongForms(s: seq<Byte>, k: nat)
    requires 1 <= k < 128 && |s| >= 2 + k && s[0] == 0x30 && s[1] == 128 + k
    ensures BerLength(s) == Total((2 + k + Value(s[2..2 + k]) % WORD) % WORD)
  {
    assert (128 + k) % 128 == k;
  }

  lemma FitsWord(n: nat)
    requires n < WORD
    ensures n % WORD == n
  {
  }

  lemma NextOfEncoded<M>(decode: seq<Byte> -> Option<M>, m: Sequence, rest: seq<Byte>)
    requires Sendable(m) && decode(Encoded(m)).Some?
    ensures NextMessage(decode, Encoded(m) + rest) == (Message(decode(Encoded(m)).value), rest)
  {
    LengthOfEncoded(m, rest);
    var s, n := Encoded(m) + rest, |Encoded(m)|;
    assert s[..n] == Encoded(m) && s[n..] == rest;
  }

  /** Whatever length form its senders choose, a stream of decodable messages is read
      as those messages. */
  lemma {:induction false} MessagesComeBack<M>(decode: seq<Byte> -> Option<M>, ms: seq<Sequence>)
    requires decode([]).None? && forall i :: 0 <= i < |ms| ==> Sendable(ms[i]) && decode(Encoded(ms[i])).Some?
    ensures var (read, end) := AllMessages(decode, Sent(ms));
            end == End && |read| == |ms| && forall i :: 0 <= i < |ms| ==> decode(Encoded(ms[i])) == Some(read[i])
  {
    if ms != [] {
      NextOfEncoded(decode, ms[0], Sent(ms[1..]));
      MessagesComeBack(decode, ms[1..]);
      var read := AllMessages(decode, Sent(ms)).0;
      assert read[1..] == AllMessages(decode, Sent(ms[1..])).0;
      forall i | 0 <= i < |ms|
        ensures decode(Encoded(ms[i])) == Some(read[i])
      {
        if i > 0 {
          assert ms[i] == ms[1..][i - 1] && read[i] == read[1..][i - 1];
        }
      }
    }
  }

  /** A buffer's length is spelled by its first four octets, the highest first. */
  lemma SizedLayout(payload: seq<Byte>, a: Byte, b: Byte, c: Byte, d: Byte)
    requires |payload| == 0x100_0000 * a + 0x1_0000 * b + 0x100 * c + d
    ensures SizedBuffer(payload) == [a, b, c, d] + payload
  {
    var n := |payload|;
    assert n / 256 == 0x1_0000 * a + 0x100 * b + c && n / 256 / 256 == 0x100 * a + b && n / 256 / 256 / 256 == a;
    assert BigEndian(n / 256 / 256 / 256, 1) == [a];
    assert BigEndian(n / 256 / 256, 2) == [a] + [b];
    assert BigEndian(n / 256, 3) == [a] + [b] + [c];
  }

  /** Which headers are refused, and which wait for more. */
  lemma HeaderDecides(s: seq<Byte>, b: Byte)
    ensures BerLength(s) == Bad(UnexpectedTag(b)) <==> s != [] && s[0] == b && b != 0x30
    ensures BerLength(s) == Bad(IndefiniteLength) <==> |s| >= 2 && s[0] == 0x30 && s[1] == 0x80
    ensures BerLength(s) == Need <==>
              s == [] || (s[0] == 0x30 && (|s| == 1 || (s[1] > 0x80 && |s| < 2 + (s[1] as int - 0x80))))
  {
  }

  /** A message is taken off the stream, with exactly its own octets; where there is
      none nothing is taken. */
  lemma NextTakes<M>(decode: seq<Byte> -> Option<M>, s: seq<Byte>, m: M)
    ensures var (o, rest) := NextMessage(decode, s);
            && (o == Message(m) <==> exists t: nat :: t <= |s| && BerLength(s) == Total(t) && decode(s[..t]) == Some(m))
            && (o.Message? ==> rest == s[BerLength(s).n..]) && (!o.Message? ==> rest == s)
            && (o.End? <==> s == [])
  {
  }

  lemma NextBufferTakes(s: seq<Byte>, payload: seq<Byte>)
    ensures var (o, rest) := NextBuffer(s);
            && (o == Message(payload) <==>
                  |s| >= 4 + |payload| && Value(s[..4]) == |payload| && s[4..4 + |payload|] == payload)
            && (o.Message? ==> rest == s[4 + |o.value|..]) && (!o.Message? ==> rest == s)
            && (o.End? <==> s == []) && (o.Failed? ==> o.error == UnexpectedEof)
  {
  }
}
