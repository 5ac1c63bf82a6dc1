/** The session's tokens as octets: the numbers that a run promises are the numbers
    that go out. */
module SessionTokens {
  import opened Options
  import opened Bytes
  import opened Crypto
  import opened Session
  import opened WrapToken

  /** KG-USAGE-ACCEPTOR-SEAL of section 2 of RFC 4121. */
  const ACCEPTOR_SEAL: nat := 22

  /** The octets are the token, over some message under some key. */
  ghost predicate Spells(p: Provider, t: Token, octets: seq<Byte>) {
    exists e: Enctype, key: Key, confounder: seq<Byte>, message: seq<Byte> ::
      Wrapped(p, e, key, ACCEPTOR_SEAL, t.sealed, t.sndSeq, confounder, message) == Ok(octets)
  }

  /** The tokens of a context, in the order they went out. */
  function TokensOf(frames: seq<Frame>, c: nat): seq<Token> {
    if frames == [] then [] else TokensOf(frames[..|frames| - 1], c) + Of(TokensIn(frames[|frames| - 1]), c)
  }

  function Of(tokens: seq<Token>, c: nat): seq<Token> {
    if tokens == [] then [] else (if tokens[0].context == c then [tokens[0]] else []) + Of(tokens[1..], c)
  }

  lemma {:induction false} OfNumbers(tokens: seq<Token>, c: nat)
    ensures |Of(tokens, c)| == |Numbers(tokens, c)|
    ensures forall i :: 0 <= i < |Of(tokens, c)| ==> Of(tokens, c)[i].sndSeq == Numbers(tokens, c)[i]
  {
    if tokens != [] {
      OfNumbers(tokens[1..], c);
    }
  }

  lemma {:induction false} TokensNumbers(frames: seq<Frame>, c: nat)
    ensures |TokensOf(frames, c)| == |SequenceOf(frames, c)|
    ensures forall i :: 0 <= i < |TokensOf(frames, c)| ==> TokensOf(frames, c)[i].sndSeq == SequenceOf(frames, c)[i]
  {
    if frames != [] {
      TokensNumbers(frames[..|frames| - 1], c);
      OfNumbers(TokensIn(frames[|frames| - 1]), c);
    }
  }

  /** Over every run in which nothing is answered after a refused re-bind: octets 8
      to 15 of a context's token number `i` spell `i`, and octet 2 says whether it is
      sealed. */
  lemma OctetsCount(fips: bool, rs: seq<Request>, c: nat, i: nat, p: Provider, octets: seq<Byte>)
    requires !AnswersAfterRefusal(fips, rs) && i < |TokensOf(ServeAll(fips, rs).frames, c)|
    requires Spells(p, TokensOf(ServeAll(fips, rs).frames, c)[i], octets)
    ensures |octets| >= 16 && Value(octets[8..16]) == i % 0x1_0000_0000_0000_0000
    ensures octets[2] == if TokensOf(ServeAll(fips, rs).frames, c)[i].sealed then 3 else 1
  {
    SendSequence(fips, rs);
    CountedOctets(ServeAll(fips, rs).frames, c, i, p, octets);
  }

  lemma CountedOctets(frames: seq<Frame>, c: nat, i: nat, p: Provider, octets: seq<Byte>)
    requires AllCounting(frames) && i < |TokensOf(frames, c)| && Spells(p, TokensOf(frames, c)[i], octets)
    ensures |octets| >= 16 && Value(octets[8..16]) == i % 0x1_0000_0000_0000_0000
    ensures octets[2] == if TokensOf(frames, c)[i].sealed then 3 else 1
  {
    NumberAt(frames, c, i);
    NumberedOctets(TokensOf(frames, c)[i], i, p, octets);
  }

  lemma NumberedOctets(t: Token, i: nat, p: Provider, octets: seq<Byte>)
    requires t.sndSeq == i % 0x1_0000_0000_0000_0000 && Spells(p, t, octets)
    ensures |octets| >= 16 && Value(octets[8..16]) == i % 0x1_0000_0000_0000_0000
    ensures octets[2] == if t.sealed then 3 else 1
  {
    SpelledLayout(p, t, octets);
    OnceIsEnough(i);
  }

  lemma OnceIsEnough(i: nat)
    ensures i % 0x1_0000_0000_0000_0000 % 0x1_0000_0000_0000_0000 == i % 0x1_0000_0000_0000_0000
  {
  }

  lemma NumberAt(frames: seq<Frame>, c: nat, i: nat)
    requires AllCounting(frames) && i < |TokensOf(frames, c)|
    ensures TokensOf(frames, c)[i].sndSeq == i % 0x1_0000_0000_0000_0000
  {
    TokensNumbers(frames, c);
    assert Counting(SequenceOf(frames, c));
    NthIsModulo(i);
  }

  lemma SpelledLayout(p: Provider, t: Token, octets: seq<Byte>)
    requires Spells(p, t, octets)
    ensures |octets| >= 16 && Value(octets[8..16]) == t.sndSeq % 0x1_0000_0000_0000_0000
    ensures octets[2] == if t.sealed then 3 else 1
  {
    var e: Enctype, key: Key, confounder: seq<Byte>, message: seq<Byte> :|
      Wrapped(p, e, key, ACCEPTOR_SEAL, t.sealed, t.sndSeq, confounder, message) == Ok(octets);
    TokenLayout(p, e, key, ACCEPTOR_SEAL, t.sealed, t.sndSeq, confounder, message, octets);
  }
}
