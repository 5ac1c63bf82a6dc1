/** GSS Wrap tokens (section 4.2.6.2 of RFC 4121) as `iron-ldap` builds and reads them. */
module WrapToken {
  import opened Options
  import opened Arithmetic
  import opened Bytes
  import opened Crypto

  datatype Error = Truncated | WrongTokId | BadChecksum | HeaderMismatch | CryptoFailure
  type Result<T> = Options.Result<T, Error>

  const SENT_BY_ACCEPTOR: Byte := 1
  const SEALED: Byte := 2

  predicate SealedBit(flags: Byte) {
    flags / 2 % 2 == 1
  }

  function Flags(sealed: bool): Byte {
    SENT_BY_ACCEPTOR + (if sealed then SEALED else 0)
  }

  /** TOK_ID, flags, filler, EC, RRC, SND_SEQ. */
  function Header(sealed: bool, ec: nat, rrc: nat, sndSeq: nat): (h: seq<Byte>)
    ensures |h| == 16
  {
    [0x05, 0x04, Flags(sealed), 0xFF] + BigEndian(ec, 2) + BigEndian(rrc, 2) + BigEndian(sndSeq, 8)
  }

  function ZeroField(h: seq<Byte>, at: nat): (r: seq<Byte>)
    requires at + 2 <= |h|
    ensures |r| == |h|
  {
    h[at := 0][at + 1 := 0]
  }

  /** `sign_input`: the data, then the header. */
  function SignInput(plaintext: seq<Byte>, header: seq<Byte>): seq<Byte> {
    plaintext + header
  }

  // -------------------------------------------------------------------- wrap

  function Wrapped(p: Provider, e: Enctype, key: Key, usage: nat, sealed: bool, sndSeq: nat, confounder: seq<Byte>,
                   plaintext: seq<Byte>): Result<seq<Byte>>
  {
    if sealed then
      var header := Header(true, 0, 0, sndSeq);
      match p.encrypt(e, key, usage, confounder, SignInput(plaintext, header))
      case Some(body) => Ok(header + body)
      case None => Err(CryptoFailure)
    else
      match p.checksum(e, key, usage, SignInput(plaintext, Header(false, 0, 0, sndSeq)))
      case Some(mic) => Ok(Header(false, HmacLen(e), 0, sndSeq) + plaintext + mic)
      case None => Err(CryptoFailure)
  }

  method Wrap(p: Provider, e: Enctype, key: Key, usage: nat, sealed: bool, sndSeq: nat, confounder: seq<Byte>,
              plaintext: seq<Byte>)
    returns (r: Result<seq<Byte>>)
    ensures r == Wrapped(p, e, key, usage, sealed, sndSeq, confounder, plaintext)
  {
    var header := new Byte[16](_ => 0);
    header[0], header[1] := 0x05, 0x04;
    header[2] := SENT_BY_ACCEPTOR + (if sealed then SEALED else 0);
    header[3] := 0xFF;
    var number := BigEndian(sndSeq, 8);
    for i := 0 to 8
      invariant header[..8] == [0x05, 0x04, Flags(sealed), 0xFF, 0, 0, 0, 0]
      invariant header[8..8 + i] == number[..i]
    {
      header[8 + i] := number[i];
    }
    HeaderOf(header[..], sealed, sndSeq);
    if sealed {
      match p.encrypt(e, key, usage, confounder, SignInput(plaintext, header[..])) {
        case None => return Err(CryptoFailure);
        case Some(body) => return Ok(header[..] + body);
      }
    }
    var headerForChecksum := header[..];
    var checksumLen := BigEndian(HmacLen(e), 2);
    header[4], header[5] := checksumLen[0], checksumLen[1];
    assert header[..] == headerForChecksum[4 := checksumLen[0]][5 := checksumLen[1]];
    HeaderWithEc(headerForChecksum, sealed, HmacLen(e), sndSeq);
    match p.checksum(e, key, usage, SignInput(plaintext, headerForChecksum)) {
      case None => return Err(CryptoFailure);
      case Some(mic) => return Ok(header[..] + plaintext + mic);
    }
  }

  lemma ZeroBytes()
    ensures BigEndian(0, 2) == [0, 0]
  {
    assert BigEndian(0, 1) == BigEndian(0, 0) + [0];
    assert BigEndian(0, 2) == BigEndian(0, 1) + [0];
  }

  lemma HeaderOf(h: seq<Byte>, sealed: bool, sndSeq: nat)
    requires |h| == 16 && h[..8] == [0x05, 0x04, Flags(sealed), 0xFF, 0, 0, 0, 0]
    requires h[8..16] == BigEndian(sndSeq, 8)[..8]
    ensures h == Header(sealed, 0, 0, sndSeq)
  {
    ZeroBytes();
    assert h == h[..8] + h[8..16];
    assert BigEndian(sndSeq, 8)[..8] == BigEndian(sndSeq, 8);
  }

  lemma HeaderWithEc(h: seq<Byte>, sealed: bool, ec: nat, sndSeq: nat)
    requires h == Header(sealed, 0, 0, sndSeq)
    ensures h[4 := BigEndian(ec, 2)[0]][5 := BigEndian(ec, 2)[1]] == Header(sealed, ec, 0, sndSeq)
  {
  }

  /** What a token is, octet by octet (section 4.2.6.2 of RFC 4121): TOK_ID, the
      flags of an acceptor, the filler, EC, RRC, the number, and then the plaintext
      with the header sealed, or the plaintext and its checksum, for which EC counts
      as zero. */
  lemma TokenLayout(p: Provider, e: Enctype, key: Key, usage: nat, sealed: bool, sndSeq: nat, confounder: seq<Byte>,
                    plaintext: seq<Byte>, token: seq<Byte>)
    requires Wrapped(p, e, key, usage, sealed, sndSeq, confounder, plaintext) == Ok(token)
    ensures |token| >= 16 && token[0] == 0x05 && token[1] == 0x04 && token[3] == 0xFF
    ensures token[2] == (if sealed then 3 else 1) && Value(token[6..8]) == 0
    ensures Value(token[4..6]) == if sealed then 0
                                  else match e
                                    case Aes128CtsHmacSha1 => 12
                                    case Aes256CtsHmacSha1 => 12
                                    case Aes128CtsHmacSha256 => 16
                                    case Aes256CtsHmacSha384 => 24
    ensures Value(token[8..16]) == sndSeq % 0x1_0000_0000_0000_0000
    ensures sealed ==> p.encrypt(e, key, usage, confounder, plaintext + token[..16]) == Some(token[16..])
    ensures !sealed ==>
              var mic := p.checksum(e, key, usage, plaintext + (token[..4] + [0, 0, 0, 0] + token[8..16]));
              mic.Some? && token[16..] == plaintext + mic.value
  {
    var ec := if sealed then 0 else HmacLen(e);
    var header := Header(sealed, ec, 0, sndSeq);
    HeaderLayout(header, sealed, ec, sndSeq);
    if sealed {
      var body := p.encrypt(e, key, usage, confounder, SignInput(plaintext, header)).value;
      assert token == header + body && token[..16] == header && token[16..] == body;
      HeaderSlices(token, header);
    } else {
      var mic := p.checksum(e, key, usage, SignInput(plaintext, Header(false, 0, 0, sndSeq))).value;
      assert token == header + (plaintext + mic) && token[..16] == header && token[16..] == plaintext + mic;
      HeaderSlices(token, header);
      HeaderForChecksum(header, ec, sndSeq);
    }
  }

  lemma HeaderSlices(token: seq<Byte>, header: seq<Byte>)
    requires |token| >= 16 && token[..16] == header
    ensures token[0] == header[0] && token[1] == header[1] && token[2] == header[2] && token[3] == header[3]
    ensures token[..4] == header[..4] && token[4..6] == header[4..6] && token[6..8] == header[6..8]
    ensures token[8..16] == header[8..16]
  {
  }

  lemma HeaderLayout(h: seq<Byte>, sealed: bool, ec: nat, sndSeq: nat)
    requires h == Header(sealed, ec, 0, sndSeq) && ec < 0x1_0000
    ensures |h| == 16 && h[0] == 0x05 && h[1] == 0x04 && h[2] == (if sealed then 3 else 1) && h[3] == 0xFF
    ensures Value(h[4..6]) == ec && Value(h[6..8]) == 0
    ensures Value(h[8..16]) == sndSeq % 0x1_0000_0000_0000_0000
  {
    assert h[4..6] == BigEndian(ec, 2) && h[6..8] == BigEndian(0, 2) && h[8..16] == BigEndian(sndSeq, 8);
    Pow256Values();
    ValueOfBigEndian(ec, 2);
    ValueOfBigEndian(0, 2);
    ValueOfCut(sndSeq, 8);
  }

  lemma HeaderForChecksum(h: seq<Byte>, ec: nat, sndSeq: nat)
    requires h == Header(false, ec, 0, sndSeq)
    ensures Header(false, 0, 0, sndSeq) == h[..4] + [0, 0, 0, 0] + h[8..16]
  {
    ZeroBytes();
  }

  // ------------------------------------------------------------------ unwrap

  /** `constant_time_eq`: the loop looks at every byte. */
  method ConstantTimeEq(a: seq<Byte>, b: seq<Byte>) returns (eq: bool)
    ensures eq <==> a == b
  {
    if |a| != |b| {
      return false;
    }
    var diff := 0;
    for i := 0 to |a|
      invariant diff == 0 <==> a[..i] == b[..i]
    {
      XorZero(a[i], b[i]);
      OrZero(diff, BitXor(a[i], b[i]));
      assert a[..i + 1] == a[..i] + [a[i]] && b[..i + 1] == b[..i] + [b[i]];
      diff := BitOr(diff, BitXor(a[i], b[i]));
    }
    assert a[..|a|] == a && b[..|b|] == b;
    eq := diff == 0;
  }

  function BitXor(x: nat, y: nat): nat
    decreases x + y
  {
    if x == 0 && y == 0 then 0 else 2 * BitXor(x / 2, y / 2) + (if x % 2 == y % 2 then 0 else 1)
  }

  function BitOr(x: nat, y: nat): nat
    decreases x + y
  {
    if x == 0 && y == 0 then 0 else 2 * BitOr(x / 2, y / 2) + (if x % 2 == 1 || y % 2 == 1 then 1 else 0)
  }

  lemma {:induction false} XorZero(x: nat, y: nat)
    ensures BitXor(x, y) == 0 <==> x == y
    decreases x + y
  {
    if x != 0 || y != 0 {
      XorZero(x / 2, y / 2);
    }
  }

  lemma {:induction false} OrZero(x: nat, y: nat)
    ensures BitOr(x, y) == 0 <==> x == 0 && y == 0
    decreases x + y
  {
    if x != 0 || y != 0 {
      OrZero(x / 2, y / 2);
    }
  }

  /** The body with its right rotation undone. */
  function Unrotated(rest: seq<Byte>, rrc: nat): (s: seq<Byte>)
    ensures |s| == |rest|
  {
    var m := if rest == [] then 0 else rrc % |rest|;
    rest[m..] + rest[..m]
  }

  method Unwrap(p: Provider, e: Enctype, key: Key, usage: nat, token: seq<Byte>) returns (r: Result<seq<Byte>>)
    ensures r == Unwrapped(p, e, key, usage, token)
  {
    if |token| < 16 {
      return Err(Truncated);
    }
    if token[0..2] != [0x05, 0x04] {
      return Err(WrongTokId);
    }
    var rest := token[16..];
    var rrc := Value(token[6..8]);
    var m := if rest == [] then 0 else rrc % |rest|;
    var unrotated := [];
    unrotated := unrotated + rest[m..];
    unrotated := unrotated + rest[..m];
    assert unrotated == Unrotated(rest, rrc);
    r := UnwrapBody(p, e, key, usage, SealedBit(token[2]), token[..16], unrotated);
  }

  method UnwrapBody(p: Provider, e: Enctype, key: Key, usage: nat, sealed: bool, header: seq<Byte>,
                    unrotated: seq<Byte>)
    returns (r: Result<seq<Byte>>)
    requires |header| == 16
    ensures r == UnwrappedBody(p, e, key, usage, sealed, header, unrotated)
  {
    if sealed {
      match p.decrypt(e, key, usage, unrotated) {
        case None => return Err(CryptoFailure);
        case Some(decrypted) =>
          if |decrypted| < 16 {
            return Err(Truncated);
          }
          var n := |decrypted| - 16;
          if decrypted[n..] != ZeroField(header, 6) {
            return Err(HeaderMismatch);
          }
          return Ok(decrypted[..n]);
      }
    }
    if |unrotated| < HmacLen(e) {
      return Err(Truncated);
    }
    var n := |unrotated| - HmacLen(e);
    var headerForChecksum := ZeroField(ZeroField(header, 4), 6);
    match p.checksum(e, key, usage, SignInput(unrotated[..n], headerForChecksum)) {
      case None => return Err(CryptoFailure);
      case Some(expected) =>
        var same := ConstantTimeEq(expected, unrotated[n..]);
        if !same {
          return Err(BadChecksum);
        }
        return Ok(unrotated[..n]);
    }
  }

  function Unwrapped(p: Provider, e: Enctype, key: Key, usage: nat, token: seq<Byte>): Result<seq<Byte>> {
    if |token| < 16 then Err(Truncated)
    else if token[0..2] != [0x05, 0x04] then Err(WrongTokId)
    else
      UnwrappedBody(p, e, key, usage, SealedBit(token[2]), token[..16], Unrotated(token[16..], Value(token[6..8])))
  }

  function UnwrappedBody(p: Provider, e: Enctype, key: Key, usage: nat, sealed: bool, header: seq<Byte>,
                         body: seq<Byte>)
    : Result<seq<Byte>>
    requires |header| == 16
  {
    if sealed then
      match p.decrypt(e, key, usage, body)
      case None => Err(CryptoFailure)
      case Some(d) =>
        if |d| < 16 then Err(Truncated)
        else if d[|d| - 16..] != ZeroField(header, 6) then Err(HeaderMismatch)
        else Ok(d[..|d| - 16])
    else if |body| < HmacLen(e) then Err(Truncated)
    else
      var n := |body| - HmacLen(e);
      match p.checksum(e, key, usage, SignInput(body[..n], ZeroField(ZeroField(header, 4), 6)))
      case None => Err(CryptoFailure)
      case Some(expected) => if expected == body[n..] then Ok(body[..n]) else Err(BadChecksum)
  }

  // -------------------------------------------------------------- round trip

  function Landing(i: nat, rrc: nat, n: nat): nat
    requires n > 0
  {
    (i + rrc) % n
  }

  ghost predicate RotatedBody(body: seq<Byte>, rrc: nat, rotated: seq<Byte>) {
    && |rotated| == |body|
    && forall i :: 0 <= i < |body| ==> rotated[Landing(i, rrc, |body|)] == body[i]
  }

  /** What a sender that rotates in place makes of `token` (section 4.2.5 of
      RFC 4121): byte `i` of the body moves to `(i + rrc) mod n`, and RRC says so. */
  ghost predicate RightRotated(token: seq<Byte>, rrc: nat, sent: seq<Byte>)
    requires |token| >= 16
  {
    && |sent| == |token|
    && sent[..6] == token[..6] && sent[6..8] == BigEndian(rrc, 2) && sent[8..16] == token[8..16]
    && RotatedBody(token[16..], rrc, sent[16..])
  }

  lemma UnrotatedBody(body: seq<Byte>, rrc: nat, rotated: seq<Byte>)
    requires RotatedBody(body, rrc, rotated)
    ensures Unrotated(rotated, rrc) == body
  {
    if body != [] {
      var n := |body|;
      forall i | 0 <= i < n
        ensures Unrotated(rotated, rrc)[i] == body[i]
      {
        ModAddSmall(i, rrc, n);
        assert rotated[Landing(i, rrc, n)] == body[i];
      }
    }
  }

  lemma ModAddSmall(i: nat, k: nat, n: nat)
    requires i < n
    ensures (i + k) % n == if i + k % n < n then i + k % n else i + k % n - n
  {
    var q, m := k / n, k % n;
    assert k == q * n + m;
    if i + m < n {
      DivisionUnique(i + k, n, q, i + m);
    } else {
      MulSucc(q, n);
      DivisionUnique(i + k, n, q + 1, i + m - n);
    }
  }

  /** The fields of a rotated token's header. */
  lemma RotatedHeader(token: seq<Byte>, sealed: bool, ec: nat, sndSeq: nat, rrc: nat, sent: seq<Byte>)
    requires |token| >= 16 && token[..16] == Header(sealed, ec, 0, sndSeq) && rrc < 0x1_0000
    requires RightRotated(token, rrc, sent)
    ensures sent[0..2] == [0x05, 0x04] && SealedBit(sent[2]) == sealed && Value(sent[6..8]) == rrc
    ensures ZeroField(sent[..16], 6) == Header(sealed, ec, 0, sndSeq)
    ensures ZeroField(ZeroField(sent[..16], 4), 6) == Header(sealed, 0, 0, sndSeq)
  {
    ZeroBytes();
    var h := Header(sealed, ec, 0, sndSeq);
    assert sent[..16] == sent[..6] + sent[6..8] + sent[8..16];
    assert sent[..6] == h[..6] && sent[8..16] == h[8..16];
    assert sent[0..2] == sent[..6][0..2] == h[..6][0..2];
    assert sent[2] == sent[..6][2] == h[2];
    Pow256Values();
    ValueOfBigEndian(rrc, 2);
  }

  /** Every plaintext, under any rotation a sender may apply, comes back. */
  lemma WrapRoundTrip(p: Provider, e: Enctype, key: Key, usage: nat, sealed: bool, sndSeq: nat, confounder: seq<Byte>,
                      plaintext: seq<Byte>, rrc: nat, sent: seq<Byte>)
    requires Lawful(p) && rrc < 0x1_0000
    requires Wrapped(p, e, key, usage, sealed, sndSeq, confounder, plaintext).Ok?
    requires RightRotated(Wrapped(p, e, key, usage, sealed, sndSeq, confounder, plaintext).value, rrc, sent)
    ensures Unwrapped(p, e, key, usage, sent) == Ok(plaintext)
  {
    var token := Wrapped(p, e, key, usage, sealed, sndSeq, confounder, plaintext).value;
    UnrotatedBody(token[16..], rrc, sent[16..]);
    if sealed {
      SealedRoundTrip(p, e, key, usage, sndSeq, confounder, plaintext, rrc, token, sent);
    } else {
      PlainRoundTrip(p, e, key, usage, sndSeq, plaintext, rrc, token, sent);
    }
  }

  lemma SealedRoundTrip(p: Provider, e: Enctype, key: Key, usage: nat, sndSeq: nat, confounder: seq<Byte>,
                        plaintext: seq<Byte>, rrc: nat, token: seq<Byte>, sent: seq<Byte>)
    requires Lawful(p) && rrc < 0x1_0000
    requires Wrapped(p, e, key, usage, true, sndSeq, confounder, plaintext) == Ok(token)
    requires RightRotated(token, rrc, sent) && Unrotated(sent[16..], rrc) == token[16..]
    ensures Unwrapped(p, e, key, usage, sent) == Ok(plaintext)
  {
    var header := Header(true, 0, 0, sndSeq);
    RotatedHeader(token, true, 0, sndSeq, rrc, sent);
    SealedBodyOpens(p, e, key, usage, sndSeq, confounder, plaintext, token[16..]);
    var d := plaintext + header;
    assert d[|d| - 16..] == header && d[..|d| - 16] == plaintext;
  }

  lemma PlainRoundTrip(p: Provider, e: Enctype, key: Key, usage: nat, sndSeq: nat,
                       plaintext: seq<Byte>, rrc: nat, token: seq<Byte>, sent: seq<Byte>)
    requires Lawful(p) && rrc < 0x1_0000
    requires Wrapped(p, e, key, usage, false, sndSeq, [], plaintext) == Ok(token)
    requires RightRotated(token, rrc, sent) && Unrotated(sent[16..], rrc) == token[16..]
    ensures Unwrapped(p, e, key, usage, sent) == Ok(plaintext)
  {
    var mic := p.checksum(e, key, usage, SignInput(plaintext, Header(false, 0, 0, sndSeq))).value;
    RotatedHeader(token, false, HmacLen(e), sndSeq, rrc, sent);
    var body := token[16..];
    assert body == plaintext + mic;
    assert body[..|body| - HmacLen(e)] == plaintext && body[|body| - HmacLen(e)..] == mic;
  }

  lemma SealedBodyOpens(p: Provider, e: Enctype, key: Key, usage: nat, sndSeq: nat, confounder: seq<Byte>,
                        plaintext: seq<Byte>, body: seq<Byte>)
    requires Lawful(p)
    requires p.encrypt(e, key, usage, confounder, SignInput(plaintext, Header(true, 0, 0, sndSeq))) == Some(body)
    ensures p.decrypt(e, key, usage, body) == Some(plaintext + Header(true, 0, 0, sndSeq))
  {
  }

  /** An integrity-only token is accepted for exactly the plaintexts whose
      checksum, over the data and the header with EC and RRC zeroed, it carries. */
  lemma AcceptedIffChecksum(p: Provider, e: Enctype, key: Key, usage: nat, token: seq<Byte>, plaintext: seq<Byte>)
    requires Lawful(p)
    requires |token| >= 16 && token[0..2] == [0x05, 0x04] && !SealedBit(token[2])
    ensures Unwrapped(p, e, key, usage, token) == Ok(plaintext) <==>
              exists mic ::
                && Unrotated(token[16..], Value(token[6..8])) == plaintext + mic
                && p.checksum(e, key, usage, SignInput(plaintext, ZeroField(ZeroField(token[..16], 4), 6))) == Some(mic)
  {
    var body := Unrotated(token[16..], Value(token[6..8]));
    var header := ZeroField(ZeroField(token[..16], 4), 6);
    if Unwrapped(p, e, key, usage, token) == Ok(plaintext) {
      var n := |body| - HmacLen(e);
      assert body == body[..n] + body[n..];
    }
    forall mic | body == plaintext + mic && p.checksum(e, key, usage, SignInput(plaintext, header)) == Some(mic)
      ensures Unwrapped(p, e, key, usage, token) == Ok(plaintext)
    {
      var n := |body| - HmacLen(e);
      assert |mic| == HmacLen(e);
      assert body[..n] == plaintext && body[n..] == mic;
    }
  }

  lemma RotatedBack(rotated: seq<Byte>, rrc: nat)
    ensures RotatedBody(Unrotated(rotated, rrc), rrc, rotated)
  {
    if rotated != [] {
      var n, body := |rotated|, Unrotated(rotated, rrc);
      forall i | 0 <= i < n
        ensures rotated[Landing(i, rrc, n)] == body[i]
      {
        ModAddSmall(i, rrc, n);
      }
    }
  }

  /** `body`, rotated as RRC says, is what the token carries, and holds `plaintext`: a
      sealed one decrypts to it with the header, RRC zeroed, behind it; another one
      is followed by the checksum over it and the header, EC and RRC zeroed. */
  ghost predicate Carries(p: Provider, e: Enctype, key: Key, usage: nat, token: seq<Byte>, body: seq<Byte>,
                          plaintext: seq<Byte>)
  {
    && |token| >= 16 && token[0] == 0x05 && token[1] == 0x04
    && RotatedBody(body, 256 * (token[6] as int) + token[7] as int, token[16..])
    && if token[2] / 2 % 2 == 1 then
         p.decrypt(e, key, usage, body) == Some(plaintext + (token[..6] + [0, 0] + token[8..16]))
       else
         exists mic :: body == plaintext + mic
                       && p.checksum(e, key, usage, plaintext + (token[..4] + [0, 0, 0, 0] + token[8..16])) == Some(mic)
  }

  lemma TokenFields(token: seq<Byte>)
    requires |token| >= 16
    ensures Value(token[6..8]) == 256 * (token[6] as int) + token[7] as int
    ensures ZeroField(token[..16], 6) == token[..6] + [0, 0] + token[8..16]
    ensures ZeroField(ZeroField(token[..16], 4), 6) == token[..4] + [0, 0, 0, 0] + token[8..16]
    ensures token[0..2] == [0x05, 0x04] <==> token[0] == 0x05 && token[1] == 0x04
  {
    var f := token[6..8];
    assert f == [token[6], token[7]] && f[1..] == [token[7]];
    assert Value(f[1..]) == token[7] && Pow256(1) == 256;
    assert token[0..2] == [token[0], token[1]];
  }

  lemma SealedAccepted(p: Provider, e: Enctype, key: Key, usage: nat, header: seq<Byte>, body: seq<Byte>,
                       plaintext: seq<Byte>)
    requires |header| == 16
    ensures UnwrappedBody(p, e, key, usage, true, header, body) == Ok(plaintext) <==>
              p.decrypt(e, key, usage, body) == Some(plaintext + ZeroField(header, 6))
  {
    if p.decrypt(e, key, usage, body).Some? {
      var d := p.decrypt(e, key, usage, body).value;
      var tail := ZeroField(header, 6);
      if |d| >= 16 && d[|d| - 16..] == tail {
        assert d == d[..|d| - 16] + tail;
      }
      if d == plaintext + tail {
        assert d[|d| - 16..] == tail && d[..|d| - 16] == plaintext;
      }
    }
  }

  lemma AcceptedBody(p: Provider, e: Enctype, key: Key, usage: nat, token: seq<Byte>, body: seq<Byte>,
                     plaintext: seq<Byte>)
    requires Lawful(p) && |token| >= 16 && token[0] == 0x05 && token[1] == 0x04
    requires body == Unrotated(token[16..], Value(token[6..8]))
    ensures Carries(p, e, key, usage, token, body, plaintext) <==> Unwrapped(p, e, key, usage, token) == Ok(plaintext)
  {
    TokenFields(token);
    RotatedBack(token[16..], Value(token[6..8]));
    if SealedBit(token[2]) {
      SealedAccepted(p, e, key, usage, token[..16], body, plaintext);
    } else {
      AcceptedIffChecksum(p, e, key, usage, token, plaintext);
    }
  }

  /** A token is accepted for exactly the plaintext it carries. */
  lemma AcceptedIff(p: Provider, e: Enctype, key: Key, usage: nat, token: seq<Byte>, plaintext: seq<Byte>)
    requires Lawful(p)
    ensures Unwrapped(p, e, key, usage, token) == Ok(plaintext) <==>
              exists body :: Carries(p, e, key, usage, token, body, plaintext)
  {
    if |token| >= 16 && token[0] == 0x05 && token[1] == 0x04 {
      var rrc, body := Value(token[6..8]), Unrotated(token[16..], Value(token[6..8]));
      TokenFields(token);
      AcceptedBody(p, e, key, usage, token, body, plaintext);
      forall b | Carries(p, e, key, usage, token, b, plaintext)
        ensures b == body
      {
        UnrotatedBody(b, rrc, token[16..]);
      }
    } else if |token| >= 16 {
      TokenFields(token);
    }
  }

  /** Why a token is refused: it is not one; a sealed one decrypts to another header; the
      checksum of another one is wrong. */
  lemma RefusedWhy(p: Provider, e: Enctype, key: Key, usage: nat, token: seq<Byte>, body: seq<Byte>)
    requires |token| >= 16 && RotatedBody(body, 256 * (token[6] as int) + token[7] as int, token[16..])
    ensures Unwrapped(p, e, key, usage, token) == Err(WrongTokId) <==> !(token[0] == 0x05 && token[1] == 0x04)
    ensures Unwrapped(p, e, key, usage, token) == Err(HeaderMismatch) <==>
              && token[0] == 0x05 && token[1] == 0x04 && token[2] / 2 % 2 == 1
              && var d := p.decrypt(e, key, usage, body);
                 d.Some? && |d.value| >= 16
                 && d.value[|d.value| - 16..] != token[..6] + [0, 0] + token[8..16]
    ensures Unwrapped(p, e, key, usage, token) == Err(BadChecksum) <==>
              && token[0] == 0x05 && token[1] == 0x04 && token[2] / 2 % 2 == 0 && |body| >= HmacLen(e)
              && var n := |body| - HmacLen(e);
                 var mic := p.checksum(e, key, usage, body[..n] + (token[..4] + [0, 0, 0, 0] + token[8..16]));
                 mic.Some? && mic.value != body[n..]
  {
    TokenFields(token);
    UnrotatedBody(body, Value(token[6..8]), token[16..]);
  }
}
