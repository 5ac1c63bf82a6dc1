/**
  The per-connection SASL/GSSAPI state of `iron-ldap` and the sequence numbers
  of the Wrap tokens it sends (section 4.2.6.2 of RFC 4121, section 3.1 of
  RFC 4752).

  The stores, the ticket check and the client's tokens enter as the answers
  they give: a request carries everything outside the state machine that
  decides how it is handled.
 */
module Session {
  import opened Options
  import opened Bytes

  /** SND_SEQ is a 64-bit counter that wraps. */
  const WRAP: nat := 0x1_0000_0000_0000_0000

  function Increment(n: nat): nat {
    if n + 1 == WRAP then 0 else n + 1
  }

  /** The number that token `i` of a context should carry. */
  function Nth(i: nat): nat {
    if i == 0 then 0 else Increment(Nth(i - 1))
  }

  lemma {:induction false} NthIsModulo(i: nat)
    ensures Nth(i) == i % WRAP
  {
    if i > 0 {
      NthIsModulo(i - 1);
    }
  }

  // ---------------------------------------------------------------- requests

  /** What the client's security-layer answer asks for. */
  datatype Layer = NoProtection | Integrity | Confidentiality | Unsupported | Unreadable

  /** What accepting the client's AP-REQ gives: an error, or a context with or
      without a mutual-authentication reply to send back. */
  datatype Accept = Rejected | WithReply | WithoutReply

  datatype SaslBind = SaslBind(
    gssapi: bool,
    credentials: bool,
    partition: bool,
    accept: Accept,
    challengeOk: bool,
    answer: Option<seq<Byte>>)
  {
    /** The first octet of the answer, where it unwraps at all. */
    function Asked(): Layer {
      if answer.None? then Unreadable
      else if answer.value == [] then Unsupported
      else if answer.value[0] == 1 then NoProtection
      else if answer.value[0] == 2 then Integrity
      else if answer.value[0] == 4 then Confidentiality
      else Unsupported
    }
  }

  datatype BindRequest =
    | BadVersion
    | Anonymous
    | Simple(ok: bool)
    | UnknownChoice
    | Sasl(creds: SaslBind)

  /** An operation other than bind and unbind answers with `responses` messages:
      a search with several, an abandon with none, the others with one. */
  datatype Request = Unbind | Bind(bind: BindRequest) | Operation(responses: nat)

  datatype Code =
    | Success | SaslBindInProgress | ProtocolError | AuthMethodNotSupported
    | InvalidCredentials | UnwillingToPerform | OperationsError | Other

  // ------------------------------------------------------------------ frames

  /** A Wrap token sent by the acceptor under security context `context`. */
  datatype Token = Token(context: nat, sndSeq: nat, sealed: bool)

  /** A message sent: `wrapper` is the Wrap token it travels in, if any, and
      `challenge` the Wrap token a bind response carries as its credentials. */
  datatype Frame = Frame(wrapper: Option<Token>, challenge: Option<Token>)

  function TokensIn(f: Frame): seq<Token> {
    (if f.challenge.Some? then [f.challenge.value] else []) + (if f.wrapper.Some? then [f.wrapper.value] else [])
  }

  /** The sequence numbers context `c` has used, in the order they went out. */
  function SequenceOf(frames: seq<Frame>, c: nat): seq<nat> {
    if frames == [] then [] else SequenceOf(frames[..|frames| - 1], c) + Numbers(TokensIn(frames[|frames| - 1]), c)
  }

  function Numbers(tokens: seq<Token>, c: nat): seq<nat> {
    if tokens == [] then []
    else (if tokens[0].context == c then [tokens[0].sndSeq] else []) + Numbers(tokens[1..], c)
  }

  /** 0, 1, 2, ... with no gap and no repeat. */
  predicate Counting(ns: seq<nat>) {
    forall i :: 0 <= i < |ns| ==> ns[i] == Nth(i)
  }

  ghost predicate AllCounting(frames: seq<Frame>) {
    forall c :: Counting(SequenceOf(frames, c))
  }

  // ------------------------------------------------- the protocol on values

  /** The negotiation state. Contexts are numbered as they are accepted. */
  datatype Mode =
    | Plain
    | ApRepSent(context: nat)
    | ChallengeSent(context: nat)
    | Active(context: nat, sealed: bool, next: nat)

  datatype Connection = Connection(mode: Mode, frames: seq<Frame>, contexts: nat, open: bool)

  const START := Connection(Plain, [], 0, true)

  datatype Negotiated = Negotiated(mode: Mode, code: Code, challenge: Option<Token>, accepted: bool)

  function Challenge(context: nat): Token {
    Token(context, 0, false)
  }

  /** `handle_bind` and `handle_sasl_bind`; `id` names a newly accepted context. */
  function Negotiate(mode: Mode, fips: bool, b: BindRequest, id: nat): Negotiated {
    match b
    case BadVersion => Negotiated(Plain, ProtocolError, None, false)
    case Anonymous => Negotiated(Plain, Success, None, false)
    case Simple(ok) => Negotiated(Plain, if ok then Success else InvalidCredentials, None, false)
    case UnknownChoice => Negotiated(Plain, AuthMethodNotSupported, None, false)
    case Sasl(s) =>
      if !s.gssapi then Negotiated(Plain, AuthMethodNotSupported, None, false)
      else if !fips then Negotiated(Plain, UnwillingToPerform, None, false)
      else match mode
        case Plain =>
          if !s.credentials then Negotiated(Plain, AuthMethodNotSupported, None, false)
          else if !s.partition then Negotiated(Plain, Other, None, false)
          else (match s.accept
                case Rejected => Negotiated(Plain, InvalidCredentials, None, false)
                case WithReply => Negotiated(ApRepSent(id), SaslBindInProgress, None, true)
                case WithoutReply =>
                  if s.challengeOk then Negotiated(ChallengeSent(id), SaslBindInProgress, Some(Challenge(id)), true)
                  else Negotiated(Plain, OperationsError, None, true))
        case ApRepSent(c) =>
          if s.challengeOk then Negotiated(ChallengeSent(c), SaslBindInProgress, Some(Challenge(c)), false)
          else Negotiated(Plain, OperationsError, None, false)
        case ChallengeSent(c) =>
          if !s.credentials then Negotiated(Plain, ProtocolError, None, false)
          else (match s.Asked()
                case NoProtection => Negotiated(Plain, Success, None, false)
                case Integrity => Negotiated(Active(c, false, 1), Success, None, false)
                case Confidentiality => Negotiated(Active(c, true, 1), Success, None, false)
                case Unsupported => Negotiated(Plain, UnwillingToPerform, None, false)
                case Unreadable => Negotiated(Plain, InvalidCredentials, None, false))
        case Active(_, _, _) => Negotiated(mode, UnwillingToPerform, None, false)
  }

  /** The frame a response travels in while the connection is in `mode`. */
  function FrameIn(mode: Mode, challenge: Option<Token>): Frame {
    Frame(if mode.Active? then Some(Token(mode.context, mode.next, mode.sealed)) else None, challenge)
  }

  function Advance(mode: Mode): Mode {
    if mode.Active? then mode.(next := Increment(mode.next)) else mode
  }

  /** `n` responses of an ordinary operation. */
  function Respond(c: Connection, n: nat): Connection {
    if n == 0 then c
    else
      var d := Respond(c, n - 1);
      d.(mode := Advance(d.mode), frames := d.frames + [FrameIn(d.mode, None)])
  }

  /** One request. A bind response is sent in the mode that held before it. */
  function Serve(c: Connection, fips: bool, r: Request): Connection {
    if !c.open then c
    else
      match r
      case Unbind => c.(open := false)
      case Operation(n) => Respond(c, n)
      case Bind(b) =>
        var d := Negotiate(c.mode, fips, b, c.contexts);
        Connection(d.mode, c.frames + [FrameIn(c.mode, d.challenge)], c.contexts + (if d.accepted then 1 else 0), true)
  }

  function ServeAll(fips: bool, rs: seq<Request>): Connection {
    if rs == [] then START else Serve(ServeAll(fips, rs[..|rs| - 1]), fips, rs[|rs| - 1])
  }

  // --------------------------------------------------- which binds lead to what

  /** A GSSAPI bind that gets as far as the negotiation. */
  predicate Negotiates(fips: bool, b: BindRequest) {
    b.Sasl? && b.creds.gssapi && fips
  }

  /** A first bind whose AP-REQ is looked at. */
  predicate Presents(mode: Mode, fips: bool, b: BindRequest) {
    Negotiates(fips, b) && mode.Plain? && b.creds.credentials && b.creds.partition
  }

  /** An answer to the challenge. */
  predicate Acknowledges(mode: Mode, fips: bool, b: BindRequest) {
    Negotiates(fips, b) && mode.ChallengeSent? && b.creds.credentials
  }

  /** When a bind succeeds, and when it goes on. */
  lemma SuccessIff(mode: Mode, fips: bool, b: BindRequest, id: nat)
    ensures var d := Negotiate(mode, fips, b, id);
            && (d.code == Success <==>
                  || b == Anonymous || b == Simple(true)
                  || (Acknowledges(mode, fips, b) && b.creds.Asked() in {NoProtection, Integrity, Confidentiality}))
            && (d.code == SaslBindInProgress <==>
                  || (Presents(mode, fips, b) && b.creds.accept == WithReply)
                  || (Presents(mode, fips, b) && b.creds.accept == WithoutReply && b.creds.challengeOk)
                  || (Negotiates(fips, b) && mode.ApRepSent? && b.creds.challengeOk))
  {
  }

  /** When a bind is refused, and how. */
  lemma RefusalIff(mode: Mode, fips: bool, b: BindRequest, id: nat)
    ensures var code := Negotiate(mode, fips, b, id).code;
            && (code == ProtocolError <==>
                  b == BadVersion || (Negotiates(fips, b) && mode.ChallengeSent? && !b.creds.credentials))
            && (code == AuthMethodNotSupported <==>
                  || b == UnknownChoice || (b.Sasl? && !b.creds.gssapi)
                  || (Negotiates(fips, b) && mode.Plain? && !b.creds.credentials))
            && (code == InvalidCredentials <==>
                  || b == Simple(false) || (Presents(mode, fips, b) && b.creds.accept == Rejected)
                  || (Acknowledges(mode, fips, b) && b.creds.Asked() == Unreadable))
            && (code == UnwillingToPerform <==>
                  || (b.Sasl? && b.creds.gssapi && !fips) || (Negotiates(fips, b) && mode.Active?)
                  || (Acknowledges(mode, fips, b) && b.creds.Asked() == Unsupported))
            && (code == OperationsError <==>
                  || (Presents(mode, fips, b) && b.creds.accept == WithoutReply && !b.creds.challengeOk)
                  || (Negotiates(fips, b) && mode.ApRepSent? && !b.creds.challengeOk))
            && (code == Other <==>
                  Negotiates(fips, b) && mode.Plain? && b.creds.credentials && !b.creds.partition)
  {
  }

  /** Where a bind leads: to which state of the negotiation, with which challenge. */
  lemma LeadsIff(mode: Mode, fips: bool, b: BindRequest, id: nat)
    ensures var d := Negotiate(mode, fips, b, id);
            && (forall c :: d.mode == ApRepSent(c) <==>
                  Presents(mode, fips, b) && b.creds.accept == WithReply && c == id)
            && (forall c :: d.mode == ChallengeSent(c) <==>
                  || (Presents(mode, fips, b) && b.creds.accept == WithoutReply && b.creds.challengeOk && c == id)
                  || (Negotiates(fips, b) && mode == ApRepSent(c) && b.creds.challengeOk))
            && (forall c, sealed, n :: d.mode == Active(c, sealed, n) <==>
                  || (&& Acknowledges(mode, fips, b) && mode.context == c && n == 1
                      && b.creds.Asked() == if sealed then Confidentiality else Integrity)
                  || (Negotiates(fips, b) && mode == Active(c, sealed, n)))
            && d.challenge == (if d.mode.ChallengeSent? then Some(Token(d.mode.context, 0, false)) else None)
            && (d.accepted <==> Presents(mode, fips, b) && b.creds.accept != Rejected)
  {
  }

  // -------------------------------------------------------- what runs promise

  /** A GSSAPI re-bind while a layer is active: answered, and otherwise ignored. */
  predicate RefusedRebind(c: Connection, fips: bool, r: Request) {
    c.open && c.mode.Active? && r.Bind? && r.bind.Sasl? && r.bind.creds.gssapi && fips
  }

  predicate Answers(c: Connection, r: Request) {
    c.open && (r.Bind? || (r.Operation? && r.responses > 0))
  }

  ghost predicate RefusedAt(fips: bool, rs: seq<Request>, i: nat)
    requires i < |rs|
  {
    RefusedRebind(ServeAll(fips, rs[..i]), fips, rs[i])
  }

  ghost predicate AnswersAt(fips: bool, rs: seq<Request>, i: nat)
    requires i < |rs|
  {
    Answers(ServeAll(fips, rs[..i]), rs[i])
  }

  /** Some re-bind is refused under an active layer. */
  ghost predicate Refuses(fips: bool, rs: seq<Request>) {
    exists i :: 0 <= i < |rs| && RefusedAt(fips, rs, i)
  }

  /** Something is answered after a refused re-bind. */
  ghost predicate AnswersAfterRefusal(fips: bool, rs: seq<Request>) {
    exists i, j :: 0 <= i < j < |rs| && RefusedAt(fips, rs, i) && AnswersAt(fips, rs, j)
  }

  lemma LastRequest(fips: bool, rs: seq<Request>)
    requires rs != []
    ensures var front, n := rs[..|rs| - 1], |rs| - 1;
            && (Refuses(fips, rs) <==> Refuses(fips, front) || RefusedAt(fips, rs, n))
            && (AnswersAfterRefusal(fips, rs) <==>
                  AnswersAfterRefusal(fips, front) || (Refuses(fips, front) && AnswersAt(fips, rs, n)))
  {
    var front, n := rs[..|rs| - 1], |rs| - 1;
    forall i | 0 <= i < n
      ensures RefusedAt(fips, front, i) == RefusedAt(fips, rs, i)
      ensures AnswersAt(fips, front, i) == AnswersAt(fips, rs, i)
    {
      assert front[..i] == rs[..i];
    }
    if Refuses(fips, front) {
      var i :| 0 <= i < n && RefusedAt(fips, front, i);
      assert RefusedAt(fips, rs, i);
    }
    if AnswersAfterRefusal(fips, front) {
      var i, j :| 0 <= i < j < n && RefusedAt(fips, front, i) && AnswersAt(fips, front, j);
      assert RefusedAt(fips, rs, i) && AnswersAt(fips, rs, j);
    }
  }

  lemma SequenceAppend(frames: seq<Frame>, f: Frame, c: nat)
    ensures SequenceOf(frames + [f], c) == SequenceOf(frames, c) + Numbers(TokensIn(f), c)
  {
    assert (frames + [f])[..|frames|] == frames;
  }

  lemma NumbersOf(f: Frame, c: nat)
    ensures f.challenge.None? && f.wrapper.None? ==> Numbers(TokensIn(f), c) == []
    ensures f.challenge.None? && f.wrapper.Some? ==>
              Numbers(TokensIn(f), c) == if f.wrapper.value.context == c then [f.wrapper.value.sndSeq] else []
    ensures f.challenge.Some? && f.wrapper.None? ==>
              Numbers(TokensIn(f), c) == if f.challenge.value.context == c then [f.challenge.value.sndSeq] else []
  {
    if f.challenge.None? && f.wrapper.Some? {
      assert TokensIn(f) == [f.wrapper.value];
    }
    if f.challenge.Some? && f.wrapper.None? {
      assert TokensIn(f) == [f.challenge.value];
    }
  }

  /** Every context counts, and the one in use is `lag` numbers behind what it has sent. */
  ghost predicate InStep(c: Connection, lag: nat) {
    && AllCounting(c.frames)
    && (forall k :: k >= c.contexts ==> SequenceOf(c.frames, k) == [])
    && (!c.mode.Plain? ==> c.mode.context < c.contexts)
    && (c.mode.ApRepSent? ==> SequenceOf(c.frames, c.mode.context) == [])
    && (c.mode.ChallengeSent? ==> |SequenceOf(c.frames, c.mode.context)| == 1)
    && (c.mode.Active? ==>
          && |SequenceOf(c.frames, c.mode.context)| >= lag
          && c.mode.next == Nth(|SequenceOf(c.frames, c.mode.context)| - lag))
  }

  lemma CountingNext(ns: seq<nat>)
    requires Counting(ns)
    ensures Counting(ns + [Nth(|ns|)])
  {
    var more := ns + [Nth(|ns|)];
    forall i | 0 <= i < |more|
      ensures more[i] == Nth(i)
    {
      if i < |ns| {
        assert more[i] == ns[i];
      }
    }
  }

  /** How many numbers of context `k` the next frame uses. */
  function Uses(mode: Mode, challenge: Option<Token>, k: nat): nat {
    (if challenge.Some? && challenge.value.context == k then 1 else 0)
    + (if mode.Active? && mode.context == k then 1 else 0)
  }

  /** A challenge opens a context that has sent nothing, on an unprotected connection. */
  ghost predicate Opens(c: Connection, challenge: Option<Token>) {
    challenge.Some? ==>
      && !c.mode.Active?
      && challenge.value == Challenge(challenge.value.context)
      && SequenceOf(c.frames, challenge.value.context) == []
  }

  lemma FrameAt(c: Connection, challenge: Option<Token>, k: nat)
    requires InStep(c, 0) && Opens(c, challenge)
    ensures var ns := SequenceOf(c.frames + [FrameIn(c.mode, challenge)], k);
            Counting(ns) && |ns| == |SequenceOf(c.frames, k)| + Uses(c.mode, challenge, k)
  {
    var f := FrameIn(c.mode, challenge);
    var ns := SequenceOf(c.frames, k);
    SequenceAppend(c.frames, f, k);
    NumbersOf(f, k);
    assert Counting(ns);
    CountingNext(ns);
  }

  /** One more frame in the current mode keeps every context counting. */
  lemma FrameKeepsStep(c: Connection, challenge: Option<Token>)
    requires InStep(c, 0) && Opens(c, challenge)
    ensures var frames := c.frames + [FrameIn(c.mode, challenge)];
            && AllCounting(frames)
            && forall k :: |SequenceOf(frames, k)| == |SequenceOf(c.frames, k)| + Uses(c.mode, challenge, k)
  {
    var f := FrameIn(c.mode, challenge);
    forall k
      ensures Counting(SequenceOf(c.frames + [f], k))
      ensures |SequenceOf(c.frames + [f], k)| == |SequenceOf(c.frames, k)| + Uses(c.mode, challenge, k)
    {
      FrameAt(c, challenge, k);
    }
  }

  lemma {:induction false} RespondKeepsStep(c: Connection, n: nat)
    requires InStep(c, 0)
    ensures InStep(Respond(c, n), 0)
    ensures Respond(c, n).contexts == c.contexts && Respond(c, n).open == c.open
  {
    if n > 0 {
      RespondKeepsStep(c, n - 1);
      AnswerKeepsStep(Respond(c, n - 1));
    }
  }

  lemma AnswerKeepsStep(c: Connection)
    requires InStep(c, 0)
    ensures InStep(c.(mode := Advance(c.mode), frames := c.frames + [FrameIn(c.mode, None)]), 0)
  {
    FrameKeepsStep(c, None);
  }

  lemma ServeKeepsStep(c: Connection, fips: bool, r: Request)
    requires InStep(c, 0)
    ensures InStep(Serve(c, fips, r), if RefusedRebind(c, fips, r) then 1 else 0)
  {
    if c.open {
      match r
      case Unbind =>
      case Operation(n) => RespondKeepsStep(c, n);
      case Bind(b) => BindKeepsStep(c, fips, b);
    }
  }

  lemma BindKeepsStep(c: Connection, fips: bool, b: BindRequest)
    requires c.open && InStep(c, 0)
    ensures InStep(Serve(c, fips, Bind(b)), if RefusedRebind(c, fips, Bind(b)) then 1 else 0)
  {
    var d := Negotiate(c.mode, fips, b, c.contexts);
    NegotiateMoves(c.mode, fips, b, c.contexts);
    assert RefusedRebind(c, fips, Bind(b)) <==> c.mode.Active? && d.mode.Active?;
    MoveKeepsStep(c, d);
  }

  /** The moves a bind can make: restart, open a context, challenge it, activate it, stay active. */
  ghost predicate Moves(mode: Mode, d: Negotiated, id: nat) {
    && (d.challenge.Some? ==>
          && d.mode.ChallengeSent?
          && d.challenge.value == Challenge(d.mode.context)
          && (if d.accepted then mode.Plain? && d.mode.context == id else mode == ApRepSent(d.mode.context)))
    && (d.mode.ApRepSent? ==> mode.Plain? && d.mode.context == id && d.accepted)
    && (d.mode.ChallengeSent? ==> d.challenge.Some?)
    && (d.mode.Active? ==>
          d.challenge.None? && ((mode == ChallengeSent(d.mode.context) && d.mode.next == 1) || mode == d.mode))
  }

  lemma NegotiateMoves(mode: Mode, fips: bool, b: BindRequest, id: nat)
    ensures var d := Negotiate(mode, fips, b, id);
            && Moves(mode, d, id)
            && (mode.Active? && d.mode.Active? <==> mode.Active? && b.Sasl? && b.creds.gssapi && fips)
  {
  }

  lemma MoveKeepsStep(c: Connection, d: Negotiated)
    requires InStep(c, 0) && Moves(c.mode, d, c.contexts)
    ensures InStep(Connection(d.mode, c.frames + [FrameIn(c.mode, d.challenge)],
                              c.contexts + (if d.accepted then 1 else 0), true),
                   if c.mode.Active? && d.mode.Active? then 1 else 0)
  {
    assert SequenceOf(c.frames, c.contexts) == [];
    FrameKeepsStep(c, d.challenge);
    var frames := c.frames + [FrameIn(c.mode, d.challenge)];
    forall k | k >= c.contexts + (if d.accepted then 1 else 0)
      ensures SequenceOf(frames, k) == []
    {
      assert |SequenceOf(frames, k)| == |SequenceOf(c.frames, k)| + Uses(c.mode, d.challenge, k);
      assert SequenceOf(c.frames, k) == [];
    }
    if !d.mode.Plain? {
      var k := d.mode.context;
      assert |SequenceOf(frames, k)| == |SequenceOf(c.frames, k)| + Uses(c.mode, d.challenge, k);
    }
  }

  /** A context that has lost count never counts again. */
  lemma Prefix(frames: seq<Frame>, more: seq<Frame>, c: nat)
    ensures SequenceOf(frames, c) <= SequenceOf(frames + more, c)
    decreases |more|
  {
    if more == [] {
      assert frames + more == frames;
    } else {
      var front, last := more[..|more| - 1], more[|more| - 1];
      Prefix(frames, front, c);
      assert frames + more == (frames + front) + [last];
      SequenceAppend(frames + front, last, c);
    }
  }

  lemma StaysWrong(frames: seq<Frame>, frames': seq<Frame>)
    requires frames <= frames' && !AllCounting(frames)
    ensures !AllCounting(frames')
  {
    var c :| !Counting(SequenceOf(frames, c));
    assert frames' == frames + frames'[|frames|..];
    Prefix(frames, frames'[|frames|..], c);
    var i :| 0 <= i < |SequenceOf(frames, c)| && SequenceOf(frames, c)[i] != Nth(i);
    assert SequenceOf(frames', c)[i] == SequenceOf(frames, c)[i];
  }

  lemma {:induction false} RespondExtends(c: Connection, n: nat)
    ensures c.frames <= Respond(c, n).frames
    ensures n > 0 ==> c.frames + [FrameIn(c.mode, None)] <= Respond(c, n).frames
  {
    if n > 0 {
      RespondExtends(c, n - 1);
    }
  }

  lemma ServeExtends(c: Connection, fips: bool, r: Request)
    ensures c.frames <= Serve(c, fips, r).frames
  {
    if c.open && r.Operation? {
      RespondExtends(c, r.responses);
    }
  }

  /** After a refusal the next answer repeats the refusal's number. */
  lemma AnswerRepeats(c: Connection, fips: bool, r: Request)
    requires InStep(c, 1) && c.mode.Active? && Answers(c, r)
    ensures !AllCounting(Serve(c, fips, r).frames)
  {
    var f := FrameIn(c.mode, None);
    OneTooFew(c, f);
    AnswerFrame(c, fips, r);
    StaysWrong(c.frames + [f], Serve(c, fips, r).frames);
  }

  lemma OneTooFew(c: Connection, f: Frame)
    requires InStep(c, 1) && c.mode.Active? && f == FrameIn(c.mode, None)
    ensures !AllCounting(c.frames + [f])
  {
    LateFrame(c.frames, f, c.mode.context, SequenceOf(c.frames, c.mode.context));
  }

  lemma LateFrame(frames: seq<Frame>, f: Frame, k: nat, ns: seq<nat>)
    requires SequenceOf(frames, k) == ns && ns != [] && f.challenge.None?
    requires f.wrapper.Some? && f.wrapper.value.context == k && f.wrapper.value.sndSeq == Nth(|ns| - 1)
    ensures !Counting(SequenceOf(frames + [f], k))
  {
    SequenceAppend(frames, f, k);
    NumbersOf(f, k);
    OffByOne(ns);
  }

  lemma OffByOne(ns: seq<nat>)
    requires ns != []
    ensures !Counting(ns + [Nth(|ns| - 1)])
  {
    var n := |ns|;
    assert Nth(n) == Increment(Nth(n - 1));
    assert (ns + [Nth(n - 1)])[n] != Nth(n);
  }

  lemma AnswerFrame(c: Connection, fips: bool, r: Request)
    requires c.mode.Active? && Answers(c, r)
    ensures c.frames + [FrameIn(c.mode, None)] <= Serve(c, fips, r).frames
  {
    if r.Operation? {
      RespondExtends(c, r.responses);
    } else {
      NegotiateMoves(c.mode, fips, r.bind, c.contexts);
    }
  }

  /** Where a run stands, by whether it has refused a re-bind and answered since. */
  ghost predicate Classified(c: Connection, refused: bool, answered: bool) {
    && (answered ==> !AllCounting(c.frames))
    && (!answered && refused ==> InStep(c, 1) && c.mode.Active?)
    && (!answered && !refused ==> InStep(c, 0))
  }

  lemma ServeClassified(c: Connection, fips: bool, r: Request, refused: bool, answered: bool)
    requires Classified(c, refused, answered)
    ensures Classified(Serve(c, fips, r),
                       refused || RefusedRebind(c, fips, r),
                       answered || (refused && Answers(c, r)))
  {
    if answered {
      ServeExtends(c, fips, r);
      StaysWrong(c.frames, Serve(c, fips, r).frames);
    } else if refused {
      if Answers(c, r) {
        AnswerRepeats(c, fips, r);
      }
    } else {
      ServeKeepsStep(c, fips, r);
    }
  }

  lemma {:induction false} RunClassified(fips: bool, rs: seq<Request>)
    ensures Classified(ServeAll(fips, rs), Refuses(fips, rs), AnswersAfterRefusal(fips, rs))
  {
    if rs != [] {
      var front := rs[..|rs| - 1];
      RunClassified(fips, front);
      LastRequest(fips, rs);
      ServeClassified(ServeAll(fips, front), fips, rs[|rs| - 1], Refuses(fips, front),
                      AnswersAfterRefusal(fips, front));
    }
  }

  /** Over every run, each context's Wrap tokens carry 0, 1, 2, ... exactly
      when nothing is answered after a re-bind refused under an active layer. */
  lemma SendSequence(fips: bool, rs: seq<Request>)
    ensures AllCounting(ServeAll(fips, rs).frames) <==> !AnswersAfterRefusal(fips, rs)
  {
    RunClassified(fips, rs);
  }

  lemma ServeOneMore(fips: bool, rs: seq<Request>, r: Request)
    ensures ServeAll(fips, rs + [r]) == Serve(ServeAll(fips, rs), fips, r)
  {
    assert (rs + [r])[..|rs|] == rs;
  }

  /** The failing case, shortest run: the answer to an operation repeats the
      number the refused re-bind's answer used. */
  lemma RefusedRebindRepeats(s: SaslBind)
    requires s.gssapi && s.credentials && s.partition && s.accept.WithoutReply? && s.challengeOk && s.Asked().Integrity?
    ensures var b := Bind(Sasl(s));
            SequenceOf(ServeAll(true, [b, b, b, Operation(1)]).frames, 0) == [0, 1, 1]
  {
    var b := Bind(Sasl(s));
    var f1, f2, f3 := Frame(None, Some(Token(0, 0, false))), Frame(None, None), Frame(Some(Token(0, 1, false)), None);
    FourRequests(b, b, b, Operation(1));
    ThreeBinds(s, f1, f2, f3);
    OneAnswer(Connection(Active(0, false, 1), [] + [f1] + [f2] + [f3], 1, true));
    FourFrames(f1, f2, f3);
  }

  lemma FourRequests(a: Request, b: Request, c: Request, d: Request)
    ensures ServeAll(true, [a, b, c, d]) == Serve(Serve(Serve(Serve(START, true, a), true, b), true, c), true, d)
  {
    ServeOneMore(true, [], a);
    ServeOneMore(true, [a], b);
    ServeOneMore(true, [a, b], c);
    ServeOneMore(true, [a, b, c], d);
    assert [] + [a] == [a] && [a] + [b] == [a, b] && [a, b] + [c] == [a, b, c] && [a, b, c] + [d] == [a, b, c, d];
  }

  lemma ThreeBinds(s: SaslBind, f1: Frame, f2: Frame, f3: Frame)
    requires s.gssapi && s.credentials && s.partition && s.accept.WithoutReply? && s.challengeOk && s.Asked().Integrity?
    requires f1 == Frame(None, Some(Token(0, 0, false))) && f2 == Frame(None, None)
    requires f3 == Frame(Some(Token(0, 1, false)), None)
    ensures var b := Bind(Sasl(s));
            Serve(Serve(Serve(START, true, b), true, b), true, b)
              == Connection(Active(0, false, 1), [] + [f1] + [f2] + [f3], 1, true)
  {
    var b := Bind(Sasl(s));
    var c1, c2 := Serve(START, true, b), Connection(Active(0, false, 1), [] + [f1] + [f2], 1, true);
    assert c1 == Connection(ChallengeSent(0), [] + [f1], 1, true);
    assert Serve(c1, true, b) == c2;
  }

  lemma OneAnswer(c: Connection)
    requires c.open
    ensures Serve(c, true, Operation(1)).frames == c.frames + [FrameIn(c.mode, None)]
  {
    assert Respond(c, 0) == c;
  }

  lemma FourFrames(f1: Frame, f2: Frame, f3: Frame)
    requires f1 == Frame(None, Some(Token(0, 0, false))) && f2 == Frame(None, None)
    requires f3 == Frame(Some(Token(0, 1, false)), None)
    ensures SequenceOf([] + [f1] + [f2] + [f3] + [f3], 0) == [0, 1, 1]
  {
    SequenceAppend([], f1, 0);
    SequenceAppend([] + [f1], f2, 0);
    SequenceAppend([] + [f1] + [f2], f3, 0);
    SequenceAppend([] + [f1] + [f2] + [f3], f3, 0);
    NumbersOf(f1, 0);
    NumbersOf(f2, 0);
    NumbersOf(f3, 0);
  }

  /** `n` responses under a fresh layer, numbered on from 1. */
  function LayerFrames(context: nat, sealed: bool, n: nat): (fs: seq<Frame>)
    ensures |fs| == n
  {
    if n == 0 then []
    else LayerFrames(context, sealed, n - 1) + [Frame(Some(Token(context, Nth(n), sealed)), None)]
  }

  /** `d` has sent `n` frames since `sent`, all under the layer. */
  ghost predicate Protected(sent: seq<Frame>, d: Connection, context: nat, sealed: bool, n: nat) {
    d.mode == Active(context, sealed, Nth(n + 1)) && d.frames == sent + LayerFrames(context, sealed, n)
  }

  lemma {:induction false} RespondProtected(sent: seq<Frame>, d: Connection, context: nat, sealed: bool, n: nat, m: nat)
    requires Protected(sent, d, context, sealed, n)
    ensures Protected(sent, Respond(d, m), context, sealed, n + m)
  {
    if m > 0 {
      RespondProtected(sent, d, context, sealed, n, m - 1);
      var e := Respond(d, m - 1);
      assert Respond(d, m).frames == sent + (LayerFrames(context, sealed, n + m - 1) + [FrameIn(e.mode, None)]);
    }
  }

  lemma {:induction false} StaysProtected(fips: bool, rs: seq<Request>, i: nat, context: nat, sealed: bool)
    returns (n: nat)
    requires i <= |rs| && ServeAll(fips, rs[..i]).mode == Active(context, sealed, 1)
    requires forall j :: i <= j < |rs| ==> !rs[j].Bind?
    ensures Protected(ServeAll(fips, rs[..i]).frames, ServeAll(fips, rs), context, sealed, n)
    decreases |rs|
  {
    if i == |rs| {
      assert rs[..i] == rs;
      n := 0;
      assert Nth(1) == 1;
    } else {
      var front, r := rs[..|rs| - 1], rs[|rs| - 1];
      assert front[..i] == rs[..i];
      n := StaysProtected(fips, front, i, context, sealed);
      var d := ServeAll(fips, front);
      if d.open && r.Operation? {
        RespondProtected(ServeAll(fips, rs[..i]).frames, d, context, sealed, n, r.responses);
        n := n + r.responses;
      }
    }
  }

  /** The response that completes a bind with a layer is in clear; every later
      one, until another bind, travels in a Wrap token of that context with the
      negotiated seal bit, numbered on from 1. */
  lemma LayerTakesEffect(fips: bool, rs: seq<Request>, i: nat, s: SaslBind)
    requires i < |rs| && Completes(fips, rs, i, s) && (s.Asked().Integrity? || s.Asked().Confidentiality?)
    requires forall j :: i < j < |rs| ==> !rs[j].Bind?
    ensures var before, after, end := ServeAll(fips, rs[..i]), ServeAll(fips, rs[..i + 1]), ServeAll(fips, rs);
            && after.frames == before.frames + [Frame(None, None)]
            && |end.frames| >= |after.frames|
            && end.frames == after.frames + LayerFrames(before.mode.context, s.Asked().Confidentiality?,
                                                        |end.frames| - |after.frames|)
  {
    Activation(fips, rs, i, s);
    var n := StaysProtected(fips, rs, i + 1, ServeAll(fips, rs[..i]).mode.context, s.Asked().Confidentiality?);
  }

  /** Request `i` answers the challenge: a GSSAPI bind with credentials. */
  ghost predicate Completes(fips: bool, rs: seq<Request>, i: nat, s: SaslBind)
    requires i < |rs|
  {
    && fips && ServeAll(fips, rs[..i]).open && ServeAll(fips, rs[..i]).mode.ChallengeSent?
    && rs[i] == Bind(Sasl(s)) && s.gssapi && s.credentials
  }

  /** What the answer to the challenge brings about: the layer that it asks for,
      counting from 1, or none; it is itself answered in clear. */
  lemma ChallengeAnswered(c: Connection, s: SaslBind)
    requires c.open && c.mode.ChallengeSent? && s.gssapi && s.credentials
    ensures var d, code := Serve(c, true, Bind(Sasl(s))), Negotiate(c.mode, true, Sasl(s), c.contexts).code;
            && (match s.answer
                case None => d.mode == Plain && code == InvalidCredentials
                case Some(octets) =>
                  if octets != [] && octets[0] in {2, 4} then
                    d.mode == Active(c.mode.context, octets[0] == 4, 1) && code == Success
                  else
                    d.mode == Plain && code == if octets != [] && octets[0] == 1 then Success else UnwillingToPerform)
            && d.frames == c.frames + [Frame(None, None)] && d.open
  {
  }

  lemma Activation(fips: bool, rs: seq<Request>, i: nat, s: SaslBind)
    requires i < |rs| && Completes(fips, rs, i, s) && (s.Asked().Integrity? || s.Asked().Confidentiality?)
    ensures ServeAll(fips, rs[..i + 1]).frames == ServeAll(fips, rs[..i]).frames + [Frame(None, None)]
    ensures ServeAll(fips, rs[..i + 1]).mode
         == Active(ServeAll(fips, rs[..i]).mode.context, s.Asked().Confidentiality?, 1)
  {
    assert rs[..i + 1] == rs[..i] + [rs[i]];
    ServeOneMore(fips, rs[..i], rs[i]);
    ChallengeAnswered(ServeAll(fips, rs[..i]), s);
  }

  /** The frame carries a Wrap token of the context with the seal bit given. */
  predicate UnderLayer(f: Frame, context: nat, sealed: bool) {
    f.wrapper.Some? && f.wrapper.value.context == context && f.wrapper.value.sealed == sealed
  }

  /** From frame `n` on everything travels under the layer, and it is still there. */
  ghost predicate Layered(c: Connection, n: nat, context: nat, sealed: bool) {
    && n <= |c.frames| && c.mode.Active? && c.mode.context == context && c.mode.sealed == sealed
    && forall i :: n <= i < |c.frames| ==> UnderLayer(c.frames[i], context, sealed)
  }

  lemma {:induction false} RespondLayered(c: Connection, m: nat, n: nat, context: nat, sealed: bool)
    requires Layered(c, n, context, sealed)
    ensures Layered(Respond(c, m), n, context, sealed)
  {
    if m > 0 {
      RespondLayered(c, m - 1, n, context, sealed);
    }
  }

  /** The bind is one that an active layer answers and ignores. */
  predicate LeavesLayer(fips: bool, r: Request) {
    r.Bind? ==> fips && r.bind.Sasl? && r.bind.creds.gssapi
  }

  lemma ServeLayered(c: Connection, fips: bool, r: Request, n: nat, context: nat, sealed: bool)
    requires Layered(c, n, context, sealed)
    ensures LeavesLayer(fips, r) ==> Layered(Serve(c, fips, r), n, context, sealed)
    ensures forall i :: n <= i < |Serve(c, fips, r).frames| ==> UnderLayer(Serve(c, fips, r).frames[i], context, sealed)
    ensures c.open && !LeavesLayer(fips, r) ==> Serve(c, fips, r).mode.Plain?
  {
    if c.open && r.Operation? {
      RespondLayered(c, r.responses, n, context, sealed);
    }
  }

  lemma {:induction false} StaysLayered(fips: bool, rs: seq<Request>, i: nat, n: nat, context: nat, sealed: bool)
    requires i <= |rs| && Layered(ServeAll(fips, rs[..i]), n, context, sealed)
    requires forall j :: i <= j < |rs| ==> LeavesLayer(fips, rs[j])
    ensures Layered(ServeAll(fips, rs), n, context, sealed)
    decreases |rs|
  {
    if i == |rs| {
      assert rs[..i] == rs;
    } else {
      var front := rs[..|rs| - 1];
      assert front[..i] == rs[..i];
      StaysLayered(fips, front, i, n, context, sealed);
      ServeLayered(ServeAll(fips, front), fips, rs[|rs| - 1], n, context, sealed);
    }
  }

  /** The layer lasts, through every re-bind that it refuses, up to and including
      the answer to the first bind that drops it: all that while every response is
      in a Wrap token of its context with the negotiated seal bit. */
  lemma LayerLasts(fips: bool, rs: seq<Request>, i: nat, s: SaslBind)
    requires i < |rs| && Completes(fips, rs, i, s) && (s.Asked().Integrity? || s.Asked().Confidentiality?)
    requires forall j :: i < j < |rs| - 1 ==> LeavesLayer(fips, rs[j])
    ensures var context, sealed := ServeAll(fips, rs[..i]).mode.context, s.Asked().Confidentiality?;
            var start, end := ServeAll(fips, rs[..i + 1]), ServeAll(fips, rs);
            && (forall k :: |start.frames| <= k < |end.frames| ==> UnderLayer(end.frames[k], context, sealed))
            && (i + 1 == |rs| || LeavesLayer(fips, rs[|rs| - 1]) ==>
                  end.mode.Active? && end.mode.context == context && end.mode.sealed == sealed)
  {
    var before, start := ServeAll(fips, rs[..i]), ServeAll(fips, rs[..i + 1]);
    Activation(fips, rs, i, s);
    var n, context, sealed := |start.frames|, before.mode.context, s.Asked().Confidentiality?;
    if i + 1 == |rs| {
      assert rs[..i + 1] == rs;
    } else {
      var front := rs[..|rs| - 1];
      assert front[..i + 1] == rs[..i + 1];
      StaysLayered(fips, front, i + 1, n, context, sealed);
      ServeLayered(ServeAll(fips, front), fips, rs[|rs| - 1], n, context, sealed);
    }
  }

  /** The whole handshake, with a reply to acknowledge or without: the layer asked
      for is there, and the next response is its first. */
  lemma Handshake(first: SaslBind, second: SaslBind, third: SaslBind)
    requires first.gssapi && first.credentials && first.partition && first.accept.WithReply?
    requires second.gssapi && second.challengeOk
    requires third.gssapi && third.credentials && (third.Asked().Integrity? || third.Asked().Confidentiality?)
    ensures var c := ServeAll(true, [Bind(Sasl(first)), Bind(Sasl(second)), Bind(Sasl(third)), Operation(1)]);
            c.frames == [Frame(None, None), Frame(None, Some(Token(0, 0, false))), Frame(None, None),
                         Frame(Some(Token(0, 1, third.Asked().Confidentiality?)), None)]
  {
    FourRequests(Bind(Sasl(first)), Bind(Sasl(second)), Bind(Sasl(third)), Operation(1));
    var c2 := Serve(Serve(START, true, Bind(Sasl(first))), true, Bind(Sasl(second)));
    assert c2 == Connection(ChallengeSent(0), [Frame(None, None), Frame(None, Some(Token(0, 0, false)))], 1, true);
    ChallengeAnswered(c2, third);
    OneAnswer(Serve(c2, true, Bind(Sasl(third))));
  }

  // ------------------------------------------------- the connection as it runs

  /** The atomic counter inside an active layer. */
  class SendCounter {
    var value: nat

    constructor (value: nat)
      ensures this.value == value
    {
      this.value := value;
    }

    method FetchAdd() returns (before: nat)
      modifies this
      ensures before == old(value) && value == Increment(old(value))
    {
      before := value;
      value := Increment(value);
    }
  }

  datatype SaslState =
    | Unbound
    | AwaitingApRepAck(context: nat)
    | AwaitingSecurityLayerAck(context: nat)
    | SecurityLayerActive(context: nat, sealed: bool, sendSeq: SendCounter)

  function Counters(s: SaslState): set<SendCounter> {
    if s.SecurityLayerActive? then {s.sendSeq} else {}
  }

  ghost function ModeOf(s: SaslState): Mode
    reads Counters(s)
  {
    match s
    case Unbound => Plain
    case AwaitingApRepAck(c) => ApRepSent(c)
    case AwaitingSecurityLayerAck(c) => ChallengeSent(c)
    case SecurityLayerActive(c, sealed, sendSeq) => Active(c, sealed, sendSeq.value)
  }

  /** `Clone` takes a snapshot of the counter: the copy counts on its own. */
  method CloneState(s: SaslState) returns (t: SaslState)
    ensures ModeOf(t) == ModeOf(s) && fresh(Counters(t))
  {
    match s {
      case SecurityLayerActive(c, sealed, sendSeq) =>
        var n := new SendCounter(sendSeq.value);
        t := SecurityLayerActive(c, sealed, n);
      case Unbound => t := Unbound;
      case AwaitingApRepAck(c) => t := AwaitingApRepAck(c);
      case AwaitingSecurityLayerAck(c) => t := AwaitingSecurityLayerAck(c);
    }
  }

  class Server {
    const fips: bool
    var sasl: SaslState
    var frames: seq<Frame>
    var contexts: nat
    var open: bool

    constructor (fips: bool)
      ensures this.fips == fips && Value() == START && Counters(sasl) == {}
    {
      this.fips := fips;
      sasl, frames, contexts, open := Unbound, [], 0, true;
    }

    ghost function Value(): Connection
      reads this, Counters(sasl)
    {
      Connection(ModeOf(sasl), frames, contexts, open)
    }

    /** Bumps the counter of the state it is given, which need not be this
        connection's own. */
    method SendResponse(state: SaslState, challenge: Option<Token>)
      modifies this`frames, Counters(state)
      ensures frames == old(frames) + [FrameIn(old(ModeOf(state)), challenge)]
      ensures ModeOf(state) == Advance(old(ModeOf(state)))
    {
      match state {
        case SecurityLayerActive(c, sealed, sendSeq) =>
          var seqNo := sendSeq.FetchAdd();
          frames := frames + [Frame(Some(Token(c, seqNo, sealed)), challenge)];
        case _ =>
          frames := frames + [Frame(None, challenge)];
      }
    }

    method HandleSaslBind(s: SaslBind) returns (code: Code, challenge: Option<Token>)
      modifies this`sasl, this`contexts
      ensures var d := Negotiate(old(ModeOf(sasl)), fips, Sasl(s), old(contexts));
              && ModeOf(sasl) == d.mode && code == d.code && challenge == d.challenge
              && contexts == old(contexts) + (if d.accepted then 1 else 0)
      ensures Counters(sasl) == old(Counters(sasl)) || Counters(sasl) == {} || fresh(Counters(sasl))
    {
      challenge := None;
      if !s.gssapi {
        sasl := Unbound;
        return AuthMethodNotSupported, None;
      }
      if !fips {
        sasl := Unbound;
        return UnwillingToPerform, None;
      }
      var taken := sasl;
      sasl := Unbound;
      match taken {
        case Unbound =>
          if !s.credentials {
            return AuthMethodNotSupported, None;
          }
          if !s.partition {
            return Other, None;
          }
          match s.accept {
            case Rejected => code := InvalidCredentials;
            case WithReply =>
              sasl := AwaitingApRepAck(contexts);
              contexts := contexts + 1;
              code := SaslBindInProgress;
            case WithoutReply =>
              if s.challengeOk {
                sasl := AwaitingSecurityLayerAck(contexts);
                challenge := Some(Challenge(contexts));
                code := SaslBindInProgress;
              } else {
                code := OperationsError;
              }
              contexts := contexts + 1;
          }
        case AwaitingApRepAck(c) =>
          if s.challengeOk {
            sasl := AwaitingSecurityLayerAck(c);
            challenge := Some(Challenge(c));
            code := SaslBindInProgress;
          } else {
            code := OperationsError;
          }
        case AwaitingSecurityLayerAck(c) =>
          if !s.credentials {
            return ProtocolError, None;
          }
          match s.Asked() {
            case NoProtection => code := Success;
            case Integrity =>
              var n := new SendCounter(1);
              sasl := SecurityLayerActive(c, false, n);
              code := Success;
            case Confidentiality =>
              var n := new SendCounter(1);
              sasl := SecurityLayerActive(c, true, n);
              code := Success;
            case Unsupported => code := UnwillingToPerform;
            case Unreadable => code := InvalidCredentials;
          }
        case SecurityLayerActive(_, _, _) =>
          sasl := taken;
          code := UnwillingToPerform;
      }
    }

    method HandleBind(b: BindRequest) returns (code: Code, challenge: Option<Token>)
      modifies this`sasl, this`contexts
      ensures var d := Negotiate(old(ModeOf(sasl)), fips, b, old(contexts));
              && ModeOf(sasl) == d.mode && code == d.code && challenge == d.challenge
              && contexts == old(contexts) + (if d.accepted then 1 else 0)
      ensures Counters(sasl) == old(Counters(sasl)) || Counters(sasl) == {} || fresh(Counters(sasl))
    {
      if b.Sasl? {
        code, challenge := HandleSaslBind(b.creds);
      } else {
        sasl := Unbound;
        challenge := None;
        code := match b
                case BadVersion => ProtocolError
                case Anonymous => Success
                case Simple(ok) => if ok then Success else InvalidCredentials
                case _ => AuthMethodNotSupported;
      }
    }

    method HandleRequest(r: Request)
      requires open
      modifies this, Counters(sasl)
      ensures Value() == Serve(old(Value()), fips, r)
      ensures Counters(sasl) == old(Counters(sasl)) || Counters(sasl) == {} || fresh(Counters(sasl))
    {
      match r {
        case Unbind => open := false;
        case Bind(b) =>
          var sendState := CloneState(sasl);
          var _, challenge := HandleBind(b);
          SendResponse(sendState, challenge);
        case Operation(n) =>
          for i := 0 to n
            invariant sasl == old(sasl)
            invariant Value() == Respond(old(Value()), i)
          {
            SendResponse(sasl, None);
          }
      }
    }

    /** The message loop: until the client unbinds or has no more to say. */
    method HandleConnection(rs: seq<Request>)
      requires Value() == START && Counters(sasl) == {}
      modifies this
      ensures Value() == ServeAll(fips, rs)
    {
      var i := 0;
      while i < |rs| && open
        invariant 0 <= i <= |rs|
        invariant Value() == ServeAll(fips, rs[..i])
        invariant Counters(sasl) == {} || fresh(Counters(sasl))
      {
        assert rs[..i + 1][..i] == rs[..i];
        HandleRequest(rs[i]);
        i := i + 1;
      }
      ClosedStaysClosed(fips, rs, i);
    }
  }

  lemma {:induction false} ClosedStaysClosed(fips: bool, rs: seq<Request>, i: nat)
    requires i <= |rs| && (i == |rs| || !ServeAll(fips, rs[..i]).open)
    ensures ServeAll(fips, rs) == ServeAll(fips, rs[..i])
    decreases |rs|
  {
    if i < |rs| {
      var front := rs[..|rs| - 1];
      assert front[..i] == rs[..i];
      ClosedStaysClosed(fips, front, i);
    } else {
      assert rs[..i] == rs;
    }
  }

  /** Nothing is sent after an unbind. */
  lemma NothingAfterUnbind(fips: bool, rs: seq<Request>, more: seq<Request>)
    ensures ServeAll(fips, rs + [Unbind] + more).frames == ServeAll(fips, rs).frames
  {
    var ended, all := rs + [Unbind], rs + [Unbind] + more;
    assert ended[..|rs|] == rs && all[..|ended|] == ended;
    ClosedStaysClosed(fips, all, |ended|);
  }
}
