/** Ticket issue: the AS exchange, the TGS exchange and the one-hop referral of
    `iron-kdc`, and chains of them. Random bytes and clock reads are arguments;
    encryption and DER are functions of which only laws are used. */
module Tickets {
  import opened Options
  import opened Bytes
  import opened Text
  import opened Crypto

  // -------------------------------------------------------------------- data

  datatype Name = Name(kind: int, parts: seq<string>)

  /** Times are whole seconds. */
  datatype SessionKey = SessionKey(etype: int, key: Key)
  datatype Flag = Initial | PreAuthent

  datatype TicketPart = TicketPart(
    flags: set<Flag>, key: SessionKey, crealm: string, cname: Name, authTime: int, endTime: int, pac: Option<seq<Byte>>)

  datatype RepPart = RepPart(
    key: SessionKey, nonce: nat, flags: set<Flag>, authTime: int, endTime: int, srealm: string, sname: Name)

  datatype Authenticator = Authenticator(crealm: string, cname: Name, ctime: int, subkey: Option<SessionKey>)

  datatype EncData = EncData(etype: int, kvno: Option<nat>, cipher: seq<Byte>)
  datatype Ticket = Ticket(realm: string, sname: Name, encPart: EncData)
  datatype ApReq = ApReq(ticket: Ticket, authenticator: EncData)
  datatype Reply = Reply(crealm: string, cname: Name, ticket: Ticket, encPart: EncData)

  datatype PaData = PaData(kind: int, value: seq<Byte>)
  datatype Request = Request(
    padata: seq<PaData>, realm: string, cname: Option<Name>, sname: Option<Name>, etypes: seq<int>, nonce: nat)

  datatype Code =
    | ClientUnknown | ServerUnknown | EtypeNoSupp | PreauthFailed | PreauthRequired
    | Skew | BadIntegrity | Expired | BadMatch | Generic

  type Result<T> = Options.Result<T, Code>

  // ------------------------------------------------------------- environment

  datatype StoredKey = StoredKey(enctype: Enctype, key: Key, kvno: nat)

  /** A principal's entry; `None` where the attribute does not parse. */
  datatype Principal = Principal(keys: Option<seq<StoredKey>>, salt: Option<seq<Byte>>)

  /** One entry, none or several, or a store that does not answer. */
  datatype Lookup = Unavailable | Unknown | Known(principal: Principal)

  /** `neighbours` are the realms of the partitions one hop away. */
  datatype Kdc = Kdc(realm: string, directory: map<string, Lookup>, neighbours: set<string>)

  function Find(kdc: Kdc, principal: string): Lookup {
    if principal in kdc.directory then kdc.directory[principal] else Unknown
  }

  /** DER encoding and the PAC, which the exchanges only pass along. */
  datatype Codec = Codec(
    readEncData: seq<Byte> -> Option<EncData>,
    readTimestamp: seq<Byte> -> Option<int>,
    readApReq: seq<Byte> -> Option<ApReq>,
    writeTicket: TicketPart -> Option<seq<Byte>>,
    readTicket: seq<Byte> -> Option<TicketPart>,
    writeRep: RepPart -> Option<seq<Byte>>,
    readRep: seq<Byte> -> Option<RepPart>,
    readAuthenticator: seq<Byte> -> Option<Authenticator>,
    pac: (Kdc, string, int, StoredKey, StoredKey) -> Option<seq<Byte>>)

  datatype World = World(crypto: Provider, codec: Codec)

  /** What is written reads back; what is sealed opens with its key, and with any
      key to nothing else. */
  ghost predicate LawfulWorld(w: World) {
    && Lawful(w.crypto)
    && (forall e, k, u, r, m, e', k', u' :: w.crypto.encrypt(e, k, u, r, m).Some? ==>
          w.crypto.decrypt(e', k', u', w.crypto.encrypt(e, k, u, r, m).value) in {None, Some(m)})
    && (forall t :: w.codec.writeTicket(t).Some? ==> w.codec.readTicket(w.codec.writeTicket(t).value) == Some(t))
    && (forall t :: w.codec.writeRep(t).Some? ==> w.codec.readRep(w.codec.writeRep(t).value) == Some(t))
  }

  /** The random bytes one exchange draws. */
  datatype Random = Random(sessionKey: Option<Key>, ticketConfounder: seq<Byte>, replyConfounder: seq<Byte>)

  // ------------------------------------------------------------------- clock

  /** A clock read in microseconds, cut to whole seconds. */
  function Now(read: nat): int {
    read / 1_000_000
  }

  function PlusSeconds(read: nat, seconds: int): int {
    (read + seconds * 1_000_000) / 1_000_000
  }

  function DiffSeconds(a: int, b: int): int {
    b - a
  }

  function Abs(x: int): nat {
    if x < 0 then 0 - x else x
  }

  const TICKET_LIFETIME_SECS := 36_000
  const CHANGEPW_LIFETIME_SECS := 300
  const CLOCK_SKEW_SECS := 300

  // ----------------------------------------------------------------- helpers

  function NameText(n: Name): string {
    Join(n.parts, "/")
  }

  function PrincipalText(n: Name, realm: string): string {
    NameText(n) + "@" + realm
  }

  function StringToName(s: string): Name {
    var parts := Split(s, '/');
    Name(if |parts| > 1 then 2 else 1, parts)
  }

  function KrbtgtName(realm: string): Name {
    StringToName("krbtgt/" + realm)
  }

  predicate IsChangepw(n: Name) {
    Lower(NameText(n)) == "kadmin/changepw"
  }

  function FindPa(ps: seq<PaData>, kind: int): Option<seq<Byte>> {
    if ps == [] then None
    else if ps[0].kind == kind then Some(ps[0].value)
    else FindPa(ps[1..], kind)
  }

  /** The first key of an enctype. */
  function KeyOf(ks: seq<StoredKey>, e: Enctype): (r: Option<StoredKey>)
    ensures r.Some? ==> r.value.enctype == e && r.value in ks
    ensures r.None? ==> forall i :: 0 <= i < |ks| ==> ks[i].enctype != e
  {
    if ks == [] then None
    else if ks[0].enctype == e then Some(ks[0])
    else KeyOf(ks[1..], e)
  }

  /** The first key of an enctype the client lists. */
  function KeyAmong(ks: seq<StoredKey>, etypes: seq<int>): (r: Option<StoredKey>)
    ensures r.Some? ==> r.value in ks && EtypeNumber(r.value.enctype) in etypes
    ensures r.None? ==> forall i :: 0 <= i < |ks| ==> EtypeNumber(ks[i].enctype) !in etypes
  {
    if ks == [] then None
    else if EtypeNumber(ks[0].enctype) in etypes then Some(ks[0])
    else KeyAmong(ks[1..], etypes)
  }

  function OrFirst(k: Option<StoredKey>, ks: seq<StoredKey>): Option<StoredKey> {
    if k.Some? then k else if ks == [] then None else Some(ks[0])
  }

  /** Seals an encoded message, as `EncData`. */
  function Seal(w: World, e: Enctype, key: Key, kvno: Option<nat>, usage: nat, confounder: seq<Byte>,
                message: Option<seq<Byte>>): Option<EncData>
  {
    if message.None? then None
    else
      match w.crypto.encrypt(e, key, usage, confounder, message.value)
      case None => None
      case Some(cipher) => Some(EncData(EtypeNumber(e), kvno, cipher))
  }

  function SealTicket(w: World, k: StoredKey, confounder: seq<Byte>, part: TicketPart): Option<EncData> {
    Seal(w, k.enctype, k.key, Some(k.kvno), 2, confounder, w.codec.writeTicket(part))
  }

  // ------------------------------------------------------------- AS exchange

  datatype AsReads = AsReads(check: nat, now: nat, later: nat)

  /** What an exchange sends, and what its ticket has sealed inside. */
  datatype Issue = Issue(reply: Reply, part: TicketPart, now: nat, later: nat)

  /** The key whose holder sent the timestamp. */
  function Preauthenticate(w: World, keys: seq<StoredKey>, value: seq<Byte>, check: nat): Result<StoredKey> {
    match w.codec.readEncData(value)
    case None => Err(PreauthFailed)
    case Some(enc) =>
      match EnctypeOf(enc.etype)
      case None => Err(EtypeNoSupp)
      case Some(enctype) =>
        match KeyOf(keys, enctype)
        case None => Err(PreauthFailed)
        case Some(key) =>
          match w.crypto.decrypt(enctype, key.key, 1, enc.cipher)
          case None => Err(PreauthFailed)
          case Some(plain) =>
            match w.codec.readTimestamp(plain)
            case None => Err(PreauthFailed)
            case Some(ts) => if Abs(DiffSeconds(Now(check), ts)) > CLOCK_SKEW_SECS then Err(Skew) else Ok(key)
  }

  function AsClient(w: World, kdc: Kdc, req: Request, check: nat): Result<StoredKey> {
    if req.cname.None? then Err(ClientUnknown)
    else
      match Find(kdc, PrincipalText(req.cname.value, req.realm))
      case Unavailable => Err(Generic)
      case Unknown => Err(ClientUnknown)
      case Known(client) =>
        if client.keys.None? || client.salt.None? then Err(ClientUnknown)
        else
          match FindPa(req.padata, 2)
          case None => Err(PreauthRequired)
          case Some(value) => Preauthenticate(w, client.keys.value, value, check)
  }

  /** The krbtgt key: the client's enctype when there is one, else the first. */
  function KrbtgtKey(kdc: Kdc, realm: string, e: Enctype): Option<StoredKey> {
    match Find(kdc, PrincipalText(KrbtgtName(realm), realm))
    case Unavailable => None
    case Unknown => None
    case Known(p) => if p.keys.None? then None else OrFirst(KeyOf(p.keys.value, e), p.keys.value)
  }

  /** The request is for a ticket to change a password with. */
  predicate AsksChangepw(req: Request) {
    req.sname.Some? && IsChangepw(req.sname.value)
  }

  function AsSname(req: Request): Name {
    if AsksChangepw(req) then req.sname.value else KrbtgtName(req.realm)
  }

  function AsExchange(w: World, kdc: Kdc, req: Request, clock: AsReads, rnd: Random): Result<Issue> {
    match AsClient(w, kdc, req, clock.check)
    case Err(c) => Err(c)
    case Ok(clientKey) =>
      match KrbtgtKey(kdc, req.realm, clientKey.enctype)
      case None => Err(Generic)
      case Some(krbtgtKey) =>
        if rnd.sessionKey.None? then Err(Generic)
        else
          var sname := AsSname(req);
          var session := SessionKey(EtypeNumber(clientKey.enctype), rnd.sessionKey.value);
          var authTime := Now(clock.now);
          var life := if IsChangepw(sname) then CHANGEPW_LIFETIME_SECS else TICKET_LIFETIME_SECS;
          var endTime := PlusSeconds(clock.later, life);
          var flags := {Initial, PreAuthent};
          var pac := w.codec.pac(kdc, PrincipalText(req.cname.value, req.realm), authTime, krbtgtKey, krbtgtKey);
          var part := TicketPart(flags, session, req.realm, req.cname.value, authTime, endTime, pac);
          var rep := RepPart(session, req.nonce, flags, authTime, endTime, req.realm, sname);
          Assemble(w, krbtgtKey, req.realm, sname, part,
                   Seal(w, clientKey.enctype, clientKey.key, Some(clientKey.kvno), 3, rnd.replyConfounder,
                        w.codec.writeRep(rep)),
                   rnd, clock.now, clock.later)
  }

  function Assemble(w: World, k: StoredKey, realm: string, sname: Name, part: TicketPart, enc: Option<EncData>,
                    rnd: Random, now: nat, later: nat): Result<Issue>
  {
    match SealTicket(w, k, rnd.ticketConfounder, part)
    case None => Err(Generic)
    case Some(sealed) =>
      if enc.None? then Err(Generic)
      else Ok(Issue(Reply(part.crealm, part.cname, Ticket(realm, sname, sealed), enc.value), part, now, later))
  }

  // ------------------------------------------------------------ TGS exchange

  datatype TgsReads = TgsReads(check: nat, referralNow: nat, referralLater: nat, now: nat, later: nat)

  /** What the AP-REQ proved. */
  datatype Caller = Caller(tgt: TicketPart, enctype: Enctype, issuer: StoredKey, subkey: Option<SessionKey>)

  /** The key a ticket's own issuer name selects here. */
  function IssuerKey(kdc: Kdc, t: Ticket): Option<StoredKey> {
    match Find(kdc, PrincipalText(t.sname, t.realm))
    case Unavailable => None
    case Unknown => None
    case Known(p) =>
      if p.keys.None? || EnctypeOf(t.encPart.etype).None? then None
      else KeyOf(p.keys.value, EnctypeOf(t.encPart.etype).value)
  }

  function OpenTicket(w: World, kdc: Kdc, t: Ticket): Result<(TicketPart, StoredKey)> {
    match IssuerKey(kdc, t)
    case None => Err(Generic)
    case Some(k) =>
      match w.crypto.decrypt(k.enctype, k.key, 2, t.encPart.cipher)
      case None => Err(BadIntegrity)
      case Some(plain) =>
        match w.codec.readTicket(plain)
        case None => Err(Generic)
        case Some(part) => Ok((part, k))
  }

  function CheckAuthenticator(w: World, tgt: TicketPart, e: Enctype, cipher: seq<Byte>, check: nat)
    : Result<Option<SessionKey>>
  {
    match w.crypto.decrypt(e, tgt.key.key, 7, cipher)
    case None => Err(BadIntegrity)
    case Some(plain) =>
      match w.codec.readAuthenticator(plain)
      case None => Err(Generic)
      case Some(a) =>
        if a.crealm != tgt.crealm || a.cname != tgt.cname then Err(BadMatch)
        else if Abs(DiffSeconds(a.ctime, Now(check))) > CLOCK_SKEW_SECS then Err(Skew)
        else Ok(a.subkey)
  }

  function Presented(w: World, req: Request): Option<ApReq> {
    match FindPa(req.padata, 1)
    case None => None
    case Some(value) => w.codec.readApReq(value)
  }

  function Authenticate(w: World, kdc: Kdc, req: Request, check: nat): Result<Caller> {
    match Presented(w, req)
    case None => Err(Generic)
    case Some(ap) =>
      match OpenTicket(w, kdc, ap.ticket)
      case Err(c) => Err(c)
      case Ok((tgt, k)) =>
        if DiffSeconds(tgt.endTime, Now(check)) > 0 then Err(Expired)
        else
          match CheckAuthenticator(w, tgt, k.enctype, ap.authenticator.cipher, check)
          case Err(c) => Err(c)
          case Ok(subkey) => Ok(Caller(tgt, k.enctype, k, subkey))
  }

  function Min(a: int, b: int): int {
    if a <= b then a else b
  }

  /** Never past the presented ticket, measured between two clock reads. */
  function TgsEnd(tgt: TicketPart, now: nat, later: nat): int {
    PlusSeconds(later, Min(TICKET_LIFETIME_SECS, DiffSeconds(Now(now), tgt.endTime)))
  }

  /** The authenticator's subkey with usage 9 when there is one of a known type,
      else the session key with usage 8. */
  function SealForCaller(w: World, caller: Caller, confounder: seq<Byte>, rep: RepPart): Option<EncData> {
    var (e, key, usage) := ReplyKey(caller);
    Seal(w, e, key, None, usage, confounder, w.codec.writeRep(rep))
  }

  function ReplyKey(caller: Caller): (Enctype, Key, nat) {
    match caller.subkey
    case None => (caller.enctype, caller.tgt.key.key, 8)
    case Some(sk) =>
      match EnctypeOf(sk.etype)
      case None => (caller.enctype, caller.tgt.key.key, 8)
      case Some(e) => (e, sk.key, 9)
  }

  function Grant(w: World, caller: Caller, k: StoredKey, realm: string, sname: Name, pac: Option<seq<Byte>>, nonce: nat,
                 rnd: Random, now: nat, later: nat): Result<Issue>
  {
    if rnd.sessionKey.None? then Err(Generic)
    else
      var session := SessionKey(EtypeNumber(k.enctype), rnd.sessionKey.value);
      var endTime := TgsEnd(caller.tgt, now, later);
      var part := TicketPart({}, session, caller.tgt.crealm, caller.tgt.cname, caller.tgt.authTime, endTime, pac);
      var rep := RepPart(session, nonce, {}, caller.tgt.authTime, endTime, realm, sname);
      Assemble(w, k, realm, sname, part, SealForCaller(w, caller, rnd.replyConfounder, rep), rnd, now, later)
  }

  function ReferralKey(kdc: Kdc, target: string, e: Enctype): Option<StoredKey> {
    match Find(kdc, "krbtgt/" + target + "@" + kdc.realm)
    case Unavailable => None
    case Unknown => None
    case Known(p) => if p.keys.None? then None else OrFirst(KeyOf(p.keys.value, e), p.keys.value)
  }

  /** A ticket for the krbtgt of a realm one hop away. */
  function Referral(w: World, kdc: Kdc, caller: Caller, req: Request, clock: TgsReads, rnd: Random): Option<Issue> {
    var target := Upper(req.realm);
    if target !in kdc.neighbours then None
    else
      match ReferralKey(kdc, target, caller.enctype)
      case None => None
      case Some(k) =>
        match Grant(w, caller, k, kdc.realm, KrbtgtName(target), None, req.nonce, rnd, clock.referralNow,
                    clock.referralLater)
        case Err(_) => None
        case Ok(issue) => Some(issue)
  }

  function ServiceKeys(kdc: Kdc, sname: Name, realm: string): Result<seq<StoredKey>> {
    match Find(kdc, if IsChangepw(sname) then "krbtgt/" + realm + "@" + realm else PrincipalText(sname, realm))
    case Unavailable => Err(ServerUnknown)
    case Unknown => Err(ServerUnknown)
    case Known(p) => if p.keys.None? then Err(Generic) else Ok(p.keys.value)
  }

  function Local(w: World, kdc: Kdc, caller: Caller, req: Request, clock: TgsReads, rnd: Random): Result<Issue> {
    if req.sname.None? then Err(ServerUnknown)
    else
      var sname := req.sname.value;
      match ServiceKeys(kdc, sname, req.realm)
      case Err(c) => Err(c)
      case Ok(ks) =>
        match OrFirst(KeyAmong(ks, req.etypes), ks)
        case None => Err(Generic)
        case Some(k) =>
          var pac := w.codec.pac(kdc, PrincipalText(caller.tgt.cname, caller.tgt.crealm), caller.tgt.authTime, k,
                                 caller.issuer);
          Grant(w, caller, k, req.realm, sname, pac, req.nonce, rnd, clock.now, clock.later)
  }

  function TgsExchange(w: World, kdc: Kdc, req: Request, clock: TgsReads, referralRnd: Random, rnd: Random)
    : Result<Issue>
  {
    match Authenticate(w, kdc, req, clock.check)
    case Err(c) => Err(c)
    case Ok(caller) =>
      if Upper(req.realm) != Upper(kdc.realm) then
        match Referral(w, kdc, caller, req, clock, referralRnd)
        case Some(issue) => Ok(issue)
        case None => Local(w, kdc, caller, req, clock, rnd)
      else Local(w, kdc, caller, req, clock, rnd)
  }

  // ------------------------------------------------------------ single steps

  /** The ticket is the sealed part, under some key. */
  ghost predicate Holds(w: World, t: Ticket, part: TicketPart) {
    exists k: StoredKey, r: seq<Byte> :: SealTicket(w, k, r, part) == Some(t.encPart)
  }

  /** A ticket opens to what was sealed in it, or not at all, whatever the KDC
      that opens it. */
  lemma OpensToItsPart(w: World, kdc: Kdc, t: Ticket, part: TicketPart)
    requires LawfulWorld(w) && Holds(w, t, part)
    ensures OpenTicket(w, kdc, t).Ok? ==> OpenTicket(w, kdc, t).value.0 == part
  {
    var k: StoredKey, r: seq<Byte> :| SealTicket(w, k, r, part) == Some(t.encPart);
    var m := w.codec.writeTicket(part).value;
    if OpenTicket(w, kdc, t).Ok? {
      var k' := IssuerKey(kdc, t).value;
      assert w.crypto.decrypt(k'.enctype, k'.key, 2, w.crypto.encrypt(k.enctype, k.key, 2, r, m).value)
            in {None, Some(m)};
    }
  }

  /** The key that sealed a ticket opens it. */
  lemma SealingKeyOpens(w: World, kdc: Kdc, t: Ticket, part: TicketPart, k: StoredKey, r: seq<Byte>)
    requires LawfulWorld(w) && SealTicket(w, k, r, part) == Some(t.encPart) && IssuerKey(kdc, t) == Some(k)
    ensures OpenTicket(w, kdc, t) == Ok((part, k))
  {
    var m := w.codec.writeTicket(part).value;
    assert w.crypto.decrypt(k.enctype, k.key, 2, w.crypto.encrypt(k.enctype, k.key, 2, r, m).value) == Some(m);
  }

  lemma EtypeRoundTrip(e: Enctype)
    ensures EnctypeOf(EtypeNumber(e)) == Some(e)
  {
  }

  /** The client side: the reply opens with the client's key to the session key,
      times and flags sealed in the ticket, and to the request's nonce. */
  ghost predicate ReplyAgrees(w: World, issue: Issue, e: Enctype, key: Key, usage: nat, nonce: nat) {
    exists m, rep ::
      && w.crypto.decrypt(e, key, usage, issue.reply.encPart.cipher) == Some(m) && w.codec.readRep(m) == Some(rep)
      && rep.key == issue.part.key && rep.flags == issue.part.flags && rep.nonce == nonce
      && rep.authTime == issue.part.authTime && rep.endTime == issue.part.endTime
      && rep.srealm == issue.reply.ticket.realm && rep.sname == issue.reply.ticket.sname
      && issue.reply.crealm == issue.part.crealm && issue.reply.cname == issue.part.cname
  }

  lemma SealedReplyOpens(w: World, e: Enctype, key: Key, kvno: Option<nat>, usage: nat, r: seq<Byte>, rep: RepPart)
    requires LawfulWorld(w) && Seal(w, e, key, kvno, usage, r, w.codec.writeRep(rep)).Some?
    ensures var enc := Seal(w, e, key, kvno, usage, r, w.codec.writeRep(rep)).value;
            && w.crypto.decrypt(e, key, usage, enc.cipher) == Some(w.codec.writeRep(rep).value)
            && w.codec.readRep(w.codec.writeRep(rep).value) == Some(rep)
  {
  }

  lemma AsReplyAgrees(w: World, kdc: Kdc, req: Request, clock: AsReads, rnd: Random)
    requires LawfulWorld(w) && AsExchange(w, kdc, req, clock, rnd).Ok?
    ensures var issue := AsExchange(w, kdc, req, clock, rnd).value;
            var k := AsClient(w, kdc, req, clock.check).value;
            && Holds(w, issue.reply.ticket, issue.part)
            && ReplyAgrees(w, issue, k.enctype, k.key, 3, req.nonce)
  {
    var issue := AsExchange(w, kdc, req, clock, rnd).value;
    var k := AsClient(w, kdc, req, clock.check).value;
    var part := issue.part;
    var rep := RepPart(part.key, req.nonce, part.flags, part.authTime, part.endTime, req.realm, AsSname(req));
    SealedReplyOpens(w, k.enctype, k.key, Some(k.kvno), 3, rnd.replyConfounder, rep);
    assert SealTicket(w, KrbtgtKey(kdc, req.realm, k.enctype).value, rnd.ticketConfounder, part)
          == Some(issue.reply.ticket.encPart);
  }

  lemma GrantAgrees(w: World, caller: Caller, k: StoredKey, realm: string, sname: Name, pac: Option<seq<Byte>>,
                    nonce: nat, rnd: Random, now: nat, later: nat)
    requires LawfulWorld(w) && Grant(w, caller, k, realm, sname, pac, nonce, rnd, now, later).Ok?
    ensures var issue := Grant(w, caller, k, realm, sname, pac, nonce, rnd, now, later).value;
            var (e, key, usage) := ReplyKey(caller);
            && Holds(w, issue.reply.ticket, issue.part)
            && ReplyAgrees(w, issue, e, key, usage, nonce)
  {
    var issue := Grant(w, caller, k, realm, sname, pac, nonce, rnd, now, later).value;
    var (e, key, usage) := ReplyKey(caller);
    var part := issue.part;
    var rep := RepPart(part.key, nonce, {}, part.authTime, part.endTime, realm, sname);
    SealedReplyOpens(w, e, key, None, usage, rnd.replyConfounder, rep);
    assert SealTicket(w, k, rnd.ticketConfounder, part) == Some(issue.reply.ticket.encPart);
  }

  /** Both outcomes of a TGS exchange are one grant. */
  ghost predicate Granted(w: World, caller: Caller, nonce: nat, issue: Issue) {
    exists k, realm, sname, pac, rnd ::
      Grant(w, caller, k, realm, sname, pac, nonce, rnd, issue.now, issue.later) == Ok(issue)
  }

  lemma TgsGrants(w: World, kdc: Kdc, req: Request, clock: TgsReads, referralRnd: Random, rnd: Random)
    requires TgsExchange(w, kdc, req, clock, referralRnd, rnd).Ok?
    ensures Granted(w, Authenticate(w, kdc, req, clock.check).value, req.nonce,
                    TgsExchange(w, kdc, req, clock, referralRnd, rnd).value)
    ensures var issue := TgsExchange(w, kdc, req, clock, referralRnd, rnd).value;
            (issue.now, issue.later) in {(clock.referralNow, clock.referralLater), (clock.now, clock.later)}
  {
    var caller := Authenticate(w, kdc, req, clock.check).value;
    var issue := TgsExchange(w, kdc, req, clock, referralRnd, rnd).value;
    if Upper(req.realm) != Upper(kdc.realm) && Referral(w, kdc, caller, req, clock, referralRnd).Some? {
      var target := Upper(req.realm);
      var k := ReferralKey(kdc, target, caller.enctype).value;
      assert Grant(w, caller, k, kdc.realm, KrbtgtName(target), None, req.nonce, referralRnd, issue.now, issue.later)
          == Ok(issue);
    } else {
      var sname := req.sname.value;
      var ks := ServiceKeys(kdc, sname, req.realm).value;
      var k := OrFirst(KeyAmong(ks, req.etypes), ks).value;
      var pac := w.codec.pac(kdc, PrincipalText(caller.tgt.cname, caller.tgt.crealm), caller.tgt.authTime, k,
                             caller.issuer);
      assert Grant(w, caller, k, req.realm, sname, pac, req.nonce, rnd, issue.now, issue.later) == Ok(issue);
    }
  }

  /** Every TGS or referral reply: it opens with the subkey or the session key,
      and the ticket's session key has the enctype of the ticket. */
  lemma TgsReplyAgrees(w: World, kdc: Kdc, req: Request, clock: TgsReads, referralRnd: Random, rnd: Random)
    requires LawfulWorld(w) && TgsExchange(w, kdc, req, clock, referralRnd, rnd).Ok?
    ensures var issue := TgsExchange(w, kdc, req, clock, referralRnd, rnd).value;
            var caller := Authenticate(w, kdc, req, clock.check).value;
            && Holds(w, issue.reply.ticket, issue.part)
            && issue.part.key.etype == issue.reply.ticket.encPart.etype
            && if caller.subkey.Some? && EnctypeOf(caller.subkey.value.etype).Some? then
                 ReplyAgrees(w, issue, EnctypeOf(caller.subkey.value.etype).value, caller.subkey.value.key, 9,
                             req.nonce)
               else
                 ReplyAgrees(w, issue, caller.enctype, caller.tgt.key.key, 8, req.nonce)
  {
    TgsGrants(w, kdc, req, clock, referralRnd, rnd);
    var caller := Authenticate(w, kdc, req, clock.check).value;
    var issue := TgsExchange(w, kdc, req, clock, referralRnd, rnd).value;
    var k, realm, sname, pac, rnd' :|
      Grant(w, caller, k, realm, sname, pac, req.nonce, rnd', issue.now, issue.later) == Ok(issue);
    GrantAgrees(w, caller, k, realm, sname, pac, req.nonce, rnd', issue.now, issue.later);
  }

  /** In an AS reply the session key has the enctype of the ticket, under which
      the TGS exchange will read the authenticator, exactly when the krbtgt has a
      key of the client's enctype. */
  lemma AsEnctypesAgree(w: World, kdc: Kdc, req: Request, clock: AsReads, rnd: Random)
    requires AsExchange(w, kdc, req, clock, rnd).Ok?
    ensures var issue := AsExchange(w, kdc, req, clock, rnd).value;
            var e := AsClient(w, kdc, req, clock.check).value.enctype;
            var krbtgt := Find(kdc, PrincipalText(KrbtgtName(req.realm), req.realm)).principal;
            issue.part.key.etype == issue.reply.ticket.encPart.etype
            <==> exists i :: 0 <= i < |krbtgt.keys.value| && krbtgt.keys.value[i].enctype == e
  {
    var e := AsClient(w, kdc, req, clock.check).value.enctype;
    var keys := Find(kdc, PrincipalText(KrbtgtName(req.realm), req.realm)).principal.keys.value;
    EtypeRoundTrip(e);
    EtypeRoundTrip(KrbtgtKey(kdc, req.realm, e).value.enctype);
    if KeyOf(keys, e).Some? {
      var i :| 0 <= i < |keys| && keys[i] == KeyOf(keys, e).value;
    }
  }

  // --------------------------------------------- enctypes that do not agree

  const CLIENT := Name(1, ["c"])

  /** A KDC whose krbtgt has a key of one enctype and whose client has another. */
  function TwoEnctypes(): Kdc {
    Kdc("R",
        map[PrincipalText(CLIENT, "R") := Known(Principal(Some([StoredKey(Aes128CtsHmacSha1, [], 1)]), Some([]))),
            PrincipalText(KrbtgtName("R"), "R") :=
              Known(Principal(Some([StoredKey(Aes256CtsHmacSha1, [], 1)]), Some([])))],
        {})
  }

  /** A codec that writes one ticket and one reply, and a cipher that leaves the
      message as it is. */
  function OneTicketWorld(part: TicketPart, rep: RepPart): World {
    World(
      Provider((e, k, u, r, m) => Some(m), (e, k, u, c) => Some(c), (e, k, u, m) => None),
      Codec(
        value => Some(EncData(17, None, [])),
        plain => Some(0),
        value => None,
        t => if t == part then Some([1]) else None,
        plain => if plain == [1] then Some(part) else None,
        t => if t == rep then Some([2]) else None,
        plain => if plain == [2] then Some(rep) else None,
        plain => None,
        (kdc, name, time, k, issuer) => None))
  }

  lemma OneTicketLawful(part: TicketPart, rep: RepPart)
    ensures LawfulWorld(OneTicketWorld(part, rep))
  {
  }

  lemma PlainRequest(realm: string)
    ensures NameText(KrbtgtName(realm)) == "krbtgt/" + realm && !IsChangepw(KrbtgtName(realm))
  {
    JoinOfSplit("krbtgt/" + realm, '/');
    assert Lower("krbtgt/" + realm)[1] == 'r' && "kadmin/changepw"[1] == 'a';
  }

  lemma TwoPrincipals()
    ensures Find(TwoEnctypes(), PrincipalText(CLIENT, "R"))
         == Known(Principal(Some([StoredKey(Aes128CtsHmacSha1, [], 1)]), Some([])))
    ensures Find(TwoEnctypes(), PrincipalText(KrbtgtName("R"), "R"))
         == Known(Principal(Some([StoredKey(Aes256CtsHmacSha1, [], 1)]), Some([])))
  {
    PlainRequest("R");
    assert PrincipalText(CLIENT, "R")[0] == 'c' && PrincipalText(KrbtgtName("R"), "R")[0] == 'k';
  }

  /** What is sealed when the client and the krbtgt have these keys. */
  lemma AsIssues(w: World, kdc: Kdc, req: Request, clock: AsReads, rnd: Random, part: TicketPart, rep: RepPart,
                 clientKey: StoredKey, krbtgtKey: StoredKey)
    requires req.cname.Some? && !AsksChangepw(req) && !IsChangepw(KrbtgtName(req.realm)) && rnd.sessionKey.Some?
    requires AsClient(w, kdc, req, clock.check) == Ok(clientKey)
    requires KrbtgtKey(kdc, req.realm, clientKey.enctype) == Some(krbtgtKey)
    requires
      part == TicketPart(
        {Initial, PreAuthent}, SessionKey(EtypeNumber(clientKey.enctype), rnd.sessionKey.value), req.realm,
        req.cname.value, Now(clock.now), PlusSeconds(clock.later, TICKET_LIFETIME_SECS),
        w.codec.pac(kdc, PrincipalText(req.cname.value, req.realm), Now(clock.now), krbtgtKey, krbtgtKey))
    requires
      rep == RepPart(
        part.key, req.nonce, part.flags, part.authTime, part.endTime, req.realm, KrbtgtName(req.realm))
    requires SealTicket(w, krbtgtKey, rnd.ticketConfounder, part).Some?
    requires Seal(w, clientKey.enctype, clientKey.key, Some(clientKey.kvno), 3, rnd.replyConfounder,
                  w.codec.writeRep(rep)).Some?
    ensures var issue := AsExchange(w, kdc, req, clock, rnd);
            && issue.Ok? && issue.value.part == part
            && issue.value.reply.ticket.encPart.etype == EtypeNumber(krbtgtKey.enctype)
  {
  }

  function OnePart(): TicketPart {
    TicketPart({Initial, PreAuthent}, SessionKey(17, []), "R", CLIENT, 0, 36_000, None)
  }

  function OneRep(): RepPart {
    RepPart(SessionKey(17, []), 0, {Initial, PreAuthent}, 0, 36_000, "R", KrbtgtName("R"))
  }

  function OneRequest(): Request {
    Request([PaData(2, [])], "R", Some(CLIENT), None, [], 0)
  }

  lemma ClientKnown(w: World, kdc: Kdc, req: Request, k: StoredKey)
    requires req.cname == Some(CLIENT) && req.realm == "R" && req.padata == [PaData(2, [])]
    requires Find(kdc, PrincipalText(CLIENT, "R")) == Known(Principal(Some([k]), Some([])))
    requires k.enctype == Aes128CtsHmacSha1
    requires w.codec.readEncData([]) == Some(EncData(17, None, [])) && w.codec.readTimestamp([]) == Some(0)
    requires w.crypto.decrypt(k.enctype, k.key, 1, []) == Some([])
    ensures AsClient(w, kdc, req, 0) == Ok(k)
  {
    assert FindPa(req.padata, 2) == Some([]);
    assert KeyOf([k], k.enctype) == Some(k);
  }

  /** Such a KDC answers, in a lawful world, with a session key of enctype 17 in a
      ticket of enctype 18. */
  lemma EnctypesDiffer()
    ensures var w := OneTicketWorld(OnePart(), OneRep());
            var issue := AsExchange(w, TwoEnctypes(), OneRequest(), AsReads(0, 0, 0), Random(Some([]), [], []));
            && LawfulWorld(w) && issue.Ok?
            && issue.value.part.key.etype == 17 && issue.value.reply.ticket.encPart.etype == 18
  {
    OneTicketLawful(OnePart(), OneRep());
    DifferIn(OneTicketWorld(OnePart(), OneRep()), TwoEnctypes());
  }

  /** The world writes the one ticket and the one reply, and its cipher does nothing. */
  ghost predicate Transparent(w: World) {
    && (forall e, k, u, r, m :: w.crypto.encrypt(e, k, u, r, m) == Some(m))
    && (forall e, k, u, c :: w.crypto.decrypt(e, k, u, c) == Some(c))
    && w.codec.readEncData([]) == Some(EncData(17, None, [])) && w.codec.readTimestamp([]) == Some(0)
    && w.codec.writeTicket(OnePart()).Some? && w.codec.writeRep(OneRep()).Some?
    && (forall kdc, name, time, k, issuer :: w.codec.pac(kdc, name, time, k, issuer) == None)
  }

  lemma DifferIn(w: World, kdc: Kdc)
    requires Transparent(w) && kdc == TwoEnctypes()
    ensures var issue := AsExchange(w, kdc, OneRequest(), AsReads(0, 0, 0), Random(Some([]), [], []));
            issue.Ok? && issue.value.part.key.etype == 17 && issue.value.reply.ticket.encPart.etype == 18
  {
    PlainRequest("R");
    TwoPrincipals();
    var clientKey, krbtgtKey := StoredKey(Aes128CtsHmacSha1, [], 1), StoredKey(Aes256CtsHmacSha1, [], 1);
    ClientKnown(w, kdc, OneRequest(), clientKey);
    SecondsAdd(0, TICKET_LIFETIME_SECS);
    AsIssues(w, kdc, OneRequest(), AsReads(0, 0, 0), Random(Some([]), [], []), OnePart(), OneRep(), clientKey,
             krbtgtKey);
  }

  // ------------------------------------------------------------------ chains

  datatype AsStep = AsStep(kdc: Kdc, req: Request, clock: AsReads, rnd: Random)
  datatype TgsStep = TgsStep(kdc: Kdc, req: Request, clock: TgsReads, referralRnd: Random, rnd: Random)

  /** The issue at the end of a chain in which every exchange, each at a KDC of
      its own, is presented the ticket the one before it issued. */
  function ChainEnd(w: World, first: AsStep, steps: seq<TgsStep>): Option<Issue> {
    if steps == [] then
      match AsExchange(w, first.kdc, first.req, first.clock, first.rnd)
      case Err(_) => None
      case Ok(issue) => Some(issue)
    else
      var s := steps[|steps| - 1];
      match ChainEnd(w, first, steps[..|steps| - 1])
      case None => None
      case Some(previous) =>
        match Presented(w, s.req)
        case None => None
        case Some(ap) =>
          if ap.ticket != previous.reply.ticket then None
          else
            match TgsExchange(w, s.kdc, s.req, s.clock, s.referralRnd, s.rnd)
            case Err(_) => None
            case Ok(issue) => Some(issue)
  }

  /** The clock's advance between the two reads that set the end time. */
  function Elapsed(i: Issue): int {
    Now(i.later) - Now(i.now)
  }

  /** The advances of all the TGS exchanges of a chain. */
  function TotalElapsed(w: World, first: AsStep, steps: seq<TgsStep>): int
    requires ChainEnd(w, first, steps).Some?
  {
    if steps == [] then 0
    else TotalElapsed(w, first, steps[..|steps| - 1]) + Elapsed(ChainEnd(w, first, steps).value)
  }

  lemma SecondsAdd(read: nat, seconds: int)
    ensures PlusSeconds(read, seconds) == Now(read) + seconds
  {
  }

  lemma GrantInherits(w: World, caller: Caller, nonce: nat, issue: Issue)
    requires Granted(w, caller, nonce, issue)
    ensures issue.part.cname == caller.tgt.cname && issue.part.crealm == caller.tgt.crealm
    ensures issue.part.authTime == caller.tgt.authTime && issue.part.flags == {}
    ensures issue.part.endTime <= caller.tgt.endTime + Elapsed(issue)
    ensures issue.part.endTime <= Now(issue.later) + 36_000
    ensures issue.part.endTime == caller.tgt.endTime + Elapsed(issue) || issue.part.endTime == Now(issue.later) + 36_000
  {
    SecondsAdd(issue.later, Min(TICKET_LIFETIME_SECS, DiffSeconds(Now(issue.now), caller.tgt.endTime)));
  }

  lemma {:induction false} ChainEndHolds(w: World, first: AsStep, steps: seq<TgsStep>)
    requires LawfulWorld(w) && ChainEnd(w, first, steps).Some?
    ensures Holds(w, ChainEnd(w, first, steps).value.reply.ticket, ChainEnd(w, first, steps).value.part)
  {
    if steps == [] {
      AsReplyAgrees(w, first.kdc, first.req, first.clock, first.rnd);
    } else {
      var s := steps[|steps| - 1];
      TgsReplyAgrees(w, s.kdc, s.req, s.clock, s.referralRnd, s.rnd);
    }
  }

  /** The last exchange of a chain works on the contents of the ticket before. */
  lemma StepCaller(w: World, first: AsStep, steps: seq<TgsStep>)
    requires LawfulWorld(w) && steps != [] && ChainEnd(w, first, steps).Some?
    ensures var s := steps[|steps| - 1];
            var caller := Authenticate(w, s.kdc, s.req, s.clock.check);
            && caller.Ok? && caller.value.tgt == ChainEnd(w, first, steps[..|steps| - 1]).value.part
            && Granted(w, caller.value, s.req.nonce, ChainEnd(w, first, steps).value)
  {
    var s, front := steps[|steps| - 1], steps[..|steps| - 1];
    ChainEndHolds(w, first, front);
    var previous := ChainEnd(w, first, front).value;
    OpensToItsPart(w, s.kdc, previous.reply.ticket, previous.part);
    TgsGrants(w, s.kdc, s.req, s.clock, s.referralRnd, s.rnd);
  }

  /** Along every chain the client and its authentication time stay, INITIAL is
      on the AS ticket alone, and the end time outgrows that of the AS ticket by
      no more than the clock advanced between the paired reads. */
  lemma {:induction false} TicketChain(w: World, first: AsStep, steps: seq<TgsStep>)
    requires LawfulWorld(w) && ChainEnd(w, first, steps).Some?
    ensures ChainEnd(w, first, []).Some?
    ensures var tgt := ChainEnd(w, first, []).value.part;
            var last := ChainEnd(w, first, steps).value.part;
            && Some(last.cname) == first.req.cname && last.crealm == first.req.realm
            && last.authTime == tgt.authTime == Now(first.clock.now)
            && tgt.endTime == Now(first.clock.later) + (if IsChangepw(AsSname(first.req)) then 300 else 36_000)
            && (Initial in last.flags <==> steps == [])
            && last.endTime <= tgt.endTime + TotalElapsed(w, first, steps)
  {
    if steps == [] {
      SecondsAdd(first.clock.later, CHANGEPW_LIFETIME_SECS);
      SecondsAdd(first.clock.later, TICKET_LIFETIME_SECS);
    } else {
      var front := steps[..|steps| - 1];
      var s := steps[|steps| - 1];
      TicketChain(w, first, front);
      StepCaller(w, first, steps);
      GrantInherits(w, Authenticate(w, s.kdc, s.req, s.clock.check).value, s.req.nonce,
                    ChainEnd(w, first, steps).value);
    }
  }

  /** No exchange of the chain saw its clock move between the paired reads. */
  predicate Frozen(steps: seq<TgsStep>) {
    forall i :: 0 <= i < |steps| ==>
      && Now(steps[i].clock.now) == Now(steps[i].clock.later)
      && Now(steps[i].clock.referralNow) == Now(steps[i].clock.referralLater)
  }

  lemma {:induction false} FrozenElapsed(w: World, first: AsStep, steps: seq<TgsStep>)
    requires ChainEnd(w, first, steps).Some? && Frozen(steps)
    ensures TotalElapsed(w, first, steps) == 0
  {
    if steps != [] {
      var s := steps[|steps| - 1];
      FrozenElapsed(w, first, steps[..|steps| - 1]);
      TgsGrants(w, s.kdc, s.req, s.clock, s.referralRnd, s.rnd);
    }
  }

  /** Under clocks that stand still no ticket outlives the AS ticket. */
  lemma FrozenChain(w: World, first: AsStep, steps: seq<TgsStep>)
    requires LawfulWorld(w) && ChainEnd(w, first, steps).Some? && Frozen(steps)
    ensures ChainEnd(w, first, []).Some?
    ensures ChainEnd(w, first, steps).value.part.endTime <= ChainEnd(w, first, []).value.part.endTime
  {
    TicketChain(w, first, steps);
    FrozenElapsed(w, first, steps);
  }

  // --------------------------------------------------------- an honest client

  /** The client of any AS reply presents its ticket to the same KDC, with an
      authenticator sealed with the session key under some enctype: it is
      authenticated exactly when the ticket and the authenticator open and the end
      time and the skew allow it. A ticket that is not for changing a password
      opens, and the authenticator does if it was sealed under the enctype of the
      key that opens the ticket. */
  lemma HolderIsRecognised(w: World, kdc: Kdc, first: AsStep, req: Request, check: nat, a: Authenticator, e: Enctype,
                           r: seq<Byte>, message: seq<Byte>)
    requires LawfulWorld(w) && first.kdc == kdc && ChainEnd(w, first, []).Some?
    requires var issue := ChainEnd(w, first, []).value;
             && Presented(w, req).Some? && Presented(w, req).value.ticket == issue.reply.ticket
             && a.crealm == issue.part.crealm && a.cname == issue.part.cname
             && w.codec.readAuthenticator(message) == Some(a)
             && w.crypto.encrypt(e, issue.part.key.key, 7, r, message)
                == Some(Presented(w, req).value.authenticator.cipher)
    ensures var issue := ChainEnd(w, first, []).value;
            var open := OpenTicket(w, kdc, issue.reply.ticket);
            && (!AsksChangepw(first.req) ==> open.Ok?)
            && (Authenticate(w, kdc, req, check).Ok? <==>
                && open.Ok? && AuthenticatorOpens(w, open.value.1, issue, req)
                && Now(check) <= issue.part.endTime && -300 <= a.ctime - Now(check) <= 300)
            && (open.Ok? && open.value.1.enctype == e ==> AuthenticatorOpens(w, open.value.1, issue, req))
            && (Authenticate(w, kdc, req, check).Ok? ==> Authenticate(w, kdc, req, check).value.tgt == issue.part)
  {
    var issue := ChainEnd(w, first, []).value;
    if !AsksChangepw(first.req) {
      TgtOpens(w, first);
    }
    AsReplyAgrees(w, kdc, first.req, first.clock, first.rnd);
    OpensToItsPart(w, kdc, issue.reply.ticket, issue.part);
    var open := OpenTicket(w, kdc, issue.reply.ticket);
    if open.Ok? {
      var cipher := Presented(w, req).value.authenticator.cipher;
      SealedOpens(w, e, open.value.1.enctype, issue.part.key.key, r, message, cipher);
      AuthenticatorChecked(w, issue.part, open.value.1.enctype, cipher, check, a, message);
    }
  }

  lemma SealedOpens(w: World, e: Enctype, d: Enctype, key: Key, r: seq<Byte>, message: seq<Byte>, cipher: seq<Byte>)
    requires LawfulWorld(w) && w.crypto.encrypt(e, key, 7, r, message) == Some(cipher)
    ensures w.crypto.decrypt(d, key, 7, cipher) in {None, Some(message)}
    ensures w.crypto.decrypt(e, key, 7, cipher) == Some(message)
  {
  }

  /** An authenticator of the ticket's own client, where it opens at all, is refused
      for the skew only. */
  lemma AuthenticatorChecked(w: World, tgt: TicketPart, d: Enctype, cipher: seq<Byte>, check: nat, a: Authenticator,
                             message: seq<Byte>)
    requires w.crypto.decrypt(d, tgt.key.key, 7, cipher) in {None, Some(message)}
    requires w.codec.readAuthenticator(message) == Some(a) && a.crealm == tgt.crealm && a.cname == tgt.cname
    ensures CheckAuthenticator(w, tgt, d, cipher, check).Ok? <==>
              w.crypto.decrypt(d, tgt.key.key, 7, cipher).Some? && -300 <= a.ctime - Now(check) <= 300
  {
  }

  predicate AuthenticatorOpens(w: World, k: StoredKey, issue: Issue, req: Request)
    requires Presented(w, req).Some?
  {
    w.crypto.decrypt(k.enctype, issue.part.key.key, 7, Presented(w, req).value.authenticator.cipher).Some?
  }

  /** A ticket that is not for changing a password opens with the key that sealed it. */
  lemma TgtOpens(w: World, first: AsStep)
    requires LawfulWorld(w) && ChainEnd(w, first, []).Some? && !AsksChangepw(first.req)
    ensures var issue := ChainEnd(w, first, []).value;
            var e := AsClient(w, first.kdc, first.req, first.clock.check).value.enctype;
            var k := KrbtgtKey(first.kdc, first.req.realm, e).value;
            OpenTicket(w, first.kdc, issue.reply.ticket) == Ok((issue.part, k))
  {
    var issue := ChainEnd(w, first, []).value;
    var e := AsClient(w, first.kdc, first.req, first.clock.check).value.enctype;
    var k := KrbtgtKey(first.kdc, first.req.realm, e).value;
    SameKeyAgain(first.kdc, first.req.realm, e);
    SealingKeyOpens(w, first.kdc, issue.reply.ticket, issue.part, k, first.rnd.ticketConfounder);
  }

  /** A ticket for changing a password is sealed with the krbtgt key and looked up
      under its own name: a TGS exchange refuses it unless that name has keys. */
  lemma ChangepwTicketIsRefused(w: World, first: AsStep, req: Request, check: nat)
    requires ChainEnd(w, first, []).Some? && AsksChangepw(first.req)
    requires Presented(w, req).Some? && Presented(w, req).value.ticket == ChainEnd(w, first, []).value.reply.ticket
    requires !Find(first.kdc, PrincipalText(first.req.sname.value, first.req.realm)).Known?
    ensures Authenticate(w, first.kdc, req, check) == Err(Generic)
  {
  }

  /** The key that seals a TGT is the one its issuer name selects. */
  lemma SameKeyAgain(kdc: Kdc, realm: string, e: Enctype)
    requires KrbtgtKey(kdc, realm, e).Some?
    ensures var k := KrbtgtKey(kdc, realm, e).value;
            forall enc: EncData :: enc.etype == EtypeNumber(k.enctype) ==>
              IssuerKey(kdc, Ticket(realm, KrbtgtName(realm), enc)) == Some(k)
  {
    EtypeRoundTrip(KrbtgtKey(kdc, realm, e).value.enctype);
  }

  /** A client that seals a timestamp with the key the directory has for it is
      recognised exactly when the clocks differ by at most 300 seconds. */
  lemma ClientIsRecognised(w: World, kdc: Kdc, req: Request, check: nat, client: Principal, k: StoredKey,
                           value: seq<Byte>, enc: EncData, r: seq<Byte>, message: seq<Byte>, ts: int)
    requires LawfulWorld(w) && req.cname.Some? && Find(kdc, PrincipalText(req.cname.value, req.realm)) == Known(client)
    requires client.keys.Some? && client.salt.Some? && KeyOf(client.keys.value, k.enctype) == Some(k)
    requires FindPa(req.padata, 2) == Some(value) && w.codec.readEncData(value) == Some(enc)
    requires enc.etype == EtypeNumber(k.enctype)
    requires w.crypto.encrypt(k.enctype, k.key, 1, r, message) == Some(enc.cipher)
    requires w.codec.readTimestamp(message) == Some(ts)
    ensures AsClient(w, kdc, req, check) == if -300 <= ts - Now(check) <= 300 then Ok(k) else Err(Skew)
  {
    EtypeRoundTrip(k.enctype);
    assert w.crypto.decrypt(k.enctype, k.key, 1, w.crypto.encrypt(k.enctype, k.key, 1, r, message).value)
          == Some(message);
  }

  // ---------------------------------------------------------- whom a ticket is for

  lemma ChosenAgain(ks: seq<StoredKey>, e: Enctype)
    requires OrFirst(KeyOf(ks, e), ks).Some?
    ensures var k := OrFirst(KeyOf(ks, e), ks).value;
            KeyOf(ks, k.enctype) == Some(k)
  {
  }

  lemma ReferralName(target: string, realm: string)
    ensures PrincipalText(KrbtgtName(target), realm) == "krbtgt/" + target + "@" + realm
  {
    JoinOfSplit("krbtgt/" + target, '/');
  }

  /** A referral ticket opens at the next KDC, provided that one has the same keys
      under the inter-realm name. */
  lemma ReferralOpensNextHop(w: World, kdc: Kdc, next: Kdc, caller: Caller, req: Request, clock: TgsReads, rnd: Random)
    requires LawfulWorld(w) && Referral(w, kdc, caller, req, clock, rnd).Some?
    requires var name := "krbtgt/" + Upper(req.realm) + "@" + kdc.realm;
             Find(next, name) == Find(kdc, name)
    ensures var issue := Referral(w, kdc, caller, req, clock, rnd).value;
            && OpenTicket(w, next, issue.reply.ticket).Ok?
            && OpenTicket(w, next, issue.reply.ticket).value.0 == issue.part
  {
    var target := Upper(req.realm);
    var issue := Referral(w, kdc, caller, req, clock, rnd).value;
    var k := ReferralKey(kdc, target, caller.enctype).value;
    var keys := Find(kdc, "krbtgt/" + target + "@" + kdc.realm).principal.keys.value;
    ReferralName(target, kdc.realm);
    ChosenAgain(keys, caller.enctype);
    EtypeRoundTrip(k.enctype);
    SealingKeyOpens(w, next, issue.reply.ticket, issue.part, k, rnd.ticketConfounder);
  }

  /** A local ticket is sealed for the service that was asked for, with one of its
      keys, of a type the client listed whenever the service has one. */
  lemma LocalTicketIsForService(w: World, kdc: Kdc, caller: Caller, req: Request, clock: TgsReads, rnd: Random)
    requires Local(w, kdc, caller, req, clock, rnd).Ok?
    ensures req.sname.Some?
    ensures var issue := Local(w, kdc, caller, req, clock, rnd).value;
            var service := Join(req.sname.value.parts, "/");
            var holder := if Lower(service) == "kadmin/changepw" then "krbtgt/" + req.realm else service;
            && Find(kdc, holder + "@" + req.realm).Known?
            && Find(kdc, holder + "@" + req.realm).principal.keys.Some?
            && var ks := Find(kdc, holder + "@" + req.realm).principal.keys.value;
            && issue.reply.ticket.realm == req.realm && Some(issue.reply.ticket.sname) == req.sname
            && exists k, r ::
                 && k in ks && SealTicket(w, k, r, issue.part) == Some(issue.reply.ticket.encPart)
                 && ((exists i :: 0 <= i < |ks| && EtypeNumber(ks[i].enctype) in req.etypes) ==>
                     EtypeNumber(k.enctype) in req.etypes)
  {
    var issue := Local(w, kdc, caller, req, clock, rnd).value;
    var ks := ServiceKeys(kdc, req.sname.value, req.realm).value;
    var k := OrFirst(KeyAmong(ks, req.etypes), ks).value;
    assert SealTicket(w, k, rnd.ticketConfounder, issue.part) == Some(issue.reply.ticket.encPart);
  }
}
