/** When a KDC issues a ticket, to whom, and under which key: the conditions of the
    AS and TGS exchanges in terms of the request and the directory. */
module TicketRules {
  import opened Options
  import opened Bytes
  import opened Text
  import opened Crypto
  import opened Tickets

  // ------------------------------------------------------------- the directory

  /** The directory has one entry of that name, with these keys. */
  predicate HasKeys(kdc: Kdc, name: string, ks: seq<StoredKey>) {
    name in kdc.directory && kdc.directory[name].Known? && kdc.directory[name].principal.keys == Some(ks)
  }

  /** The directory has one entry of that name, with some keys in it. */
  predicate HasSomeKey(kdc: Kdc, name: string) {
    && name in kdc.directory && kdc.directory[name].Known?
    && kdc.directory[name].principal.keys.Some? && kdc.directory[name].principal.keys.value != []
  }

  predicate FirstAt(ks: seq<StoredKey>, k: StoredKey, i: int) {
    0 <= i < |ks| && ks[i] == k && forall j :: 0 <= j < i ==> ks[j].enctype != k.enctype
  }

  /** `k` is the first of the keys that has its enctype. */
  ghost predicate FirstOfItsType(ks: seq<StoredKey>, k: StoredKey) {
    exists i: int :: FirstAt(ks, k, i)
  }

  lemma FirstInRest(ks: seq<StoredKey>, k: StoredKey)
    requires ks != [] && ks[0].enctype != k.enctype
    ensures FirstOfItsType(ks, k) <==> FirstOfItsType(ks[1..], k)
  {
    var rest := ks[1..];
    assert forall i :: 0 <= i < |rest| ==> rest[i] == ks[i + 1];
    if FirstOfItsType(ks, k) {
      var i :| FirstAt(ks, k, i);
      assert FirstAt(rest, k, i - 1);
    }
    if FirstOfItsType(rest, k) {
      var i :| FirstAt(rest, k, i);
      assert FirstAt(ks, k, i + 1);
    }
  }

  lemma FirstIsHead(ks: seq<StoredKey>, k: StoredKey)
    requires ks != [] && ks[0].enctype == k.enctype
    ensures FirstOfItsType(ks, k) <==> ks[0] == k
  {
    if ks[0] == k {
      assert FirstAt(ks, k, 0);
    }
  }

  lemma {:induction false} KeyOfIff(ks: seq<StoredKey>, e: Enctype, k: StoredKey)
    ensures KeyOf(ks, e) == Some(k) <==> k.enctype == e && FirstOfItsType(ks, k)
  {
    if ks != [] {
      KeyOfIff(ks[1..], e, k);
      if ks[0].enctype == k.enctype {
        FirstIsHead(ks, k);
      } else {
        FirstInRest(ks, k);
      }
    }
  }

  lemma EtypeOfIff(n: int, e: Enctype)
    ensures EnctypeOf(n) == Some(e) <==> n == EtypeNumber(e)
    ensures EtypeNumber(Aes128CtsHmacSha1) == 17 && EtypeNumber(Aes256CtsHmacSha1) == 18
    ensures EtypeNumber(Aes128CtsHmacSha256) == 19 && EtypeNumber(Aes256CtsHmacSha384) == 20
  {
  }

  /** The first pre-authentication datum of a kind. */
  predicate FirstPa(ps: seq<PaData>, kind: int, i: int) {
    0 <= i < |ps| && ps[i].kind == kind && forall j :: 0 <= j < i ==> ps[j].kind != kind
  }

  lemma {:induction false} FindPaIs(ps: seq<PaData>, kind: int)
    ensures FindPa(ps, kind) == None <==> forall i :: 0 <= i < |ps| ==> ps[i].kind != kind
    ensures forall i :: FirstPa(ps, kind, i) ==> FindPa(ps, kind) == Some(ps[i].value)
    ensures FindPa(ps, kind).Some? ==> exists i :: FirstPa(ps, kind, i)
  {
    if ps != [] {
      var rest := ps[1..];
      FindPaIs(rest, kind);
      assert forall i :: 0 <= i < |rest| ==> rest[i] == ps[i + 1];
      if ps[0].kind == kind {
        assert FirstPa(ps, kind, 0);
      } else {
        forall i | FirstPa(ps, kind, i)
          ensures FindPa(ps, kind) == Some(ps[i].value)
        {
          assert rest[i - 1] == ps[i] && FirstPa(rest, kind, i - 1);
        }
        if FindPa(rest, kind).Some? {
          var i :| FirstPa(rest, kind, i);
          assert FirstPa(ps, kind, i + 1);
        }
      }
    }
  }

  /** Encoding and sealing do not fail. */
  ghost predicate Able(w: World) {
    && (forall t :: w.codec.writeTicket(t).Some?) && (forall t :: w.codec.writeRep(t).Some?)
    && (forall e, k, u, r, m :: w.crypto.encrypt(e, k, u, r, m).Some?)
  }

  // --------------------------------------------------------------- AS exchange

  /** The client has an entry with keys and a salt, and its first encrypted timestamp
      opens with `k`, the first key of its type, to a time within 300 seconds. */
  ghost predicate ProvesKey(w: World, kdc: Kdc, req: Request, check: nat, k: StoredKey, i: int, enc: EncData,
                            plain: seq<Byte>, ts: int)
  {
    && req.cname.Some?
    && var name := Join(req.cname.value.parts, "/") + "@" + req.realm;
    && name in kdc.directory && kdc.directory[name].Known?
    && kdc.directory[name].principal.keys.Some? && kdc.directory[name].principal.salt.Some?
    && FirstPa(req.padata, 2, i) && w.codec.readEncData(req.padata[i].value) == Some(enc)
    && FirstOfItsType(kdc.directory[name].principal.keys.value, k) && enc.etype == EtypeNumber(k.enctype)
    && w.crypto.decrypt(k.enctype, k.key, 1, enc.cipher) == Some(plain) && w.codec.readTimestamp(plain) == Some(ts)
    && -300 <= ts - check / 1_000_000 <= 300
  }

  lemma PreauthenticatedIff(w: World, ks: seq<StoredKey>, value: seq<Byte>, check: nat, k: StoredKey)
    ensures Preauthenticate(w, ks, value, check) == Ok(k) <==>
              exists enc, plain, ts ::
                && w.codec.readEncData(value) == Some(enc)
                && FirstOfItsType(ks, k) && enc.etype == EtypeNumber(k.enctype)
                && w.crypto.decrypt(k.enctype, k.key, 1, enc.cipher) == Some(plain)
                && w.codec.readTimestamp(plain) == Some(ts) && -300 <= ts - check / 1_000_000 <= 300
  {
    if w.codec.readEncData(value).Some? {
      var enc := w.codec.readEncData(value).value;
      EtypeOfIff(enc.etype, k.enctype);
      if EnctypeOf(enc.etype).Some? {
        KeyOfIff(ks, EnctypeOf(enc.etype).value, k);
      }
    }
  }

  /** The timestamp opens with `k` to `ts`. */
  ghost predicate OpensTimestamp(w: World, ks: seq<StoredKey>, value: seq<Byte>, k: StoredKey, ts: int) {
    exists enc, plain ::
      && w.codec.readEncData(value) == Some(enc) && FirstOfItsType(ks, k) && enc.etype == EtypeNumber(k.enctype)
      && w.crypto.decrypt(k.enctype, k.key, 1, enc.cipher) == Some(plain) && w.codec.readTimestamp(plain) == Some(ts)
  }

  /** Which timestamps are refused as too far off, and which for their enctype;
      whatever else is wrong is a failure to authenticate. */
  lemma PreauthRefusals(w: World, ks: seq<StoredKey>, value: seq<Byte>, check: nat)
    ensures Preauthenticate(w, ks, value, check) == Err(Skew) <==>
              exists k, ts :: OpensTimestamp(w, ks, value, k, ts) && !(-300 <= ts - check / 1_000_000 <= 300)
    ensures Preauthenticate(w, ks, value, check) == Err(EtypeNoSupp) <==>
              var enc := w.codec.readEncData(value);
              enc.Some? && enc.value.etype !in {17, 18, 19, 20}
    ensures Preauthenticate(w, ks, value, check).Err? ==>
              Preauthenticate(w, ks, value, check).error in {PreauthFailed, EtypeNoSupp, Skew}
  {
    if Preauthenticate(w, ks, value, check) == Err(Skew) {
      var enc := w.codec.readEncData(value).value;
      var k := KeyOf(ks, EnctypeOf(enc.etype).value).value;
      EtypeOfIff(enc.etype, k.enctype);
      KeyOfIff(ks, k.enctype, k);
      var plain := w.crypto.decrypt(k.enctype, k.key, 1, enc.cipher).value;
      assert OpensTimestamp(w, ks, value, k, w.codec.readTimestamp(plain).value);
    }
    forall k, ts | OpensTimestamp(w, ks, value, k, ts) && !(-300 <= ts - check / 1_000_000 <= 300)
      ensures Preauthenticate(w, ks, value, check) == Err(Skew)
    {
      EtypeOfIff(w.codec.readEncData(value).value.etype, k.enctype);
      KeyOfIff(ks, k.enctype, k);
    }
  }

  /** Which clients are unknown: those not named, not in the directory, or in it without
      keys or salt. A directory that cannot be asked is another matter. */
  lemma ClientUnknownIff(w: World, kdc: Kdc, req: Request, check: nat)
    ensures AsClient(w, kdc, req, check) == Err(ClientUnknown) <==>
              req.cname.None? ||
              var name := Join(req.cname.value.parts, "/") + "@" + req.realm;
              || name !in kdc.directory || kdc.directory[name].Unknown?
              || (kdc.directory[name].Known? && (kdc.directory[name].principal.keys.None?
                                                 || kdc.directory[name].principal.salt.None?))
    ensures AsClient(w, kdc, req, check) == Err(Generic) <==>
              && req.cname.Some?
              && var name := Join(req.cname.value.parts, "/") + "@" + req.realm;
              name in kdc.directory && kdc.directory[name].Unavailable?
  {
    if req.cname.Some? && Find(kdc, PrincipalText(req.cname.value, req.realm)).Known? {
      var p := Find(kdc, PrincipalText(req.cname.value, req.realm)).principal;
      if p.keys.Some? && FindPa(req.padata, 2).Some? {
        PreauthRefusals(w, p.keys.value, FindPa(req.padata, 2).value, check);
      }
    }
  }

  /** A client is recognised by a key exactly when it proves that it has it. */
  lemma AsClientIff(w: World, kdc: Kdc, req: Request, check: nat, k: StoredKey)
    ensures AsClient(w, kdc, req, check) == Ok(k) <==>
              exists i, enc, plain, ts :: ProvesKey(w, kdc, req, check, k, i, enc, plain, ts)
  {
    FindPaIs(req.padata, 2);
    if req.cname.Some? && Find(kdc, PrincipalText(req.cname.value, req.realm)).Known? {
      var p := Find(kdc, PrincipalText(req.cname.value, req.realm)).principal;
      if p.keys.Some? && FindPa(req.padata, 2).Some? {
        var i :| FirstPa(req.padata, 2, i);
        PreauthenticatedIff(w, p.keys.value, req.padata[i].value, check, k);
        if p.salt.Some? && Preauthenticate(w, p.keys.value, req.padata[i].value, check) == Ok(k) {
          var enc, plain, ts :|
            && w.codec.readEncData(req.padata[i].value) == Some(enc) && FirstOfItsType(p.keys.value, k)
            && enc.etype == EtypeNumber(k.enctype)
            && w.crypto.decrypt(k.enctype, k.key, 1, enc.cipher) == Some(plain)
            && w.codec.readTimestamp(plain) == Some(ts) && -300 <= ts - check / 1_000_000 <= 300;
          assert ProvesKey(w, kdc, req, check, k, i, enc, plain, ts);
        }
      }
    }
    forall i, enc, plain, ts | ProvesKey(w, kdc, req, check, k, i, enc, plain, ts)
      ensures AsClient(w, kdc, req, check) == Ok(k)
    {
      var p := Find(kdc, PrincipalText(req.cname.value, req.realm)).principal;
      PreauthenticatedIff(w, p.keys.value, req.padata[i].value, check, k);
    }
  }

  /** The first request of a known client, without a timestamp, is told to
      authenticate; nothing else is told so. */
  lemma PreauthRequiredIff(w: World, kdc: Kdc, req: Request, clock: AsReads, rnd: Random)
    ensures AsExchange(w, kdc, req, clock, rnd) == Err(PreauthRequired) <==>
              && req.cname.Some?
              && var name := Join(req.cname.value.parts, "/") + "@" + req.realm;
              && name in kdc.directory && kdc.directory[name].Known?
              && kdc.directory[name].principal.keys.Some? && kdc.directory[name].principal.salt.Some?
              && forall i :: 0 <= i < |req.padata| ==> req.padata[i].kind != 2
  {
    FindPaIs(req.padata, 2);
  }

  lemma KrbtgtKeyIff(kdc: Kdc, realm: string, e: Enctype)
    ensures KrbtgtKey(kdc, realm, e).Some? <==> HasSomeKey(kdc, "krbtgt/" + realm + "@" + realm)
  {
    ReferralName(realm, realm);
  }

  /** An AS reply is issued exactly when the client proves a key of its own, the
      krbtgt of the realm has a key, and a session key could be drawn. */
  lemma AsIssuedIff(w: World, kdc: Kdc, req: Request, clock: AsReads, rnd: Random)
    requires Able(w)
    ensures AsExchange(w, kdc, req, clock, rnd).Ok? <==>
              && (exists k, i, enc, plain, ts :: ProvesKey(w, kdc, req, clock.check, k, i, enc, plain, ts))
              && HasSomeKey(kdc, "krbtgt/" + req.realm + "@" + req.realm) && rnd.sessionKey.Some?
  {
    if AsClient(w, kdc, req, clock.check).Ok? {
      var k := AsClient(w, kdc, req, clock.check).value;
      AsClientIff(w, kdc, req, clock.check, k);
      KrbtgtKeyIff(kdc, req.realm, k.enctype);
    }
    forall k, i, enc, plain, ts | ProvesKey(w, kdc, req, clock.check, k, i, enc, plain, ts)
      ensures AsClient(w, kdc, req, clock.check) == Ok(k)
    {
      AsClientIff(w, kdc, req, clock.check, k);
    }
  }

  /** What an AS reply is: a ticket for the krbtgt of the realm, or for changing a
      password, sealed under usage 2 with a krbtgt key, with a fresh session key of
      the client's enctype; and the client's part sealed with its key. */
  lemma AsReplyShape(w: World, kdc: Kdc, req: Request, clock: AsReads, rnd: Random)
    requires LawfulWorld(w) && AsExchange(w, kdc, req, clock, rnd).Ok?
    ensures var issue := AsExchange(w, kdc, req, clock, rnd).value;
            var t, ck := issue.reply.ticket, AsClient(w, kdc, req, clock.check).value;
            && req.cname.Some? && issue.part.cname == req.cname.value && issue.part.crealm == req.realm
            && issue.part.key == SessionKey(EtypeNumber(ck.enctype), rnd.sessionKey.value)
            && issue.part.flags == {Initial, PreAuthent} && t.realm == req.realm
            && (if req.sname.Some? && Lower(Join(req.sname.value.parts, "/")) == "kadmin/changepw"
                then t.sname == req.sname.value && issue.part.endTime == clock.later / 1_000_000 + 300
                else t.sname == Name(2, ["krbtgt"] + Split(req.realm, '/'))
                     && issue.part.endTime == clock.later / 1_000_000 + 36_000)
            && issue.part.authTime == clock.now / 1_000_000
            && issue.reply.encPart.etype == EtypeNumber(ck.enctype) && issue.reply.encPart.kvno == Some(ck.kvno)
            && exists ks: seq<StoredKey>, k: StoredKey ::
                 && HasKeys(kdc, "krbtgt/" + req.realm + "@" + req.realm, ks) && k in ks
                 && t.encPart.etype == EtypeNumber(k.enctype) && t.encPart.kvno == Some(k.kvno)
                 && w.crypto.decrypt(k.enctype, k.key, 2, t.encPart.cipher) == w.codec.writeTicket(issue.part)
                 && issue.part.pac == w.codec.pac(kdc, Join(req.cname.value.parts, "/") + "@" + req.realm,
                                                  issue.part.authTime, k, k)
  {
    var issue := AsExchange(w, kdc, req, clock, rnd).value;
    var ck := AsClient(w, kdc, req, clock.check).value;
    var k := KrbtgtKey(kdc, req.realm, ck.enctype).value;
    ReferralName(req.realm, req.realm);
    KrbtgtParts(req.realm);
    SecondsAdd(clock.later, 300);
    SecondsAdd(clock.later, 36_000);
    SealedUnderTwo(w, k, rnd.ticketConfounder, issue.part, issue.reply.ticket.encPart);
    var ks := Find(kdc, "krbtgt/" + req.realm + "@" + req.realm).principal.keys.value;
    assert HasKeys(kdc, "krbtgt/" + req.realm + "@" + req.realm, ks) && k in ks;
  }

  lemma KrbtgtParts(realm: string)
    ensures Split("krbtgt/" + realm, '/') == ["krbtgt"] + Split(realm, '/')
    ensures KrbtgtName(realm) == Name(2, ["krbtgt"] + Split(realm, '/')) && !IsChangepw(KrbtgtName(realm))
  {
    var text := "krbtgt/" + realm;
    assert text == "krbtgt" + ['/'] + realm;
    SplitConcat("krbtgt", realm, '/');
    SplitNothing("krbtgt", '/');
    JoinOfSplit(text, '/');
    NotChangepw(text);
  }

  lemma NotChangepw(text: string)
    requires |text| > 1 && text[1] == 'r'
    ensures Lower(text) != "kadmin/changepw"
  {
    assert Lower(text)[1] == 'r' && "kadmin/changepw"[1] == 'a';
  }

  lemma SealedUnderTwo(w: World, k: StoredKey, r: seq<Byte>, part: TicketPart, enc: EncData)
    requires LawfulWorld(w) && SealTicket(w, k, r, part) == Some(enc)
    ensures enc.etype == EtypeNumber(k.enctype) && enc.kvno == Some(k.kvno)
    ensures w.codec.writeTicket(part).Some?
    ensures w.crypto.decrypt(k.enctype, k.key, 2, enc.cipher) == w.codec.writeTicket(part)
    ensures w.codec.readTicket(w.codec.writeTicket(part).value) == Some(part)
  {
  }

  // -------------------------------------------------------------- TGS exchange

  /** The ticket presented opens to `tgt` with `k`, the key its own name has for its
      enctype. */
  ghost predicate OpensTicket(w: World, kdc: Kdc, req: Request, i: int, ap: ApReq, ks: seq<StoredKey>, k: StoredKey,
                              tgt: TicketPart)
  {
    && FirstPa(req.padata, 1, i) && w.codec.readApReq(req.padata[i].value) == Some(ap)
    && HasKeys(kdc, Join(ap.ticket.sname.parts, "/") + "@" + ap.ticket.realm, ks)
    && FirstOfItsType(ks, k) && ap.ticket.encPart.etype == EtypeNumber(k.enctype)
    && exists plain :: w.crypto.decrypt(k.enctype, k.key, 2, ap.ticket.encPart.cipher) == Some(plain)
                       && w.codec.readTicket(plain) == Some(tgt)
  }

  /** The authenticator opens to `a` with the ticket's session key. */
  ghost predicate OpensAuthenticator(w: World, ap: ApReq, k: StoredKey, tgt: TicketPart, a: Authenticator) {
    exists plain :: w.crypto.decrypt(k.enctype, tgt.key.key, 7, ap.authenticator.cipher) == Some(plain)
                    && w.codec.readAuthenticator(plain) == Some(a)
  }

  /** Ticket and authenticator open, the ticket has not ended, and the authenticator is
      from the ticket's client, within 300 seconds. */
  ghost predicate ProvesTicket(w: World, kdc: Kdc, req: Request, check: nat, i: int, ap: ApReq, ks: seq<StoredKey>,
                               k: StoredKey, tgt: TicketPart, a: Authenticator)
  {
    && OpensTicket(w, kdc, req, i, ap, ks, k, tgt) && check / 1_000_000 <= tgt.endTime
    && OpensAuthenticator(w, ap, k, tgt, a)
    && a.crealm == tgt.crealm && a.cname == tgt.cname && -300 <= a.ctime - check / 1_000_000 <= 300
  }

  lemma IssuerKeyIff(kdc: Kdc, t: Ticket, k: StoredKey)
    ensures IssuerKey(kdc, t) == Some(k) <==>
              exists ks ::
                && HasKeys(kdc, Join(t.sname.parts, "/") + "@" + t.realm, ks)
                && FirstOfItsType(ks, k) && t.encPart.etype == EtypeNumber(k.enctype)
  {
    var name := PrincipalText(t.sname, t.realm);
    EtypeOfIff(t.encPart.etype, k.enctype);
    if Find(kdc, name).Known? && Find(kdc, name).principal.keys.Some? {
      var ks := Find(kdc, name).principal.keys.value;
      assert HasKeys(kdc, name, ks);
      KeyOfIff(ks, k.enctype, k);
    }
  }

  /** A caller is authenticated exactly by such a proof, and as the client of the
      ticket. */
  lemma AuthenticatedIff(w: World, kdc: Kdc, req: Request, check: nat, c: Caller)
    ensures Authenticate(w, kdc, req, check) == Ok(c) <==>
              exists i, ap, ks, a ::
                && ProvesTicket(w, kdc, req, check, i, ap, ks, c.issuer, c.tgt, a)
                && c.enctype == c.issuer.enctype && c.subkey == a.subkey
  {
    FindPaIs(req.padata, 1);
    if Authenticate(w, kdc, req, check) == Ok(c) {
      var i :| FirstPa(req.padata, 1, i);
      AuthenticatedOnly(w, kdc, req, check, c, i);
    }
    forall i, ap, ks, a |
      && ProvesTicket(w, kdc, req, check, i, ap, ks, c.issuer, c.tgt, a)
      && c.enctype == c.issuer.enctype && c.subkey == a.subkey
      ensures Authenticate(w, kdc, req, check) == Ok(c)
    {
      IssuerKeyIff(kdc, ap.ticket, c.issuer);
    }
  }

  lemma AuthenticatedOnly(w: World, kdc: Kdc, req: Request, check: nat, c: Caller, i: int)
    requires Authenticate(w, kdc, req, check) == Ok(c) && FirstPa(req.padata, 1, i)
    requires FindPa(req.padata, 1) == Some(req.padata[i].value)
    ensures exists ap, ks, a ::
              && ProvesTicket(w, kdc, req, check, i, ap, ks, c.issuer, c.tgt, a)
              && c.enctype == c.issuer.enctype && c.subkey == a.subkey
  {
    var ap := Presented(w, req).value;
    var k := c.issuer;
    IssuerKeyIff(kdc, ap.ticket, k);
    var ks :|
      && HasKeys(kdc, Join(ap.ticket.sname.parts, "/") + "@" + ap.ticket.realm, ks)
      && FirstOfItsType(ks, k) && ap.ticket.encPart.etype == EtypeNumber(k.enctype);
    var plain := w.crypto.decrypt(k.enctype, k.key, 2, ap.ticket.encPart.cipher).value;
    assert w.codec.readTicket(plain) == Some(c.tgt);
    var message := w.crypto.decrypt(k.enctype, c.tgt.key.key, 7, ap.authenticator.cipher).value;
    var a := w.codec.readAuthenticator(message).value;
    assert ProvesTicket(w, kdc, req, check, i, ap, ks, k, c.tgt, a);
  }

  lemma TicketOpened(w: World, kdc: Kdc, req: Request) returns (i: int, ap: ApReq, ks: seq<StoredKey>, k: StoredKey,
                                                                 tgt: TicketPart)
    requires Presented(w, req).Some? && OpenTicket(w, kdc, Presented(w, req).value.ticket).Ok?
    ensures OpensTicket(w, kdc, req, i, ap, ks, k, tgt) && Presented(w, req) == Some(ap)
    ensures OpenTicket(w, kdc, ap.ticket) == Ok((tgt, k))
  {
    FindPaIs(req.padata, 1);
    i :| FirstPa(req.padata, 1, i);
    ap := Presented(w, req).value;
    tgt, k := OpenTicket(w, kdc, ap.ticket).value.0, OpenTicket(w, kdc, ap.ticket).value.1;
    IssuerKeyIff(kdc, ap.ticket, k);
    ks :|
      && HasKeys(kdc, Join(ap.ticket.sname.parts, "/") + "@" + ap.ticket.realm, ks)
      && FirstOfItsType(ks, k) && ap.ticket.encPart.etype == EtypeNumber(k.enctype);
    var plain := w.crypto.decrypt(k.enctype, k.key, 2, ap.ticket.encPart.cipher).value;
    assert w.codec.readTicket(plain) == Some(tgt);
  }

  lemma TicketOpens(w: World, kdc: Kdc, req: Request, i: int, ap: ApReq, ks: seq<StoredKey>, k: StoredKey,
                    tgt: TicketPart)
    requires OpensTicket(w, kdc, req, i, ap, ks, k, tgt)
    ensures Presented(w, req) == Some(ap) && OpenTicket(w, kdc, ap.ticket) == Ok((tgt, k))
  {
    FindPaIs(req.padata, 1);
    IssuerKeyIff(kdc, ap.ticket, k);
  }

  /** A ticket is refused as expired exactly when it opens and has ended. */
  lemma ExpiredIff(w: World, kdc: Kdc, req: Request, check: nat)
    ensures Authenticate(w, kdc, req, check) == Err(Expired) <==>
              exists i, ap, ks, k, tgt ::
                OpensTicket(w, kdc, req, i, ap, ks, k, tgt) && tgt.endTime < check / 1_000_000
  {
    if Authenticate(w, kdc, req, check) == Err(Expired) {
      var i, ap, ks, k, tgt := TicketOpened(w, kdc, req);
    }
    forall i, ap, ks, k, tgt | OpensTicket(w, kdc, req, i, ap, ks, k, tgt) && tgt.endTime < check / 1_000_000
      ensures Authenticate(w, kdc, req, check) == Err(Expired)
    {
      TicketOpens(w, kdc, req, i, ap, ks, k, tgt);
    }
  }

  /** With a ticket that opens and has not ended, the caller is refused for the wrong
      client in the authenticator, or else for its time. */
  lemma AuthenticatorRefused(w: World, kdc: Kdc, req: Request, check: nat, i: int, ap: ApReq, ks: seq<StoredKey>,
                             k: StoredKey, tgt: TicketPart, a: Authenticator)
    requires OpensTicket(w, kdc, req, i, ap, ks, k, tgt) && check / 1_000_000 <= tgt.endTime
    requires OpensAuthenticator(w, ap, k, tgt, a)
    ensures Authenticate(w, kdc, req, check) == Err(BadMatch) <==> a.crealm != tgt.crealm || a.cname != tgt.cname
    ensures Authenticate(w, kdc, req, check) == Err(Skew) <==>
              a.crealm == tgt.crealm && a.cname == tgt.cname && !(-300 <= a.ctime - check / 1_000_000 <= 300)
  {
    TicketOpens(w, kdc, req, i, ap, ks, k, tgt);
  }

  /** The request is for a realm one hop away that this KDC shares a key with. */
  predicate Refers(kdc: Kdc, req: Request) {
    && Upper(req.realm) != Upper(kdc.realm) && Upper(req.realm) in kdc.neighbours
    && HasSomeKey(kdc, "krbtgt/" + Upper(req.realm) + "@" + kdc.realm)
  }

  /** Whose keys seal a ticket for a service: its own, but for changing a password
      those of the krbtgt. */
  function SealerName(sname: Name, realm: string): string {
    if Lower(Join(sname.parts, "/")) == "kadmin/changepw" then "krbtgt/" + realm + "@" + realm
    else Join(sname.parts, "/") + "@" + realm
  }

  lemma LocalIff(w: World, kdc: Kdc, caller: Caller, req: Request, clock: TgsReads, rnd: Random)
    requires Able(w)
    ensures Local(w, kdc, caller, req, clock, rnd).Ok? <==>
              req.sname.Some? && HasSomeKey(kdc, SealerName(req.sname.value, req.realm)) && rnd.sessionKey.Some?
  {
  }

  /** A service is unknown when it is not named, not in the directory, or the directory
      cannot be asked. */
  lemma ServerUnknownIff(w: World, kdc: Kdc, caller: Caller, req: Request, clock: TgsReads, rnd: Random)
    ensures Local(w, kdc, caller, req, clock, rnd) == Err(ServerUnknown) <==>
              req.sname.None? ||
              var name := SealerName(req.sname.value, req.realm);
              name !in kdc.directory || !kdc.directory[name].Known?
  {
  }

  lemma ReferralIff(w: World, kdc: Kdc, caller: Caller, req: Request, clock: TgsReads, rnd: Random)
    requires Able(w)
    ensures Upper(req.realm) != Upper(kdc.realm) ==>
              (Referral(w, kdc, caller, req, clock, rnd).Some? <==> Refers(kdc, req) && rnd.sessionKey.Some?)
  {
  }

  /** A TGS reply is issued exactly when the caller is authenticated, and the realm
      is one to refer to or the service, in a local sense, has a key. */
  lemma TgsIssuedIff(w: World, kdc: Kdc, req: Request, clock: TgsReads, referralRnd: Random, rnd: Random)
    requires Able(w)
    ensures TgsExchange(w, kdc, req, clock, referralRnd, rnd).Ok? <==>
              && Authenticate(w, kdc, req, clock.check).Ok?
              && (|| (Refers(kdc, req) && referralRnd.sessionKey.Some?)
                  || (&& req.sname.Some? && HasSomeKey(kdc, SealerName(req.sname.value, req.realm))
                      && rnd.sessionKey.Some?))
  {
    if Authenticate(w, kdc, req, clock.check).Ok? {
      var caller := Authenticate(w, kdc, req, clock.check).value;
      LocalIff(w, kdc, caller, req, clock, rnd);
      ReferralIff(w, kdc, caller, req, clock, referralRnd);
    }
  }

  /** The ticket is sealed under usage 2 with one of the keys of that name: whoever
      has that key opens it to what the KDC put in. */
  ghost predicate SealedFor(w: World, kdc: Kdc, name: string, issue: Issue, ks: seq<StoredKey>, k: StoredKey) {
    && HasKeys(kdc, name, ks) && k in ks
    && issue.reply.ticket.encPart.etype == EtypeNumber(k.enctype)
    && issue.reply.ticket.encPart.kvno == Some(k.kvno)
    && exists plain ::
         && w.crypto.decrypt(k.enctype, k.key, 2, issue.reply.ticket.encPart.cipher) == Some(plain)
         && w.codec.readTicket(plain) == Some(issue.part)
  }

  lemma GrantSealed(w: World, kdc: Kdc, name: string, caller: Caller, ks: seq<StoredKey>, k: StoredKey, realm: string,
                    sname: Name, pac: Option<seq<Byte>>, nonce: nat, rnd: Random, now: nat, later: nat)
    requires LawfulWorld(w) && HasKeys(kdc, name, ks) && k in ks
    requires Grant(w, caller, k, realm, sname, pac, nonce, rnd, now, later).Ok?
    ensures var issue := Grant(w, caller, k, realm, sname, pac, nonce, rnd, now, later).value;
            && SealedFor(w, kdc, name, issue, ks, k) && issue.part.pac == pac
            && issue.reply.ticket.realm == realm && issue.reply.ticket.sname == sname
            && issue.part.key == SessionKey(EtypeNumber(k.enctype), rnd.sessionKey.value)
            && issue.reply.encPart.kvno == None
  {
    var issue := Grant(w, caller, k, realm, sname, pac, nonce, rnd, now, later).value;
    SealedUnderTwo(w, k, rnd.ticketConfounder, issue.part, issue.reply.ticket.encPart);
  }

  /** A service ticket is for the service that was asked for, in the realm that was
      asked for, and sealed with one of its keys (the krbtgt's for changing a
      password): the first of a type the client listed, or else the first. */
  lemma ServiceTicketSealed(w: World, kdc: Kdc, caller: Caller, req: Request, clock: TgsReads, rnd: Random)
    requires LawfulWorld(w) && Local(w, kdc, caller, req, clock, rnd).Ok?
    ensures var issue := Local(w, kdc, caller, req, clock, rnd).value;
            && req.sname == Some(issue.reply.ticket.sname) && issue.reply.ticket.realm == req.realm
            && exists ks, k ::
                 && SealedFor(w, kdc, SealerName(req.sname.value, req.realm), issue, ks, k)
                 && Chosen(ks, req.etypes, k)
                 && issue.part.key == SessionKey(EtypeNumber(k.enctype), rnd.sessionKey.value)
                 && issue.part.pac == w.codec.pac(kdc, Join(caller.tgt.cname.parts, "/") + "@" + caller.tgt.crealm,
                                                  caller.tgt.authTime, k, caller.issuer)
  {
    var sname := req.sname.value;
    var name := SealerName(sname, req.realm);
    var ks := kdc.directory[name].principal.keys.value;
    var k := OrFirst(KeyAmong(ks, req.etypes), ks).value;
    ChosenIs(ks, req.etypes, k);
    var client := PrincipalText(caller.tgt.cname, caller.tgt.crealm);
    var pac := w.codec.pac(kdc, client, caller.tgt.authTime, k, caller.issuer);
    GrantSealed(w, kdc, name, caller, ks, k, req.realm, sname, pac, req.nonce, rnd, clock.now, clock.later);
  }

  /** The first key of a listed type, or where there is none the first of all. */
  predicate Chosen(ks: seq<StoredKey>, etypes: seq<int>, k: StoredKey) {
    exists i ::
      && 0 <= i < |ks| && ks[i] == k
      && if EtypeNumber(k.enctype) in etypes
         then forall j :: 0 <= j < i ==> EtypeNumber(ks[j].enctype) !in etypes
         else i == 0 && forall j :: 0 <= j < |ks| ==> EtypeNumber(ks[j].enctype) !in etypes
  }

  lemma {:induction false} AmongIsFirst(ks: seq<StoredKey>, etypes: seq<int>) returns (i: nat)
    requires KeyAmong(ks, etypes).Some?
    ensures i < |ks| && ks[i] == KeyAmong(ks, etypes).value && EtypeNumber(ks[i].enctype) in etypes
    ensures forall j :: 0 <= j < i ==> EtypeNumber(ks[j].enctype) !in etypes
  {
    if EtypeNumber(ks[0].enctype) in etypes {
      i := 0;
    } else {
      var rest := AmongIsFirst(ks[1..], etypes);
      i := rest + 1;
      assert forall j :: 1 <= j < i ==> ks[j] == ks[1..][j - 1];
    }
  }

  lemma ChosenIs(ks: seq<StoredKey>, etypes: seq<int>, k: StoredKey)
    requires OrFirst(KeyAmong(ks, etypes), ks) == Some(k)
    ensures Chosen(ks, etypes, k)
  {
    if KeyAmong(ks, etypes).Some? {
      var i := AmongIsFirst(ks, etypes);
      assert ks[i] == k;
    } else {
      assert ks[0] == k;
    }
  }

  /** A referral ticket is for the krbtgt of the realm asked for, by this realm, with
      no PAC, and sealed with an inter-realm key. */
  lemma ReferralTicketSealed(w: World, kdc: Kdc, caller: Caller, req: Request, clock: TgsReads, rnd: Random)
    requires LawfulWorld(w) && Referral(w, kdc, caller, req, clock, rnd).Some?
    ensures var issue := Referral(w, kdc, caller, req, clock, rnd).value;
            && issue.reply.ticket.sname == Name(2, ["krbtgt"] + Split(Upper(req.realm), '/'))
            && issue.reply.ticket.realm == kdc.realm && issue.part.pac == None
            && exists ks: seq<StoredKey>, k: StoredKey ::
                 && SealedFor(w, kdc, "krbtgt/" + Upper(req.realm) + "@" + kdc.realm, issue, ks, k)
                 && (k.enctype == caller.enctype || forall j :: 0 <= j < |ks| ==> ks[j].enctype != caller.enctype)
  {
    var target := Upper(req.realm);
    var name := "krbtgt/" + target + "@" + kdc.realm;
    var ks := kdc.directory[name].principal.keys.value;
    var k := ReferralKey(kdc, target, caller.enctype).value;
    KrbtgtParts(target);
    GrantSealed(w, kdc, name, caller, ks, k, kdc.realm, KrbtgtName(target), None, req.nonce, rnd, clock.referralNow,
                clock.referralLater);
  }

  /** A reply for a realm to refer to is the referral, any other the service's. */
  lemma ReferredFirst(w: World, kdc: Kdc, req: Request, clock: TgsReads, referralRnd: Random, rnd: Random)
    requires Able(w) && TgsExchange(w, kdc, req, clock, referralRnd, rnd).Ok?
    ensures var caller := Authenticate(w, kdc, req, clock.check).value;
            var issue := TgsExchange(w, kdc, req, clock, referralRnd, rnd).value;
            if Refers(kdc, req) && referralRnd.sessionKey.Some?
            then Referral(w, kdc, caller, req, clock, referralRnd) == Some(issue)
            else Local(w, kdc, caller, req, clock, rnd) == Ok(issue)
  {
    ReferralIff(w, kdc, Authenticate(w, kdc, req, clock.check).value, req, clock, referralRnd);
  }
}
