/** The MIT keytab file, version 2, as `iron-kdc` writes and reads it. */
module Keytab {
  import opened Options
  import opened Bytes
  import opened Crypto

  type I32 = n: int | -0x8000_0000 <= n < 0x8000_0000

  datatype Entry = Entry(
    realm: seq<Byte>,
    components: seq<seq<Byte>>,
    nameType: I32,
    timestamp: U32,
    kvno: U32,
    enctype: Enctype,
    key: seq<Byte>)

  /** Field widths in bytes. */
  const SHORT: nat := 2
  const WORD: nat := 4

  /** `Crash` is the allocation that a hole of 2^31 bytes asks for. */
  datatype Error = Eof | BadMagic | UnsupportedVersion(v: Byte) | UnsupportedEnctype(n: nat) | Crash
  type Result<T> = Options.Result<T, Error>

  function Unsigned(n: I32): U32 {
    if n < 0 then n + 0x1_0000_0000 else n
  }

  function Signed(n: U32): I32 {
    if n >= 0x8000_0000 then n - 0x1_0000_0000 else n
  }

  function U32Of(s: seq<Byte>): U32
    requires |s| == 4
  {
    ValueBound(s);
    Pow256Values();
    Value(s)
  }

  lemma U32RoundTrip(n: U32)
    ensures U32Of(BigEndian(n, WORD)) == n
  {
    Pow256Values();
    ValueOfBigEndian(n, WORD);
  }

  // ----------------------------------------------------------------- writing

  /** A length cast to `u16`, then the bytes. */
  function Counted(s: seq<Byte>): seq<Byte> {
    BigEndian(|s|, SHORT) + s
  }

  function CountedAll(ss: seq<seq<Byte>>): seq<Byte> {
    if ss == [] then [] else CountedAll(ss[..|ss| - 1]) + Counted(ss[|ss| - 1])
  }

  function Names(e: Entry): seq<Byte> {
    BigEndian(|e.components|, SHORT) + Counted(e.realm) + CountedAll(e.components)
  }

  function Fixed(e: Entry): (s: seq<Byte>)
    ensures |s| == 11
  {
    BigEndian(Unsigned(e.nameType), WORD) + BigEndian(e.timestamp, WORD) + [e.kvno % 256]
    + BigEndian(EtypeNumber(e.enctype), SHORT)
  }

  function Tail(e: Entry): seq<Byte> {
    Fixed(e) + Counted(e.key) + BigEndian(e.kvno, WORD)
  }

  function Body(e: Entry): seq<Byte> {
    Names(e) + Tail(e)
  }

  method EncodeEntryBody(e: Entry) returns (buf: seq<Byte>)
    ensures buf == Body(e)
  {
    buf := BigEndian(|e.components|, SHORT);
    buf := buf + Counted(e.realm);
    ghost var start := buf;
    for i := 0 to |e.components|
      invariant buf == start + CountedAll(e.components[..i])
    {
      CountedAllGrows(e.components, i);
      buf := buf + Counted(e.components[i]);
    }
    assert e.components[..|e.components|] == e.components;
    buf := buf + BigEndian(Unsigned(e.nameType), WORD);
    buf := buf + BigEndian(e.timestamp, WORD);
    buf := buf + [e.kvno % 256];
    buf := buf + BigEndian(EtypeNumber(e.enctype), SHORT);
    buf := buf + Counted(e.key);
    buf := buf + BigEndian(e.kvno, WORD);
    Joined(Names(e), BigEndian(Unsigned(e.nameType), WORD), BigEndian(e.timestamp, WORD), [e.kvno % 256],
           BigEndian(EtypeNumber(e.enctype), SHORT), Counted(e.key), BigEndian(e.kvno, WORD));
  }

  lemma CountedAllGrows(ss: seq<seq<Byte>>, i: nat)
    requires i < |ss|
    ensures CountedAll(ss[..i + 1]) == CountedAll(ss[..i]) + Counted(ss[i])
  {
    assert ss[..i + 1][..i] == ss[..i];
  }

  lemma Joined(a: seq<Byte>, b: seq<Byte>, c: seq<Byte>, d: seq<Byte>, e: seq<Byte>, f: seq<Byte>, g: seq<Byte>)
    ensures a + b + c + d + e + f + g == a + (b + c + d + e + f + g)
  {
  }

  /** A keytab as a sequence of records and of holes left by deleted ones. */
  datatype Item = Record(entry: Entry) | Hole(filler: seq<Byte>)

  /** A record's length is cast to `i32`; a hole's is negative. */
  function ItemBytes(i: Item): seq<Byte> {
    match i
    case Record(e) => BigEndian(|Body(e)|, WORD) + Body(e)
    case Hole(f) => BigEndian(if |f| < 0x1_0000_0000 then 0x1_0000_0000 - |f| else 0, WORD) + f
  }

  function ConcatMap<T>(f: T -> seq<Byte>, ts: seq<T>): seq<Byte> {
    if ts == [] then [] else f(ts[0]) + ConcatMap(f, ts[1..])
  }

  function Items(items: seq<Item>): seq<Byte> {
    ConcatMap(ItemBytes, items)
  }

  function Records(es: seq<Entry>): (items: seq<Item>)
    ensures |items| == |es|
  {
    seq(|es|, i requires 0 <= i < |es| => Record(es[i]))
  }

  const MAGIC: seq<Byte> := [0x05, 0x02]

  method Write(es: seq<Entry>) returns (file: seq<Byte>)
    ensures file == [0x05, 0x02] + Items(Records(es))
  {
    file := MAGIC;
    for i := 0 to |es|
      invariant file == MAGIC + Items(Records(es[..i]))
    {
      var body := EncodeEntryBody(es[i]);
      WriteStep(es, i, body);
      file := file + BigEndian(|body|, WORD);
      file := file + body;
    }
    assert es[..|es|] == es;
  }

  lemma WriteStep(es: seq<Entry>, i: nat, body: seq<Byte>)
    requires i < |es| && body == Body(es[i])
    ensures Items(Records(es[..i + 1])) == Items(Records(es[..i])) + BigEndian(|body|, WORD) + body
  {
    assert Records(es[..i + 1]) == Records(es[..i]) + [Record(es[i])];
    ConcatMapAppend(ItemBytes, Records(es[..i]), Record(es[i]));
    Joined3(Items(Records(es[..i])), BigEndian(|body|, WORD), body);
  }

  lemma Joined3(a: seq<Byte>, b: seq<Byte>, c: seq<Byte>)
    ensures a + (b + c) == a + b + c
  {
  }

  lemma {:induction false} ConcatMapAppend<T>(f: T -> seq<Byte>, ts: seq<T>, t: T)
    ensures ConcatMap(f, ts + [t]) == ConcatMap(f, ts) + f(t)
  {
    if ts == [] {
      assert ConcatMap(f, [t]) == f(t) + ConcatMap(f, [t][1..]);
    } else {
      ConcatMapAppend(f, ts[1..], t);
      assert (ts + [t])[1..] == ts[1..] + [t];
    }
  }

  // ----------------------------------------------------------------- reading

  /** A counted string at the cursor, and the cursor after it. */
  function TakeCounted(r: seq<Byte>): Result<(seq<Byte>, seq<Byte>)> {
    if |r| < 2 || |r| < 2 + Value(r[..2]) then Err(Eof)
    else Ok((r[2..2 + Value(r[..2])], r[2 + Value(r[..2])..]))
  }

  function TakeCountedAll(r: seq<Byte>, n: nat): Result<(seq<seq<Byte>>, seq<Byte>)> {
    if n == 0 then Ok(([], r))
    else
      match TakeCountedAll(r, n - 1)
      case Err(x) => Err(x)
      case Ok((ss, rest)) =>
        match TakeCounted(rest)
        case Err(x) => Err(x)
        case Ok((s, rest')) => Ok((ss + [s], rest'))
  }

  /** Everything after the names. */
  function DecodeTail(realm: seq<Byte>, components: seq<seq<Byte>>, r: seq<Byte>): Result<Entry> {
    if |r| < 11 then Err(Eof)
    else
      var etype := Value(r[9..11]);
      match EnctypeOf(etype)
      case None => Err(UnsupportedEnctype(etype))
      case Some(enctype) =>
        match TakeCounted(r[11..])
        case Err(x) => Err(x)
        case Ok((key, rest)) =>
          var kvno := if |rest| >= 4 then U32Of(rest[..4]) else r[8];
          Ok(Entry(realm, components, Signed(U32Of(r[..4])), U32Of(r[4..8]), kvno, enctype, key))
  }

  function DecodeBody(body: seq<Byte>): Result<Entry> {
    if |body| < 2 then Err(Eof)
    else
      match TakeCounted(body[2..])
      case Err(x) => Err(x)
      case Ok((realm, r)) =>
        match TakeCountedAll(r, Value(body[..2]))
        case Err(x) => Err(x)
        case Ok((components, r')) => DecodeTail(realm, components, r')
  }

  /** How bytes become a name: `from_utf8_lossy`, which leaves valid UTF-8 as it is
      and repairs the rest. */
  type Lossy = seq<Byte> -> seq<Byte>

  function Each(lossy: Lossy, ss: seq<seq<Byte>>): (ts: seq<seq<Byte>>)
    ensures |ts| == |ss|
  {
    seq(|ss|, i requires 0 <= i < |ss| => lossy(ss[i]))
  }

  function Repaired(lossy: Lossy, e: Entry): Entry {
    e.(realm := lossy(e.realm), components := Each(lossy, e.components))
  }

  function Decoded(lossy: Lossy, body: seq<Byte>): Result<Entry> {
    match DecodeBody(body)
    case Err(x) => Err(x)
    case Ok(e) => Ok(Repaired(lossy, e))
  }

  method DecodeEntryBody(lossy: Lossy, body: seq<Byte>) returns (r: Result<Entry>)
    ensures r == Decoded(lossy, body)
  {
    if |body| < 2 {
      return Err(Eof);
    }
    var numComponents := Value(body[..2]);
    var realm := TakeCounted(body[2..]);
    if realm.Err? {
      return Err(realm.error);
    }
    var cursor := realm.value.1;
    ghost var start := cursor;
    var components: seq<seq<Byte>> := [];
    ghost var raw: seq<seq<Byte>> := [];
    for i := 0 to numComponents
      invariant TakeCountedAll(start, i) == Ok((raw, cursor)) && components == Each(lossy, raw)
    {
      var c := TakeCounted(cursor);
      if c.Err? {
        TakeFails(start, i + 1, numComponents, c.error);
        return Err(c.error);
      }
      components, cursor, raw := components + [lossy(c.value.0)], c.value.1, raw + [c.value.0];
    }
    r := DecodeTail(lossy(realm.value.0), components, cursor);
    RepairedTail(lossy, realm.value.0, raw, cursor);
  }

  lemma RepairedTail(lossy: Lossy, realm: seq<Byte>, components: seq<seq<Byte>>, r: seq<Byte>)
    ensures var e := DecodeTail(realm, components, r);
            DecodeTail(lossy(realm), Each(lossy, components), r)
              == if e.Ok? then Ok(Repaired(lossy, e.value)) else e
  {
  }

  lemma {:induction false} TakeFails(r: seq<Byte>, i: nat, n: nat, x: Error)
    requires i <= n && TakeCountedAll(r, i) == Err(x)
    ensures TakeCountedAll(r, n) == Err(x)
    decreases n
  {
    if i < n {
      TakeFails(r, i, n - 1, x);
    }
  }

  function Prepend(es: seq<Entry>, r: Result<seq<Entry>>): Result<seq<Entry>> {
    match r
    case Ok(fs) => Ok(es + fs)
    case Err(x) => Err(x)
  }

  type Decoder = seq<Byte> -> Result<Entry>

  /** Fewer than four bytes left end the file. */
  function ReadWith(decode: Decoder, r: seq<Byte>): Result<seq<Entry>>
    decreases |r|
  {
    if |r| < 4 then Ok([])
    else
      var len := Signed(U32Of(r[..4]));
      if len == -0x8000_0000 then Err(Crash)
      else if |r| < 4 + (if len < 0 then -len else len) then Err(Eof)
      else if len < 0 then ReadWith(decode, r[4 - len..])
      else
        match decode(r[4..4 + len])
        case Err(x) => Err(x)
        case Ok(e) => Prepend([e], ReadWith(decode, r[4 + len..]))
  }

  function ReadRecords(r: seq<Byte>): Result<seq<Entry>> {
    ReadWith(DecodeBody, r)
  }

  /** What is read of a record or a hole, when all of it is read. */
  lemma ReadStep(decode: Decoder, r: seq<Byte>, len: I32)
    requires |r| >= 4 && Signed(U32Of(r[..4])) == len && ReadWith(decode, r).Ok?
    ensures len > -0x8000_0000 && |r| >= 4 + (if len < 0 then -len else len)
    ensures len < 0 ==> ReadWith(decode, r) == ReadWith(decode, r[4 - len..])
    ensures len >= 0 ==> decode(r[4..4 + len]).Ok? && ReadWith(decode, r[4 + len..]).Ok?
    ensures len >= 0 ==>
              ReadWith(decode, r).value == [decode(r[4..4 + len]).value] + ReadWith(decode, r[4 + len..]).value
  {
  }

  function ReadFileWith(decode: Decoder, file: seq<Byte>): Result<seq<Entry>> {
    if |file| < 2 then Err(Eof)
    else if file[0] != 0x05 then Err(BadMagic)
    else if file[1] != 0x02 then Err(UnsupportedVersion(file[1]))
    else ReadWith(decode, file[2..])
  }

  function Decoding(lossy: Lossy): Decoder {
    body => Decoded(lossy, body)
  }

  function ReadFile(lossy: Lossy, file: seq<Byte>): Result<seq<Entry>> {
    ReadFileWith(Decoding(lossy), file)
  }

  /** The file with its names as they stand. */
  function RawFile(file: seq<Byte>): Result<seq<Entry>> {
    ReadFileWith(DecodeBody, file)
  }

  method Read(lossy: Lossy, file: seq<Byte>) returns (r: Result<seq<Entry>>)
    ensures r == ReadFile(lossy, file)
  {
    if |file| < 2 {
      return Err(Eof);
    }
    if file[0] != 0x05 {
      return Err(BadMagic);
    }
    if file[1] != 0x02 {
      return Err(UnsupportedVersion(file[1]));
    }
    var entries := [];
    var cursor := file[2..];
    ghost var decode := Decoding(lossy);
    PrependNone(ReadWith(decode, cursor));
    while |cursor| >= 4
      invariant ReadFileWith(decode, file) == Prepend(entries, ReadWith(decode, cursor))
    {
      var len := Signed(U32Of(cursor[..4]));
      if len == -0x8000_0000 {
        return Err(Crash);
      }
      if |cursor| < 4 + (if len < 0 then -len else len) {
        return Err(Eof);
      }
      if len < 0 {
        cursor := cursor[4 - len..];
      } else {
        var e := DecodeEntryBody(lossy, cursor[4..4 + len]);
        if e.Err? {
          return Err(e.error);
        }
        PrependMore(entries, e.value, ReadWith(decode, cursor[4 + len..]));
        entries := entries + [e.value];
        cursor := cursor[4 + len..];
      }
    }
    assert entries + [] == entries;
    r := Ok(entries);
  }

  lemma PrependNone(r: Result<seq<Entry>>)
    ensures Prepend([], r) == r
  {
    if r.Ok? {
      assert [] + r.value == r.value;
    }
  }

  lemma PrependMore(es: seq<Entry>, e: Entry, r: Result<seq<Entry>>)
    ensures Prepend(es, Prepend([e], r)) == Prepend(es + [e], r)
  {
    if r.Ok? {
      assert es + ([e] + r.value) == es + [e] + r.value;
    }
  }

  // ------------------------------------------------------------------ repairs

  function RepairedAll(lossy: Lossy, es: seq<Entry>): (fs: seq<Entry>)
    ensures |fs| == |es|
  {
    seq(|es|, i requires 0 <= i < |es| => Repaired(lossy, es[i]))
  }

  lemma RepairedCons(lossy: Lossy, e: Entry, es: seq<Entry>)
    ensures RepairedAll(lossy, [e] + es) == [Repaired(lossy, e)] + RepairedAll(lossy, es)
  {
  }

  function RepairedFile(lossy: Lossy, r: Result<seq<Entry>>): Result<seq<Entry>> {
    match r
    case Err(x) => Err(x)
    case Ok(es) => Ok(RepairedAll(lossy, es))
  }

  /** A decoder that repairs after another one reads the same records, repaired. */
  lemma {:induction false} ReadRepairs(lossy: Lossy, plain: Decoder, repairing: Decoder, r: seq<Byte>)
    requires forall b :: repairing(b) == if plain(b).Ok? then Ok(Repaired(lossy, plain(b).value)) else plain(b)
    ensures ReadWith(repairing, r) == RepairedFile(lossy, ReadWith(plain, r))
    decreases |r|
  {
    if |r| >= 4 {
      var len := Signed(U32Of(r[..4]));
      if -0x8000_0000 < len < 0 && |r| >= 4 - len {
        ReadRepairs(lossy, plain, repairing, r[4 - len..]);
      } else if len >= 0 && |r| >= 4 + len {
        ReadRepairs(lossy, plain, repairing, r[4 + len..]);
        var rest := ReadWith(plain, r[4 + len..]);
        if plain(r[4..4 + len]).Ok? && rest.Ok? {
          RepairedCons(lossy, plain(r[4..4 + len]).value, rest.value);
        }
      }
    }
  }

  lemma FileRepairs(lossy: Lossy, file: seq<Byte>)
    ensures ReadFile(lossy, file) == RepairedFile(lossy, RawFile(file))
  {
    if |file| >= 2 {
      ReadRepairs(lossy, DecodeBody, Decoding(lossy), file[2..]);
    }
  }

  /** The names are valid UTF-8: there is nothing to repair. */
  predicate Kept(lossy: Lossy, e: Entry) {
    lossy(e.realm) == e.realm && forall i :: 0 <= i < |e.components| ==> lossy(e.components[i]) == e.components[i]
  }

  lemma KeptAll(lossy: Lossy, es: seq<Entry>)
    requires forall i :: 0 <= i < |es| ==> Kept(lossy, es[i])
    ensures RepairedAll(lossy, es) == es
  {
    forall i | 0 <= i < |es|
      ensures Repaired(lossy, es[i]) == es[i]
    {
      assert Each(lossy, es[i].components) == es[i].components;
    }
  }

  // -------------------------------------------------------------- round trip

  /** Every counted field fits its 16-bit count. */
  predicate CountsFit(e: Entry) {
    && |e.realm| < 0x1_0000 && |e.components| < 0x1_0000 && |e.key| < 0x1_0000
    && forall i :: 0 <= i < |e.components| ==> |e.components[i]| < 0x1_0000
  }

  lemma TakeOfCounted(s: seq<Byte>, rest: seq<Byte>)
    requires |s| < 0x1_0000
    ensures TakeCounted(Counted(s) + rest) == Ok((s, rest))
  {
    var r := Counted(s) + rest;
    Pow256Values();
    ValueOfBigEndian(|s|, SHORT);
    assert r[..2] == BigEndian(|s|, SHORT);
    assert r[2..2 + |s|] == s && r[2 + |s|..] == rest;
  }

  lemma {:induction false} TakeOfCountedAll(ss: seq<seq<Byte>>, rest: seq<Byte>)
    requires forall i :: 0 <= i < |ss| ==> |ss[i]| < 0x1_0000
    ensures TakeCountedAll(CountedAll(ss) + rest, |ss|) == Ok((ss, rest))
  {
    if ss == [] {
      assert CountedAll(ss) + rest == rest;
    } else {
      var front, last := ss[..|ss| - 1], ss[|ss| - 1];
      TakeOfCountedAll(front, Counted(last) + rest);
      assert CountedAll(front) + (Counted(last) + rest) == CountedAll(ss) + rest;
      TakeOfCounted(last, rest);
      assert front + [last] == ss;
    }
  }

  lemma FixedFields(a: seq<Byte>, b: seq<Byte>, c: seq<Byte>, d: seq<Byte>, key: seq<Byte>, tail: seq<Byte>,
                    r: seq<Byte>)
    requires |a| == 4 && |b| == 4 && |c| == 1 && |d| == 2 && r == a + b + c + d + key + tail
    ensures r[..4] == a && r[4..8] == b && r[8] == c[0] && r[9..11] == d && r[11..] == key + tail
  {
  }

  lemma TailDecodes(realm: seq<Byte>, components: seq<seq<Byte>>, r: seq<Byte>, e: Enctype, key: seq<Byte>,
                    rest: seq<Byte>)
    requires |r| >= 11 && EnctypeOf(Value(r[9..11])) == Some(e)
    requires TakeCounted(r[11..]) == Ok((key, rest))
    ensures DecodeTail(realm, components, r)
         == Ok(Entry(realm, components, Signed(U32Of(r[..4])), U32Of(r[4..8]),
                     if |rest| >= 4 then U32Of(rest[..4]) else r[8], e, key))
  {
  }

  lemma EtypeField(e: Enctype)
    ensures EnctypeOf(Value(BigEndian(EtypeNumber(e), SHORT))) == Some(e)
  {
    Pow256Values();
    ValueOfBigEndian(EtypeNumber(e), SHORT);
  }

  lemma DecodeOfTail(e: Entry)
    requires CountsFit(e)
    ensures DecodeTail(e.realm, e.components, Tail(e)) == Ok(e)
  {
    var tail := BigEndian(e.kvno, WORD);
    var r := Tail(e);
    FixedFields(BigEndian(Unsigned(e.nameType), WORD), BigEndian(e.timestamp, WORD), [e.kvno % 256],
                BigEndian(EtypeNumber(e.enctype), SHORT), Counted(e.key), tail, r);
    U32RoundTrip(Unsigned(e.nameType));
    U32RoundTrip(e.timestamp);
    U32RoundTrip(e.kvno);
    EtypeField(e.enctype);
    TakeOfCounted(e.key, tail);
    TailDecodes(e.realm, e.components, r, e.enctype, e.key, tail);
    assert tail[..4] == tail;
  }

  /** A body read back is the entry written, 32-bit version number included. */
  lemma DecodeOfBody(e: Entry)
    requires CountsFit(e)
    ensures DecodeBody(Body(e)) == Ok(e)
  {
    DecodeOfTail(e);
    DecodeOfNames(e, Tail(e));
  }

  lemma DecodeOfNames(e: Entry, tail: seq<Byte>)
    requires CountsFit(e)
    ensures DecodeBody(Names(e) + tail) == DecodeTail(e.realm, e.components, tail)
  {
    var count, names := BigEndian(|e.components|, SHORT), CountedAll(e.components);
    var body := Names(e) + tail;
    Pow256Values();
    ValueOfBigEndian(|e.components|, SHORT);
    SplitNames(count, Counted(e.realm), names, tail, body);
    TakeOfCounted(e.realm, names + tail);
    TakeOfCountedAll(e.components, tail);
  }

  lemma SplitNames(count: seq<Byte>, realm: seq<Byte>, names: seq<Byte>, tail: seq<Byte>, body: seq<Byte>)
    requires |count| == 2 && body == count + realm + names + tail
    ensures body[..2] == count && body[2..] == realm + (names + tail)
  {
  }

  /** A record that can be read back, or a hole of a size a hole can have. */
  predicate Readable(i: Item) {
    match i
    case Record(e) => CountsFit(e) && |Body(e)| < 0x8000_0000
    case Hole(f) => 0 < |f| < 0x8000_0000
  }

  function EntriesIn(items: seq<Item>): seq<Entry> {
    if items == [] then []
    else (if items[0].Record? then [items[0].entry] else []) + EntriesIn(items[1..])
  }

  lemma ReadOfItem(i: Item, rest: seq<Byte>)
    requires Readable(i)
    ensures ReadRecords(ItemBytes(i) + rest) == Prepend(if i.Record? then [i.entry] else [], ReadRecords(rest))
  {
    var r := ItemBytes(i) + rest;
    var payload := if i.Record? then Body(i.entry) else i.filler;
    var field: U32 := if i.Record? then |payload| else 0x1_0000_0000 - |payload|;
    assert ItemBytes(i) == BigEndian(field, WORD) + payload;
    U32RoundTrip(field);
    assert r[..4] == BigEndian(field, WORD);
    assert r[4..4 + |payload|] == payload && r[4 + |payload|..] == rest;
    if i.Record? {
      DecodeOfBody(i.entry);
    } else {
      PrependNone(ReadRecords(rest));
    }
  }

  /** Reading gives the records of the file in order; holes at any record
      boundary change nothing. */
  lemma {:induction false} HolesDoNotMatter(items: seq<Item>)
    requires forall i :: 0 <= i < |items| ==> Readable(items[i])
    ensures ReadRecords(Items(items)) == Ok(EntriesIn(items))
    ensures RawFile(MAGIC + Items(items)) == Ok(EntriesIn(items))
    ensures forall lossy: Lossy :: ReadFile(lossy, MAGIC + Items(items)) == Ok(RepairedAll(lossy, EntriesIn(items)))
  {
    if items != [] {
      HolesDoNotMatter(items[1..]);
      ReadOfItem(items[0], Items(items[1..]));
    }
    assert (MAGIC + Items(items))[2..] == Items(items);
    forall lossy: Lossy
      ensures ReadFile(lossy, MAGIC + Items(items)) == Ok(RepairedAll(lossy, EntriesIn(items)))
    {
      FileRepairs(lossy, MAGIC + Items(items));
    }
  }

  lemma {:induction false} EntriesOfRecords(es: seq<Entry>)
    ensures EntriesIn(Records(es)) == es
  {
    if es != [] {
      EntriesOfRecords(es[1..]);
      assert Records(es)[1..] == Records(es[1..]);
    }
  }

  lemma TakenFits(r: seq<Byte>)
    ensures TakeCounted(r).Ok? ==> |TakeCounted(r).value.0| < 0x1_0000
  {
    if TakeCounted(r).Ok? {
      ValueBound(r[..2]);
      Pow256Values();
    }
  }

  lemma {:induction false} AllTakenFit(r: seq<Byte>, n: nat)
    ensures TakeCountedAll(r, n).Ok? ==>
              && |TakeCountedAll(r, n).value.0| == n
              && forall i :: 0 <= i < n ==> |TakeCountedAll(r, n).value.0[i]| < 0x1_0000
  {
    if n > 0 && TakeCountedAll(r, n).Ok? {
      AllTakenFit(r, n - 1);
      TakenFits(TakeCountedAll(r, n - 1).value.1);
    }
  }

  lemma DecodedFits(body: seq<Byte>)
    ensures DecodeBody(body).Ok? ==> CountsFit(DecodeBody(body).value)
  {
    if DecodeBody(body).Ok? {
      ValueBound(body[..2]);
      Pow256Values();
      TakenFits(body[2..]);
      var r := TakeCounted(body[2..]).value.1;
      AllTakenFit(r, Value(body[..2]));
      TakenFits(TakeCountedAll(r, Value(body[..2])).value.1[11..]);
    }
  }

  lemma {:induction false} ReadFits(r: seq<Byte>)
    ensures ReadRecords(r).Ok? ==> forall i :: 0 <= i < |ReadRecords(r).value| ==> CountsFit(ReadRecords(r).value[i])
    decreases |r|
  {
    if |r| >= 4 && ReadRecords(r).Ok? {
      var len := Signed(U32Of(r[..4]));
      ReadStep(DecodeBody, r, len);
      if len < 0 {
        ReadFits(r[4 - len..]);
      } else {
        DecodedFits(r[4..4 + len]);
        ReadFits(r[4 + len..]);
      }
    }
  }

  lemma TakenSize(r: seq<Byte>)
    ensures TakeCounted(r).Ok? ==> |r| == |Counted(TakeCounted(r).value.0)| + |TakeCounted(r).value.1|
  {
  }

  lemma {:induction false} AllTakenSize(r: seq<Byte>, n: nat)
    ensures TakeCountedAll(r, n).Ok? ==>
              |r| == |CountedAll(TakeCountedAll(r, n).value.0)| + |TakeCountedAll(r, n).value.1|
  {
    if n > 0 && TakeCountedAll(r, n).Ok? {
      AllTakenSize(r, n - 1);
      var (ss, rest) := TakeCountedAll(r, n - 1).value;
      TakenSize(rest);
      var s := TakeCounted(rest).value.0;
      assert (ss + [s])[..|ss|] == ss;
    }
  }

  /** An entry is written with at most the four bytes of its version number more
      than it was read from. */
  lemma DecodedSize(body: seq<Byte>)
    ensures DecodeBody(body).Ok? ==> |Body(DecodeBody(body).value)| <= |body| + 4
  {
    if DecodeBody(body).Ok? {
      TakenSize(body[2..]);
      var r := TakeCounted(body[2..]).value.1;
      AllTakenSize(r, Value(body[..2]));
      TakenSize(TakeCountedAll(r, Value(body[..2])).value.1[11..]);
    }
  }

  function BodySizes(es: seq<Entry>): nat {
    if es == [] then 0 else |Body(es[0])| + BodySizes(es[1..])
  }

  /** No longer together than `n` bytes, and none longer than a record can be. */
  predicate Bounded(es: seq<Entry>, n: nat) {
    BodySizes(es) <= n && forall i :: 0 <= i < |es| ==> |Body(es[i])| < 0x8000_0004
  }

  lemma OneMore(e: Entry, es: seq<Entry>, m: nat, n: nat)
    requires |Body(e)| <= m + 4 && m < 0x8000_0000 && Bounded(es, n)
    ensures Bounded([e] + es, 4 + m + n)
  {
    assert ([e] + es)[1..] == es;
  }

  lemma Looser(es: seq<Entry>, m: nat, n: nat)
    requires m <= n && Bounded(es, m)
    ensures Bounded(es, n)
  {
  }

  /** What is read is no longer than the file, counted without record lengths. */
  lemma {:induction false} ReadSize(r: seq<Byte>)
    ensures ReadRecords(r).Ok? ==> Bounded(ReadRecords(r).value, |r|)
    decreases |r|
  {
    if |r| >= 4 && ReadRecords(r).Ok? {
      var len := Signed(U32Of(r[..4]));
      ReadStep(DecodeBody, r, len);
      if len < 0 {
        ReadSize(r[4 - len..]);
        Looser(ReadRecords(r).value, |r| - 4 + len, |r|);
      } else {
        DecodedSize(r[4..4 + len]);
        ReadSize(r[4 + len..]);
        OneMore(DecodeBody(r[4..4 + len]).value, ReadRecords(r[4 + len..]).value, len, |r| - 4 - len);
      }
    }
  }

  lemma {:induction false} RecordsSize(es: seq<Entry>)
    ensures |Items(Records(es))| == 4 * |es| + BodySizes(es)
  {
    if es != [] {
      RecordsSize(es[1..]);
      assert Records(es)[1..] == Records(es[1..]);
    }
  }

  function HoleSize(n: nat): nat
    requires n < 0x1_0000_0000
  {
    0x1_0000_0000 - n
  }

  /** A record of 2^31 bytes and little more is read as a hole of nearly as many. */
  lemma LongRecord(n: nat, r: seq<Byte>)
    requires 0x8000_0000 <= n < 0x8000_0004 && |r| >= 4 && r[..4] == BigEndian(n, WORD) && ReadRecords(r).Ok?
    ensures |r| >= 4 + HoleSize(n) && ReadRecords(r[4 + HoleSize(n)..]) == ReadRecords(r)
  {
    U32RoundTrip(n);
    var len: I32 := 0 - HoleSize(n);
    assert Signed(U32Of(r[..4])) == len;
    ReadStep(DecodeBody, r, len);
  }

  /** Up to 2^29 entries: a long one in front makes the file too short for all. */
  lemma LongIsLost(es: seq<Entry>)
    requires es != [] && |es| <= 0x2000_0000 && ReadRecords(Items(Records(es))) == Ok(es)
    ensures |Body(es[0])| < 0x8000_0000
  {
    var r, n := Items(Records(es)), |Body(es[0])|;
    ReadSize(r);
    RecordsSize(es);
    if n >= 0x8000_0000 {
      assert Records(es)[0] == Record(es[0]);
      assert r[..4] == BigEndian(n, WORD);
      LongRecord(n, r);
      ReadSize(r[4 + HoleSize(n)..]);
      assert false;
    }
  }

  lemma {:induction false} OnlyReadable(es: seq<Entry>)
    requires |es| <= 0x2000_0000 && ReadRecords(Items(Records(es))) == Ok(es)
    ensures forall i :: 0 <= i < |es| ==> Readable(Record(es[i]))
  {
    if es != [] {
      ReadFits(Items(Records(es)));
      LongIsLost(es);
      assert Records(es)[0] == Record(es[0]) && Records(es)[1..] == Records(es[1..]);
      ReadOfItem(Record(es[0]), Items(Records(es[1..])));
      assert es == [es[0]] + es[1..];
      OnlyReadable(es[1..]);
    }
  }

  /** Names as they stand: entries that fit read back; entries one of whose counted
      fields does not fit never do; and of up to 2^29 entries, none of 2^31 bytes
      does. */
  lemma RawRoundTrip(es: seq<Entry>)
    ensures (forall i :: 0 <= i < |es| ==> Readable(Record(es[i]))) ==> RawFile(MAGIC + Items(Records(es))) == Ok(es)
    ensures RawFile(MAGIC + Items(Records(es))) == Ok(es) ==> forall i :: 0 <= i < |es| ==> CountsFit(es[i])
    ensures |es| <= 0x2000_0000 ==>
              (RawFile(MAGIC + Items(Records(es))) == Ok(es) <==>
               forall i :: 0 <= i < |es| ==> Readable(Record(es[i])))
  {
    var file := MAGIC + Items(Records(es));
    assert file[2..] == Items(Records(es));
    if RawFile(file) == Ok(es) {
      ReadFits(file[2..]);
      if |es| <= 0x2000_0000 {
        OnlyReadable(es);
      }
    }
    if forall i :: 0 <= i < |es| ==> Readable(Record(es[i])) {
      HolesDoNotMatter(Records(es));
      EntriesOfRecords(es);
    }
  }

  /** Entries with names in valid UTF-8 read back when they fit. If the reading
      repairs no name, an entry with a counted field that does not fit never comes
      back, and of up to 2^29 entries none of 2^31 bytes does. */
  lemma KeytabRoundTrip(lossy: Lossy, es: seq<Entry>)
    requires forall i :: 0 <= i < |es| ==> Kept(lossy, es[i])
    ensures (forall i :: 0 <= i < |es| ==> Readable(Record(es[i]))) ==>
              ReadFile(lossy, MAGIC + Items(Records(es))) == Ok(es)
    ensures ReadFile(lossy, MAGIC + Items(Records(es))) == RawFile(MAGIC + Items(Records(es))) ==>
              && (ReadFile(lossy, MAGIC + Items(Records(es))) == Ok(es) ==>
                    forall i :: 0 <= i < |es| ==> CountsFit(es[i]))
              && (|es| <= 0x2000_0000 ==>
                    (ReadFile(lossy, MAGIC + Items(Records(es))) == Ok(es) <==>
                     forall i :: 0 <= i < |es| ==> Readable(Record(es[i]))))
  {
    RawRoundTrip(es);
    FileRepairs(lossy, MAGIC + Items(Records(es)));
    KeptAll(lossy, es);
  }

  // ------------------------------------------------------------------ the layout

  /** The fields behind the names: name type, time stamp, the low octet of the version,
      enctype, the key with its length, and the whole version. */
  lemma TailLayout(e: Entry, t: seq<Byte>)
    requires t == Tail(e) && |e.key| < 0x1_0000
    ensures |t| == 17 + |e.key|
    ensures Value(t[..4]) == (if e.nameType < 0 then e.nameType + 0x1_0000_0000 else e.nameType)
    ensures Value(t[4..8]) == e.timestamp && t[8] == e.kvno % 256
    ensures Value(t[9..11]) == match e.enctype
                               case Aes128CtsHmacSha1 => 17
                               case Aes256CtsHmacSha1 => 18
                               case Aes128CtsHmacSha256 => 19
                               case Aes256CtsHmacSha384 => 20
    ensures Value(t[11..13]) == |e.key| && t[13..13 + |e.key|] == e.key && Value(t[13 + |e.key|..]) == e.kvno
  {
    FixedFields(BigEndian(Unsigned(e.nameType), WORD), BigEndian(e.timestamp, WORD), [e.kvno % 256],
                BigEndian(EtypeNumber(e.enctype), SHORT), Counted(e.key), BigEndian(e.kvno, WORD), t);
    KeySlices(t, BigEndian(|e.key|, SHORT), e.key, BigEndian(e.kvno, WORD));
    Pow256Values();
    ValueOfBigEndian(Unsigned(e.nameType), WORD);
    ValueOfBigEndian(e.timestamp, WORD);
    ValueOfBigEndian(EtypeNumber(e.enctype), SHORT);
    ValueOfBigEndian(|e.key|, SHORT);
    ValueOfBigEndian(e.kvno, WORD);
  }

  lemma KeySlices(t: seq<Byte>, count: seq<Byte>, key: seq<Byte>, tail: seq<Byte>)
    requires |t| >= 11 && |count| == 2 && t[11..] == count + key + tail
    ensures |t| == 13 + |key| + |tail| && t[11..13] == count && t[13..13 + |key|] == key && t[13 + |key|..] == tail
  {
    var r := t[11..];
    assert t[11..13] == r[..2] && t[13..13 + |key|] == r[2..2 + |key|] && t[13 + |key|..] == r[2 + |key|..];
  }

  /** Where component `i` stands. */
  function ComponentOffset(e: Entry, i: nat): nat
    requires i <= |e.components|
  {
    if i == 0 then 4 + |e.realm| else ComponentOffset(e, i - 1) + 2 + |e.components[i - 1]|
  }

  lemma {:induction false} NamesGrow(e: Entry, i: nat)
    requires i <= |e.components|
    ensures |BigEndian(|e.components|, SHORT) + Counted(e.realm) + CountedAll(e.components[..i])|
              == ComponentOffset(e, i)
  {
    if i > 0 {
      NamesGrow(e, i - 1);
      CountedAllGrows(e.components, i - 1);
    }
  }

  lemma {:induction false} CountedAllStarts(ss: seq<seq<Byte>>, i: nat, n: nat)
    requires i <= n <= |ss|
    ensures CountedAll(ss[..i]) <= CountedAll(ss[..n])
    decreases n
  {
    if i < n {
      CountedAllStarts(ss, i, n - 1);
      CountedAllGrows(ss, n - 1);
    }
  }

  /** The length of `c`, in two octets, and then `c` stand at `at`. */
  predicate CountedAt(s: seq<Byte>, at: nat, c: seq<Byte>) {
    at + 2 + |c| <= |s| && Value(s[at..at + 2]) == |c| && s[at + 2..at + 2 + |c|] == c
  }

  lemma CountedInside(s: seq<Byte>, front: seq<Byte>, c: seq<Byte>)
    requires front + Counted(c) <= s && |c| < 0x1_0000
    ensures CountedAt(s, |front|, c)
  {
    var at := |front|;
    var mid := s[..at + 2 + |c|];
    assert mid == front + Counted(c);
    assert s[at..at + 2] == mid[at..at + 2] == BigEndian(|c|, SHORT);
    assert s[at + 2..at + 2 + |c|] == mid[at + 2..] == c;
    Pow256Values();
    ValueOfBigEndian(|c|, SHORT);
  }

  /** A record begins with the number of its components and its realm. */
  lemma RealmLayout(e: Entry)
    requires CountsFit(e)
    ensures |Names(e)| >= 2 && Value(Names(e)[..2]) == |e.components| && CountedAt(Names(e), 2, e.realm)
  {
    var b, head := Names(e), BigEndian(|e.components|, SHORT);
    Pow256Values();
    ValueOfBigEndian(|e.components|, SHORT);
    assert b[..2] == head;
    CountedInside(b, head, e.realm);
  }

  lemma ComponentFront(e: Entry, i: nat) returns (front: seq<Byte>)
    requires i < |e.components|
    ensures |front| == ComponentOffset(e, i) && front + Counted(e.components[i]) <= Names(e)
  {
    front := BigEndian(|e.components|, SHORT) + Counted(e.realm) + CountedAll(e.components[..i]);
    NamesGrow(e, i);
    CountedAllStarts(e.components, i + 1, |e.components|);
    CountedAllGrows(e.components, i);
    assert e.components[..|e.components|] == e.components;
    var start := BigEndian(|e.components|, SHORT) + Counted(e.realm);
    PrefixBehind(start, CountedAll(e.components[..i]), Counted(e.components[i]), CountedAll(e.components));
  }

  lemma PrefixBehind(start: seq<Byte>, a: seq<Byte>, b: seq<Byte>, c: seq<Byte>)
    requires a + b <= c
    ensures start + a + b <= start + c
  {
    assert start + a + b == start + (a + b);
  }

  /** Then every component stands in its place, with its length before it. */
  lemma ComponentLayout(e: Entry, i: nat)
    requires CountsFit(e) && i < |e.components|
    ensures CountedAt(Names(e), ComponentOffset(e, i), e.components[i])
  {
    var front := ComponentFront(e, i);
    CountedInside(Names(e), front, e.components[i]);
  }

  /** A record's body is its names and the fields behind them; in the file its length
      stands before it, in four octets. */
  lemma RecordLayout(e: Entry, rest: seq<Byte>)
    requires CountsFit(e) && |Body(e)| < 0x8000_0000
    ensures var file, n, end := ItemBytes(Record(e)) + rest, |Body(e)|, ComponentOffset(e, |e.components|);
            && |file| >= 4 + n && Value(file[..4]) == n && file[4 + n..] == rest && n == end + 17 + |e.key|
            && file[4..4 + end] == Names(e) && file[4 + end..4 + n] == Tail(e)
  {
    NamesGrow(e, |e.components|);
    assert e.components[..|e.components|] == e.components;
    var b, n := Body(e), |Body(e)|;
    var file := ItemBytes(Record(e)) + rest;
    Pow256Values();
    ValueOfBigEndian(n, WORD);
    assert file[..4] == BigEndian(n, WORD) && file[4..4 + n] == b && file[4 + n..] == rest;
    var end := |Names(e)|;
    assert file[4..4 + end] == b[..end] && file[4 + end..4 + n] == b[end..];
  }

  /** The file's own header: which files are refused before any record is read. */
  lemma FileHeader(lossy: Lossy, file: seq<Byte>)
    ensures |file| < 2 ==> ReadFile(lossy, file) == Err(Eof)
    ensures |file| >= 2 && file[0] != 5 ==> ReadFile(lossy, file) == Err(BadMagic)
    ensures |file| >= 2 && file[0] == 5 && file[1] != 2 ==> ReadFile(lossy, file) == Err(UnsupportedVersion(file[1]))
    ensures 2 <= |file| < 6 && file[0] == 5 && file[1] == 2 ==> ReadFile(lossy, file) == Ok([])
  {
  }

  /** A record that ends before the whole version number has the version of its one
      octet. */
  lemma ShortVersion(e: Entry, extra: seq<Byte>)
    requires CountsFit(e) && |extra| < 4
    ensures DecodeTail(e.realm, e.components, Fixed(e) + Counted(e.key) + extra) == Ok(e.(kvno := e.kvno % 256))
  {
    var r := Fixed(e) + Counted(e.key) + extra;
    FixedFields(BigEndian(Unsigned(e.nameType), WORD), BigEndian(e.timestamp, WORD), [e.kvno % 256],
                BigEndian(EtypeNumber(e.enctype), SHORT), Counted(e.key), extra, r);
    U32RoundTrip(Unsigned(e.nameType));
    U32RoundTrip(e.timestamp);
    EtypeField(e.enctype);
    TakeOfCounted(e.key, extra);
    TailDecodes(e.realm, e.components, r, e.enctype, e.key, extra);
  }

  /** A record of an enctype other than 17 to 20 is refused for it. */
  lemma OtherEnctypes(realm: seq<Byte>, components: seq<seq<Byte>>, r: seq<Byte>)
    requires |r| >= 11
    ensures (exists n :: DecodeTail(realm, components, r) == Err(UnsupportedEnctype(n))) <==>
              Value(r[9..11]) !in {17, 18, 19, 20}
  {
    if Value(r[9..11]) !in {17, 18, 19, 20} {
      assert DecodeTail(realm, components, r) == Err(UnsupportedEnctype(Value(r[9..11])));
    }
  }

  /** A hole of 2^31 bytes ends the reader. */
  lemma LargestHole(decode: Decoder, rest: seq<Byte>)
    ensures ReadWith(decode, [0x80, 0, 0, 0] + rest) == Err(Crash)
  {
    var r := [0x80, 0, 0, 0] + rest;
    assert r[..4] == [0x80] + Zeros(3);
    ValueConcat([0x80], Zeros(3));
    ValueOfZeros(3);
    assert Value([0x80]) == 0x80;
    Pow256Values();
  }
}
