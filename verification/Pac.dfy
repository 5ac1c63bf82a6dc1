/** The layout of a privilege attribute certificate (section 2.3 of MS-PAC) and
    its two signatures (section 2.8), as `iron-kdc` assembles them. */
module Pac {
  import opened Options
  import opened Bytes
  import opened Crypto

  datatype Buffer = Buffer(ulType: U32, data: seq<Byte>)

  /** Field widths in bytes. */
  const ULONG: nat := 4
  const ULONG64: nat := 8

  // ---------------------------------------------------------------- assembly

  /** `n.div_ceil(8) * 8` */
  function BlockLen(n: nat): (m: nat)
    ensures n <= m < n + 8 && m % 8 == 0
  {
    (n + 7) / 8 * 8
  }

  function Padded(data: seq<Byte>): (s: seq<Byte>)
    ensures |s| == BlockLen(|data|)
  {
    data + Zeros(BlockLen(|data|) - |data|)
  }

  /** Where the data of buffer `i` starts; for `i == |bs|`, where the last ends. */
  function OffsetAt(bs: seq<Buffer>, i: nat): nat
    requires i <= |bs|
  {
    if i == 0 then 8 + 16 * |bs| else BlockLen(OffsetAt(bs, i - 1) + |bs[i - 1].data|)
  }

  /** One `PAC_INFO_BUFFER`. */
  function InfoEntry(b: Buffer, offset: nat): (s: seq<Byte>)
    ensures |s| == 16
  {
    LittleEndian(b.ulType, ULONG) + LittleEndian(|b.data|, ULONG) + LittleEndian(offset, ULONG64)
  }

  function Infos(bs: seq<Buffer>, i: nat): (s: seq<Byte>)
    requires i <= |bs|
    ensures |s| == 16 * i
  {
    if i == 0 then [] else Infos(bs, i - 1) + InfoEntry(bs[i - 1], OffsetAt(bs, i - 1))
  }

  function Blobs(bs: seq<Buffer>, i: nat): seq<Byte>
    requires i <= |bs|
  {
    if i == 0 then [] else Blobs(bs, i - 1) + Padded(bs[i - 1].data)
  }

  function Header(n: nat): (s: seq<Byte>)
    ensures |s| == 8
  {
    LittleEndian(n, ULONG) + LittleEndian(0, ULONG)
  }

  function PacType(bs: seq<Buffer>): seq<Byte> {
    Header(|bs|) + Infos(bs, |bs|) + Blobs(bs, |bs|)
  }

  method BuildPacType(buffers: seq<Buffer>) returns (out: seq<Byte>)
    ensures out == PacType(buffers)
  {
    var headerLen := 8 + 16 * |buffers|;
    var offset := headerLen;
    var infoBuffers: seq<Byte> := [];
    var dataBlobs: seq<Byte> := [];
    for i := 0 to |buffers|
      invariant offset == OffsetAt(buffers, i)
      invariant infoBuffers == Infos(buffers, i)
      invariant dataBlobs == Blobs(buffers, i)
    {
      var data := buffers[i].data;
      OneBuffer(buffers, i);
      infoBuffers := infoBuffers + LittleEndian(buffers[i].ulType, ULONG);
      infoBuffers := infoBuffers + LittleEndian(|data|, ULONG);
      infoBuffers := infoBuffers + LittleEndian(offset, ULONG64);
      dataBlobs := dataBlobs + data;
      var pad := BlockLen(|data|) - |data|;
      dataBlobs := dataBlobs + Zeros(pad);
      offset := BlockLen(offset + |data|);
    }
    out := LittleEndian(|buffers|, ULONG);
    out := out + LittleEndian(0, ULONG);
    out := out + infoBuffers;
    out := out + dataBlobs;
  }

  /** What one turn of the loop appends. */
  lemma OneBuffer(bs: seq<Buffer>, i: nat)
    requires i < |bs|
    ensures var data, pad := bs[i].data, BlockLen(|bs[i].data|) - |bs[i].data|;
            && OffsetAt(bs, i + 1) == BlockLen(OffsetAt(bs, i) + |data|)
            && Infos(bs, i + 1) == Infos(bs, i) + LittleEndian(bs[i].ulType, ULONG) + LittleEndian(|data|, ULONG)
                                   + LittleEndian(OffsetAt(bs, i), ULONG64)
            && Blobs(bs, i + 1) == Blobs(bs, i) + data + Zeros(pad)
  {
    Associate3(Infos(bs, i), LittleEndian(bs[i].ulType, ULONG), LittleEndian(|bs[i].data|, ULONG),
               LittleEndian(OffsetAt(bs, i), ULONG64));
    Associate3(Blobs(bs, i), bs[i].data, Zeros(BlockLen(|bs[i].data|) - |bs[i].data|), []);
  }

  lemma Associate3(a: seq<Byte>, b: seq<Byte>, c: seq<Byte>, d: seq<Byte>)
    ensures a + b + c + d == a + (b + c + d) && c + [] == c && a + b + c == a + (b + c)
  {
  }

  // ------------------------------------------------------------------ layout

  lemma BlockLenAdd(a: nat, n: nat)
    requires a % 8 == 0
    ensures BlockLen(a + n) == a + BlockLen(n)
  {
  }

  /** Offsets count the header and the padded data before them. */
  lemma {:induction false} OffsetCounts(bs: seq<Buffer>, i: nat)
    requires i <= |bs|
    ensures OffsetAt(bs, i) == 8 + 16 * |bs| + |Blobs(bs, i)|
    ensures OffsetAt(bs, i) % 8 == 0
  {
    if i > 0 {
      OffsetCounts(bs, i - 1);
      BlockLenAdd(OffsetAt(bs, i - 1), |bs[i - 1].data|);
    }
  }

  lemma {:induction false} BlobsPrefix(bs: seq<Buffer>, i: nat, j: nat)
    requires i <= j <= |bs|
    ensures Blobs(bs, i) <= Blobs(bs, j)
    decreases j
  {
    if i < j {
      BlobsPrefix(bs, i, j - 1);
    }
  }

  lemma SliceOfTail(head: seq<Byte>, tail: seq<Byte>, i: nat, j: nat)
    requires i <= j <= |tail|
    ensures (head + tail)[|head| + i..|head| + j] == tail[i..j]
  {
  }

  lemma SliceOfHead(head: seq<Byte>, tail: seq<Byte>, i: nat, j: nat)
    requires i <= j <= |head|
    ensures (head + tail)[i..j] == head[i..j]
  {
  }

  lemma {:induction false} InfosAt(bs: seq<Buffer>, i: nat, j: nat)
    requires i < j <= |bs|
    ensures Infos(bs, j)[16 * i..16 * i + 16] == InfoEntry(bs[i], OffsetAt(bs, i))
    decreases j
  {
    var front, last := Infos(bs, j - 1), InfoEntry(bs[j - 1], OffsetAt(bs, j - 1));
    if i < j - 1 {
      InfosAt(bs, i, j - 1);
      SliceOfHead(front, last, 16 * i, 16 * i + 16);
    } else {
      SliceOfTail(front, last, 0, 16);
      assert last[0..16] == last;
    }
  }

  lemma BlobsHold(bs: seq<Buffer>, i: nat)
    requires i < |bs|
    ensures |Blobs(bs, i)| + BlockLen(|bs[i].data|) == |Blobs(bs, i + 1)| <= |Blobs(bs, |bs|)|
    ensures Blobs(bs, |bs|)[|Blobs(bs, i)|..|Blobs(bs, i + 1)|] == Padded(bs[i].data)
  {
    BlobsPrefix(bs, i + 1, |bs|);
    assert Blobs(bs, i + 1) == Blobs(bs, i) + Padded(bs[i].data);
  }

  lemma PaddedAt(head: seq<Byte>, blobs: seq<Byte>, at: nat, data: seq<Byte>, start: nat, end: nat)
    requires at + BlockLen(|data|) <= |blobs| && blobs[at..at + BlockLen(|data|)] == Padded(data)
    requires start == |head| + at && end == start + BlockLen(|data|)
    ensures (head + blobs)[start..end] == Padded(data)
    ensures (head + blobs)[start..start + |data|] == data
  {
    SliceOfTail(head, blobs, at, at + BlockLen(|data|));
    SliceOfTail(head, blobs, at, at + |data|);
    assert blobs[at..at + |data|] == blobs[at..at + BlockLen(|data|)][..|data|];
    assert Padded(data)[..|data|] == data;
  }

  lemma Places(bs: seq<Buffer>, i: nat)
    requires i < |bs|
    ensures OffsetAt(bs, i) % 8 == 0 && 8 + 16 * |bs| <= OffsetAt(bs, i)
    ensures OffsetAt(bs, i + 1) == OffsetAt(bs, i) + BlockLen(|bs[i].data|) <= |PacType(bs)|
  {
    OffsetCounts(bs, i);
    OffsetCounts(bs, i + 1);
    BlobsHold(bs, i);
    PacSize(bs);
  }

  lemma PacSize(bs: seq<Buffer>)
    ensures |PacType(bs)| == 8 + 16 * |bs| + |Blobs(bs, |bs|)|
  {
  }

  lemma NextAfter(bs: seq<Buffer>, i: nat)
    requires i + 1 < |bs|
    ensures OffsetAt(bs, i) + |bs[i].data| <= OffsetAt(bs, i + 1)
  {
    Places(bs, i);
  }

  lemma {:induction false} Disjoint(bs: seq<Buffer>, i: nat, j: nat)
    requires i < j < |bs|
    ensures OffsetAt(bs, i) + |bs[i].data| <= OffsetAt(bs, j)
    decreases j
  {
    NextAfter(bs, j - 1);
    if i < j - 1 {
      Disjoint(bs, i, j - 1);
    }
  }

  lemma Span(bs: seq<Buffer>, i: nat)
    requires i < |bs|
    ensures OffsetAt(bs, i) == 8 + 16 * |bs| + |Blobs(bs, i)|
    ensures OffsetAt(bs, i + 1) == OffsetAt(bs, i) + BlockLen(|bs[i].data|)
    ensures |Blobs(bs, i)| + BlockLen(|bs[i].data|) <= |Blobs(bs, |bs|)|
    ensures Blobs(bs, |bs|)[|Blobs(bs, i)|..|Blobs(bs, i)| + BlockLen(|bs[i].data|)] == Padded(bs[i].data)
  {
    BlobsHold(bs, i);
    Places(bs, i);
    OffsetCounts(bs, i);
  }

  lemma DataWithin(head: seq<Byte>, bs: seq<Buffer>, i: nat)
    requires i < |bs| && |head| == 8 + 16 * |bs|
    ensures OffsetAt(bs, i) + |bs[i].data| <= OffsetAt(bs, i + 1) <= |head + Blobs(bs, |bs|)|
    ensures (head + Blobs(bs, |bs|))[OffsetAt(bs, i)..OffsetAt(bs, i + 1)] == Padded(bs[i].data)
    ensures (head + Blobs(bs, |bs|))[OffsetAt(bs, i)..OffsetAt(bs, i) + |bs[i].data|] == bs[i].data
  {
    Span(bs, i);
    PaddedAt(head, Blobs(bs, |bs|), |Blobs(bs, i)|, bs[i].data, OffsetAt(bs, i), OffsetAt(bs, i + 1));
  }

  lemma DataAt(bs: seq<Buffer>, i: nat)
    requires i < |bs|
    ensures OffsetAt(bs, i) + |bs[i].data| <= OffsetAt(bs, i + 1) <= |PacType(bs)|
    ensures PacType(bs)[OffsetAt(bs, i)..OffsetAt(bs, i + 1)] == Padded(bs[i].data)
    ensures PacType(bs)[OffsetAt(bs, i)..OffsetAt(bs, i) + |bs[i].data|] == bs[i].data
  {
    DataWithin(Header(|bs|) + Infos(bs, |bs|), bs, i);
  }

  /** Every buffer starts on a multiple of 8, clear of the table and of the
      buffers after it; its bytes and then zeros stand there. */
  lemma Layout(bs: seq<Buffer>, i: nat)
    requires i < |bs|
    ensures OffsetAt(bs, i) % 8 == 0 && 8 + 16 * |bs| <= OffsetAt(bs, i)
    ensures OffsetAt(bs, i + 1) == OffsetAt(bs, i) + BlockLen(|bs[i].data|) <= |PacType(bs)|
    ensures PacType(bs)[OffsetAt(bs, i)..OffsetAt(bs, i + 1)]
         == bs[i].data + Zeros(BlockLen(|bs[i].data|) - |bs[i].data|)
    ensures forall j :: i < j < |bs| ==> OffsetAt(bs, i) + |bs[i].data| <= OffsetAt(bs, j)
    ensures forall j :: i < j < |bs| && bs[i].data != [] ==> OffsetAt(bs, i) < OffsetAt(bs, j)
  {
    Places(bs, i);
    DataAt(bs, i);
    forall j | i < j < |bs|
      ensures OffsetAt(bs, i) + |bs[i].data| <= OffsetAt(bs, j)
    {
      Disjoint(bs, i, j);
    }
  }

  lemma EntryWithin(head: seq<Byte>, infos: seq<Byte>, blobs: seq<Byte>, i: nat)
    requires |head| == 8 && 16 * i + 16 <= |infos|
    ensures (head + infos + blobs)[8 + 16 * i..24 + 16 * i] == infos[16 * i..16 * i + 16]
  {
    SliceOfTail(head, infos, 16 * i, 16 * i + 16);
    SliceOfHead(head + infos, blobs, 8 + 16 * i, 24 + 16 * i);
  }

  lemma TableEntry(bs: seq<Buffer>, i: nat)
    requires i < |bs|
    ensures 24 + 16 * i <= |PacType(bs)|
    ensures PacType(bs)[8 + 16 * i..24 + 16 * i] == InfoEntry(bs[i], OffsetAt(bs, i))
  {
    InfosAt(bs, i, |bs|);
    EntryWithin(Header(|bs|), Infos(bs, |bs|), Blobs(bs, |bs|), i);
  }

  // ----------------------------------------------------------------- reading

  datatype Info = Info(ulType: nat, size: nat, offset: nat)

  /** A table entry as any reader of the format takes it apart. */
  function InfoAt(blob: seq<Byte>, i: nat): Info
    requires 24 + 16 * i <= |blob|
  {
    var e := blob[8 + 16 * i..24 + 16 * i];
    Info(LittleValue(e[..4]), LittleValue(e[4..8]), LittleValue(e[8..16]))
  }

  function Count(blob: seq<Byte>): nat
    requires |blob| >= 8
  {
    LittleValue(blob[..4])
  }

  /** The table lies within the blob, and so does everything it points at. */
  predicate WellFormed(blob: seq<Byte>) {
    && |blob| >= 8
    && 8 + 16 * Count(blob) <= |blob|
    && forall i :: 0 <= i < Count(blob) ==> InfoAt(blob, i).offset + InfoAt(blob, i).size <= |blob|
  }

  function Parse(blob: seq<Byte>): Option<seq<(nat, seq<Byte>)>> {
    if !WellFormed(blob) then None
    else
      Some(seq(Count(blob), i requires 0 <= i < Count(blob) =>
        var e := InfoAt(blob, i);
        (e.ulType, blob[e.offset..e.offset + e.size])))
  }

  function Plain(bs: seq<Buffer>): (s: seq<(nat, seq<Byte>)>)
    ensures |s| == |bs|
  {
    seq(|bs|, i requires 0 <= i < |bs| => (bs[i].ulType as nat, bs[i].data))
  }

  predicate SizesFit(bs: seq<Buffer>) {
    |bs| < 0x1_0000_0000 && forall i :: 0 <= i < |bs| ==> |bs[i].data| < 0x1_0000_0000
  }

  lemma ReadInfo(e: seq<Byte>, b: Buffer, offset: nat)
    requires e == InfoEntry(b, offset)
    requires |b.data| < 0x1_0000_0000 && offset < 0x1_0000_0000_0000_0000
    ensures LittleValue(e[..4]) == b.ulType && LittleValue(e[4..8]) == |b.data| && LittleValue(e[8..16]) == offset
  {
    Pow256Values();
    LittleValueOfLittleEndian(b.ulType, ULONG);
    LittleValueOfLittleEndian(|b.data|, ULONG);
    LittleValueOfLittleEndian(offset, ULONG64);
    assert e[..4] == LittleEndian(b.ulType, ULONG);
    assert e[4..8] == LittleEndian(|b.data|, ULONG);
    assert e[8..16] == LittleEndian(offset, ULONG64);
  }

  lemma ReadEntry(bs: seq<Buffer>, i: nat)
    requires i < |bs| && |bs[i].data| < 0x1_0000_0000 && |PacType(bs)| < 0x1_0000_0000_0000_0000
    ensures 24 + 16 * i <= |PacType(bs)|
    ensures InfoAt(PacType(bs), i) == Info(bs[i].ulType, |bs[i].data|, OffsetAt(bs, i))
  {
    TableEntry(bs, i);
    Places(bs, i);
    ReadInfo(PacType(bs)[8 + 16 * i..24 + 16 * i], bs[i], OffsetAt(bs, i));
  }

  lemma ReadCount(bs: seq<Buffer>)
    requires |bs| < 0x1_0000_0000
    ensures |PacType(bs)| >= 8 + 16 * |bs| && Count(PacType(bs)) == |bs|
  {
    Pow256Values();
    LittleValueOfLittleEndian(|bs|, ULONG);
    assert PacType(bs)[..4] == LittleEndian(|bs|, ULONG);
  }

  /** The table of `blob` lists the buffers and points at their data. */
  ghost predicate Describes(blob: seq<Byte>, bs: seq<Buffer>) {
    && |blob| >= 8 + 16 * |bs| && Count(blob) == |bs|
    && forall i :: 0 <= i < |bs| ==> DescribesOne(blob, bs, i)
  }

  ghost predicate DescribesOne(blob: seq<Byte>, bs: seq<Buffer>, i: nat)
    requires i < |bs| && |blob| >= 8 + 16 * |bs|
  {
    && InfoAt(blob, i) == Info(bs[i].ulType, |bs[i].data|, OffsetAt(bs, i))
    && OffsetAt(bs, i) + |bs[i].data| <= |blob|
    && blob[OffsetAt(bs, i)..OffsetAt(bs, i) + |bs[i].data|] == bs[i].data
  }

  lemma PacDescribes(bs: seq<Buffer>)
    requires SizesFit(bs) && |PacType(bs)| < 0x1_0000_0000_0000_0000
    ensures Describes(PacType(bs), bs)
  {
    ReadCount(bs);
    forall i | 0 <= i < |bs|
      ensures DescribesOne(PacType(bs), bs, i)
    {
      ReadEntry(bs, i);
      DataAt(bs, i);
    }
  }

  lemma ParseDescribed(blob: seq<Byte>, bs: seq<Buffer>)
    requires Describes(blob, bs)
    ensures WellFormed(blob) && Parse(blob) == Some(Plain(bs))
  {
    forall i | 0 <= i < |bs|
      ensures InfoAt(blob, i).offset + InfoAt(blob, i).size <= |blob|
      ensures blob[InfoAt(blob, i).offset..InfoAt(blob, i).offset + InfoAt(blob, i).size] == bs[i].data
      ensures InfoAt(blob, i).ulType == bs[i].ulType
    {
      assert DescribesOne(blob, bs, i);
    }
    assert WellFormed(blob);
    assert Parse(blob).value == Plain(bs);
  }

  lemma ParsedFits(blob: seq<Byte>, bs: seq<Buffer>)
    requires Parse(blob) == Some(Plain(bs))
    ensures SizesFit(bs)
  {
    Pow256Values();
    LittleValueBound(blob[..4]);
    var read := Parse(blob).value;
    forall i | 0 <= i < |bs|
      ensures |bs[i].data| < 0x1_0000_0000
    {
      LittleValueBound(blob[8 + 16 * i..24 + 16 * i][4..8]);
      assert |read[i].1| == InfoAt(blob, i).size;
      assert read[i].1 == Plain(bs)[i].1 == bs[i].data;
    }
  }

  /** For a blob of a size memory can hold, a reader that follows the table gets
      back the buffers, types and order included, exactly when the number of
      buffers and every size fit their 32-bit fields. */
  lemma PacRoundTrip(bs: seq<Buffer>)
    requires |PacType(bs)| < 0x1_0000_0000_0000_0000
    ensures Parse(PacType(bs)) == Some(Plain(bs)) <==> SizesFit(bs)
  {
    if Parse(PacType(bs)) == Some(Plain(bs)) {
      ParsedFits(PacType(bs), bs);
    }
    if SizesFit(bs) {
      PacDescribes(bs);
      ParseDescribed(PacType(bs), bs);
    }
  }

  // ----------------------------------------------------------------- signing

  const PAC_LOGON_INFO: U32 := 1
  const PAC_SERVER_CHECKSUM: U32 := 6
  const PAC_PRIVSVR_CHECKSUM: U32 := 7
  const PAC_CLIENT_INFO_TYPE: U32 := 10
  const PAC_SIGNATURE_KEY_USAGE: nat := 17

  function PacChecksumType(e: Enctype): U32 {
    match e
    case Aes128CtsHmacSha1 => 15
    case Aes256CtsHmacSha1 => 16
    case Aes128CtsHmacSha256 => 19
    case Aes256CtsHmacSha384 => 20
  }

  function SignatureData(e: Enctype, signature: seq<Byte>): seq<Byte> {
    LittleEndian(PacChecksumType(e), ULONG) + signature
  }

  function Buffers(logon: seq<Byte>, client: seq<Byte>, serverType: Enctype, serverSig: seq<Byte>, kdcType: Enctype,
                   kdcSig: seq<Byte>): (bs: seq<Buffer>)
    ensures |bs| == 4
  {
    [Buffer(PAC_LOGON_INFO, logon), Buffer(PAC_CLIENT_INFO_TYPE, client),
     Buffer(PAC_SERVER_CHECKSUM, SignatureData(serverType, serverSig)),
     Buffer(PAC_PRIVSVR_CHECKSUM, SignatureData(kdcType, kdcSig))]
  }

  datatype Keys = Keys(server: Key, serverType: Enctype, kdc: Key, kdcType: Enctype)

  method Generate(p: Provider, logon: seq<Byte>, client: seq<Byte>, ks: Keys) returns (r: Option<seq<Byte>>)
    ensures r == Generated(p, logon, client, ks)
  {
    var serverZeros := Zeros(HmacLen(ks.serverType));
    var kdcZeros := Zeros(HmacLen(ks.kdcType));
    var blobToChecksum := BuildPacType(Buffers(logon, client, ks.serverType, serverZeros, ks.kdcType, kdcZeros));
    var serverSignature := p.checksum(ks.serverType, ks.server, PAC_SIGNATURE_KEY_USAGE, blobToChecksum);
    if serverSignature.None? {
      return None;
    }
    var kdcSignature := p.checksum(ks.kdcType, ks.kdc, PAC_SIGNATURE_KEY_USAGE, serverSignature.value);
    if kdcSignature.None? {
      return None;
    }
    var out := BuildPacType(Buffers(logon, client, ks.serverType, serverSignature.value, ks.kdcType,
                                    kdcSignature.value));
    r := Some(out);
  }

  function Unsigned(logon: seq<Byte>, client: seq<Byte>, ks: Keys): seq<Byte> {
    PacType(Buffers(logon, client, ks.serverType, Zeros(HmacLen(ks.serverType)), ks.kdcType,
                    Zeros(HmacLen(ks.kdcType))))
  }

  function Generated(p: Provider, logon: seq<Byte>, client: seq<Byte>, ks: Keys): Option<seq<Byte>> {
    match p.checksum(ks.serverType, ks.server, PAC_SIGNATURE_KEY_USAGE, Unsigned(logon, client, ks))
    case None => None
    case Some(serverSig) =>
      match p.checksum(ks.kdcType, ks.kdc, PAC_SIGNATURE_KEY_USAGE, serverSig)
      case None => None
      case Some(kdcSig) => Some(PacType(Buffers(logon, client, ks.serverType, serverSig, ks.kdcType, kdcSig)))
  }

  // ------------------------------------------------------------ verification

  /** `s` with the bytes from `at` on replaced by `d`. */
  function Overwrite(s: seq<Byte>, at: nat, d: seq<Byte>): (r: seq<Byte>)
    requires at + |d| <= |s|
    ensures |r| == |s|
  {
    s[..at] + d + s[at + |d|..]
  }

  /** The first table entry of a type. */
  function FindType(blob: seq<Byte>, ulType: nat, i: nat): Option<Info>
    requires WellFormed(blob) && i <= Count(blob)
    decreases Count(blob) - i
  {
    if i == Count(blob) then None
    else if InfoAt(blob, i).ulType == ulType then Some(InfoAt(blob, i))
    else FindType(blob, ulType, i + 1)
  }

  lemma {:induction false} FoundInside(blob: seq<Byte>, ulType: nat, i: nat)
    requires WellFormed(blob) && i <= Count(blob)
    ensures FindType(blob, ulType, i).Some? ==>
              FindType(blob, ulType, i).value.offset + FindType(blob, ulType, i).value.size <= |blob|
    decreases Count(blob) - i
  {
    if i < Count(blob) && InfoAt(blob, i).ulType != ulType {
      FoundInside(blob, ulType, i + 1);
    }
  }

  /** The signature bytes of a signature buffer made zero. */
  function Blanked(blob: seq<Byte>, e: Info): (r: seq<Byte>)
    requires e.size >= 4 && e.offset + e.size <= |blob|
    ensures |r| == |blob|
  {
    Overwrite(blob, e.offset + 4, Zeros(e.size - 4))
  }

  function SignatureIn(blob: seq<Byte>, e: Info): seq<Byte>
    requires e.size >= 4 && e.offset + e.size <= |blob|
  {
    blob[e.offset + 4..e.offset + e.size]
  }

  /** The signature buffers of a blob, when it has both. */
  function SignatureBuffers(blob: seq<Byte>): (r: Option<(Info, Info)>)
    ensures r.Some? ==> r.value.0.size >= 4 && r.value.0.offset + r.value.0.size <= |blob|
    ensures r.Some? ==> r.value.1.size >= 4 && r.value.1.offset + r.value.1.size <= |blob|
  {
    if !WellFormed(blob) then None
    else
      FoundInside(blob, PAC_SERVER_CHECKSUM, 0);
      FoundInside(blob, PAC_PRIVSVR_CHECKSUM, 0);
      match (FindType(blob, PAC_SERVER_CHECKSUM, 0), FindType(blob, PAC_PRIVSVR_CHECKSUM, 0))
      case (Some(s), Some(k)) => if s.size >= 4 && k.size >= 4 then Some((s, k)) else None
      case _ => None
  }

  /** What the server signature covers: the blob, both signatures zeroed. */
  function SignedContent(blob: seq<Byte>): Option<seq<Byte>> {
    match SignatureBuffers(blob)
    case None => None
    case Some((s, k)) => Some(Blanked(Blanked(blob, s), k))
  }

  /** Validation as section 2.8 of MS-PAC has a receiver do it: the types name
      the checksum of the key, the server signature covers the zeroed blob, and
      the KDC signature covers the server signature. */
  predicate Verifies(p: Provider, ks: Keys, blob: seq<Byte>) {
    match SignatureBuffers(blob)
    case None => false
    case Some((s, k)) =>
      && LittleValue(blob[s.offset..s.offset + 4]) == PacChecksumType(ks.serverType)
      && LittleValue(blob[k.offset..k.offset + 4]) == PacChecksumType(ks.kdcType)
      && p.checksum(ks.serverType, ks.server, PAC_SIGNATURE_KEY_USAGE, Blanked(Blanked(blob, s), k))
         == Some(SignatureIn(blob, s))
      && p.checksum(ks.kdcType, ks.kdc, PAC_SIGNATURE_KEY_USAGE, SignatureIn(blob, s)) == Some(SignatureIn(blob, k))
  }

  // -------------------------------------------------- changing one buffer's data

  function WithData(bs: seq<Buffer>, k: nat, d: seq<Byte>): (r: seq<Buffer>)
    requires k < |bs|
    ensures |r| == |bs|
  {
    bs[k := Buffer(bs[k].ulType, d)]
  }

  lemma {:induction false} SameOffset(bs: seq<Buffer>, k: nat, d: seq<Byte>, i: nat)
    requires k < |bs| && |d| == |bs[k].data| && i <= |bs|
    ensures OffsetAt(WithData(bs, k, d), i) == OffsetAt(bs, i)
  {
    if i > 0 {
      SameOffset(bs, k, d, i - 1);
    }
  }

  lemma SameInfo(b: Buffer, c: Buffer, offset: nat)
    requires b.ulType == c.ulType && |b.data| == |c.data|
    ensures InfoEntry(b, offset) == InfoEntry(c, offset)
  {
  }

  lemma {:induction false} SameTable(bs: seq<Buffer>, k: nat, d: seq<Byte>, i: nat)
    requires k < |bs| && |d| == |bs[k].data| && i <= |bs|
    ensures OffsetAt(WithData(bs, k, d), i) == OffsetAt(bs, i)
    ensures Infos(WithData(bs, k, d), i) == Infos(bs, i)
  {
    SameOffset(bs, k, d, i);
    if i > 0 {
      SameTable(bs, k, d, i - 1);
      SameInfoAt(bs, k, d, i - 1);
    }
  }

  lemma SameInfoAt(bs: seq<Buffer>, k: nat, d: seq<Byte>, i: nat)
    requires k < |bs| && |d| == |bs[k].data| && i < |bs|
    ensures InfoEntry(WithData(bs, k, d)[i], OffsetAt(WithData(bs, k, d), i)) == InfoEntry(bs[i], OffsetAt(bs, i))
  {
    SameOffset(bs, k, d, i);
    SameInfo(WithData(bs, k, d)[i], bs[i], OffsetAt(bs, i));
  }

  lemma {:induction false} SameBlobsBefore(bs: seq<Buffer>, k: nat, d: seq<Byte>, i: nat)
    requires i <= k < |bs|
    ensures Blobs(WithData(bs, k, d), i) == Blobs(bs, i)
  {
    if i > 0 {
      SameBlobsBefore(bs, k, d, i - 1);
    }
  }

  lemma {:induction false} ChangedBlobs(bs: seq<Buffer>, k: nat, d: seq<Byte>, i: nat)
    requires k < i <= |bs| && |d| == |bs[k].data|
    ensures |Blobs(bs, k)| + |d| <= |Blobs(bs, i)|
    ensures Blobs(WithData(bs, k, d), i) == Overwrite(Blobs(bs, i), |Blobs(bs, k)|, d)
  {
    var bs', at := WithData(bs, k, d), |Blobs(bs, k)|;
    if i == k + 1 {
      SameBlobsBefore(bs, k, d, k);
      OverwritePadded(Blobs(bs, k), bs[k].data, d);
    } else {
      ChangedBlobs(bs, k, d, i - 1);
      OverwriteThen(Blobs(bs, i - 1), Padded(bs[i - 1].data), at, d);
    }
  }

  lemma OverwritePadded(front: seq<Byte>, was: seq<Byte>, d: seq<Byte>)
    requires |d| == |was|
    ensures Overwrite(front + Padded(was), |front|, d) == front + Padded(d)
  {
  }

  lemma OverwriteThen(s: seq<Byte>, t: seq<Byte>, at: nat, d: seq<Byte>)
    requires at + |d| <= |s|
    ensures Overwrite(s + t, at, d) == Overwrite(s, at, d) + t
  {
  }

  lemma OverwriteAfter(h: seq<Byte>, s: seq<Byte>, at: nat, d: seq<Byte>)
    requires at + |d| <= |s|
    ensures Overwrite(h + s, |h| + at, d) == h + Overwrite(s, at, d)
  {
  }

  /** New data of the old length changes the blob at the buffer's place only. */
  lemma ChangedPac(bs: seq<Buffer>, k: nat, d: seq<Byte>)
    requires k < |bs| && |d| == |bs[k].data|
    ensures OffsetAt(bs, k) + |d| <= |PacType(bs)|
    ensures PacType(WithData(bs, k, d)) == Overwrite(PacType(bs), OffsetAt(bs, k), d)
  {
    SameTable(bs, k, d, |bs|);
    ChangedWithin(Header(|bs|) + Infos(bs, |bs|), bs, k, d);
  }

  lemma ChangedWithin(head: seq<Byte>, bs: seq<Buffer>, k: nat, d: seq<Byte>)
    requires k < |bs| && |d| == |bs[k].data| && |head| == 8 + 16 * |bs|
    ensures OffsetAt(bs, k) + |d| <= |head + Blobs(bs, |bs|)|
    ensures head + Blobs(WithData(bs, k, d), |bs|) == Overwrite(head + Blobs(bs, |bs|), OffsetAt(bs, k), d)
  {
    ChangedBlobs(bs, k, d, |bs|);
    OffsetCounts(bs, k);
    OverwriteAfter(head, Blobs(bs, |bs|), |Blobs(bs, k)|, d);
  }

  lemma OverwriteTail(s: seq<Byte>, at: nat, head: seq<Byte>, tail: seq<Byte>)
    requires at + |head| + |tail| <= |s| && s[at..at + |head|] == head
    ensures Overwrite(s, at, head + tail) == Overwrite(s, at + |head|, tail)
  {
  }

  lemma BlankedBlob(blob: seq<Byte>, head: seq<Byte>, sig: seq<Byte>, info: Info)
    requires |head| == 4 && info.size == 4 + |sig| && info.offset + info.size <= |blob|
    requires blob[info.offset..info.offset + info.size] == head + sig
    ensures blob[info.offset..info.offset + 4] == head && SignatureIn(blob, info) == sig
    ensures Blanked(blob, info) == Overwrite(blob, info.offset, head + Zeros(|sig|))
  {
    var at, end := info.offset, info.offset + info.size;
    assert blob[at..at + 4] == blob[at..end][..4] == head;
    assert blob[at + 4..end] == blob[at..end][4..] == sig;
    OverwriteTail(blob, at, head, Zeros(|sig|));
  }

  /** Blanking a signature buffer is assembling with a zero signature. */
  lemma BlankedPac(bs: seq<Buffer>, k: nat, e: Enctype, sig: seq<Byte>, info: Info)
    requires k < |bs| && bs[k].data == SignatureData(e, sig)
    requires info.offset == OffsetAt(bs, k) && info.size == |bs[k].data|
    ensures info.offset + info.size <= |PacType(bs)|
    ensures Blanked(PacType(bs), info) == PacType(WithData(bs, k, SignatureData(e, Zeros(|sig|))))
    ensures SignatureIn(PacType(bs), info) == sig
    ensures PacType(bs)[info.offset..info.offset + 4] == LittleEndian(PacChecksumType(e), ULONG)
  {
    DataAt(bs, k);
    BlankedBlob(PacType(bs), LittleEndian(PacChecksumType(e), ULONG), sig, info);
    ChangedPac(bs, k, SignatureData(e, Zeros(|sig|)));
  }

  // ------------------------------------------------------------------ result

  lemma FindsSignatures(blob: seq<Byte>, bs: seq<Buffer>)
    requires Describes(blob, bs) && |bs| == 4
    requires bs[0].ulType == PAC_LOGON_INFO && bs[1].ulType == PAC_CLIENT_INFO_TYPE
    requires bs[2].ulType == PAC_SERVER_CHECKSUM && bs[3].ulType == PAC_PRIVSVR_CHECKSUM
    requires |bs[2].data| >= 4 && |bs[3].data| >= 4
    ensures SignatureBuffers(blob) == Some((Info(PAC_SERVER_CHECKSUM, |bs[2].data|, OffsetAt(bs, 2)),
                                            Info(PAC_PRIVSVR_CHECKSUM, |bs[3].data|, OffsetAt(bs, 3))))
  {
    ParseDescribed(blob, bs);
    FindsFirst(blob, bs, 0, 2);
    FindsFirst(blob, bs, 0, 3);
  }

  lemma {:induction false} FindsFirst(blob: seq<Byte>, bs: seq<Buffer>, i: nat, j: nat)
    requires Describes(blob, bs) && WellFormed(blob)
    requires i <= j < |bs| && forall m :: i <= m < j ==> bs[m].ulType != bs[j].ulType
    ensures FindType(blob, bs[j].ulType, i) == Some(Info(bs[j].ulType, |bs[j].data|, OffsetAt(bs, j)))
    decreases j - i
  {
    assert DescribesOne(blob, bs, i);
    if i < j {
      FindsFirst(blob, bs, i + 1, j);
    }
  }

  /** Zeroing both signatures of a generated PAC gives back exactly the blob the
      server checksum was computed over, and the PAC verifies. */
  lemma GeneratedVerifies(p: Provider, logon: seq<Byte>, client: seq<Byte>, ks: Keys)
    requires Lawful(p) && Generated(p, logon, client, ks).Some?
    requires |logon| < 0x1_0000_0000 && |client| < 0x1_0000_0000
    ensures SignedContent(Generated(p, logon, client, ks).value) == Some(Unsigned(logon, client, ks))
    ensures Verifies(p, ks, Generated(p, logon, client, ks).value)
  {
    var serverSig := p.checksum(ks.serverType, ks.server, PAC_SIGNATURE_KEY_USAGE, Unsigned(logon, client, ks)).value;
    var kdcSig := p.checksum(ks.kdcType, ks.kdc, PAC_SIGNATURE_KEY_USAGE, serverSig).value;
    var bs := Buffers(logon, client, ks.serverType, serverSig, ks.kdcType, kdcSig);
    SignedBlob(logon, client, ks, serverSig, kdcSig);
    Pow256Values();
    LittleValueOfLittleEndian(PacChecksumType(ks.serverType), ULONG);
    LittleValueOfLittleEndian(PacChecksumType(ks.kdcType), ULONG);
  }

  /** What a reader finds in a generated PAC: the logon information under type 1,
      the client information under 10, and under 6 and 7 the checksum types and the
      two checksums, both of key usage 17. */
  lemma GeneratedReads(p: Provider, logon: seq<Byte>, client: seq<Byte>, ks: Keys)
    requires Lawful(p) && Generated(p, logon, client, ks).Some?
    requires |logon| < 0x1_0000_0000 && |client| < 0x1_0000_0000
    ensures exists serverSig, kdcSig ::
              && p.checksum(ks.serverType, ks.server, 17, Unsigned(logon, client, ks)) == Some(serverSig)
              && p.checksum(ks.kdcType, ks.kdc, 17, serverSig) == Some(kdcSig)
              && Parse(Generated(p, logon, client, ks).value)
                 == Some([(1, logon), (10, client), (6, LittleEndian(ChecksumNumber(ks.serverType), 4) + serverSig),
                          (7, LittleEndian(ChecksumNumber(ks.kdcType), 4) + kdcSig)])
    ensures Parse(Unsigned(logon, client, ks))
         == Some([(1, logon), (10, client),
                  (6, LittleEndian(ChecksumNumber(ks.serverType), 4) + Zeros(HmacLen(ks.serverType))),
                  (7, LittleEndian(ChecksumNumber(ks.kdcType), 4) + Zeros(HmacLen(ks.kdcType)))])
    ensures |Generated(p, logon, client, ks).value| >= 8
    ensures Generated(p, logon, client, ks).value[..8] == [4, 0, 0, 0, 0, 0, 0, 0]
  {
    HeaderOfFour();
    var serverSig := p.checksum(ks.serverType, ks.server, 17, Unsigned(logon, client, ks)).value;
    var kdcSig := p.checksum(ks.kdcType, ks.kdc, 17, serverSig).value;
    BuffersRead(logon, client, ks, serverSig, kdcSig);
    BuffersRead(logon, client, ks, Zeros(HmacLen(ks.serverType)), Zeros(HmacLen(ks.kdcType)));
  }

  /** Four buffers, version zero. */
  lemma HeaderOfFour()
    ensures Header(4) == [4, 0, 0, 0, 0, 0, 0, 0]
  {
    assert BigEndian(0, 1) == [0] && BigEndian(0, 2) == [0, 0] && BigEndian(0, 3) == [0, 0, 0];
    assert BigEndian(0, 4) == [0, 0, 0, 0] && BigEndian(4, 4) == [0, 0, 0, 4];
  }

  /** The checksum types of RFC 3962 and RFC 8009. */
  function ChecksumNumber(e: Enctype): nat {
    match EtypeNumber(e)
    case 17 => 15
    case 18 => 16
    case n => n
  }

  lemma BuffersRead(logon: seq<Byte>, client: seq<Byte>, ks: Keys, serverSig: seq<Byte>, kdcSig: seq<Byte>)
    requires |logon| < 0x1_0000_0000 && |client| < 0x1_0000_0000
    requires |serverSig| == HmacLen(ks.serverType) && |kdcSig| == HmacLen(ks.kdcType)
    ensures Parse(PacType(Buffers(logon, client, ks.serverType, serverSig, ks.kdcType, kdcSig)))
         == Some([(1, logon), (10, client), (6, LittleEndian(ChecksumNumber(ks.serverType), 4) + serverSig),
                  (7, LittleEndian(ChecksumNumber(ks.kdcType), 4) + kdcSig)])
  {
    var bs := Buffers(logon, client, ks.serverType, serverSig, ks.kdcType, kdcSig);
    SmallPac(bs);
    PacRoundTrip(bs);
    FourPlain(bs);
  }

  lemma FourPlain(bs: seq<Buffer>)
    requires |bs| == 4
    ensures Plain(bs) == [(bs[0].ulType as nat, bs[0].data), (bs[1].ulType as nat, bs[1].data),
                          (bs[2].ulType as nat, bs[2].data), (bs[3].ulType as nat, bs[3].data)]
  {
  }

  lemma SmallPac(bs: seq<Buffer>)
    requires |bs| == 4 && SizesFit(bs)
    ensures |PacType(bs)| < 0x1_0000_0000_0000_0000
  {
    OffsetCounts(bs, 4);
    assert OffsetAt(bs, 1) <= 80 + 0x1_0000_0000;
    assert OffsetAt(bs, 2) <= 90 + 2 * 0x1_0000_0000;
    assert OffsetAt(bs, 3) <= 100 + 3 * 0x1_0000_0000;
  }

  lemma SignedBlob(logon: seq<Byte>, client: seq<Byte>, ks: Keys, serverSig: seq<Byte>, kdcSig: seq<Byte>)
    requires |logon| < 0x1_0000_0000 && |client| < 0x1_0000_0000
    requires |serverSig| == HmacLen(ks.serverType) && |kdcSig| == HmacLen(ks.kdcType)
    ensures var blob := PacType(Buffers(logon, client, ks.serverType, serverSig, ks.kdcType, kdcSig));
            SignatureBuffers(blob).Some? &&
            var (s, k) := SignatureBuffers(blob).value;
            && Blanked(Blanked(blob, s), k) == Unsigned(logon, client, ks)
            && SignatureIn(blob, s) == serverSig && SignatureIn(blob, k) == kdcSig
            && blob[s.offset..s.offset + 4] == LittleEndian(PacChecksumType(ks.serverType), ULONG)
            && blob[k.offset..k.offset + 4] == LittleEndian(PacChecksumType(ks.kdcType), ULONG)
  {
    var bs := Buffers(logon, client, ks.serverType, serverSig, ks.kdcType, kdcSig);
    BuffersWithout(logon, client, ks, serverSig, kdcSig);
    SignedBuffers(bs, ks, serverSig, kdcSig);
  }

  lemma BuffersWithout(logon: seq<Byte>, client: seq<Byte>, ks: Keys, serverSig: seq<Byte>, kdcSig: seq<Byte>)
    ensures var bs := Buffers(logon, client, ks.serverType, serverSig, ks.kdcType, kdcSig);
            WithoutSignatures(bs, ks, serverSig, kdcSig)
              == Buffers(logon, client, ks.serverType, Zeros(|serverSig|), ks.kdcType, Zeros(|kdcSig|))
  {
  }

  lemma SignedBuffers(bs: seq<Buffer>, ks: Keys, serverSig: seq<Byte>, kdcSig: seq<Byte>)
    requires |bs| == 4 && SizesFit(bs)
    requires bs[0].ulType == PAC_LOGON_INFO && bs[1].ulType == PAC_CLIENT_INFO_TYPE
    requires bs[2] == Buffer(PAC_SERVER_CHECKSUM, SignatureData(ks.serverType, serverSig))
    requires bs[3] == Buffer(PAC_PRIVSVR_CHECKSUM, SignatureData(ks.kdcType, kdcSig))
    ensures var blob := PacType(bs);
            SignatureBuffers(blob).Some? &&
            var (s, k) := SignatureBuffers(blob).value;
            && Blanked(Blanked(blob, s), k) == PacType(WithoutSignatures(bs, ks, serverSig, kdcSig))
            && SignatureIn(blob, s) == serverSig && SignatureIn(blob, k) == kdcSig
            && blob[s.offset..s.offset + 4] == LittleEndian(PacChecksumType(ks.serverType), ULONG)
            && blob[k.offset..k.offset + 4] == LittleEndian(PacChecksumType(ks.kdcType), ULONG)
  {
    SmallPac(bs);
    PacDescribes(bs);
    FindsSignatures(PacType(bs), bs);
    var (s, k) := SignatureBuffers(PacType(bs)).value;
    BlankedBoth(bs, ks, serverSig, kdcSig, s, k);
  }

  function WithoutSignatures(bs: seq<Buffer>, ks: Keys, serverSig: seq<Byte>, kdcSig: seq<Byte>): seq<Buffer>
    requires |bs| == 4
  {
    WithData(WithData(bs, 2, SignatureData(ks.serverType, Zeros(|serverSig|))),
             3, SignatureData(ks.kdcType, Zeros(|kdcSig|)))
  }

  lemma BlankedBoth(bs: seq<Buffer>, ks: Keys, serverSig: seq<Byte>, kdcSig: seq<Byte>, s: Info, k: Info)
    requires |bs| == 4
    requires bs[2].data == SignatureData(ks.serverType, serverSig) && bs[3].data == SignatureData(ks.kdcType, kdcSig)
    requires s.offset == OffsetAt(bs, 2) && s.size == |bs[2].data|
    requires k.offset == OffsetAt(bs, 3) && k.size == |bs[3].data|
    ensures s.offset + s.size <= |PacType(bs)| && k.offset + k.size <= |PacType(bs)|
    ensures Blanked(Blanked(PacType(bs), s), k) == PacType(WithoutSignatures(bs, ks, serverSig, kdcSig))
    ensures SignatureIn(PacType(bs), s) == serverSig && SignatureIn(PacType(bs), k) == kdcSig
    ensures PacType(bs)[s.offset..s.offset + 4] == LittleEndian(PacChecksumType(ks.serverType), ULONG)
    ensures PacType(bs)[k.offset..k.offset + 4] == LittleEndian(PacChecksumType(ks.kdcType), ULONG)
  {
    var blank := SignatureData(ks.serverType, Zeros(|serverSig|));
    BlankedPac(bs, 2, ks.serverType, serverSig, s);
    BlankedPac(bs, 3, ks.kdcType, kdcSig, k);
    SameTable(bs, 2, blank, 3);
    BlankedPac(WithData(bs, 2, blank), 3, ks.kdcType, kdcSig, k);
  }
}
