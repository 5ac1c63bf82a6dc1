/** Printing a distinguished name and parsing it again. */
module DnRoundTrip {
  import opened Options
  import opened Arithmetic
  import opened Text
  import opened Escapes
  import opened DistinguishedNames

  // ------------------------------------------------------------------- values

  /** The value that parsing finds in the printed form of `v`. */
  function Reparsed(v: string): string {
    Unescaped(Trim(EscapedValue(v)))
  }

  /** Values whose last character is a space, and values of whitespace alone
      that start with one, print an escaped space that trimming cuts in half. */
  predicate Printable(v: string) {
    v == "" || (v[|v| - 1] != ' ' && !(v[0] == ' ' && AllWhitespace(v)))
  }

  lemma WhitespaceIsNotSpecial(c: char)
    ensures IsWhitespace(c) ==> !Special(c)
  {
  }

  lemma PlainWhitespace(v: string, i: nat, j: nat)
    requires i <= j <= |v| && forall k :: i <= k < j ==> IsWhitespace(v[k])
    requires i == 0 < j ==> v[0] != ' '
    requires i < j == |v| ==> v[|v| - 1] != ' '
    ensures Escaped(v, i, j) == v[i..j]
  {
    forall k | i <= k < j
      ensures !NeedsEscape(v, k)
    {
      WhitespaceIsNotSpecial(v[k]);
    }
    NothingEscaped(v, i, j);
  }

  /** The trimmed text of a value that keeps a character outside whitespace and
      does not end in a space: leading whitespace stays only behind an escape. */
  lemma TrimmedText(v: string, i: nat, j: nat)
    requires i < j <= |v| && !IsWhitespace(v[i]) && !IsWhitespace(v[j - 1])
    requires forall k :: 0 <= k < i || j <= k < |v| ==> IsWhitespace(v[k])
    requires v[|v| - 1] != ' '
    ensures Trim(EscapedValue(v)) == Escaped(v, if v[0] == ' ' then 0 else i, j)
  {
    var start := if v[0] == ' ' then 0 else i;
    EscapedSplit(v, 0, start, |v|);
    EscapedSplit(v, start, j, |v|);
    PlainWhitespace(v, 0, start);
    PlainWhitespace(v, j, |v|);
    EscapedEnds(v, start, j);
    var t := Escaped(v, start, j);
    Associate(v[..start], t, v[j..]);
    assert v[0..start] == v[..start] && v[j..|v|] == v[j..];
    TrimAround(v[..start], t, v[j..]);
  }

  lemma TrimAround(a: string, t: string, b: string)
    requires AllWhitespace(a) && AllWhitespace(b) && t != "" && !IsWhitespace(t[0]) && !IsWhitespace(t[|t| - 1])
    ensures Trim(a + (t + b)) == t
  {
    var s := a + (t + b);
    var i, j := |a|, |a| + |t|;
    assert s[..i] == a && s[j..] == b && s[i..j] == t && s[i] == t[0] && s[j - 1] == t[|t| - 1];
    TrimBetween(s, i, j);
  }

  lemma PrintableComesBack(v: string)
    requires Printable(v)
    ensures Trim(Reparsed(v)) == Trim(v)
  {
    if AllWhitespace(v) {
      PlainWhitespace(v, 0, |v|);
      assert v[0..|v|] == v;
      TrimAll(v);
    } else {
      var i, j := TrimParts(v);
      ConfineWhitespace(v, i, j);
      TrimmedText(v, i, j);
      var start := if v[0] == ' ' then 0 else i;
      UnescapedRange(v, start, j);
      TrimRange(v, start, i, j);
    }
  }

  lemma UnescapedRange(v: string, i: nat, j: nat)
    requires i <= j <= |v|
    ensures Unescaped(Escaped(v, i, j)) == v[i..j]
  {
    UnescapedOfEscaped(v, i, j, "");
    assert Escaped(v, i, j) + "" == Escaped(v, i, j) && v[i..j] + "" == v[i..j];
  }

  lemma TrimRange(v: string, start: nat, i: nat, j: nat)
    requires start <= i < j <= |v| && AllWhitespace(v[..i]) && !IsWhitespace(v[i]) && !IsWhitespace(v[j - 1])
    ensures Trim(v[start..j]) == v[i..j]
  {
    var t := v[start..j];
    assert AllWhitespace(t[..i - start]) by {
      assert forall k :: 0 <= k < i - start ==> t[k] == v[..i][k + start];
    }
    assert t[j - start..] == "";
    TrimBetween(t, i - start, j - start);
    assert t[i - start..j - start] == v[i..j];
  }

  lemma ConfineWhitespace(v: string, i: nat, j: nat)
    requires i < j <= |v| && AllWhitespace(v[..i]) && AllWhitespace(v[j..])
    ensures forall k :: 0 <= k < i || j <= k < |v| ==> IsWhitespace(v[k])
  {
    forall k | 0 <= k < i || j <= k < |v|
      ensures IsWhitespace(v[k])
    {
      if k < i {
        assert v[..i][k] == v[k];
      } else {
        assert v[j..][k - j] == v[k];
      }
    }
  }

  /** The text of a value that ends in a space, with the escape cut in half. */
  lemma TrailingSpaceText(v: string, k: nat, cut: nat)
    requires v != "" && v[|v| - 1] == ' ' && k <= |v| - 1
    requires forall m :: 0 <= m < k ==> IsWhitespace(v[m])
    requires k == |v| - 1 || !IsWhitespace(v[k])
    requires cut == if v[0] == ' ' then 0 else k
    ensures Trim(EscapedValue(v)) == Escaped(v, cut, |v| - 1) + "\\"
  {
    var n := |v| - 1;
    EscapedSplit(v, 0, n, |v|);
    assert Escaped(v, n, |v|) == ['\\', ' '] + Escaped(v, |v|, |v|);
    EscapedSplit(v, 0, cut, n);
    PlainWhitespace(v, 0, cut);
    if cut < n {
      EscapedEnds(v, cut, n);
    }
    HalfEscape(v[..cut], Escaped(v, cut, n));
    assert Escaped(v, n, |v|) == ['\\', ' '] && v[0..cut] == v[..cut];
  }

  lemma HalfEscape(a: string, t: string)
    requires AllWhitespace(a) && (t == "" || !IsWhitespace(t[0]))
    ensures Trim(a + t + ['\\', ' ']) == t + "\\"
  {
    TrimAround(a, t + "\\", " ");
    assert a + t + ['\\', ' '] == a + (t + "\\" + " ");
  }

  /** A value that ends in a space comes back with a backslash for the space. */
  lemma TrailingSpaceGrows(v: string)
    requires v != "" && v[|v| - 1] == ' '
    ensures |Trim(Reparsed(v))| > |Trim(v)|
  {
    var n := |v| - 1;
    var front := v[..n];
    var k := Leading(front);
    var cut := if v[0] == ' ' then 0 else k;
    assert forall m :: 0 <= m < n ==> front[m] == v[m];
    TrailingSpaceText(v, k, cut);
    UnescapedOfEscaped(v, cut, n, "\\");
    assert Unescaped("\\") == "\\";
    assert v[cut..n] == front[cut..];
    BackslashStays(front, k, cut);
    SpaceGoes(v, k);
  }

  lemma BackslashStays(front: string, k: nat, cut: nat)
    requires cut <= k <= |front| && AllWhitespace(front[..k]) && (k == |front| || !IsWhitespace(front[k]))
    ensures Trim(front[cut..] + "\\") == front[k..] + "\\"
  {
    var s := front[cut..] + "\\";
    assert AllWhitespace(s[..k - cut]) by { assert forall m :: 0 <= m < k - cut ==> s[m] == front[..k][m + cut]; }
    assert s[|s|..] == "" && s[k - cut..|s|] == front[k..] + "\\";
    TrimBetween(s, k - cut, |s|);
  }

  lemma SpaceGoes(v: string, k: nat)
    requires v != "" && v[|v| - 1] == ' ' && k <= |v| - 1 && AllWhitespace(v[..|v| - 1][..k])
    ensures |Trim(v)| <= |v| - 1 - k
  {
    if AllWhitespace(v) {
      TrimAll(v);
    } else {
      var i, j := TrimParts(v);
      ConfineWhitespace(v, i, j);
      assert forall m :: 0 <= m < k ==> v[m] == v[..|v| - 1][..k][m];
    }
  }

  /** Whitespace that starts with a space and does not end in one comes back as
      a lone backslash. */
  lemma LeadingSpaceGrows(v: string)
    requires v != "" && v[0] == ' ' && AllWhitespace(v) && v[|v| - 1] != ' '
    ensures |Trim(Reparsed(v))| > |Trim(v)|
  {
    EscapedSplit(v, 0, 1, |v|);
    PlainWhitespace(v, 1, |v|);
    assert Escaped(v, 0, 1) == ['\\', ' '] + Escaped(v, 1, 1);
    assert EscapedValue(v) == "" + ("\\" + v);
    TrimAround("", "\\", v);
    assert Unescaped("\\") == "\\";
    TrimNothing("\\");
    TrimAll(v);
  }

  /** A printed value comes back, up to case and surrounding whitespace, exactly
      when it is printable; otherwise what comes back is longer. */
  lemma ValueRoundTrip(v: string)
    ensures Printable(v) ==> Norm(Reparsed(v)) == Norm(v)
    ensures !Printable(v) ==> |Norm(Reparsed(v))| > |Norm(v)|
  {
    if Printable(v) {
      PrintableComesBack(v);
    } else if v[|v| - 1] == ' ' {
      TrailingSpaceGrows(v);
    } else {
      LeadingSpaceGrows(v);
    }
  }

  // --------------------------------------------------------------------- AVAs

  lemma TrimFixed(s: string)
    requires s != "" && Trim(s) == s
    ensures !IsWhitespace(s[0]) && !IsWhitespace(s[|s| - 1]) && !AllWhitespace(s)
  {
    if !AllWhitespace(s) {
      var i, j := TrimParts(s);
    } else {
      TrimAll(s);
    }
  }

  /** Text that neither starts with whitespace nor leaves a comma or plus open. */
  predicate TextOk(t: string) {
    t != "" && !IsWhitespace(t[0]) && Closed(t) && Find(t, ',') == None && Find(t, '+') == None
  }

  lemma AttrThenValue(attr: string, e: string, d: char)
    requires Find(attr, d) == None && d in {',', '+'} && Closed(e) && Find(e, d) == None
    ensures Closed(attr + "=" + e) && Find(attr + "=" + e, d) == None
  {
    var rest := "=" + e;
    assert attr + "=" + e == attr + rest && rest[1..] == e;
    EndsOn(attr, false, rest);
    FindOn(attr, false, rest, d);
  }

  lemma AvaTextOk(a: Ava)
    requires AttrOk(a.attr)
    ensures TextOk(AvaText(a))
  {
    TrimFixed(a.attr);
    EscapedScan(a.value, 0, |a.value|, ',');
    EscapedScan(a.value, 0, |a.value|, '+');
    AttrThenValue(a.attr, EscapedValue(a.value), ',');
    AttrThenValue(a.attr, EscapedValue(a.value), '+');
  }

  lemma EqualsFound(attr: string, e: string)
    requires Find(attr, '=') == None
    ensures Closed(attr) ==> Find(attr + "=" + e, '=') == Some(|attr|)
    ensures !Closed(attr) && Find(e, '=') == None ==> Find(attr + "=" + e, '=') == None
  {
    var rest := "=" + e;
    assert attr + "=" + e == attr + rest && rest[1..] == e;
    FindOn(attr, false, rest, '=');
  }

  lemma TrimText(attr: string, e: string)
    requires attr != "" && Trim(attr) == attr
    ensures Trim(attr + "=" + e) == attr + "=" + TrimEnd(e)
  {
    TrimFixed(attr);
    var s := attr + "=" + e;
    var k := Trailing(e);
    CutAfterEquals(attr, e, k);
    TrimStartAt(s, 0);
    TrimEndAt(s, |attr| + 1 + k);
  }

  lemma CutAfterEquals(attr: string, e: string, k: nat)
    requires k <= |e|
    ensures var s := attr + "=" + e;
            s[|attr| + 1 + k..] == e[k..] && s[..|attr| + 1 + k] == attr + "=" + e[..k] && s[0..] == s
  {
  }

  /** An AVA printed and parsed: the value as reparsed, unless the attribute ends
      in a backslash, which swallows the equals sign. */
  lemma AvaReparsed(a: Ava)
    requires AttrOk(a.attr)
    ensures ParsedAva(Trim(AvaText(a))) == if Closed(a.attr) then Ok(Ava(a.attr, Reparsed(a.value))) else Err(NoEquals)
  {
    var e := EscapedValue(a.value);
    var k := Trailing(e);
    TrimText(a.attr, e);
    EscapedScan(a.value, 0, |a.value|, '=');
    FindInPrefix(e, k, '=');
    EqualsFound(a.attr, e[..k]);
    if Closed(a.attr) {
      var t := a.attr + "=" + e[..k];
      assert t[..|a.attr|] == a.attr && t[|a.attr| + 1..] == e[..k];
      TrimAfterTrimEnd(e);
    }
  }

  // --------------------------------------------------------------------- RDNs

  /** Trimming a joined list trims its last part. */
  function TrimLast(ts: seq<string>): (r: seq<string>)
    requires ts != []
    ensures |r| == |ts|
  {
    ts[..|ts| - 1] + [TrimEnd(ts[|ts| - 1])]
  }

  lemma {:induction false} TrimJoin(ts: seq<string>, sep: string)
    requires ts != [] && forall i :: 0 <= i < |ts| ==> ts[i] != "" && !IsWhitespace(ts[i][0])
    ensures TrimEnd(Join(ts, sep)) == Join(TrimLast(ts), sep)
    ensures Trim(Join(ts, sep)) == Join(TrimLast(ts), sep)
    ensures Join(ts, sep) != "" && !IsWhitespace(Join(ts, sep)[0])
  {
    if |ts| == 1 {
      assert TrimLast(ts) == [TrimEnd(ts[0])];
    } else {
      TrimJoin(ts[1..], sep);
      assert TrimLast(ts)[1..] == TrimLast(ts[1..]);
      var rest := Join(ts[1..], sep);
      TrimEndConcat(ts[0] + sep, rest);
    }
    TrimStartAt(Join(ts, sep), 0);
    assert Join(ts, sep)[0..] == Join(ts, sep);
  }

  lemma {:induction false} JoinScan(ts: seq<string>, sep: char, d: char)
    requires sep != '\\' && sep != d
    requires forall i :: 0 <= i < |ts| ==> Closed(ts[i]) && Find(ts[i], d) == None
    ensures Closed(Join(ts, [sep])) && Find(Join(ts, [sep]), d) == None
  {
    if |ts| > 1 {
      JoinScan(ts[1..], sep, d);
      var rest := Join(ts[1..], [sep]);
      UnitScan(sep, d);
      EndsOn([sep], false, rest);
      FindOn([sep], false, rest, d);
      EndsOn(ts[0], false, [sep] + rest);
      FindOn(ts[0], false, [sep] + rest, d);
      assert ts[0] + [sep] + rest == ts[0] + ([sep] + rest);
    }
  }

  lemma PiecesOfTrimmed(ts: seq<string>, d: char)
    requires ts != [] && d in {',', '+'}
    requires forall i :: 0 <= i < |ts| ==>
              ts[i] != "" && !IsWhitespace(ts[i][0]) && Closed(ts[i]) && Find(ts[i], d) == None
    ensures Pieces(Trim(Join(ts, [d])), d) == TrimLast(ts)
  {
    TrimJoin(ts, [d]);
    TrimLastScan(ts, d);
    PiecesOfJoin(TrimLast(ts), d);
  }

  lemma TrimLastScan(ts: seq<string>, d: char)
    requires ts != [] && forall i :: 0 <= i < |ts| ==> Closed(ts[i]) && Find(ts[i], d) == None
    ensures forall i :: 0 <= i < |ts| ==> Find(TrimLast(ts)[i], d) == None
    ensures forall i :: 0 <= i < |ts| - 1 ==> Closed(TrimLast(ts)[i])
  {
    var last := ts[|ts| - 1];
    var k := Trailing(last);
    FindInPrefix(last, k, d);
  }

  lemma TrimTrimmed(ts: seq<string>)
    requires ts != []
    ensures AvaResults(TrimLast(ts)) == AvaResults(ts) && RdnResults(TrimLast(ts)) == RdnResults(ts)
  {
    TrimAfterTrimEnd(ts[|ts| - 1]);
  }

  function ReparsedAvas(r: Rdn): (s: Rdn)
    ensures |s| == |r|
  {
    seq(|r|, i requires 0 <= i < |r| => Ava(r[i].attr, Reparsed(r[i].value)))
  }

  predicate AttrsClosed(r: Rdn) {
    forall i :: 0 <= i < |r| ==> Closed(r[i].attr)
  }

  lemma AvasReparsed(r: Rdn)
    requires forall i :: 0 <= i < |r| ==> AttrOk(r[i].attr)
    ensures var rs := AvaResults(AvaTexts(r));
            if AttrsClosed(r) then Collect(rs) == Ok(ReparsedAvas(r)) else Collect(rs).Err?
  {
    var rs := AvaResults(AvaTexts(r));
    forall i | 0 <= i < |r|
      ensures rs[i] == if Closed(r[i].attr) then Ok(ReparsedAvas(r)[i]) else Err(NoEquals)
    {
      AvaReparsed(r[i]);
    }
    Collected(rs);
    if AttrsClosed(r) {
      assert Collect(rs).value == ReparsedAvas(r);
    }
  }

  lemma RdnTextOk(r: Rdn)
    requires RdnOk(r)
    ensures forall i :: 0 <= i < |r| ==> TextOk(AvaTexts(r)[i])
    ensures RdnText(r) != "" && !IsWhitespace(RdnText(r)[0]) && Closed(RdnText(r)) && Find(RdnText(r), ',') == None
  {
    var ts := AvaTexts(r);
    forall i | 0 <= i < |r|
      ensures TextOk(ts[i])
    {
      AvaTextOk(r[i]);
    }
    TrimJoin(ts, "+");
    JoinScan(ts, '+', ',');
  }

  lemma RdnReparsed(r: Rdn)
    requires RdnOk(r)
    ensures if AttrsClosed(r) then ParsedRdn(RdnText(r)) == Ok(Sort(ReparsedAvas(r))) else ParsedRdn(RdnText(r)).Err?
  {
    var ts := AvaTexts(r);
    RdnTextOk(r);
    PiecesOfTrimmed(ts, '+');
    TrimTrimmed(ts);
    AvasReparsed(r);
    TrimStartAt(RdnText(r), 0);
    NotTrimmedAway(RdnText(r));
  }

  lemma NotTrimmedAway(s: string)
    requires s != "" && !IsWhitespace(s[0])
    ensures Trim(s) != ""
  {
    var i, j := TrimParts(s);
  }

  // ---------------------------------------------------------------------- DNs

  function ReparsedRdns(d: Dn): (rs: seq<Rdn>)
    ensures |rs| == |d.rdns|
  {
    seq(|d.rdns|, i requires 0 <= i < |d.rdns| => Sort(ReparsedAvas(d.rdns[i])))
  }

  predicate AllAttrsClosed(d: Dn) {
    forall i :: 0 <= i < |d.rdns| ==> AttrsClosed(d.rdns[i])
  }

  lemma RdnsReparsed(d: Dn)
    requires DnOk(d)
    ensures var rs := RdnResults(RdnTexts(d));
            if AllAttrsClosed(d) then Collect(rs) == Ok(ReparsedRdns(d)) else Collect(rs).Err?
  {
    var rs := RdnResults(RdnTexts(d));
    forall i | 0 <= i < |d.rdns|
      ensures if AttrsClosed(d.rdns[i]) then rs[i] == Ok(ReparsedRdns(d)[i]) else rs[i].Err?
    {
      RdnReparsed(d.rdns[i]);
    }
    Collected(rs);
    if AllAttrsClosed(d) {
      assert Collect(rs).value == ReparsedRdns(d);
    }
  }

  lemma DnReparsed(d: Dn)
    requires DnOk(d)
    ensures if AllAttrsClosed(d) then Parsed(DnText(d)) == Ok(Dn(ReparsedRdns(d))) else Parsed(DnText(d)).Err?
  {
    if d.rdns != [] {
      var ts := RdnTexts(d);
      forall i | 0 <= i < |ts|
        ensures ts[i] != "" && !IsWhitespace(ts[i][0]) && Closed(ts[i]) && Find(ts[i], ',') == None
      {
        RdnTextOk(d.rdns[i]);
      }
      PiecesOfTrimmed(ts, ',');
      TrimTrimmed(ts);
      RdnsReparsed(d);
      TrimJoin(ts, ",");
      NotTrimmedAway(DnText(d));
    }
  }

  // ------------------------------------------------------------------- result

  /** A quantity of AVAs, added up. */
  function Measure(f: Ava -> nat, r: Rdn): nat {
    Sum(Measures(f, r))
  }

  function Measures(f: Ava -> nat, r: Rdn): (ns: seq<nat>)
    ensures |ns| == |r|
  {
    seq(|r|, i requires 0 <= i < |r| => f(r[i]))
  }

  lemma MeasureSnoc(f: Ava -> nat, r: Rdn, a: Ava)
    ensures Measure(f, r + [a]) == Measure(f, r) + f(a)
  {
    assert Measures(f, r + [a])[..|r|] == Measures(f, r);
  }

  lemma {:induction false} MeasureInsert(f: Ava -> nat, r: Rdn, a: Ava)
    ensures Measure(f, Insert(r, a)) == Measure(f, r) + f(a)
  {
    if r == [] || AvaLe(r[|r| - 1], a) {
      MeasureSnoc(f, r, a);
    } else {
      var front, last := r[..|r| - 1], r[|r| - 1];
      MeasureInsert(f, front, a);
      MeasureSnoc(f, Insert(front, a), last);
      MeasureSnoc(f, front, last);
      assert r == front + [last];
    }
  }

  /** Sorting keeps every such sum. */
  lemma {:induction false} MeasureSort(f: Ava -> nat, r: Rdn)
    ensures Measure(f, Sort(r)) == Measure(f, r)
  {
    if r != [] {
      var front, last := r[..|r| - 1], r[|r| - 1];
      MeasureSort(f, front);
      MeasureInsert(f, Sort(front), last);
      MeasureSnoc(f, front, last);
      assert r == front + [last];
    }
  }

  function NormLen(a: Ava): nat {
    |Norm(a.value)|
  }

  predicate ValuesPrintable(r: Rdn) {
    forall i :: 0 <= i < |r| ==> Printable(r[i].value)
  }

  lemma MeasureAt(f: Ava -> nat, r: Rdn, i: nat)
    requires i < |r|
    ensures Measures(f, r)[i] == f(r[i])
  {
  }

  lemma GrowthAt(r: Rdn, i: nat)
    requires i < |r|
    ensures NormLen(ReparsedAvas(r)[i]) >= NormLen(r[i])
    ensures !Printable(r[i].value) ==> NormLen(ReparsedAvas(r)[i]) > NormLen(r[i])
  {
    ValueRoundTrip(r[i].value);
  }

  lemma LengthsGrow(r: Rdn)
    requires !ValuesPrintable(r)
    ensures Measure(NormLen, ReparsedAvas(r)) > Measure(NormLen, r)
  {
    var s := ReparsedAvas(r);
    forall i | 0 <= i < |r|
      ensures Measures(NormLen, s)[i] >= Measures(NormLen, r)[i]
      ensures !Printable(r[i].value) ==> Measures(NormLen, s)[i] > Measures(NormLen, r)[i]
    {
      MeasureAt(NormLen, s, i);
      MeasureAt(NormLen, r, i);
      GrowthAt(r, i);
    }
    var k :| 0 <= k < |r| && !Printable(r[k].value);
    SumAtLeast(Measures(NormLen, r), Measures(NormLen, s), k);
  }

  lemma SameMeasures(r: Rdn, s: Rdn)
    requires SameRdn(r, s)
    ensures Measures(NormLen, r) == Measures(NormLen, s)
  {
    forall i | 0 <= i < |r|
      ensures Measures(NormLen, r)[i] == Measures(NormLen, s)[i]
    {
      MeasureAt(NormLen, r, i);
      MeasureAt(NormLen, s, i);
      assert SameAva(r[i], s[i]);
    }
  }

  lemma RdnRoundTrip(r: Rdn)
    requires IsSorted(r)
    ensures SameRdn(Sort(ReparsedAvas(r)), r) <==> ValuesPrintable(r)
  {
    var s := ReparsedAvas(r);
    if ValuesPrintable(r) {
      forall i | 0 <= i < |r|
        ensures SameAva(s[i], r[i])
      {
        ValueRoundTrip(r[i].value);
      }
      assert IsSorted(s) by {
        assert forall i :: 0 <= i < |r| - 1 ==> AvaLe(s[i], s[i + 1]) == AvaLe(r[i], r[i + 1]);
      }
      SortOfSorted(s);
    } else {
      LengthsGrow(r);
      MeasureSort(NormLen, s);
      if SameRdn(Sort(s), r) {
        SameMeasures(Sort(s), r);
        assert false;
      }
    }
  }

  predicate AllPrintable(d: Dn) {
    forall i :: 0 <= i < |d.rdns| ==> ValuesPrintable(d.rdns[i])
  }

  /** Every well-formed name, multi-valued parts included, parses back from its
      printed form to an equal name exactly when no attribute ends in an open
      backslash and every value is printable. */
  lemma PrintParse(d: Dn)
    requires DnOk(d)
    ensures Parsed(DnText(d)).Ok? && SameDn(Parsed(DnText(d)).value, d) <==> AllAttrsClosed(d) && AllPrintable(d)
  {
    DnReparsed(d);
    forall i | 0 <= i < |d.rdns|
      ensures SameRdn(ReparsedRdns(d)[i], d.rdns[i]) <==> ValuesPrintable(d.rdns[i])
    {
      RdnRoundTrip(d.rdns[i]);
    }
  }

  // --------------------------------------------------- the text tells the name

  lemma AvaTextInjective(a: Ava, b: Ava)
    requires AttrOk(a.attr) && Closed(a.attr) && AttrOk(b.attr) && Closed(b.attr) && AvaText(a) == AvaText(b)
    ensures a == b
  {
    EqualsFound(a.attr, EscapedValue(a.value));
    EqualsFound(b.attr, EscapedValue(b.value));
    SameAfterEquals(a.attr, EscapedValue(a.value), b.attr, EscapedValue(b.value));
    UnescapedWhole(a.value);
    UnescapedWhole(b.value);
  }

  lemma SameAfterEquals(s: string, x: string, t: string, y: string)
    requires s + "=" + x == t + "=" + y && |s| == |t|
    ensures s == t && x == y
  {
    var u := s + "=" + x;
    assert s == u[..|s|] == t && x == u[|s| + 1..] == y;
  }

  lemma UnescapedWhole(v: string)
    ensures Unescaped(EscapedValue(v)) == v
  {
    UnescapedOfEscaped(v, 0, |v|, "");
    assert EscapedValue(v) + "" == EscapedValue(v);
  }

  lemma RdnTextInjective(r: Rdn, s: Rdn)
    requires RdnOk(r) && AttrsClosed(r) && RdnOk(s) && AttrsClosed(s) && RdnText(r) == RdnText(s)
    ensures r == s
  {
    RdnTextOk(r);
    RdnTextOk(s);
    PiecesOfJoin(AvaTexts(r), '+');
    PiecesOfJoin(AvaTexts(s), '+');
    forall i | 0 <= i < |r|
      ensures r[i] == s[i]
    {
      assert AvaTexts(r)[i] == AvaTexts(s)[i];
      AvaTextInjective(r[i], s[i]);
    }
  }

  lemma RdnTextPieces(d: Dn)
    requires DnOk(d)
    ensures d.rdns != [] ==> DnText(d) != "" && Pieces(DnText(d), ',') == RdnTexts(d)
  {
    var ts := RdnTexts(d);
    forall i | 0 <= i < |ts|
      ensures ts[i] != "" && Closed(ts[i]) && Find(ts[i], ',') == None
    {
      RdnTextOk(d.rdns[i]);
    }
    if ts != [] {
      PiecesOfJoin(ts, ',');
    }
  }

  /** Names that print the same are the same, to the letter, unless an attribute
      is left open. */
  lemma TextInjective(d: Dn, e: Dn)
    requires DnOk(d) && AllAttrsClosed(d) && DnOk(e) && AllAttrsClosed(e)
    ensures DnText(d) == DnText(e) <==> d == e
  {
    if DnText(d) == DnText(e) {
      RdnTextPieces(d);
      RdnTextPieces(e);
      forall i | 0 <= i < |d.rdns|
        ensures d.rdns[i] == e.rdns[i]
      {
        assert RdnTexts(d)[i] == RdnTexts(e)[i];
        RdnTextInjective(d.rdns[i], e.rdns[i]);
      }
    }
  }

  // ---------------------------------------------------------- a space is lost

  lemma NoneInHex(d: char)
    requires d in {',', '+'}
    ensures Find("c=\\20", d) == None
  {
    assert "c=\\20"[1..] == "=\\20" && "=\\20"[1..] == "\\20" && "\\20"[1..] == "20" && "20"[1..] == "0";
    assert "0"[1..] == "";
    assert FindFrom("0", false, d) == None;
    assert FindFrom("20", true, d) == None;
    assert FindFrom("\\20", false, d) == None;
    assert FindFrom("=\\20", false, d) == None;
  }

  lemma OnePiece(s: string, d: char)
    requires d != '\\' && Find(s, d) == None
    ensures Pieces(s, d) == [s]
  {
    FirstPiece(s, false, "", d);
    assert s + "" == s && Pending(false) + s == s;
  }

  lemma HexAva()
    ensures ParsedAva("c=\\20") == Ok(Ava("c", " "))
  {
    var s := "c=\\20";
    assert s[1..] == "=\\20" && s[..1] == "c" && s[2..] == "\\20";
    assert Find(s, '=') == Shift(1, FindFrom("=\\20", false, '=')) == Some(1);
    TrimNothing("c");
    TrimNothing("\\20");
    assert Lower("c") == "c";
    assert Unit("\\20") == (' ', 3);
    assert "\\20"[3..] == "";
    assert Unescaped("\\20") == [' '] + Unescaped("") == " ";
  }

  /** A name that the parser accepts and the printer does not bring back: the
      value is one space. */
  lemma SpaceIsLost()
    ensures Parsed("c=\\20") == Ok(Dn([[Ava("c", " ")]]))
    ensures var d := Parsed("c=\\20").value;
            !(Parsed(DnText(d)).Ok? && SameDn(Parsed(DnText(d)).value, d))
  {
    TrimNothing("c=\\20");
    NoneInHex(',');
    NoneInHex('+');
    HexAva();
    ParsedAlone("c=\\20", Ava("c", " "));
    ParsedOk("c=\\20");
    var d := Dn([[Ava("c", " ")]]);
    PrintParse(d);
    assert !Printable(d.rdns[0][0].value);
    assert !ValuesPrintable(d.rdns[0]);
  }

  /** Text without commas and pluses is one AVA. */
  lemma ParsedAlone(s: string, a: Ava)
    requires s != "" && Trim(s) == s && Find(s, ',') == None && Find(s, '+') == None && ParsedAva(s) == Ok(a)
    ensures Parsed(s) == Ok(Dn([[a]]))
  {
    OnePiece(s, ',');
    OnePiece(s, '+');
    assert AvaResults([s]) == [Ok(a)];
    CollectOne<Ava>(Ok(a));
    SortOfSorted([a]);
    assert RdnResults([s]) == [Ok([a])];
    CollectOne<Rdn>(Ok([a]));
  }

  lemma CollectOne<T>(r: DistinguishedNames.Result<T>)
    requires r.Ok?
    ensures Collect([r]) == Ok([r.value])
  {
    assert Collect([r][..0]) == Ok([]);
    assert [] + [r.value] == [r.value];
  }

  lemma OpenFound()
    ensures Find("a\\ =v", '=') == Some(3)
  {
    var s := "a\\ =v";
    assert s[1..] == "\\ =v" && "\\ =v"[1..] == " =v" && " =v"[1..] == "=v";
    assert FindFrom("=v", false, '=') == Some(0);
    assert FindFrom(" =v", true, '=') == Some(1);
    assert FindFrom("\\ =v", false, '=') == Some(2);
  }

  lemma OpenTrimmed()
    ensures Lower(Trim("a\\ ")) == "a\\"
  {
    var s := "a\\ ";
    assert s[..0] == "" && s[2..] == " " && s[0..2] == "a\\";
    TrimBetween(s, 0, 2);
    assert Lower("a\\") == "a\\";
  }

  lemma OpenAva()
    ensures ParsedAva("a\\ =v") == Ok(Ava("a\\", "v"))
  {
    var s := "a\\ =v";
    OpenFound();
    OpenTrimmed();
    assert s[..3] == "a\\ " && s[4..] == "v";
    TrimNothing("v");
    UnescapedLength("v");
  }

  /** Another: an attribute that the parser leaves with an open backslash. */
  lemma OpenAttributeIsLost()
    ensures Parsed("a\\ =v") == Ok(Dn([[Ava("a\\", "v")]]))
    ensures var d := Parsed("a\\ =v").value;
            !(Parsed(DnText(d)).Ok? && SameDn(Parsed(DnText(d)).value, d))
  {
    var s := "a\\ =v";
    TrimNothing(s);
    NotFound(s, false, ',');
    NotFound(s, false, '+');
    OpenAva();
    ParsedAlone(s, Ava("a\\", "v"));
    ParsedOk(s);
    var d := Dn([[Ava("a\\", "v")]]);
    PrintParse(d);
    assert !Closed(d.rdns[0][0].attr) by {
      assert "a\\"[1..] == "\\" && "\\"[1..] == "";
      assert Ends("\\", false) == Ends("", true);
    }
    assert !AttrsClosed(d.rdns[0]);
  }

  /** A name of one attribute whose value needs no escapes. */
  lemma TextAlone(attr: string, v: string)
    requires forall k :: 0 <= k < |v| ==> !NeedsEscape(v, k)
    ensures DnText(Dn([[Ava(attr, v)]])) == attr + "=" + v
  {
    var a := Ava(attr, v);
    NothingEscaped(v, 0, |v|);
    assert v[0..|v|] == v;
    assert AvaTexts([a]) == [AvaText(a)];
    assert RdnTexts(Dn([[a]])) == [RdnText([a])];
  }
}
