/** Which names come back from their tree key. */
module KeyDecoding {
  import opened Options
  import opened Arithmetic
  import opened Text
  import opened Escapes
  import opened DistinguishedNames
  import opened DnRoundTrip
  import opened Keys

  // --------------------------------------------------------------- the condition

  /** Nothing in the normalized text of the AVA is taken for a delimiter or an
      escape; a backslash may stand at the end of the last AVA of all. */
  predicate AvaClean(a: Ava, last: bool) {
    var n := Norm(a.value);
    && Closed(a.attr) && '/' !in a.attr && '/' !in n && ',' !in n && '+' !in n
    && Literal(n) && (!last ==> '\\' !in n)
  }

  predicate RdnClean(r: Rdn, last: bool) {
    forall i :: 0 <= i < |r| ==> AvaClean(r[i], last && i == |r| - 1)
  }

  predicate Clean(d: Dn) {
    forall i :: 0 <= i < |d.rdns| ==> RdnClean(d.rdns[i], i == |d.rdns| - 1)
  }

  // ------------------------------------------------------------ clean names decode

  /** Text that stands for itself when it is split and trimmed. */
  predicate Standing(t: string, d: char, last: bool) {
    t != "" && !IsWhitespace(t[0]) && TrimEnd(t) == t && Find(t, d) == None && (!last ==> Closed(t))
  }

  lemma NormTextTrimmed(a: Ava)
    requires AttrOk(a.attr)
    ensures NormText(a) != "" && !IsWhitespace(NormText(a)[0])
    ensures Trim(NormText(a)) == NormText(a) && TrimEnd(NormText(a)) == NormText(a)
  {
    TrimFixed(a.attr);
    NormTrimmed(a.value);
    TrimText(a.attr, Norm(a.value));
    TrimTwice(NormText(a));
    TrimFixed(NormText(a));
  }

  lemma NormTextScan(a: Ava, last: bool, d: char)
    requires AttrOk(a.attr) && AvaClean(a, last) && d in {',', '+'}
    ensures Find(NormText(a), d) == None && (!last ==> Closed(NormText(a)))
  {
    var n := Norm(a.value);
    var rest := "=" + n;
    assert NormText(a) == a.attr + rest && rest[1..] == n;
    NotFound(n, false, d);
    LiteralClosed(n);
    EndsOn(a.attr, false, rest);
    FindOn(a.attr, false, rest, d);
  }

  lemma NormTextParses(a: Ava, last: bool)
    requires AttrOk(a.attr) && AvaClean(a, last)
    ensures ParsedAva(Trim(NormText(a))) == Ok(Ava(a.attr, Norm(a.value)))
  {
    var n, t := Norm(a.value), NormText(a);
    NormTextTrimmed(a);
    NormTrimmed(a.value);
    EqualsFound(a.attr, n);
    assert t[..|a.attr|] == a.attr && t[|a.attr| + 1..] == n;
    UnescapedLength(n);
  }

  lemma {:induction false} JoinStands(ts: seq<string>, sep: char, d: char, last: bool)
    requires ts != [] && sep in {',', '+'} && d != sep
    requires forall i :: 0 <= i < |ts| ==> Standing(ts[i], d, last && i == |ts| - 1)
    ensures Standing(Join(ts, [sep]), d, last)
  {
    TrimJoin(ts, [sep]);
    LastStands(ts, ts[|ts| - 1]);
    JoinFinds(ts, sep, d, last);
  }

  lemma LastStands(ts: seq<string>, last: string)
    requires ts != [] && ts[|ts| - 1] == last && TrimEnd(last) == last
    ensures TrimLast(ts) == ts
  {
  }

  lemma {:induction false} JoinFinds(ts: seq<string>, sep: char, d: char, last: bool)
    requires ts != [] && sep in {',', '+'} && d != sep
    requires forall i :: 0 <= i < |ts| ==> Find(ts[i], d) == None && (!(last && i == |ts| - 1) ==> Closed(ts[i]))
    ensures Find(Join(ts, [sep]), d) == None && (!last ==> Closed(Join(ts, [sep])))
  {
    if |ts| > 1 {
      JoinFinds(ts[1..], sep, d, last);
      var rest := Join(ts[1..], [sep]);
      UnitScan(sep, d);
      EndsOn([sep], false, rest);
      FindOn([sep], false, rest, d);
      EndsOn(ts[0], false, [sep] + rest);
      FindOn(ts[0], false, [sep] + rest, d);
      Associate(ts[0], [sep], rest);
    }
  }

  lemma PiecesStand(ts: seq<string>, d: char, last: bool)
    requires ts != [] && d in {',', '+'}
    requires forall i :: 0 <= i < |ts| ==> Standing(ts[i], d, last && i == |ts| - 1)
    ensures Trim(Join(ts, [d])) == Join(ts, [d]) != "" && Pieces(Join(ts, [d]), d) == ts
  {
    TrimJoin(ts, [d]);
    LastStands(ts, ts[|ts| - 1]);
    PiecesOfJoin(ts, d);
  }

  lemma NormTextsStand(r: Rdn, last: bool, d: char)
    requires RdnOk(r) && RdnClean(r, last) && d in {',', '+'}
    ensures forall i :: 0 <= i < |r| ==> Standing(NormTexts(r)[i], d, last && i == |r| - 1)
  {
    forall i | 0 <= i < |r|
      ensures Standing(NormTexts(r)[i], d, last && i == |r| - 1)
    {
      NormTextTrimmed(r[i]);
      NormTextScan(r[i], last && i == |r| - 1, d);
    }
  }

  lemma CleanRdnDecodes(r: Rdn, last: bool)
    requires RdnOk(r) && RdnClean(r, last)
    ensures ParsedRdn(NormalizedRdn(r)) == Ok(NormRdn(r))
    ensures Standing(NormalizedRdn(r), ',', last) && '/' !in NormalizedRdn(r)
  {
    var ts := NormTexts(r);
    NormTextsStand(r, last, '+');
    PiecesStand(ts, '+', last);
    NormTextsStand(r, last, ',');
    JoinStands(ts, '+', ',', last);
    forall i | 0 <= i < |r|
      ensures ParsedAva(Trim(ts[i])) == Ok(NormRdn(r)[i]) && '/' !in ts[i]
    {
      NormTextParses(r[i], last && i == |r| - 1);
    }
    JoinHasNone(ts, '+', '/');
    NormRdnSame(r);
    ParsedFrom(NormalizedRdn(r), ts, NormRdn(r));
  }

  lemma ParsedFrom(t: string, ts: seq<string>, r: Rdn)
    requires t != "" && Trim(t) == t && Pieces(t, '+') == ts && |ts| == |r| && IsSorted(r)
    requires forall i :: 0 <= i < |ts| ==> ParsedAva(Trim(ts[i])) == Ok(r[i])
    ensures ParsedRdn(t) == Ok(r)
  {
    var rs := AvaResults(ts);
    assert forall i :: 0 <= i < |ts| ==> rs[i] == Ok(r[i]);
    Collected(rs);
    assert Collect(rs).value == r;
    SortOfSorted(r);
  }

  lemma CommaFormOf(cs: seq<string>)
    requires cs != [] && SlashFree(cs)
    ensures CommaForm(Join(ReverseList(cs), "/")) == Join(cs, ",")
  {
    SplitOfJoin(ReverseList(cs), '/');
    assert ReverseList(ReverseList(cs)) == cs;
  }

  /** The key of a clean name decodes to the name with normalized values. */
  lemma CleanKeyDecodes(d: Dn)
    requires DnOk(d) && Clean(d)
    ensures Parsed(CommaForm(TreePath(d))) == Ok(NormDn(d)) && SlashFree(Components(d))
  {
    if d.rdns == [] {
      assert TreePath(d) == "";
      assert ReverseList([""]) == [""];
    } else {
      var cs := Components(d);
      forall i | 0 <= i < |cs|
        ensures Standing(cs[i], ',', i == |cs| - 1) && '/' !in cs[i]
        ensures ParsedRdn(cs[i]) == Ok(NormRdns(d)[i])
      {
        CleanRdnDecodes(d.rdns[i], i == |cs| - 1);
      }
      CommaFormOf(cs);
      ComponentsParse(cs, NormRdns(d));
    }
  }

  lemma ComponentsParse(cs: seq<string>, rs: seq<Rdn>)
    requires cs != [] && |cs| == |rs|
    requires forall i :: 0 <= i < |cs| ==> Standing(cs[i], ',', i == |cs| - 1) && ParsedRdn(cs[i]) == Ok(rs[i])
    ensures Parsed(Join(cs, ",")) == Ok(Dn(rs))
  {
    PiecesStand(cs, ',', true);
    CollectAll(RdnResults(cs), rs);
  }

  lemma CollectAll<T>(results: seq<DistinguishedNames.Result<T>>, ts: seq<T>)
    requires |results| == |ts| && forall i :: 0 <= i < |ts| ==> results[i] == Ok(ts[i])
    ensures Collect(results) == Ok(ts)
  {
    Collected(results);
    if Collect(results).Ok? {
      assert Collect(results).value == ts;
    }
  }

  // --------------------------------------------------- only clean names decode

  lemma {:induction false} EndsLower(s: string, escaped: bool)
    ensures Ends(Lower(s), escaped) == Ends(s, escaped)
  {
    if s != "" {
      EndsLower(s[1..], !escaped && s[0] == '\\');
      assert Lower(s)[1..] == Lower(s[1..]);
    }
  }

  /** The piece is the AVA's text, but for case. */
  predicate Faithful(q: string, a: Ava) {
    && Lower(q) == NormText(a) && Find(q, '=') == Some(|a.attr|)
    && Closed(a.attr) && Literal(Norm(a.value))
  }

  /** An AVA is no longer than the text it came from, and where it is as long
      nothing was trimmed or unescaped. */
  lemma AvaLossy(q: string, a: Ava)
    requires ParsedAva(Trim(q)) == Ok(a)
    ensures |NormText(a)| <= |q|
    ensures |NormText(a)| == |q| ==> Faithful(q, a)
  {
    var t := Trim(q);
    var eq := Find(t, '=').value;
    var raw := Trim(t[eq + 1..]);
    TrimLength(q);
    TrimLength(t[..eq]);
    TrimLength(t[eq + 1..]);
    UnescapedLength(raw);
    TrimLength(a.value);
    if |NormText(a)| == |q| {
      NothingLost(q, eq, a);
    }
  }

  lemma NothingLost(q: string, eq: nat, a: Ava)
    requires eq < |q| && Find(q, '=') == Some(eq) && a.attr == Lower(q[..eq]) && Literal(q[eq + 1..])
    requires Norm(a.value) == Lower(q[eq + 1..])
    ensures Faithful(q, a)
  {
    FoundClosed(q, false, '=');
    EndsLower(q[..eq], false);
    FoundIsThere(q, false, '=');
    assert q == q[..eq] + "=" + q[eq + 1..];
    LowerConcat(q[..eq] + "=", q[eq + 1..]);
    LowerConcat(q[..eq], "=");
    assert Lower("=") == "=";
    LowerLiteral(q[eq + 1..]);
  }

  lemma LowerLiteral(s: string)
    requires Literal(s)
    ensures Literal(Lower(s))
  {
  }

  lemma {:induction false} FoundIsThere(s: string, escaped: bool, d: char)
    requires FindFrom(s, escaped, d).Some?
    ensures s[FindFrom(s, escaped, d).value] == d
  {
    if !(!escaped && s[0] != '\\' && s[0] == d) {
      FoundIsThere(s[1..], !escaped && s[0] == '\\', d);
    }
  }

  function TextLen(a: Ava): nat {
    |NormText(a)|
  }

  lemma ComponentLength(r: Rdn)
    requires r != []
    ensures |NormalizedRdn(r)| == Measure(TextLen, r) + |r| - 1
  {
    JoinLength(NormTexts(r), '+');
    forall i | 0 <= i < |r|
      ensures Lengths(NormTexts(r))[i] == Measures(TextLen, r)[i]
    {
      MeasureAt(TextLen, r, i);
    }
    assert Lengths(NormTexts(r)) == Measures(TextLen, r);
  }

  /** Every piece is the text of its AVA. */
  predicate AllFaithful(qs: seq<string>, r: Rdn) {
    |qs| == |r| && forall i :: 0 <= i < |qs| ==> Faithful(qs[i], r[i])
  }

  lemma RdnLossy(p: string, r: Rdn) returns (avas: Rdn)
    requires ParsedRdn(p) == Ok(r)
    ensures |NormalizedRdn(r)| <= |p|
    ensures |NormalizedRdn(r)| == |p| ==> r == Sort(avas) && AllFaithful(Pieces(p, '+'), avas) && Trim(p) == p
  {
    avas := ParsedPieces(p, r);
    TextLength(Trim(p), '+');
    TrimLength(p);
    PiecesNoShorter(Pieces(Trim(p), '+'), avas);
  }

  lemma ParsedPieces(p: string, r: Rdn) returns (avas: Rdn)
    requires ParsedRdn(p) == Ok(r)
    ensures var qs := Pieces(Trim(p), '+');
            |qs| == |avas| && forall i :: 0 <= i < |qs| ==> ParsedAva(Trim(qs[i])) == Ok(avas[i])
    ensures r == Sort(avas) && |NormalizedRdn(r)| == Measure(TextLen, avas) + |avas| - 1
  {
    avas := PiecesParsed(Pieces(Trim(p), '+'));
    SortedLength(avas, r);
  }

  lemma PiecesParsed(qs: seq<string>) returns (avas: Rdn)
    requires Collect(AvaResults(qs)).Ok? && qs != []
    ensures avas == Collect(AvaResults(qs)).value
    ensures |qs| == |avas| && forall i :: 0 <= i < |qs| ==> ParsedAva(Trim(qs[i])) == Ok(avas[i])
  {
    var rs := AvaResults(qs);
    Collected(rs);
    avas := Collect(rs).value;
  }

  lemma SortedLength(avas: Rdn, r: Rdn)
    requires avas != [] && r == Sort(avas)
    ensures |NormalizedRdn(r)| == Measure(TextLen, avas) + |avas| - 1
  {
    SortSorts(avas);
    MeasureSort(TextLen, avas);
    ComponentLength(r);
  }

  lemma TextLength(t: string, d: char)
    ensures |t| == Sum(Lengths(Pieces(t, d))) + |Pieces(t, d)| - 1
  {
    JoinOfPieces(t, false, d);
    JoinLength(Pieces(t, d), d);
  }

  lemma PiecesNoShorter(qs: seq<string>, avas: Rdn)
    requires |qs| == |avas| && forall i :: 0 <= i < |qs| ==> ParsedAva(Trim(qs[i])) == Ok(avas[i])
    ensures Measure(TextLen, avas) <= Sum(Lengths(qs))
    ensures Measure(TextLen, avas) == Sum(Lengths(qs)) ==> AllFaithful(qs, avas)
  {
    var ms, ns := Measures(TextLen, avas), Lengths(qs);
    forall i | 0 <= i < |qs|
      ensures ns[i] >= ms[i] && (ns[i] == ms[i] ==> Faithful(qs[i], avas[i]))
    {
      MeasureAt(TextLen, avas, i);
      AvaLossy(qs[i], avas[i]);
    }
    SumAtLeast(ms, ns, 0);
    if Sum(ms) == Sum(ns) {
      SumEqual(ms, ns);
    }
  }

  // --------------------------------------------------------------- one component

  /** The AVAs of a name that came back from the text of the component. */
  lemma TextsAmong(r: Rdn, r': Rdn, avas: Rdn, i: nat) returns (k: nat)
    requires r' == Sort(avas) && SameRdn(r', r) && i < |r|
    ensures k < |avas| && NormText(avas[k]) == NormText(r[i]) && avas[k].attr == r[i].attr
  {
    SortSorts(avas);
    assert SameAva(r'[i], r[i]);
    assert r'[i] in multiset(r');
    assert r'[i] in avas;
    k :| 0 <= k < |avas| && avas[k] == r'[i];
  }

  lemma FaithfulTexts(p: string, r: Rdn, r': Rdn, avas: Rdn)
    requires RdnOk(r) && p == NormalizedRdn(r) && r' == Sort(avas) && SameRdn(r', r)
    requires AllFaithful(Pieces(p, '+'), avas)
    ensures Pieces(p, '+') == NormTexts(r)
    ensures forall i :: 0 <= i < |r| ==> Closed(r[i].attr)
  {
    var qs, ts := Pieces(p, '+'), NormTexts(r);
    SortSorts(avas);
    ComponentLower(r);
    PiecesLower(p, false, '+');
    PiecesFindNone(p, false, '+', '+');
    forall i | 0 <= i < |r|
      ensures Find(ts[i], '+') == None && Closed(r[i].attr)
    {
      var k := TextsAmong(r, r', avas, i);
      assert Faithful(qs[k], avas[k]);
    }
    AsManyPieces(ts, '+');
    PiecesOfJoin(ts, '+');
  }

  lemma ComponentLower(r: Rdn)
    requires RdnOk(r)
    ensures Lower(NormalizedRdn(r)) == NormalizedRdn(r)
  {
    forall i | 0 <= i < |r|
      ensures Lower(NormTexts(r)[i]) == NormTexts(r)[i]
    {
      var n := Norm(r[i].value);
      LowerIdempotent(Trim(r[i].value));
      LowerConcat(r[i].attr + "=", n);
      LowerConcat(r[i].attr, "=");
      assert Lower("=") == "=";
    }
    assert Lower("+") == "+";
    LowerJoin(NormTexts(r), "+");
  }

  /** One AVA of a component that came back. */
  lemma AvaOnlyClean(a: Ava, b: Ava, t: string, last: bool)
    requires AttrOk(a.attr) && Closed(a.attr) && t == NormText(a) && Faithful(t, b) && Lower(t) == t
    requires Find(t, ',') == None && Find(t, '+') == None && '/' !in t && (!last ==> Closed(t))
    ensures AvaClean(a, last)
  {
    SameSplit(a, b, t);
    ValueOnlyClean(a.attr, Norm(a.value), last);
  }

  lemma SameSplit(a: Ava, b: Ava, t: string)
    requires AttrOk(a.attr) && Closed(a.attr) && t == NormText(a) && Faithful(t, b) && Lower(t) == t
    ensures Literal(Norm(a.value))
  {
    EqualsFound(a.attr, Norm(a.value));
    assert t[|a.attr| + 1..] == Norm(a.value) && t[|b.attr| + 1..] == Norm(b.value);
  }

  lemma ValueOnlyClean(attr: string, n: string, last: bool)
    requires Closed(attr) && Find(attr, ',') == None && Find(attr, '+') == None && Literal(n)
    requires var t := attr + "=" + n;
             Find(t, ',') == None && Find(t, '+') == None && (!last ==> Closed(t))
    ensures ',' !in n && '+' !in n && (!last ==> '\\' !in n)
  {
    var rest := "=" + n;
    assert attr + "=" + n == attr + rest && rest[1..] == n;
    FindOn(attr, false, rest, ',');
    FindOn(attr, false, rest, '+');
    EndsOn(attr, false, rest);
    LiteralHides(n, ',');
    LiteralHides(n, '+');
    LiteralClosed(n);
  }

  lemma RdnOnlyClean(p: string, r: Rdn, r': Rdn, avas: Rdn, last: bool)
    requires RdnOk(r) && p == NormalizedRdn(r) && r' == Sort(avas) && SameRdn(r', r)
    requires AllFaithful(Pieces(p, '+'), avas)
    requires Find(p, ',') == None && '/' !in p && (!last ==> Closed(p))
    ensures RdnClean(r, last)
  {
    var ts := NormTexts(r);
    FaithfulTexts(p, r, r', avas);
    ComponentLower(r);
    PiecesLower(p, false, '+');
    PiecesFindNone(p, false, '+', '+');
    PiecesFindNone(p, false, '+', ',');
    PiecesClosed(p, false, '+');
    PiecesChars(p, false, '+', '/');
    forall i | 0 <= i < |r|
      ensures AvaClean(r[i], last && i == |r| - 1)
    {
      if i == |r| - 1 && !last {
        LastClosed(ts);
      }
      AvaOnlyClean(r[i], avas[i], ts[i], last && i == |r| - 1);
    }
  }

  lemma {:induction false} LastClosed(ts: seq<string>)
    requires ts != [] && Closed(Join(ts, "+")) && forall i :: 0 <= i < |ts| - 1 ==> Closed(ts[i])
    ensures Closed(ts[|ts| - 1])
  {
    if |ts| > 1 {
      var rest := Join(ts[1..], "+");
      EndsOn(ts[0], false, "+" + rest);
      EndsOn("+", false, rest);
      UnitScan('+', ',');
      Associate(ts[0], "+", rest);
      LastClosed(ts[1..]);
    }
  }

  // -------------------------------------------------------------------- whole names

  lemma CommaFormLength(path: string)
    ensures |CommaForm(path)| == |path| && '/' !in CommaForm(path)
  {
    var ps := Split(path, '/');
    JoinOfSplit(path, '/');
    JoinLength(ps, '/');
    JoinLength(ReverseList(ps), ',');
    ReverseSum(ps);
    SplitHasNone(path, '/');
    JoinHasNone(ReverseList(ps), ',', '/');
  }

  lemma {:induction false} ReverseSum(ts: seq<string>)
    ensures Sum(Lengths(ReverseList(ts))) == Sum(Lengths(ts))
  {
    if ts != [] {
      var front, last := ts[..|ts| - 1], ts[|ts| - 1];
      ReverseSum(front);
      assert ReverseList(ts) == [last] + ReverseList(front);
      SumCons(|last|, Lengths(ReverseList(front)));
      assert Lengths([last] + ReverseList(front)) == [|last|] + Lengths(ReverseList(front));
      assert Lengths(ts)[..|ts| - 1] == Lengths(front);
    }
  }

  lemma {:induction false} SumCons(n: nat, ns: seq<nat>)
    ensures Sum([n] + ns) == n + Sum(ns)
  {
    if ns == [] {
      assert [n] + ns == [n] && [n][..0] == [];
    } else {
      SumCons(n, ns[..|ns| - 1]);
      assert ([n] + ns)[..|ns|] == [n] + ns[..|ns| - 1];
    }
  }

  lemma PathLength(d: Dn)
    requires d.rdns != []
    ensures |CommaForm(TreePath(d))| == Sum(Lengths(Components(d))) + |d.rdns| - 1
  {
    CommaFormLength(TreePath(d));
    JoinLength(ReversedComponents(d), '/');
    ReverseSum(Components(d));
  }

  lemma PiecesParse(t: string, x: Dn)
    requires Parsed(t) == Ok(x) && x.rdns != []
    ensures var ps := Pieces(Trim(t), ',');
            |ps| == |x.rdns| && forall i :: 0 <= i < |ps| ==> ParsedRdn(ps[i]) == Ok(x.rdns[i])
  {
    var rs := RdnResults(Pieces(Trim(t), ','));
    Collected(rs);
    assert forall i :: 0 <= i < |rs| ==> rs[i] == Ok(x.rdns[i]);
  }

  lemma ComponentNoLonger(p: string, r: Rdn, r': Rdn)
    requires ParsedRdn(p) == Ok(r') && SameRdn(r', r)
    ensures |NormalizedRdn(r)| <= |p|
  {
    var _ := RdnLossy(p, r');
    SameTexts(r', r);
  }

  lemma ComponentsNoLonger(ps: seq<string>, d: Dn, x: Dn)
    requires |ps| == |d.rdns| && SameDn(x, d) && forall i :: 0 <= i < |ps| ==> ParsedRdn(ps[i]) == Ok(x.rdns[i])
    ensures forall i :: 0 <= i < |ps| ==> Lengths(ps)[i] >= Lengths(Components(d))[i]
  {
    forall i | 0 <= i < |ps|
      ensures Lengths(ps)[i] >= Lengths(Components(d))[i]
    {
      ComponentNoLonger(ps[i], d.rdns[i], x.rdns[i]);
    }
  }

  /** If the name that comes back is the name, no character was lost on the way. */
  lemma NothingLostInAll(d: Dn, x: Dn)
    requires d.rdns != [] && Parsed(CommaForm(TreePath(d))) == Ok(x) && SameDn(x, d)
    ensures var t := CommaForm(TreePath(d));
            && Trim(t) == t && Lengths(Pieces(t, ',')) == Lengths(Components(d))
            && forall i :: 0 <= i < |d.rdns| ==> ParsedRdn(Pieces(t, ',')[i]) == Ok(x.rdns[i])
  {
    var t := CommaForm(TreePath(d));
    PiecesParse(t, x);
    ComponentsNoLonger(Pieces(Trim(t), ','), d, x);
    PathLength(d);
    TextLength(Trim(t), ',');
    TrimLength(t);
    NoneShorter(Lengths(Components(d)), Lengths(Pieces(Trim(t), ',')), |t|, |Trim(t)|);
  }

  lemma NoneShorter(ms: seq<nat>, ns: seq<nat>, whole: nat, part: nat)
    requires |ms| == |ns| && (forall i :: 0 <= i < |ms| ==> ns[i] >= ms[i])
    requires whole == Sum(ms) + |ms| - 1 && part == Sum(ns) + |ns| - 1 && part <= whole
    ensures ms == ns && part == whole
  {
    SumAtLeast(ms, ns, 0);
    SumEqual(ms, ns);
  }

  lemma FaithfulComponent(p: string, r: Rdn, r': Rdn) returns (avas: Rdn)
    requires ParsedRdn(p) == Ok(r') && SameRdn(r', r) && |p| == |NormalizedRdn(r)| && '/' !in p
    ensures r' == Sort(avas) && AllFaithful(Pieces(p, '+'), avas) && '/' !in NormalizedRdn(r)
  {
    SameTexts(r', r);
    avas := RdnLossy(p, r');
    PiecesChars(p, false, '+', '/');
    forall i | 0 <= i < |r|
      ensures '/' !in NormTexts(r)[i]
    {
      var k := TextsAmong(r, r', avas, i);
      assert Faithful(Pieces(p, '+')[k], avas[k]);
      LowerChars(Pieces(p, '+')[k], '/');
    }
    JoinHasNone(NormTexts(r), '+', '/');
  }

  lemma LowerChars(s: string, c: char)
    requires c !in s && !('a' <= c <= 'z')
    ensures c !in Lower(s)
  {
  }

  lemma OnlyCleanKeysDecode(d: Dn, x: Dn)
    requires DnOk(d) && Parsed(CommaForm(TreePath(d))) == Ok(x) && SameDn(x, d)
    ensures Clean(d)
  {
    if d.rdns != [] {
      var t, cs := CommaForm(TreePath(d)), Components(d);
      var ps := Pieces(t, ',');
      NothingLostInAll(d, x);
      CommaFormLength(TreePath(d));
      PiecesChars(t, false, ',', '/');
      forall i | 0 <= i < |cs|
        ensures '/' !in cs[i]
      {
        assert Lengths(ps)[i] == Lengths(cs)[i];
        var _ := FaithfulComponent(ps[i], d.rdns[i], x.rdns[i]);
      }
      CommaFormOf(cs);
      JoinOfPieces(t, false, ',');
      assert Pending(false) + t == t;
      JoinSameLengths(ps, cs, ",");
      PiecesFindNone(t, false, ',', ',');
      PiecesClosed(t, false, ',');
      forall i | 0 <= i < |cs|
        ensures RdnClean(d.rdns[i], i == |cs| - 1)
      {
        var avas := FaithfulComponent(ps[i], d.rdns[i], x.rdns[i]);
        RdnOnlyClean(ps[i], d.rdns[i], x.rdns[i], avas, i == |cs| - 1);
      }
    }
  }

  // --------------------------------------------------------------------- the result

  ghost predicate DecodesTo(r: Decoded, d: Dn) {
    r.Decoded? && r.name.Ok? && SameDn(r.name.value, d)
  }

  /** The key of a well-formed name decodes to that name exactly when the name is
      clean: no slash anywhere, no comma or plus in a value, no attribute left
      open, and no backslash in a value but as the last character of the key's
      comma form. */
  lemma KeyDecodes(pid: string, d: Dn)
    requires DnOk(d)
    ensures DecodesTo(DnFromTreeKey(pid, EntryKey(pid, d)), d) <==> Clean(d)
  {
    PathOfKey(pid, d);
    if Clean(d) {
      CleanKeyDecodes(d);
      NormDnSame(d);
    }
    if DecodesTo(DnFromTreeKey(pid, EntryKey(pid, d)), d) {
      OnlyCleanKeysDecode(d, Parsed(CommaForm(TreePath(d))).value);
    }
  }
}
