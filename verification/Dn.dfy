/** Distinguished names: the string form of RFC 4514 as `iron-partition` parses
    and prints it. */
module DistinguishedNames {
  import opened Options
  import opened Text
  import opened Escapes

  /** An attribute with its value as supplied. */
  datatype Ava = Ava(attr: string, value: string)

  type Rdn = seq<Ava>

  /** The relative names, most specific first. */
  datatype Dn = Dn(rdns: seq<Rdn>)

  datatype Problem = EmptyRdn | NoEquals | EmptyAttribute
  type Result<T> = Options.Result<T, Problem>

  // ---------------------------------------------------------------- equality

  function Norm(v: string): string {
    Lower(Trim(v))
  }

  predicate SameAva(a: Ava, b: Ava) {
    a.attr == b.attr && Norm(a.value) == Norm(b.value)
  }

  predicate SameRdn(r: Rdn, s: Rdn) {
    |r| == |s| && forall i :: 0 <= i < |r| ==> SameAva(r[i], s[i])
  }

  predicate SameDn(d: Dn, e: Dn) {
    |d.rdns| == |e.rdns| && forall i :: 0 <= i < |d.rdns| ==> SameRdn(d.rdns[i], e.rdns[i])
  }

  lemma SameDnReflexive(d: Dn)
    ensures SameDn(d, d)
  {
  }

  // ------------------------------------------------------------------ order

  /** Strings compare by character. */
  predicate StringLe(a: string, b: string) {
    a == "" || (b != "" && (a[0] < b[0] || (a[0] == b[0] && StringLe(a[1..], b[1..]))))
  }

  predicate AvaLe(a: Ava, b: Ava) {
    if a.attr == b.attr then StringLe(Norm(a.value), Norm(b.value)) else StringLe(a.attr, b.attr)
  }

  predicate IsSorted(r: Rdn) {
    forall i :: 0 <= i < |r| - 1 ==> AvaLe(r[i], r[i + 1])
  }

  function Insert(r: Rdn, a: Ava): Rdn {
    if r == [] || AvaLe(r[|r| - 1], a) then r + [a] else Insert(r[..|r| - 1], a) + [r[|r| - 1]]
  }

  /** A stable sort by attribute and normalized value. */
  function Sort(r: Rdn): Rdn {
    if r == [] then [] else Insert(Sort(r[..|r| - 1]), r[|r| - 1])
  }

  lemma {:induction false} StringTotal(a: string, b: string)
    ensures StringLe(a, b) || StringLe(b, a)
  {
    if a != "" && b != "" && a[0] == b[0] {
      StringTotal(a[1..], b[1..]);
    }
  }

  lemma WithLast(r: Rdn)
    requires r != []
    ensures multiset(r) == multiset(r[..|r| - 1]) + multiset{r[|r| - 1]}
  {
    assert r == r[..|r| - 1] + [r[|r| - 1]];
  }

  lemma {:induction false} InsertElements(r: Rdn, a: Ava)
    ensures |Insert(r, a)| == |r| + 1 && multiset(Insert(r, a)) == multiset(r) + multiset{a}
    ensures Insert(r, a)[|r|] == a || (r != [] && Insert(r, a)[|r|] == r[|r| - 1])
  {
    if r != [] && !AvaLe(r[|r| - 1], a) {
      InsertElements(r[..|r| - 1], a);
      WithLast(r);
    }
  }

  lemma AvaTotal(a: Ava, b: Ava)
    ensures AvaLe(a, b) || AvaLe(b, a)
  {
    StringTotal(a.attr, b.attr);
    StringTotal(Norm(a.value), Norm(b.value));
  }

  lemma FrontSorted(r: Rdn, front: Rdn)
    requires IsSorted(r) && r != [] && front == r[..|r| - 1]
    ensures IsSorted(front) && (front == [] || AvaLe(front[|front| - 1], r[|r| - 1]))
  {
    forall i | 0 <= i < |front| - 1
      ensures AvaLe(front[i], front[i + 1])
    {
      assert AvaLe(r[i], r[i + 1]);
    }
    if front != [] {
      assert AvaLe(r[|r| - 2], r[|r| - 2 + 1]);
    }
  }

  lemma {:induction false} InsertSorted(r: Rdn, a: Ava)
    requires IsSorted(r)
    ensures IsSorted(Insert(r, a)) && |Insert(r, a)| == |r| + 1
    ensures multiset(Insert(r, a)) == multiset(r) + multiset{a}
  {
    InsertElements(r, a);
    if r != [] && !AvaLe(r[|r| - 1], a) {
      var front, last := r[..|r| - 1], r[|r| - 1];
      FrontSorted(r, front);
      InsertSorted(front, a);
      InsertElements(front, a);
      AvaTotal(a, last);
    }
  }

  lemma {:induction false} SortSorts(r: Rdn)
    ensures IsSorted(Sort(r)) && multiset(Sort(r)) == multiset(r) && |Sort(r)| == |r|
  {
    if r != [] {
      var front, last := r[..|r| - 1], r[|r| - 1];
      SortSorts(front);
      InsertSorted(Sort(front), last);
      WithLast(r);
    }
  }

  lemma InsertLast(r: Rdn, a: Ava)
    requires r == [] || AvaLe(r[|r| - 1], a)
    ensures Insert(r, a) == r + [a]
  {
  }

  lemma {:induction false} SortOfSorted(r: Rdn)
    requires IsSorted(r)
    ensures Sort(r) == r
  {
    if r != [] {
      var front, last := r[..|r| - 1], r[|r| - 1];
      FrontSorted(r, front);
      SortOfSorted(front);
      InsertLast(front, last);
      assert r == front + [last];
    }
  }

  // ----------------------------------------------------------------- parsing

  function ParsedAva(s: string): Result<Ava> {
    match Find(s, '=')
    case None => Err(NoEquals)
    case Some(eq) =>
      var attr := Lower(Trim(s[..eq]));
      if attr == "" then Err(EmptyAttribute) else Ok(Ava(attr, Unescaped(Trim(s[eq + 1..]))))
  }

  method ParseAva(s: string) returns (r: Result<Ava>)
    ensures r == ParsedAva(s)
  {
    var eq := FindUnescaped(s, '=');
    if eq.None? {
      return Err(NoEquals);
    }
    var attr := Lower(Trim(s[..eq.value]));
    if attr == "" {
      return Err(EmptyAttribute);
    }
    var rawValue := Trim(s[eq.value + 1..]);
    var value := Unescape(rawValue);
    r := Ok(Ava(attr, value));
  }

  /** The values of a list of results, or the first problem in it. */
  function Collect<T>(rs: seq<Result<T>>): Result<seq<T>> {
    if rs == [] then Ok([])
    else
      match Collect(rs[..|rs| - 1])
      case Err(x) => Err(x)
      case Ok(ts) =>
        match rs[|rs| - 1]
        case Err(x) => Err(x)
        case Ok(t) => Ok(ts + [t])
  }

  lemma {:induction false} CollectFails<T>(rs: seq<Result<T>>, i: nat)
    requires i < |rs| && Collect(rs[..i]).Ok? && rs[i].Err?
    ensures Collect(rs) == Err(rs[i].error)
  {
    if i < |rs| - 1 {
      assert rs[..|rs| - 1][..i] == rs[..i];
      CollectFails(rs[..|rs| - 1], i);
    }
  }

  lemma {:induction false} Collected<T>(rs: seq<Result<T>>)
    ensures Collect(rs).Ok? <==> forall i :: 0 <= i < |rs| ==> rs[i].Ok?
    ensures Collect(rs).Ok? ==>
              |Collect(rs).value| == |rs| && forall i :: 0 <= i < |rs| ==> rs[i] == Ok(Collect(rs).value[i])
  {
    if rs != [] {
      Collected(rs[..|rs| - 1]);
    }
  }

  function AvaResults(ps: seq<string>): (rs: seq<Result<Ava>>)
    ensures |rs| == |ps|
  {
    seq(|ps|, i requires 0 <= i < |ps| => ParsedAva(Trim(ps[i])))
  }

  function ParsedRdn(p: string): Result<Rdn> {
    if Trim(p) == "" then Err(EmptyRdn)
    else
      match Collect(AvaResults(Pieces(Trim(p), '+')))
      case Err(x) => Err(x)
      case Ok(avas) => Ok(Sort(avas))
  }

  method ParseRdn(p: string) returns (r: Result<Rdn>)
    ensures r == ParsedRdn(p)
  {
    var rdnStr := Trim(p);
    if rdnStr == "" {
      return Err(EmptyRdn);
    }
    var avas: seq<Ava> := [];
    var pieces := SplitUnescaped(rdnStr, '+');
    ghost var rs := AvaResults(pieces);
    for i := 0 to |pieces|
      invariant Collect(rs[..i]) == Ok(avas)
    {
      var a := ParseAva(Trim(pieces[i]));
      assert rs[..i + 1][..i] == rs[..i];
      if a.Err? {
        CollectFails(rs, i);
        return Err(a.error);
      }
      avas := avas + [a.value];
    }
    assert rs[..|pieces|] == rs;
    r := Ok(Sort(avas));
  }

  function RdnResults(ps: seq<string>): (rs: seq<Result<Rdn>>)
    ensures |rs| == |ps|
  {
    seq(|ps|, i requires 0 <= i < |ps| => ParsedRdn(ps[i]))
  }

  function Parsed(s: string): Result<Dn> {
    if Trim(s) == "" then Ok(Dn([]))
    else
      match Collect(RdnResults(Pieces(Trim(s), ',')))
      case Err(x) => Err(x)
      case Ok(rdns) => Ok(Dn(rdns))
  }

  method Parse(s: string) returns (r: Result<Dn>)
    ensures r == Parsed(s)
  {
    var trimmed := Trim(s);
    if trimmed == "" {
      return Ok(Dn([]));
    }
    var rdns: seq<Rdn> := [];
    var pieces := SplitUnescaped(trimmed, ',');
    ghost var rs := RdnResults(pieces);
    for i := 0 to |pieces|
      invariant Collect(rs[..i]) == Ok(rdns)
    {
      var rdn := ParseRdn(pieces[i]);
      assert rs[..i + 1][..i] == rs[..i];
      if rdn.Err? {
        CollectFails(rs, i);
        return Err(rdn.error);
      }
      rdns := rdns + [rdn.value];
    }
    assert rs[..|pieces|] == rs;
    r := Ok(Dn(rdns));
  }

  // ---------------------------------------------------------------- printing

  function AvaText(a: Ava): string {
    a.attr + "=" + EscapedValue(a.value)
  }

  function AvaTexts(r: Rdn): (ts: seq<string>)
    ensures |ts| == |r|
  {
    seq(|r|, i requires 0 <= i < |r| => AvaText(r[i]))
  }

  function RdnText(r: Rdn): string {
    Join(AvaTexts(r), "+")
  }

  function RdnTexts(d: Dn): (ts: seq<string>)
    ensures |ts| == |d.rdns|
  {
    seq(|d.rdns|, i requires 0 <= i < |d.rdns| => RdnText(d.rdns[i]))
  }

  function DnText(d: Dn): string {
    Join(RdnTexts(d), ",")
  }

  // ------------------------------------------------------- what parsing yields

  predicate AttrOk(attr: string) {
    && attr != "" && Trim(attr) == attr && Lower(attr) == attr
    && Find(attr, ',') == None && Find(attr, '+') == None && Find(attr, '=') == None
  }

  predicate RdnOk(r: Rdn) {
    r != [] && IsSorted(r) && forall i :: 0 <= i < |r| ==> AttrOk(r[i].attr)
  }

  predicate DnOk(d: Dn) {
    forall i :: 0 <= i < |d.rdns| ==> RdnOk(d.rdns[i])
  }

  lemma {:induction false} FoundFirst(s: string, escaped: bool, d: char)
    requires FindFrom(s, escaped, d).Some?
    ensures FindFrom(s[..FindFrom(s, escaped, d).value], escaped, d) == None
  {
    var k := FindFrom(s, escaped, d).value;
    if k > 0 {
      FoundFirst(s[1..], !escaped && s[0] == '\\', d);
      assert s[..k][1..] == s[1..][..k - 1];
    }
  }

  lemma TrimmedLower(s: string)
    ensures Trim(Lower(Trim(s))) == Lower(Trim(s)) && Lower(Lower(Trim(s))) == Lower(Trim(s))
  {
    TrimLower(Trim(s));
    TrimTwice(s);
    LowerIdempotent(Trim(s));
  }

  lemma AttrFindsNone(s: string, eq: nat, d: char)
    requires eq <= |s| && Find(s[..eq], d) == None && d in {',', '+', '='}
    ensures Find(Lower(Trim(s[..eq])), d) == None
  {
    FindTrimmed(s[..eq], d);
    FindLower(Trim(s[..eq]), false, d);
  }

  lemma ParsedAvaOk(s: string)
    requires Find(s, ',') == None && Find(s, '+') == None && ParsedAva(s).Ok?
    ensures AttrOk(ParsedAva(s).value.attr)
  {
    var eq := Find(s, '=').value;
    FoundFirst(s, false, '=');
    FindInPrefix(s, eq, ',');
    FindInPrefix(s, eq, '+');
    AttrFindsNone(s, eq, ',');
    AttrFindsNone(s, eq, '+');
    AttrFindsNone(s, eq, '=');
    TrimmedLower(s[..eq]);
  }

  lemma AvaResultOk(p: string)
    requires Find(p, ',') == None && Find(p, '+') == None && ParsedAva(Trim(p)).Ok?
    ensures AttrOk(ParsedAva(Trim(p)).value.attr)
  {
    FindTrimmed(p, ',');
    FindTrimmed(p, '+');
    ParsedAvaOk(Trim(p));
  }

  lemma AvaResultsOk(ps: seq<string>)
    requires NoneFinds(ps, ',') && NoneFinds(ps, '+') && Collect(AvaResults(ps)).Ok?
    ensures |Collect(AvaResults(ps)).value| == |ps|
    ensures forall i :: 0 <= i < |ps| ==> AttrOk(Collect(AvaResults(ps)).value[i].attr)
  {
    var rs := AvaResults(ps);
    Collected(rs);
    forall i | 0 <= i < |ps|
      ensures AttrOk(Collect(rs).value[i].attr)
    {
      assert rs[i] == Ok(Collect(rs).value[i]);
      AvaResultOk(ps[i]);
    }
  }

  lemma SortKeeps(r: Rdn)
    requires r != [] && forall i :: 0 <= i < |r| ==> AttrOk(r[i].attr)
    ensures RdnOk(Sort(r))
  {
    SortSorts(r);
    forall i | 0 <= i < |Sort(r)|
      ensures AttrOk(Sort(r)[i].attr)
    {
      assert Sort(r)[i] in multiset(Sort(r));
      assert Sort(r)[i] in r;
    }
  }

  lemma ParsedRdnOk(p: string)
    requires Find(p, ',') == None && ParsedRdn(p).Ok?
    ensures RdnOk(ParsedRdn(p).value)
  {
    FindTrimmed(p, ',');
    PiecesFindNone(Trim(p), false, '+', ',');
    PiecesFindNone(Trim(p), false, '+', '+');
    AvaResultsOk(Pieces(Trim(p), '+'));
    SortKeeps(Collect(AvaResults(Pieces(Trim(p), '+'))).value);
  }

  /** Whatever parses, parses to a well-formed name. */
  lemma ParsedOk(s: string)
    requires Parsed(s).Ok?
    ensures DnOk(Parsed(s).value)
  {
    if Trim(s) != "" {
      var ps := Pieces(Trim(s), ',');
      var rs := RdnResults(ps);
      PiecesFindNone(Trim(s), false, ',', ',');
      Collected(rs);
      forall i | 0 <= i < |ps|
        ensures RdnOk(Collect(rs).value[i])
      {
        assert rs[i] == Ok(Collect(rs).value[i]);
        ParsedRdnOk(ps[i]);
      }
    }
  }
}
