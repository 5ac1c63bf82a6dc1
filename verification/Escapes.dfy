/** Backslash escapes in the string form of distinguished names (RFC 4514), as
    `iron-partition` splits, removes and adds them. */
module Escapes {
  import opened Options
  import opened Text

  // ---------------------------------------------------------------- scanning

  /** Whether a scan of `s` ends just after a backslash that escapes; `escaped`
      says whether it starts there. */
  predicate Ends(s: string, escaped: bool) {
    if s == "" then escaped else Ends(s[1..], !escaped && s[0] == '\\')
  }

  /** No backslash is left without the character it escapes. */
  predicate Closed(s: string) {
    !Ends(s, false)
  }

  // --------------------------------------------------------------- splitting

  function Prepend(x: string, parts: seq<string>): (r: seq<string>)
    requires |parts| >= 1
    ensures |r| == |parts|
  {
    [x + parts[0]] + parts[1..]
  }

  function Pending(escaped: bool): string {
    if escaped then "\\" else ""
  }

  function PiecesFrom(s: string, escaped: bool, d: char): (parts: seq<string>)
    ensures |parts| >= 1
  {
    if s == "" then [Pending(escaped)]
    else if escaped then Prepend(['\\', s[0]], PiecesFrom(s[1..], false, d))
    else if s[0] == '\\' then PiecesFrom(s[1..], true, d)
    else if s[0] == d then [""] + PiecesFrom(s[1..], false, d)
    else Prepend([s[0]], PiecesFrom(s[1..], false, d))
  }

  /** The pieces of `s` between unescaped occurrences of `d`. */
  function Pieces(s: string, d: char): (parts: seq<string>)
    ensures |parts| >= 1
  {
    PiecesFrom(s, false, d)
  }

  method SplitUnescaped(s: string, d: char) returns (parts: seq<string>)
    ensures parts == Pieces(s, d)
  {
    parts := [];
    var cur := "";
    var escaped := false;
    ghost var whole := Pieces(s, d);
    PrependNothing(whole);
    assert s[0..] == s;
    for i := 0 to |s|
      invariant whole == parts + Prepend(cur, PiecesFrom(s[i..], escaped, d))
    {
      var c := s[i];
      ghost var rest := PiecesFrom(s[i + 1..], false, d);
      assert s[i..][1..] == s[i + 1..];
      if escaped {
        PrependMore(cur, ['\\', c], rest);
        cur := cur + ['\\', c];
        escaped := false;
      } else if c == '\\' {
        escaped := true;
      } else if c == d {
        PrependPiece(parts, cur, rest);
        parts := parts + [cur];
        cur := "";
      } else {
        PrependMore(cur, [c], rest);
        cur := cur + [c];
      }
    }
    PrependOne(cur, Pending(escaped), []);
    assert s[|s|..] == "" && cur + "" == cur;
    if escaped {
      cur := cur + "\\";
    }
    parts := parts + [cur];
  }

  lemma PrependOne(x: string, y: string, rest: seq<string>)
    ensures Prepend(x, [y] + rest) == [x + y] + rest
    ensures rest == [] ==> Prepend(x, [y]) == [x + y]
  {
  }

  lemma PrependNothing(ps: seq<string>)
    requires |ps| >= 1
    ensures Prepend("", ps) == ps && [] + Prepend("", ps) == ps
  {
    assert "" + ps[0] == ps[0];
  }

  lemma PrependMore(cur: string, x: string, ps: seq<string>)
    requires |ps| >= 1
    ensures Prepend(cur, Prepend(x, ps)) == Prepend(cur + x, ps)
  {
    assert cur + (x + ps[0]) == cur + x + ps[0];
  }

  lemma PrependPiece(parts: seq<string>, cur: string, ps: seq<string>)
    requires |ps| >= 1
    ensures parts + Prepend(cur, [""] + ps) == parts + [cur] + Prepend("", ps)
  {
    PrependNothing(ps);
    assert cur + "" == cur;
  }

  // ----------------------------------------------------------------- finding

  function Shift(k: nat, r: Option<nat>): Option<nat> {
    match r
    case None => None
    case Some(i) => Some(k + i)
  }

  function FindFrom(s: string, escaped: bool, d: char): (r: Option<nat>)
    ensures r.Some? ==> r.value < |s|
  {
    if s == "" then None
    else if !escaped && s[0] != '\\' && s[0] == d then Some(0)
    else Shift(1, FindFrom(s[1..], !escaped && s[0] == '\\', d))
  }

  /** The first unescaped occurrence of `d`. */
  function Find(s: string, d: char): Option<nat> {
    FindFrom(s, false, d)
  }

  method FindUnescaped(s: string, d: char) returns (r: Option<nat>)
    ensures r == Find(s, d)
  {
    var escaped := false;
    assert s[0..] == s;
    for i := 0 to |s|
      invariant Find(s, d) == Shift(i, FindFrom(s[i..], escaped, d))
    {
      assert s[i..][1..] == s[i + 1..];
      if escaped {
        escaped := false;
      } else if s[i] == '\\' {
        escaped := true;
      } else if s[i] == d {
        return Some(i);
      }
    }
    r := None;
  }

  // --------------------------------------------------------------- unescaping

  predicate IsHex(c: char) {
    '0' <= c <= '9' || 'a' <= c <= 'f' || 'A' <= c <= 'F'
  }

  function HexDigit(c: char): (n: nat)
    requires IsHex(c)
    ensures n < 16
  {
    if c <= '9' then c as int - '0' as int
    else if c <= 'F' then c as int - 'A' as int + 10
    else c as int - 'a' as int + 10
  }

  function HexChar(h1: char, h2: char): char
    requires IsHex(h1) && IsHex(h2)
  {
    (16 * HexDigit(h1) + HexDigit(h2)) as char
  }

  /** The characters the text at the cursor stands for, and how many it takes. */
  function Unit(s: string): (r: (char, nat))
    requires s != ""
    ensures 1 <= r.1 <= |s|
  {
    if s[0] != '\\' then (s[0], 1)
    else if |s| == 1 then ('\\', 1)
    else if IsHex(s[1]) && |s| >= 3 && IsHex(s[2]) then (HexChar(s[1], s[2]), 3)
    else (s[1], 2)
  }

  function Unescaped(s: string): string {
    if |s| == 0 then "" else [Unit(s).0] + Unescaped(s[Unit(s).1..])
  }

  method Unescape(s: string) returns (out: string)
    ensures out == Unescaped(s)
  {
    out := "";
    var i := 0;
    assert s[0..] == s;
    while i < |s|
      invariant i <= |s|
      invariant Unescaped(s) == out + Unescaped(s[i..])
    {
      var c := s[i];
      ghost var t, before := s[i..], out;
      i := i + 1;
      if c != '\\' {
        out := out + [c];
      } else if i < |s| && IsHex(s[i]) {
        var h1 := s[i];
        i := i + 1;
        if i < |s| && IsHex(s[i]) {
          var h2 := s[i];
          i := i + 1;
          out := out + [HexChar(h1, h2)];
        } else {
          out := out + [h1];
        }
      } else if i < |s| {
        out := out + [s[i]];
        i := i + 1;
      } else {
        out := out + "\\";
      }
      UnescapeStep(t, s[i..], before, out);
    }
  }

  lemma UnescapeStep(t: string, rest: string, before: string, out: string)
    requires t != "" && rest == t[Unit(t).1..] && out == before + [Unit(t).0]
    ensures before + Unescaped(t) == out + Unescaped(rest)
  {
  }

  // ---------------------------------------------------------------- escaping

  predicate Special(c: char) {
    c == '\\' || c == ',' || c == '+' || c == '=' || c == '<' || c == '>' || c == '#' || c == ';' || c == '"'
  }

  predicate NeedsEscape(v: string, i: nat)
    requires i < |v|
  {
    Special(v[i]) || (v[i] == ' ' && (i == 0 || i == |v| - 1))
  }

  function EscapedChar(v: string, i: nat): string
    requires i < |v|
  {
    if NeedsEscape(v, i) then ['\\', v[i]] else [v[i]]
  }

  /** Characters `i` to `j - 1` of `v`, escaped. */
  function Escaped(v: string, i: nat, j: nat): string
    requires i <= j <= |v|
    decreases j - i
  {
    if i == j then "" else EscapedChar(v, i) + Escaped(v, i + 1, j)
  }

  function EscapedValue(v: string): string {
    Escaped(v, 0, |v|)
  }

  method EscapeValue(v: string) returns (out: string)
    ensures out == EscapedValue(v)
  {
    out := "";
    ghost var whole := EscapedValue(v);
    for i := 0 to |v|
      invariant whole == out + Escaped(v, i, |v|)
    {
      EscapeStep(v, i, out, whole);
      var edge := i == 0 || i == |v| - 1;
      if Special(v[i]) {
        out := out + ['\\', v[i]];
      } else if v[i] == ' ' && edge {
        out := out + ['\\', ' '];
      } else {
        out := out + [v[i]];
      }
    }
  }

  lemma EscapeStep(v: string, i: nat, out: string, whole: string)
    requires i < |v| && whole == out + Escaped(v, i, |v|)
    ensures whole == out + EscapedChar(v, i) + Escaped(v, i + 1, |v|)
  {
  }

  // ------------------------------------------------------------ concatenation

  lemma {:induction false} EndsOn(a: string, escaped: bool, b: string)
    ensures Ends(a + b, escaped) == Ends(b, Ends(a, escaped))
  {
    if a == "" {
      assert a + b == b;
    } else {
      EndsOn(a[1..], !escaped && a[0] == '\\', b);
      assert (a + b)[1..] == a[1..] + b;
    }
  }

  /** Searching on into `b`. */
  lemma {:induction false} FindOn(a: string, escaped: bool, b: string, d: char)
    requires FindFrom(a, escaped, d) == None
    ensures FindFrom(a + b, escaped, d) == Shift(|a|, FindFrom(b, Ends(a, escaped), d))
  {
    if a == "" {
      assert a + b == b;
    } else {
      var e, rest := !escaped && a[0] == '\\', a[1..];
      calc {
        FindFrom(a + b, escaped, d);
        { FindStep(a, b, escaped, d, FindFrom(rest + b, e, d)); }
        Shift(1, FindFrom(rest + b, e, d));
        { FindOn(rest, e, b, d); }
        Shift(1, Shift(|rest|, FindFrom(b, Ends(rest, e), d)));
        Shift(|a|, FindFrom(b, Ends(rest, e), d));
        Shift(|a|, FindFrom(b, Ends(a, escaped), d));
      }
    }
  }

  lemma FindStep(a: string, b: string, escaped: bool, d: char, rest: Option<nat>)
    requires a != "" && (escaped || a[0] == '\\' || a[0] != d)
    requires rest == FindFrom(a[1..] + b, !escaped && a[0] == '\\', d)
    ensures FindFrom(a + b, escaped, d) == Shift(1, rest)
  {
    assert (a + b)[1..] == a[1..] + b;
  }

  /** One escaped character, or one that needs no escape. */
  lemma UnitScan(c: char, d: char)
    ensures Closed(['\\', c]) && Find(['\\', c], d) == None
    ensures c != '\\' ==> Closed([c])
    ensures c != '\\' && c != d ==> Find([c], d) == None
  {
    assert ['\\', c][1..] == [c] && [c][1..] == "";
    assert Ends([c], true) == Ends("", false) && FindFrom([c], true, d) == Shift(1, FindFrom("", false, d));
  }

  lemma FindInPrefix(s: string, k: nat, d: char)
    requires k <= |s| && Find(s, d) == None
    ensures Find(s[..k], d) == None
  {
    FindFromPrefix(s, false, k, d);
  }

  lemma {:induction false} FindFromPrefix(s: string, escaped: bool, k: nat, d: char)
    requires k <= |s| && FindFrom(s, escaped, d) == None
    ensures FindFrom(s[..k], escaped, d) == None
  {
    if k > 0 {
      FindFromPrefix(s[1..], !escaped && s[0] == '\\', k - 1, d);
      assert s[..k][1..] == s[1..][..k - 1];
    }
  }

  /** The first piece ends at the first unescaped delimiter. */
  lemma {:induction false} FirstPiece(a: string, escaped: bool, b: string, d: char)
    requires d != '\\' && FindFrom(a, escaped, d) == None
    ensures b == "" ==> PiecesFrom(a + b, escaped, d) == [Pending(escaped) + a]
    ensures b != "" && b[0] == d && !Ends(a, escaped) ==>
              PiecesFrom(a + b, escaped, d) == [Pending(escaped) + a] + Pieces(b[1..], d)
  {
    if a == "" {
      assert a + b == b && Pending(escaped) + a == Pending(escaped);
    } else {
      var e := !escaped && a[0] == '\\';
      FirstPiece(a[1..], e, b, d);
      assert (a + b)[1..] == a[1..] + b;
      var unit := if escaped then ['\\', a[0]] else [a[0]];
      var rest := if b == "" then [] else Pieces(b[1..], d);
      PrependOne(unit, Pending(false) + a[1..], rest);
      assert unit + (Pending(false) + a[1..]) == Pending(escaped) + a;
      assert e ==> Pending(true) + a[1..] == Pending(escaped) + a;
    }
  }

  /** Splitting undoes joining when no piece hides the delimiter after it. */
  lemma {:induction false} PiecesOfJoin(ts: seq<string>, d: char)
    requires |ts| >= 1 && d != '\\'
    requires forall i :: 0 <= i < |ts| ==> Find(ts[i], d) == None
    requires forall i :: 0 <= i < |ts| - 1 ==> Closed(ts[i])
    ensures Pieces(Join(ts, [d]), d) == ts
  {
    assert Pending(false) + ts[0] == ts[0];
    if |ts| == 1 {
      FirstPiece(ts[0], false, "", d);
      assert ts[0] + "" == ts[0];
    } else {
      var rest := Join(ts[1..], [d]);
      PiecesOfJoin(ts[1..], d);
      FirstPiece(ts[0], false, [d] + rest, d);
      assert ts[0] + [d] + rest == ts[0] + ([d] + rest) && ([d] + rest)[1..] == rest;
      assert [ts[0]] + ts[1..] == ts;
    }
  }

  // ------------------------------------------------------ pieces are delimited

  predicate NoneFinds(ts: seq<string>, e: char) {
    forall i :: 0 <= i < |ts| ==> Find(ts[i], e) == None
  }

  /** Pieces have no unescaped delimiter, nor any that the string did not have. */
  lemma {:induction false} PiecesFindNone(s: string, escaped: bool, d: char, e: char)
    requires d != '\\' && (d == e || FindFrom(s, escaped, e) == None)
    ensures NoneFinds(PiecesFrom(s, escaped, d), e)
  {
    if s == "" {
      assert Find(Pending(escaped), e) == None;
    } else {
      PiecesFindNone(s[1..], !escaped && s[0] == '\\', d, e);
      var first := PiecesFrom(s[1..], false, d)[0];
      UnitScan(s[0], e);
      if escaped {
        FindOn(['\\', s[0]], false, first, e);
      } else if s[0] != '\\' && s[0] != d {
        FindOn([s[0]], false, first, e);
      }
    }
  }

  /** Trimming takes no escape apart at the start, and cuts at the end. */
  lemma FindTrimmed(s: string, d: char)
    requires Find(s, d) == None
    ensures Find(Trim(s), d) == None
  {
    FindTrimmedStart(s, d);
    var k := Trailing(TrimStart(s));
    FindInPrefix(TrimStart(s), k, d);
  }

  lemma {:induction false} FindTrimmedStart(s: string, d: char)
    requires Find(s, d) == None
    ensures Find(TrimStart(s), d) == None
  {
    if s != "" && IsWhitespace(s[0]) {
      FindTrimmedStart(s[1..], d);
    }
  }

  lemma {:induction false} FindLower(s: string, escaped: bool, d: char)
    requires FindFrom(s, escaped, d) == None && !('a' <= d <= 'z')
    ensures FindFrom(Lower(s), escaped, d) == None
  {
    if s != "" {
      FindLower(s[1..], !escaped && s[0] == '\\', d);
      assert Lower(s)[1..] == Lower(s[1..]);
    }
  }

  // ------------------------------------------------------------ escaped values

  lemma {:induction false} EscapedScan(v: string, i: nat, j: nat, d: char)
    requires i <= j <= |v| && d in {',', '+', '='}
    ensures Closed(Escaped(v, i, j)) && Find(Escaped(v, i, j), d) == None
    decreases j - i
  {
    if i < j {
      EscapedScan(v, i + 1, j, d);
      EscapedCharScan(v, i, d);
      EndsOn(EscapedChar(v, i), false, Escaped(v, i + 1, j));
      FindOn(EscapedChar(v, i), false, Escaped(v, i + 1, j), d);
    }
  }

  lemma EscapedCharScan(v: string, i: nat, d: char)
    requires i < |v| && d in {',', '+', '='}
    ensures Closed(EscapedChar(v, i)) && Find(EscapedChar(v, i), d) == None
  {
    UnitScan(v[i], d);
  }

  /** Removing escapes undoes adding them, whatever follows. */
  lemma {:induction false} UnescapedOfEscaped(v: string, i: nat, j: nat, t: string)
    requires i <= j <= |v|
    ensures Unescaped(Escaped(v, i, j) + t) == v[i..j] + Unescaped(t)
    decreases j - i
  {
    if i == j {
      assert Escaped(v, i, j) + t == t;
      assert v[i..j] + Unescaped(t) == Unescaped(t);
    } else {
      UnescapedOfEscaped(v, i + 1, j, t);
      UnescapedUnit(v, i, Escaped(v, i + 1, j) + t);
      Associate(EscapedChar(v, i), Escaped(v, i + 1, j), t);
      SliceHead(v, i, j, Unescaped(t));
    }
  }

  lemma SliceHead(v: string, i: nat, j: nat, u: string)
    requires i < j <= |v|
    ensures [v[i]] + (v[i + 1..j] + u) == v[i..j] + u
  {
  }

  lemma Associate(a: string, b: string, c: string)
    ensures a + b + c == a + (b + c)
  {
  }

  lemma UnescapedUnit(v: string, i: nat, t: string)
    requires i < |v|
    ensures Unescaped(EscapedChar(v, i) + t) == [v[i]] + Unescaped(t)
  {
    var x := EscapedChar(v, i);
    var e := x + t;
    SpecialsAreNotHex(v[i]);
    assert Unit(e) == (v[i], |x|);
    assert e[|x|..] == t;
  }

  lemma SpecialsAreNotHex(c: char)
    ensures Special(c) || c == ' ' ==> !IsHex(c)
  {
  }

  lemma {:induction false} EscapedSplit(v: string, i: nat, k: nat, j: nat)
    requires i <= k <= j <= |v|
    ensures Escaped(v, i, j) == Escaped(v, i, k) + Escaped(v, k, j)
    decreases k - i
  {
    if i < k {
      EscapedSplit(v, i + 1, k, j);
    }
  }

  lemma {:induction false} NothingEscaped(v: string, i: nat, j: nat)
    requires i <= j <= |v| && forall k :: i <= k < j ==> !NeedsEscape(v, k)
    ensures Escaped(v, i, j) == v[i..j]
    decreases j - i
  {
    if i < j {
      NothingEscaped(v, i + 1, j);
      assert EscapedChar(v, i) == [v[i]];
      assert v[i..j] == [v[i]] + v[i + 1..j];
    }
  }

  lemma LastOfConcat(a: string, b: string)
    requires a != "" && b != ""
    ensures (a + b)[0] == a[0] && (a + b)[|a + b| - 1] == b[|b| - 1]
  {
  }

  /** The last escaped character of a non-empty range is the character itself. */
  lemma {:induction false} EscapedEnds(v: string, i: nat, j: nat)
    requires i < j <= |v|
    ensures Escaped(v, i, j) != "" && Escaped(v, i, j)[|Escaped(v, i, j)| - 1] == v[j - 1]
    ensures Escaped(v, i, j)[0] == if NeedsEscape(v, i) then '\\' else v[i]
    decreases j - i
  {
    var x, rest := EscapedChar(v, i), Escaped(v, i + 1, j);
    if i + 1 < j {
      EscapedEnds(v, i + 1, j);
      LastOfConcat(x, rest);
    } else {
      assert rest == "" && x + rest == x;
    }
  }

  // ----------------------------------------------------- what pieces are made of

  lemma {:induction false} NotFound(s: string, escaped: bool, c: char)
    requires c !in s
    ensures FindFrom(s, escaped, c) == None
  {
    if s != "" {
      NotFound(s[1..], !escaped && s[0] == '\\', c);
    }
  }

  /** What comes before an unescaped character is closed. */
  lemma {:induction false} FoundClosed(s: string, escaped: bool, d: char)
    requires FindFrom(s, escaped, d).Some?
    ensures !Ends(s[..FindFrom(s, escaped, d).value], escaped)
  {
    var k := FindFrom(s, escaped, d).value;
    if k > 0 {
      FoundClosed(s[1..], !escaped && s[0] == '\\', d);
      assert s[..k][1..] == s[1..][..k - 1];
    }
  }

  /** Joining undoes splitting. */
  lemma {:induction false} JoinOfPieces(s: string, escaped: bool, d: char)
    ensures Join(PiecesFrom(s, escaped, d), [d]) == Pending(escaped) + s
  {
    if s == "" {
      assert Pending(escaped) + s == Pending(escaped);
    } else {
      var e := !escaped && s[0] == '\\';
      JoinOfPieces(s[1..], e, d);
      var rest := PiecesFrom(s[1..], false, d);
      if !e && (escaped || s[0] != d) {
        var unit := if escaped then ['\\', s[0]] else [s[0]];
        JoinPrepend(unit, rest, [d]);
        assert unit + (Pending(false) + s[1..]) == Pending(escaped) + s;
      } else if !e {
        assert ([""] + rest)[1..] == rest;
        assert "" + [d] + (Pending(false) + s[1..]) == Pending(escaped) + s;
      } else {
        assert Pending(true) + s[1..] == Pending(escaped) + s;
      }
    }
  }

  lemma JoinPrepend(x: string, parts: seq<string>, sep: string)
    requires |parts| >= 1
    ensures Join(Prepend(x, parts), sep) == x + Join(parts, sep)
  {
    assert Prepend(x, parts)[1..] == parts[1..];
    if |parts| > 1 {
      Associate(x, parts[0], sep);
      Associate(x, parts[0] + sep, Join(parts[1..], sep));
    }
  }

  lemma {:induction false} PiecesClosed(s: string, escaped: bool, d: char)
    ensures forall i :: 0 <= i < |PiecesFrom(s, escaped, d)| - 1 ==> Closed(PiecesFrom(s, escaped, d)[i])
  {
    if s != "" {
      PiecesClosed(s[1..], !escaped && s[0] == '\\', d);
      var first := PiecesFrom(s[1..], false, d)[0];
      UnitScan(s[0], d);
      if escaped {
        EndsOn(['\\', s[0]], false, first);
      } else if s[0] != '\\' {
        EndsOn([s[0]], false, first);
      }
    }
  }

  lemma {:induction false} PiecesChars(s: string, escaped: bool, d: char, c: char)
    requires c !in s && c != '\\'
    ensures forall i :: 0 <= i < |PiecesFrom(s, escaped, d)| ==> c !in PiecesFrom(s, escaped, d)[i]
  {
    if s != "" {
      PiecesChars(s[1..], !escaped && s[0] == '\\', d, c);
    }
  }

  lemma {:induction false} PiecesLower(s: string, escaped: bool, d: char)
    requires Lower(s) == s
    ensures forall i :: 0 <= i < |PiecesFrom(s, escaped, d)| ==>
              Lower(PiecesFrom(s, escaped, d)[i]) == PiecesFrom(s, escaped, d)[i]
  {
    if s != "" {
      assert Lower(s)[1..] == Lower(s[1..]) && Lower(s)[0] == s[0];
      PiecesLower(s[1..], !escaped && s[0] == '\\', d);
      var first := PiecesFrom(s[1..], false, d)[0];
      LowerConcat([s[0]], first);
      LowerConcat(['\\', s[0]], first);
      assert Lower([s[0]]) == [s[0]] && Lower(['\\', s[0]]) == ['\\', s[0]];
    }
  }

  /** A backslash left at the end hides the delimiter that comes next. */
  lemma {:induction false} OpenSwallows(a: string, escaped: bool, b: string, d: char)
    requires d != '\\' && FindFrom(a, escaped, d) == None && Ends(a, escaped)
    ensures |PiecesFrom(a + [d] + b, escaped, d)| == |Pieces(b, d)|
  {
    var s := a + [d] + b;
    if a == "" {
      assert s[1..] == b;
    } else {
      OpenSwallows(a[1..], !escaped && a[0] == '\\', b, d);
      assert s[1..] == a[1..] + [d] + b;
    }
  }

  /** A joined list splits into as many pieces only if no member hides the
      delimiter after it. */
  lemma {:induction false} AsManyPieces(ts: seq<string>, d: char)
    requires |ts| >= 1 && d != '\\' && NoneFinds(ts, d)
    ensures |Pieces(Join(ts, [d]), d)| <= |ts|
    ensures |Pieces(Join(ts, [d]), d)| == |ts| ==> forall i :: 0 <= i < |ts| - 1 ==> Closed(ts[i])
  {
    if |ts| == 1 {
      FirstPiece(ts[0], false, "", d);
      assert ts[0] + "" == ts[0];
    } else {
      var rest := Join(ts[1..], [d]);
      AsManyPieces(ts[1..], d);
      Associate(ts[0], [d], rest);
      if Closed(ts[0]) {
        FirstPiece(ts[0], false, [d] + rest, d);
        assert ([d] + rest)[1..] == rest;
        assert forall i :: 1 <= i < |ts| - 1 ==> ts[i] == ts[1..][i - 1];
      } else {
        OpenSwallows(ts[0], false, rest, d);
      }
    }
  }

  // ----------------------------------------------------- what unescaping shortens

  /** A backslash at most at the end. */
  predicate Literal(s: string) {
    forall i :: 0 <= i < |s| - 1 ==> s[i] != '\\'
  }

  /** Unescaping shortens every string but the literal ones, which it leaves. */
  lemma {:induction false} UnescapedLength(s: string)
    ensures |Unescaped(s)| <= |s|
    ensures |Unescaped(s)| == |s| <==> Literal(s)
    ensures Literal(s) ==> Unescaped(s) == s
  {
    if s != "" {
      var k := Unit(s).1;
      UnescapedLength(s[k..]);
      if k == 1 {
        LiteralRest(s);
      }
    }
  }

  lemma LiteralRest(s: string)
    requires s != ""
    ensures Literal(s) <==> (|s| > 1 ==> s[0] != '\\') && Literal(s[1..])
    ensures s == [s[0]] + s[1..]
  {
    if Literal(s) {
      assert forall i :: 0 <= i < |s[1..]| - 1 ==> s[1..][i] == s[i + 1];
    }
    if Literal(s[1..]) {
      assert forall i :: 1 <= i < |s| - 1 ==> s[i] == s[1..][i - 1];
    }
  }

  lemma {:induction false} LiteralHides(s: string, c: char)
    requires Literal(s) && c != '\\' && Find(s, c) == None
    ensures c !in s
  {
    if |s| > 1 {
      LiteralRest(s);
      LiteralHides(s[1..], c);
    } else if |s| == 1 {
      assert s[1..] == "";
    }
  }

  lemma {:induction false} LiteralClosed(s: string)
    requires Literal(s)
    ensures Closed(s) <==> '\\' !in s
  {
    if |s| > 1 {
      LiteralRest(s);
      LiteralClosed(s[1..]);
    } else if |s| == 1 {
      assert s[1..] == "";
      assert Ends(s, false) == Ends("", s[0] == '\\');
    }
  }
}
