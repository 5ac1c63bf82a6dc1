/** The string operations of Rust's standard library that the directory code relies on. */
module Text {
  import opened Arithmetic

  /** `char::to_ascii_lowercase` */
  function LowerChar(c: char): char {
    if 'A' <= c <= 'Z' then ((c as int) + 32) as char else c
  }

  /** `str::to_ascii_lowercase` */
  function Lower(s: string): (r: string)
    ensures |r| == |s|
    ensures forall i :: 0 <= i < |s| ==> r[i] == LowerChar(s[i])
  {
    seq(|s|, i requires 0 <= i < |s| => LowerChar(s[i]))
  }

  /** `str::to_ascii_uppercase` */
  function Upper(s: string): (r: string)
    ensures |r| == |s|
  {
    seq(|s|, i requires 0 <= i < |s| => if 'a' <= s[i] <= 'z' then ((s[i] as int) - 32) as char else s[i])
  }

  /** `str::split` on one character. */
  function Split(s: string, c: char): (parts: seq<string>)
    ensures |parts| >= 1
  {
    if s == [] then [""] else SplitHead(s[0], Split(s[1..], c), c)
  }

  function SplitHead(x: char, parts: seq<string>, c: char): (r: seq<string>)
    requires |parts| >= 1
    ensures |r| >= 1
  {
    if x == c then [""] + parts else [[x] + parts[0]] + parts[1..]
  }

  /** `[_]::join` */
  function Join(parts: seq<string>, separator: string): string {
    if parts == [] then ""
    else if |parts| == 1 then parts[0]
    else parts[0] + separator + Join(parts[1..], separator)
  }

  /** `char::is_whitespace`: the characters with the Unicode White_Space property. */
  predicate IsWhitespace(c: char) {
    var n := c as int;
    || 0x09 <= n <= 0x0D || n == 0x20 || n == 0x85 || n == 0xA0 || n == 0x1680
    || 0x2000 <= n <= 0x200A || n == 0x2028 || n == 0x2029 || n == 0x202F || n == 0x205F || n == 0x3000
  }

  predicate AllWhitespace(s: string) {
    forall i :: 0 <= i < |s| ==> IsWhitespace(s[i])
  }

  function TrimStart(s: string): string {
    if s != [] && IsWhitespace(s[0]) then TrimStart(s[1..]) else s
  }

  function TrimEnd(s: string): string {
    if s != [] && IsWhitespace(s[|s| - 1]) then TrimEnd(s[..|s| - 1]) else s
  }

  /** `str::trim` */
  function Trim(s: string): string {
    TrimEnd(TrimStart(s))
  }

  lemma {:induction false} JoinOfSplit(s: string, c: char)
    ensures Join(Split(s, c), [c]) == s
  {
    if s != [] {
      JoinOfSplit(s[1..], c);
      var parts := Split(s[1..], c);
      if s[0] == c {
        assert ([""] + parts)[1..] == parts;
      } else {
        var more := [[s[0]] + parts[0]] + parts[1..];
        assert more[1..] == parts[1..];
      }
    }
  }

  lemma {:induction false} SplitConcat(a: string, b: string, c: char)
    ensures Split(a + [c] + b, c) == Split(a, c) + Split(b, c)
  {
    var s := a + [c] + b;
    if a == "" {
      assert s[1..] == b && s[0] == c;
    } else {
      SplitConcat(a[1..], b, c);
      assert s[1..] == a[1..] + [c] + b && s[0] == a[0];
      SplitHeadConcat(a[0], Split(a[1..], c), Split(b, c), c);
    }
  }

  lemma SplitHeadConcat(x: char, p: seq<string>, q: seq<string>, c: char)
    requires |p| >= 1
    ensures SplitHead(x, p + q, c) == SplitHead(x, p, c) + q
  {
    assert (p + q)[1..] == p[1..] + q;
  }

  lemma {:induction false} SplitNothing(s: string, c: char)
    requires c !in s
    ensures Split(s, c) == [s]
  {
    if s != "" {
      SplitNothing(s[1..], c);
      assert [s[0]] + s[1..] == s;
    }
  }

  /** Splitting undoes joining when no part contains the separator. */
  lemma {:induction false} SplitOfJoin(parts: seq<string>, c: char)
    requires parts != [] && forall i :: 0 <= i < |parts| ==> c !in parts[i]
    ensures Split(Join(parts, [c]), c) == parts
  {
    if |parts| == 1 {
      SplitNothing(parts[0], c);
    } else {
      SplitOfJoin(parts[1..], c);
      SplitConcat(parts[0], Join(parts[1..], [c]), c);
      SplitNothing(parts[0], c);
      assert [parts[0]] + parts[1..] == parts;
    }
  }

  lemma JoinTwo(a: string, b: string, sep: string)
    ensures Join([a, b], sep) == a + sep + b
  {
    assert [a, b][1..] == [b];
    assert Join([b], sep) == b;
  }

  lemma {:induction false} JoinConcat(a: seq<string>, b: seq<string>, sep: string)
    requires a != [] && b != []
    ensures Join(a + b, sep) == Join(a, sep) + sep + Join(b, sep)
  {
    if |a| == 1 {
      assert (a + b)[1..] == b;
    } else {
      JoinConcat(a[1..], b, sep);
      assert (a + b)[1..] == a[1..] + b;
    }
  }

  lemma LowerIdempotent(s: string)
    ensures Lower(Lower(s)) == Lower(s)
  {
  }

  lemma {:induction false} TrimStartAt(s: string, k: nat)
    requires k <= |s| && AllWhitespace(s[..k]) && (k == |s| || !IsWhitespace(s[k]))
    ensures TrimStart(s) == s[k..]
  {
    if k > 0 {
      assert IsWhitespace(s[..k][0]);
      assert s[1..][..k - 1] == s[..k][1..];
      TrimStartAt(s[1..], k - 1);
    }
  }

  lemma {:induction false} TrimEndAt(s: string, k: nat)
    requires k <= |s| && AllWhitespace(s[k..]) && (k == 0 || !IsWhitespace(s[k - 1]))
    ensures TrimEnd(s) == s[..k]
  {
    if k < |s| {
      var front := s[..|s| - 1];
      assert IsWhitespace(s[k..][|s| - 1 - k]);
      assert front[k..] == s[k..][..|s| - 1 - k];
      TrimEndAt(front, k);
      assert front[..k] == s[..k];
    } else {
      assert s[..k] == s;
    }
  }

  /** Where the leading whitespace ends. */
  lemma {:induction false} Leading(s: string) returns (k: nat)
    ensures k <= |s| && AllWhitespace(s[..k]) && (k == |s| || !IsWhitespace(s[k])) && TrimStart(s) == s[k..]
    ensures forall m :: 0 <= m < k ==> IsWhitespace(s[m])
  {
    k := 0;
    while k < |s| && IsWhitespace(s[k])
      invariant k <= |s| && forall m :: 0 <= m < k ==> IsWhitespace(s[m])
    {
      k := k + 1;
    }
    TrimStartAt(s, k);
  }

  /** Where the trailing whitespace starts. */
  lemma {:induction false} Trailing(s: string) returns (k: nat)
    ensures k <= |s| && AllWhitespace(s[k..]) && (k == 0 || !IsWhitespace(s[k - 1])) && TrimEnd(s) == s[..k]
    ensures forall m :: k <= m < |s| ==> IsWhitespace(s[m])
  {
    k := |s|;
    while k > 0 && IsWhitespace(s[k - 1])
      invariant k <= |s| && forall m :: k <= m < |s| ==> IsWhitespace(s[m])
    {
      k := k - 1;
    }
    TrimEndAt(s, k);
  }

  lemma TrimNothing(s: string)
    requires s == "" || (!IsWhitespace(s[0]) && !IsWhitespace(s[|s| - 1]))
    ensures Trim(s) == s
  {
  }

  /** Between leading and trailing whitespace stands the trimmed string. */
  lemma TrimBetween(s: string, i: nat, j: nat)
    requires i < j <= |s| && AllWhitespace(s[..i]) && AllWhitespace(s[j..])
    requires !IsWhitespace(s[i]) && !IsWhitespace(s[j - 1])
    ensures Trim(s) == s[i..j]
  {
    TrimStartAt(s, i);
    assert s[i..][j - i..] == s[j..] && s[i..][j - i - 1] == s[j - 1];
    TrimEndAt(s[i..], j - i);
    assert s[i..][..j - i] == s[i..j];
  }

  lemma TrimAll(s: string)
    requires AllWhitespace(s)
    ensures Trim(s) == "" && TrimEnd(s) == ""
  {
    assert s[..|s|] == s && s[0..] == s;
    TrimStartAt(s, |s|);
    TrimEndAt(s, 0);
  }

  /** A string is all whitespace, or starts and ends its trimmed part somewhere. */
  lemma TrimParts(s: string) returns (i: nat, j: nat)
    requires !AllWhitespace(s)
    ensures i < j <= |s| && AllWhitespace(s[..i]) && AllWhitespace(s[j..])
    ensures !IsWhitespace(s[i]) && !IsWhitespace(s[j - 1]) && Trim(s) == s[i..j] && TrimEnd(s) == s[..j]
    ensures TrimStart(s) == s[i..]
  {
    i := Leading(s);
    j := Trailing(s);
    var m :| 0 <= m < |s| && !IsWhitespace(s[m]);
    assert i <= m < j;
    TrimBetween(s, i, j);
  }

  lemma TrimAfterTrimEnd(s: string)
    ensures Trim(TrimEnd(s)) == Trim(s)
  {
    if AllWhitespace(s) {
      TrimAll(s);
    } else {
      var i, j := TrimParts(s);
      var t := s[..j];
      assert t[..i] == s[..i] && t[j..] == "" && t[i] == s[i];
      TrimBetween(t, i, j);
      assert t[i..j] == s[i..j];
    }
  }

  lemma TrimEndConcat(a: string, b: string)
    requires !AllWhitespace(b)
    ensures TrimEnd(a + b) == a + TrimEnd(b)
  {
    var i, j := TrimParts(b);
    var s := a + b;
    assert s[|a| + j..] == b[j..] && s[|a| + j - 1] == b[j - 1];
    TrimEndAt(s, |a| + j);
    assert s[..|a| + j] == a + b[..j];
  }

  lemma LowerSlices(s: string, i: nat, j: nat)
    requires i <= j <= |s|
    ensures Lower(s)[..i] == Lower(s[..i]) && Lower(s)[i..j] == Lower(s[i..j]) && Lower(s)[j..] == Lower(s[j..])
  {
  }

  lemma LowerWhitespace(s: string)
    requires AllWhitespace(s)
    ensures AllWhitespace(Lower(s))
  {
    LowerKeepsWhitespace(s);
  }

  lemma TrimLower(s: string)
    ensures Trim(Lower(s)) == Lower(Trim(s))
  {
    LowerKeepsWhitespace(s);
    if AllWhitespace(s) {
      TrimAll(s);
      TrimAll(Lower(s));
    } else {
      var i, j := TrimParts(s);
      LowerSlices(s, i, j);
      LowerWhitespace(s[..i]);
      LowerWhitespace(s[j..]);
      TrimBetween(Lower(s), i, j);
    }
  }

  lemma TrimTwice(s: string)
    ensures Trim(Trim(s)) == Trim(s)
  {
    if AllWhitespace(s) {
      TrimAll(s);
    } else {
      var i, j := TrimParts(s);
      TrimNothing(s[i..j]);
    }
  }

  lemma LowerKeepsWhitespace(s: string)
    ensures forall i :: 0 <= i < |s| ==> IsWhitespace(Lower(s)[i]) == IsWhitespace(s[i])
  {
  }

  lemma LowerConcat(a: string, b: string)
    ensures Lower(a + b) == Lower(a) + Lower(b)
  {
  }

  lemma {:induction false} LowerJoin(ts: seq<string>, sep: string)
    requires Lower(sep) == sep && forall i :: 0 <= i < |ts| ==> Lower(ts[i]) == ts[i]
    ensures Lower(Join(ts, sep)) == Join(ts, sep)
  {
    if |ts| > 1 {
      LowerJoin(ts[1..], sep);
      LowerConcat(ts[0] + sep, Join(ts[1..], sep));
      LowerConcat(ts[0], sep);
    }
  }

  lemma TrimLength(s: string)
    ensures |Trim(s)| <= |s|
    ensures |Trim(s)| == |s| ==> Trim(s) == s
  {
    if AllWhitespace(s) {
      TrimAll(s);
    } else {
      var i, j := TrimParts(s);
      assert j - i == |s| ==> s[i..j] == s;
    }
  }

  lemma {:induction false} SplitHasNone(s: string, c: char)
    ensures forall i :: 0 <= i < |Split(s, c)| ==> c !in Split(s, c)[i]
  {
    if s != "" {
      SplitHasNone(s[1..], c);
    }
  }

  lemma {:induction false} JoinHasNone(ts: seq<string>, sep: char, c: char)
    requires c != sep && forall i :: 0 <= i < |ts| ==> c !in ts[i]
    ensures c !in Join(ts, [sep])
  {
    if |ts| > 1 {
      JoinHasNone(ts[1..], sep, c);
    }
  }

  function Lengths(ts: seq<string>): (ns: seq<nat>)
    ensures |ns| == |ts|
  {
    seq(|ts|, i requires 0 <= i < |ts| => |ts[i]|)
  }

  lemma {:induction false} JoinLength(ts: seq<string>, sep: char)
    requires ts != []
    ensures |Join(ts, [sep])| == Sum(Lengths(ts)) + |ts| - 1
  {
    if |ts| == 1 {
      assert Lengths(ts)[..0] == [];
    } else {
      var front, last := ts[..|ts| - 1], ts[|ts| - 1];
      JoinLength(front, sep);
      JoinConcat(front, [last], [sep]);
      assert ts == front + [last];
      assert Lengths(ts)[..|ts| - 1] == Lengths(front);
    }
  }

  /** Lists of strings of the same lengths that join to one string are equal. */
  lemma {:induction false} JoinSameLengths(ts: seq<string>, us: seq<string>, sep: string)
    requires Lengths(ts) == Lengths(us) && Join(ts, sep) == Join(us, sep)
    ensures ts == us
  {
    assert |ts| == |us|;
    if ts != [] {
      assert |ts[0]| == Lengths(ts)[0] == Lengths(us)[0] == |us[0]|;
      var s := Join(ts, sep);
      assert ts[0] == s[..|ts[0]|] && us[0] == s[..|us[0]|];
      if |ts| > 1 {
        var n := |ts[0]| + |sep|;
        assert Join(ts[1..], sep) == s[n..] && Join(us[1..], sep) == s[n..];
        assert Lengths(ts[1..]) == Lengths(ts)[1..] && Lengths(us[1..]) == Lengths(us)[1..];
        JoinSameLengths(ts[1..], us[1..], sep);
      }
      assert ts == [ts[0]] + ts[1..] && us == [us[0]] + us[1..];
    }
  }

  /** A common prefix does not matter. */
  lemma PrefixAfter(root: string, a: string, b: string)
    ensures root + a <= root + b <==> a <= b
  {
    assert (root + a)[|root|..] == a && (root + b)[|root|..] == b;
    if root + a <= root + b {
      assert (root + b)[..|root + a|][|root|..] == b[..|a|];
    }
    if a <= b {
      assert (root + b)[..|root + a|] == root + b[..|a|];
    }
  }
}
