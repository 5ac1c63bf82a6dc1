/** The fixed conventions of the formats, written out: letters and white space, what a
    name and a key segment escape, where keys stand, the order of octets. */
module Conventions {
  import opened Text
  import opened Bytes
  import DN = DistinguishedNames
  import Escapes
  import IndexKeys
  import Keys

  // ------------------------------------------------------------------ characters

  const HEX_DIGITS := "0123456789abcdef"
  const ESCAPED_IN_NAMES := "\\,+=<>#;\""
  const WHITE_SPACE :=
    "\U{9}\U{A}\U{B}\U{C}\U{D}\U{20}\U{85}\U{A0}\U{1680}\U{2000}\U{2001}\U{2002}\U{2003}\U{2004}\U{2005}\U{2006}"
    + "\U{2007}\U{2008}\U{2009}\U{200A}\U{2028}\U{2029}\U{202F}\U{205F}\U{3000}"

  /** Case mapping takes `A` to `Z` (65 to 90) to `a` to `z` (97 to 122) and back, and
      leaves every other character alone. */
  lemma Letters(s: string, i: nat, k: nat)
    requires i < |s| && k < 26
    ensures s[i] as int == 65 + k ==> Lower(s)[i] as int == 97 + k
    ensures s[i] as int == 97 + k ==> Upper(s)[i] as int == 65 + k
    ensures !(65 <= s[i] as int <= 90) ==> Lower(s)[i] == s[i]
    ensures !(97 <= s[i] as int <= 122) ==> Upper(s)[i] == s[i]
  {
  }

  lemma WhiteSpaceListed(c: char)
    ensures IsWhitespace(c) <==> c in WHITE_SPACE
  {
    if 0x09 <= c as int <= 0x0D {
      assert WHITE_SPACE[c as int - 0x09] == c;
    } else if 0x2000 <= c as int <= 0x200A {
      assert WHITE_SPACE[c as int - 0x2000 + 9] == c;
    } else {
      assert WHITE_SPACE[5] == '\U{20}' && WHITE_SPACE[6] == '\U{85}' && WHITE_SPACE[7] == '\U{A0}';
      assert WHITE_SPACE[8] == '\U{1680}' && WHITE_SPACE[20] == '\U{2028}' && WHITE_SPACE[21] == '\U{2029}';
      assert WHITE_SPACE[22] == '\U{202F}' && WHITE_SPACE[23] == '\U{205F}' && WHITE_SPACE[24] == '\U{3000}';
    }
  }

  // ------------------------------------------------------------------------ names

  /** A backslash and two hexadecimal digits, of either case, stand for the character
      whose number they spell. */
  lemma HexPairReads(n: nat, h1: char, h2: char, rest: string)
    requires n < 256 && LowerChar(h1) == HEX_DIGITS[n / 16] && LowerChar(h2) == HEX_DIGITS[n % 16]
    ensures Escapes.Unescaped(['\\', h1, h2] + rest) == [n as char] + Escapes.Unescaped(rest)
  {
    HexDigitRead(h1, n / 16);
    HexDigitRead(h2, n % 16);
    assert (['\\', h1, h2] + rest)[3..] == rest;
  }

  lemma HexDigitRead(h: char, d: nat)
    requires d < 16 && LowerChar(h) == HEX_DIGITS[d]
    ensures Escapes.IsHex(h) && Escapes.HexDigit(h) == d
  {
    assert HEX_DIGITS[d] as int == if d < 10 then 48 + d else 87 + d;
  }

  /** A backslash before any other character stands for that character. */
  lemma EscapeReads(c: char, rest: string)
    requires LowerChar(c) !in HEX_DIGITS
    ensures Escapes.Unescaped(['\\', c] + rest) == [c] + Escapes.Unescaped(rest)
  {
    if Escapes.IsHex(c) {
      HexDigitSpelled(c);
    }
    assert (['\\', c] + rest)[2..] == rest;
  }

  lemma HexDigitSpelled(c: char)
    requires Escapes.IsHex(c)
    ensures LowerChar(c) in HEX_DIGITS
  {
    assert HEX_DIGITS[Escapes.HexDigit(c)] == LowerChar(c);
  }

  lemma SpecialListed(c: char)
    ensures Escapes.Special(c) <==> c in ESCAPED_IN_NAMES
  {
    assert ESCAPED_IN_NAMES[0] == '\\' && ESCAPED_IN_NAMES[1] == ',' && ESCAPED_IN_NAMES[2] == '+';
    assert ESCAPED_IN_NAMES[3] == '=' && ESCAPED_IN_NAMES[4] == '<' && ESCAPED_IN_NAMES[5] == '>';
    assert ESCAPED_IN_NAMES[6] == '#' && ESCAPED_IN_NAMES[7] == ';' && ESCAPED_IN_NAMES[8] == '"';
  }

  /** A value is printed as it is exactly when it has no character to escape and no
      space at either end. */
  lemma PrintedPlain(v: string)
    ensures Escapes.EscapedValue(v) == v <==>
              && (forall i :: 0 <= i < |v| ==> v[i] !in ESCAPED_IN_NAMES)
              && (v != "" ==> v[0] != ' ' && v[|v| - 1] != ' ')
  {
    forall i | 0 <= i < |v|
      ensures Escapes.NeedsEscape(v, i) <==> v[i] in ESCAPED_IN_NAMES || (v[i] == ' ' && (i == 0 || i == |v| - 1))
    {
      SpecialListed(v[i]);
    }
    if k: nat :| k < |v| && Escapes.NeedsEscape(v, k) {
      EscapedLonger(v, 0, |v|, k);
    } else {
      EscapedAsIs(v, 0, |v|);
      assert v[0..|v|] == v;
    }
  }

  lemma {:induction false} EscapedLength(v: string, i: nat, j: nat)
    requires i <= j <= |v|
    ensures |Escapes.Escaped(v, i, j)| >= j - i
    decreases j - i
  {
    if i < j {
      EscapedLength(v, i + 1, j);
    }
  }

  lemma {:induction false} EscapedLonger(v: string, i: nat, j: nat, k: nat)
    requires i <= k < j <= |v| && Escapes.NeedsEscape(v, k)
    ensures |Escapes.Escaped(v, i, j)| > j - i
    decreases j - i
  {
    if i < k {
      EscapedLonger(v, i + 1, j, k);
    } else {
      EscapedLength(v, i + 1, j);
    }
  }

  lemma {:induction false} EscapedAsIs(v: string, i: nat, j: nat)
    requires i <= j <= |v| && forall k :: i <= k < j ==> !Escapes.NeedsEscape(v, k)
    ensures Escapes.Escaped(v, i, j) == v[i..j]
    decreases j - i
  {
    if i < j {
      EscapedAsIs(v, i + 1, j);
      assert !Escapes.NeedsEscape(v, i);
      assert v[i..j] == [v[i]] + v[i + 1..j];
    }
  }

  // ------------------------------------------------------------------------- keys

  lemma SegmentHead(s: string, c: char, rest: string)
    requires s == [c] + rest
    ensures IndexKeys.EscapedSegment(s) == IndexKeys.EscapedSegmentChar(c) + IndexKeys.EscapedSegment(rest)
  {
    assert s[1..] == rest;
  }

  lemma {:induction false} SegmentConcat(a: string, b: string)
    ensures IndexKeys.EscapedSegment(a + b) == IndexKeys.EscapedSegment(a) + IndexKeys.EscapedSegment(b)
  {
    if a == "" {
      assert a + b == b;
    } else {
      var c, rest, x := a[0], a[1..], IndexKeys.EscapedSegmentChar(a[0]);
      calc {
        IndexKeys.EscapedSegment(a + b);
        { SegmentHead(a + b, c, rest + b); }
        x + IndexKeys.EscapedSegment(rest + b);
        { SegmentConcat(rest, b); }
        x + (IndexKeys.EscapedSegment(rest) + IndexKeys.EscapedSegment(b));
        { IndexKeys.Grow(x, IndexKeys.EscapedSegment(rest), IndexKeys.EscapedSegment(b)); }
        x + IndexKeys.EscapedSegment(rest) + IndexKeys.EscapedSegment(b);
        { SegmentHead(a, c, rest); }
        IndexKeys.EscapedSegment(a) + IndexKeys.EscapedSegment(b);
      }
    }
  }

  lemma SegmentOne(c: char)
    ensures IndexKeys.EscapedSegment([c]) == if c == '%' then "%25" else if c == '/' then "%2F" else [c]
  {
    SegmentHead([c], c, "");
  }

  /** A segment keeps every character but the percent sign and the slash. */
  lemma SegmentEscapes(a: string, c: char, b: string)
    ensures IndexKeys.EscapedSegment(a + [c] + b) ==
              IndexKeys.EscapedSegment(a) + (if c == '%' then "%25" else if c == '/' then "%2F" else [c])
              + IndexKeys.EscapedSegment(b)
  {
    SegmentOne(c);
    SegmentMiddle(a, [c], b);
  }

  lemma SegmentMiddle(a: string, m: string, b: string)
    ensures IndexKeys.EscapedSegment(a + m + b) ==
              IndexKeys.EscapedSegment(a) + IndexKeys.EscapedSegment(m) + IndexKeys.EscapedSegment(b)
  {
    SegmentConcat(a + m, b);
    SegmentConcat(a, m);
  }

  lemma Regroup(a: string, b: string, c: string, d: string)
    ensures a + (b + c + d) == a + b + c + d && b + (c + d) == b + c + d
  {
  }

  /** The key of the root of the tree, and of an entry under another one. */
  lemma TreeKeys(pid: string, attr: string, value: string, d: DN.Dn)
    ensures Keys.EntryKey(pid, DN.Dn([])) == "/iron/" + pid + "/tree/"
    ensures d.rdns != [] ==>
              Keys.EntryKey(pid, DN.Dn([[DN.Ava(attr, value)]] + d.rdns)) ==
                Keys.EntryKey(pid, d) + "/" + (attr + "=" + Lower(Trim(value)))
  {
    if d.rdns != [] {
      var child, a := DN.Dn([[DN.Ava(attr, value)]] + d.rdns), DN.Ava(attr, value);
      Keys.OneAva(a);
      var cs, c := Keys.ReversedComponents(d), attr + "=" + Lower(Trim(value));
      assert Keys.ReversedComponents(child) == cs + [c];
      JoinConcat(cs, [c], "/");
      Regroup(Keys.TreeRoot(pid), Join(cs, "/"), "/", c);
    }
  }

  lemma IndexRecordKeys(pid: string, attr: string, value: string, name: string)
    ensures IndexKeys.IndexKey(pid, attr, value, name) ==
              "/iron/" + pid + "/idx/" + IndexKeys.EscapedSegment(Lower(attr)) + "/" + IndexKeys.EscapedSegment(value)
              + "/" + IndexKeys.EscapedSegment(name)
  {
  }

  // ----------------------------------------------------------------------- octets

  /** The octets of a number, most significant first and least significant first. */
  lemma OctetOrder(n: nat, a: Byte, b: Byte)
    ensures BigEndian(n, 2) == [n / 256 % 256, n % 256] && LittleEndian(n, 2) == [n % 256, n / 256 % 256]
    ensures Value([a, b]) == 256 * a + b && LittleValue([a, b]) == a + 256 * b
  {
    assert BigEndian(n, 1) == [n % 256] && BigEndian(n / 256, 1) == [n / 256 % 256];
    assert Value([b]) == b && Pow256(1) == 256;
    assert Reverse([a, b]) == [b, a] && Value([a]) == a;
  }
}
