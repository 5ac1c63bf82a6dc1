/** Keys of index records: `/iron/<pid>/idx/<attr>/<value>/<dn>` with each
    segment percent-escaped. */
module IndexKeys {
  import opened Text
  import Keys

  /** The characters a segment's character becomes. */
  function EscapedSegmentChar(c: char): string {
    if c == '%' then "%25" else if c == '/' then "%2F" else [c]
  }

  function EscapedSegment(s: string): string {
    if s == "" then "" else EscapedSegmentChar(s[0]) + EscapedSegment(s[1..])
  }

  method EscapeSegment(s: string) returns (out: string)
    ensures out == EscapedSegment(s)
  {
    out := "";
    assert s[0..] == s;
    for i := 0 to |s|
      invariant EscapedSegment(s) == out + EscapedSegment(s[i..])
    {
      assert s[i..][1..] == s[i + 1..];
      Grow(out, EscapedSegmentChar(s[i]), EscapedSegment(s[i + 1..]));
      if s[i] == '%' {
        out := out + "%25";
      } else if s[i] == '/' {
        out := out + "%2F";
      } else {
        out := out + [s[i]];
      }
    }
  }

  lemma Grow(a: string, b: string, c: string)
    ensures a + (b + c) == a + b + c
  {
  }

  lemma {:induction false} SegmentHasNoSlash(s: string)
    ensures '/' !in EscapedSegment(s)
  {
    if s != "" {
      SegmentHasNoSlash(s[1..]);
    }
  }

  /** The first character is read off an escaped segment, and the rest. */
  lemma SegmentHead(c: char, d: char, s: string, t: string)
    requires EscapedSegmentChar(c) + s == EscapedSegmentChar(d) + t
    ensures c == d && s == t
  {
    var x, y := EscapedSegmentChar(c), EscapedSegmentChar(d);
    assert (x + s)[0] == x[0] && (y + t)[0] == y[0];
    if x[0] == '%' {
      assert (x + s)[2] == x[2] && (y + t)[2] == y[2];
    }
    assert (x + s)[|x|..] == s && (y + t)[|y|..] == t;
  }

  lemma {:induction false} SegmentInjective(s: string, t: string)
    requires EscapedSegment(s) == EscapedSegment(t)
    ensures s == t
  {
    if s != "" && t != "" {
      SegmentHead(s[0], t[0], EscapedSegment(s[1..]), EscapedSegment(t[1..]));
      SegmentInjective(s[1..], t[1..]);
      assert s == [s[0]] + s[1..] && t == [t[0]] + t[1..];
    }
  }

  // --------------------------------------------------------------------- keys

  function IndexRoot(pid: string): string {
    "/iron/" + pid + "/idx/"
  }

  function Segments(attr: string, value: string, name: string): string {
    EscapedSegment(Lower(attr)) + "/" + (EscapedSegment(value) + "/" + EscapedSegment(name))
  }

  function IndexKey(pid: string, attr: string, value: string, name: string): string {
    IndexRoot(pid) + Segments(attr, value, name)
  }

  function IndexPrefix(pid: string, attr: string, value: string): string {
    IndexRoot(pid) + (EscapedSegment(Lower(attr)) + "/" + (EscapedSegment(value) + "/"))
  }

  /** Slash-free text up to a slash is read off, and the rest. */
  lemma {:induction false} FirstSegment(a: string, b: string, s: string, t: string)
    requires '/' !in a && '/' !in b && a + "/" + s <= b + "/" + t
    ensures a == b && s <= t
  {
    var x, y := a + "/" + s, b + "/" + t;
    assert forall i :: 0 <= i < |x| ==> x[i] == y[i];
    assert forall i :: 0 <= i < |a| ==> a[i] == x[i] != '/';
    assert forall i :: 0 <= i < |b| ==> b[i] == y[i] != '/';
    assert x[|a|] == '/' && y[|b|] == '/';
    assert |a| == |b|;
    assert x[|a| + 1..] == s && y[|b| + 1..] == t;
    assert y[..|x|][|a| + 1..] == t[..|s|];
  }

  /** A key has the prefix of an attribute and value exactly when it is theirs. */
  lemma PrefixSelects(pid: string, attr: string, value: string, attr': string, value': string, name: string)
    ensures IndexPrefix(pid, attr, value) <= IndexKey(pid, attr', value', name) <==>
              Lower(attr) == Lower(attr') && value == value'
  {
    var a, a' := EscapedSegment(Lower(attr)), EscapedSegment(Lower(attr'));
    var v, v' := EscapedSegment(value), EscapedSegment(value');
    var n := EscapedSegment(name);
    PrefixAfter(IndexRoot(pid), a + "/" + (v + "/"), Segments(attr', value', name));
    SegmentHasNoSlash(Lower(attr));
    SegmentHasNoSlash(Lower(attr'));
    SegmentHasNoSlash(value);
    SegmentHasNoSlash(value');
    TwoSegments(a, v, a', v', n);
    if a == a' && v == v' {
      SegmentInjective(Lower(attr), Lower(attr'));
      SegmentInjective(value, value');
    }
  }

  lemma TwoSegments(a: string, v: string, a': string, v': string, n: string)
    requires '/' !in a && '/' !in a' && '/' !in v && '/' !in v'
    ensures a + "/" + (v + "/") <= a' + "/" + (v' + "/" + n) <==> a == a' && v == v'
  {
    if a + "/" + (v + "/") <= a' + "/" + (v' + "/" + n) {
      FirstSegment(a, a', v + "/", v' + "/" + n);
      assert v + "/" + "" == v + "/";
      FirstSegment(v, v', "", n);
    }
    if a == a' && v == v' {
      assert a + "/" + (v + "/") + n == a' + "/" + (v' + "/" + n);
    }
  }

  lemma KeyInjective(pid: string, attr: string, value: string, name: string, attr': string, value': string,
                     name': string)
    ensures IndexKey(pid, attr, value, name) == IndexKey(pid, attr', value', name') <==>
              Lower(attr) == Lower(attr') && value == value' && name == name'
  {
    var root := IndexRoot(pid);
    var s, s' := Segments(attr, value, name), Segments(attr', value', name');
    if root + s == root + s' {
      PrefixAfter(root, s, s');
      SegmentHasNoSlash(Lower(attr));
      SegmentHasNoSlash(Lower(attr'));
      SegmentHasNoSlash(value);
      SegmentHasNoSlash(value');
      FirstSegment(EscapedSegment(Lower(attr)), EscapedSegment(Lower(attr')),
                   EscapedSegment(value) + "/" + EscapedSegment(name),
                   EscapedSegment(value') + "/" + EscapedSegment(name'));
      FirstSegment(EscapedSegment(value), EscapedSegment(value'), EscapedSegment(name), EscapedSegment(name'));
      assert |s| == |s'|;
      SegmentInjective(Lower(attr), Lower(attr'));
      SegmentInjective(value, value');
      SegmentInjective(name, name');
    }
  }

  predicate IsIndexKey(pid: string, k: string) {
    IndexRoot(pid) <= k
  }

  predicate IsTreeKey(pid: string, k: string) {
    Keys.TreeRoot(pid) <= k
  }

  lemma TreeAndIndexApart(pid: string, k: string)
    ensures !(IsTreeKey(pid, k) && IsIndexKey(pid, k))
  {
    var n := |"/iron/" + pid + "/"|;
    assert Keys.TreeRoot(pid)[n] == 't' && IndexRoot(pid)[n] == 'i';
  }
}
