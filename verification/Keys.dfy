/** The storage keys of directory entries (`iron_partition::key`), and the way
    back from a tree key to a name. */
module Keys {
  import opened Text
  import opened DistinguishedNames
  import opened DnRoundTrip

  // -------------------------------------------------------------------- names

  function NormText(a: Ava): string {
    a.attr + "=" + Norm(a.value)
  }

  function NormTexts(r: Rdn): (ts: seq<string>)
    ensures |ts| == |r|
  {
    seq(|r|, i requires 0 <= i < |r| => NormText(r[i]))
  }

  function NormalizedRdn(r: Rdn): string {
    Join(NormTexts(r), "+")
  }

  function Components(d: Dn): (cs: seq<string>)
    ensures |cs| == |d.rdns|
  {
    seq(|d.rdns|, i requires 0 <= i < |d.rdns| => NormalizedRdn(d.rdns[i]))
  }

  function ReverseList<T>(s: seq<T>): (r: seq<T>)
    ensures |r| == |s| && forall i :: 0 <= i < |s| ==> r[i] == s[|s| - 1 - i]
  {
    seq(|s|, i requires 0 <= i < |s| => s[|s| - 1 - i])
  }

  /** Root first. */
  function ReversedComponents(d: Dn): (cs: seq<string>)
    ensures |cs| == |d.rdns|
  {
    ReverseList(Components(d))
  }

  /** `base` is a suffix of `d`. */
  predicate IsWithin(d: Dn, base: Dn) {
    |base.rdns| <= |d.rdns| && SameDn(Dn(d.rdns[|d.rdns| - |base.rdns|..]), base)
  }

  predicate StrictDescendant(d: Dn, base: Dn) {
    |d.rdns| > |base.rdns| && IsWithin(d, base)
  }

  // --------------------------------------------------------------------- keys

  function TreeRoot(pid: string): string {
    "/iron/" + pid + "/tree/"
  }

  function TreePath(d: Dn): string {
    Join(ReversedComponents(d), "/")
  }

  function EntryKey(pid: string, d: Dn): string {
    TreeRoot(pid) + TreePath(d)
  }

  function SubtreePrefix(pid: string, d: Dn): string {
    EntryKey(pid, d) + "/"
  }

  datatype Decoded = NotUnderRoot | Decoded(name: DistinguishedNames.Result<Dn>)

  function CommaForm(path: string): string {
    Join(ReverseList(Split(path, '/')), ",")
  }

  function DnFromTreeKey(pid: string, key: string): Decoded {
    if !(TreeRoot(pid) <= key) then NotUnderRoot else Decoded(Parsed(CommaForm(key[|TreeRoot(pid)|..])))
  }

  // ------------------------------------------------------ prefixes of a path

  predicate SlashFree(cs: seq<string>) {
    forall i :: 0 <= i < |cs| ==> '/' !in cs[i]
  }

  predicate Below(cs: seq<string>, bs: seq<string>) {
    Join(bs, "/") + "/" <= Join(cs, "/")
  }

  /** Between paths of slash-free components, string prefix is list prefix. */
  lemma PathPrefix(cs: seq<string>, bs: seq<string>)
    requires SlashFree(cs) && SlashFree(bs) && bs != []
    ensures Below(cs, bs) <==> bs < cs
  {
    if bs < cs {
      JoinConcat(bs, cs[|bs|..], "/");
      assert bs + cs[|bs|..] == cs;
    }
    if Below(cs, bs) {
      var t := Join(cs, "/")[|Join(bs, "/")| + 1..];
      assert Join(cs, "/") == Join(bs, "/") + ['/'] + t;
      SplitConcat(Join(bs, "/"), t, '/');
      SplitOfJoin(bs, '/');
      SplitOfJoin(cs, '/');
    }
  }

  lemma SameByThird(q: Rdn, r: Rdn, s: Rdn)
    requires SameRdn(q, r) && SameRdn(q, s)
    ensures SameRdn(r, s)
  {
    forall i | 0 <= i < |r|
      ensures SameAva(r[i], s[i])
    {
      assert SameAva(q[i], r[i]) && SameAva(q[i], s[i]);
    }
  }

  lemma SameDnByThird(c: Dn, d: Dn, e: Dn)
    requires SameDn(c, d) && SameDn(c, e)
    ensures SameDn(d, e)
  {
    forall i | 0 <= i < |d.rdns|
      ensures SameRdn(d.rdns[i], e.rdns[i])
    {
      SameByThird(c.rdns[i], d.rdns[i], e.rdns[i]);
    }
  }

  lemma SameDnBack(d: Dn, e: Dn)
    requires SameDn(d, e)
    ensures SameDn(e, d)
  {
    forall i | 0 <= i < |d.rdns|
      ensures SameRdn(e.rdns[i], d.rdns[i])
    {
      SameRdnBack(d.rdns[i], e.rdns[i]);
    }
  }

  lemma SameRdnBack(r: Rdn, s: Rdn)
    requires SameRdn(r, s)
    ensures SameRdn(s, r)
  {
    forall i | 0 <= i < |r|
      ensures SameAva(s[i], r[i])
    {
      assert SameAva(r[i], s[i]);
    }
  }

  lemma SameTexts(r: Rdn, s: Rdn)
    requires SameRdn(r, s)
    ensures NormTexts(r) == NormTexts(s)
  {
    forall i | 0 <= i < |r|
      ensures NormTexts(r)[i] == NormTexts(s)[i]
    {
      assert SameAva(r[i], s[i]);
    }
  }

  /** Equal names have equal components, and so share a key. */
  lemma SameKey(pid: string, d: Dn, e: Dn)
    requires SameDn(d, e)
    ensures TreePath(d) == TreePath(e) && EntryKey(pid, d) == EntryKey(pid, e)
  {
    forall i | 0 <= i < |d.rdns|
      ensures Components(d)[i] == Components(e)[i]
    {
      SameTexts(d.rdns[i], e.rdns[i]);
    }
    assert Components(d) == Components(e);
  }

  lemma ReversedPrefix<T>(xs: seq<T>, ys: seq<T>)
    requires |ys| <= |xs|
    ensures ReverseList(ys) <= ReverseList(xs) <==> xs[|xs| - |ys|..] == ys
  {
    var k := |xs| - |ys|;
    if xs[k..] == ys {
      assert forall i :: 0 <= i < |ys| ==> ReverseList(ys)[i] == xs[k..][|ys| - 1 - i] == ReverseList(xs)[i];
    }
    if ReverseList(ys) <= ReverseList(xs) {
      forall i | 0 <= i < |ys|
        ensures xs[k..][i] == ys[i]
      {
        assert ReverseList(ys)[|ys| - 1 - i] == ReverseList(xs)[|ys| - 1 - i];
      }
    }
  }

  // --------------------------------------------------------- normalized names

  function NormRdn(r: Rdn): (s: Rdn)
    ensures |s| == |r|
  {
    seq(|r|, i requires 0 <= i < |r| => Ava(r[i].attr, Norm(r[i].value)))
  }

  function NormRdns(d: Dn): (rs: seq<Rdn>)
    ensures |rs| == |d.rdns|
  {
    seq(|d.rdns|, i requires 0 <= i < |d.rdns| => NormRdn(d.rdns[i]))
  }

  /** The name with every value trimmed and in lower case. */
  function NormDn(d: Dn): Dn {
    Dn(NormRdns(d))
  }

  lemma NormTrimmed(v: string)
    ensures Trim(Norm(v)) == Norm(v) && Norm(Norm(v)) == Norm(v) && TrimEnd(Norm(v)) == Norm(v)
  {
    TrimmedLower(v);
    var n := Norm(v);
    if n != "" {
      TrimFixed(n);
    }
  }

  lemma NormRdnSame(r: Rdn)
    requires IsSorted(r)
    ensures SameRdn(NormRdn(r), r) && IsSorted(NormRdn(r))
  {
    var s := NormRdn(r);
    forall i | 0 <= i < |r|
      ensures SameAva(s[i], r[i])
    {
      NormTrimmed(r[i].value);
    }
    assert forall i :: 0 <= i < |r| - 1 ==> AvaLe(s[i], s[i + 1]) == AvaLe(r[i], r[i + 1]);
  }

  lemma NormDnSame(d: Dn)
    requires DnOk(d)
    ensures SameDn(NormDn(d), d)
  {
    forall i | 0 <= i < |d.rdns|
      ensures SameRdn(NormDn(d).rdns[i], d.rdns[i])
    {
      NormRdnSame(d.rdns[i]);
    }
  }

  lemma PathOfKey(pid: string, d: Dn)
    ensures DnFromTreeKey(pid, EntryKey(pid, d)) == Decoded(Parsed(CommaForm(TreePath(d))))
  {
    assert EntryKey(pid, d)[|TreeRoot(pid)|..] == TreePath(d);
  }

  lemma PrefixOfPath(pid: string, base: Dn, d: Dn)
    ensures SubtreePrefix(pid, base) <= EntryKey(pid, d) <==> TreePath(base) + "/" <= TreePath(d)
  {
    PrefixAfter(TreeRoot(pid), TreePath(base) + "/", TreePath(d));
    assert TreeRoot(pid) + (TreePath(base) + "/") == SubtreePrefix(pid, base);
  }

  /** A path starts with the attribute of the last relative name. */
  lemma PathStart(d: Dn)
    requires DnOk(d) && d.rdns != []
    ensures TreePath(d) != "" && TreePath(d)[0] == d.rdns[|d.rdns| - 1][0].attr[0]
  {
    RdnStart(d.rdns[|d.rdns| - 1]);
    JoinStart(ReversedComponents(d), "/");
  }

  lemma RdnStart(r: Rdn)
    requires RdnOk(r)
    ensures NormalizedRdn(r) != "" && NormalizedRdn(r)[0] == r[0].attr[0]
  {
    JoinStart(NormTexts(r), "+");
  }

  lemma JoinStart(ts: seq<string>, sep: string)
    requires ts != [] && ts[0] != ""
    ensures Join(ts, sep) != "" && Join(ts, sep)[0] == ts[0][0]
  {
  }

  /** The prefix made from the root name ends in two slashes: it matches the keys
      of names whose last attribute starts with a slash, and no others. */
  lemma RootPrefix(pid: string, d: Dn)
    requires DnOk(d)
    ensures SubtreePrefix(pid, Dn([])) <= EntryKey(pid, d) <==>
              d.rdns != [] && d.rdns[|d.rdns| - 1][0].attr[0] == '/'
  {
    PrefixOfPath(pid, Dn([]), d);
    assert TreePath(Dn([])) + "/" == "/";
    if d.rdns != [] {
      PathStart(d);
    }
  }

  /** A slash in a value: one name on one level and another on two share a key. */
  lemma SlashCollides(pid: string)
    ensures var d := Dn([[Ava("ou", "x/cn=y")]]);
            var e := Dn([[Ava("cn", "y")], [Ava("ou", "x")]]);
            EntryKey(pid, d) == EntryKey(pid, e) && !SameDn(d, e)
  {
    PlainValue("ou", "x/cn=y");
    PlainValue("ou", "x");
    PlainValue("cn", "y");
    assert "ou" + "=" + "x/cn=y" == "ou" + "=" + "x" + "/" + ("cn" + "=" + "y");
    OneForTwoLevels(pid, [Ava("ou", "x/cn=y")], [Ava("cn", "y")], [Ava("ou", "x")]);
  }

  lemma OneForTwoLevels(pid: string, q: Rdn, r: Rdn, s: Rdn)
    requires NormalizedRdn(q) == NormalizedRdn(s) + "/" + NormalizedRdn(r)
    ensures EntryKey(pid, Dn([q])) == EntryKey(pid, Dn([r, s])) && !SameDn(Dn([q]), Dn([r, s]))
  {
    OneComponent(q, NormalizedRdn(q));
    TwoComponents(r, s, NormalizedRdn(r), NormalizedRdn(s));
    assert |Dn([q]).rdns| != |Dn([r, s]).rdns|;
  }

  /** A value in lower case and without surrounding spaces is its own normal form. */
  lemma PlainValue(attr: string, v: string)
    requires v != "" && Lower(v) == v && !IsWhitespace(v[0]) && !IsWhitespace(v[|v| - 1])
    ensures Norm(v) == v && NormText(Ava(attr, v)) == attr + "=" + v && NormalizedRdn([Ava(attr, v)]) == attr + "=" + v
  {
    TrimNothing(v);
    OneAva(Ava(attr, v));
  }

  lemma OneAva(a: Ava)
    ensures NormalizedRdn([a]) == NormText(a)
  {
    assert NormTexts([a]) == [NormText(a)];
  }

  lemma TwoAvas(a: Ava, b: Ava)
    ensures NormalizedRdn([a, b]) == NormText(a) + "+" + NormText(b)
  {
    assert NormTexts([a, b]) == [NormText(a), NormText(b)];
    JoinTwo(NormText(a), NormText(b), "+");
  }

  lemma OneComponent(r: Rdn, c: string)
    requires NormalizedRdn(r) == c
    ensures TreePath(Dn([r])) == c
  {
    assert ReversedComponents(Dn([r])) == [c];
  }

  lemma TwoComponents(r: Rdn, s: Rdn, c: string, b: string)
    requires NormalizedRdn(r) == c && NormalizedRdn(s) == b
    ensures TreePath(Dn([r, s])) == b + "/" + c
  {
    assert ReversedComponents(Dn([r, s])) == [b, c];
    JoinTwo(b, c, "/");
  }
}
