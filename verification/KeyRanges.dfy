/** Names and key ranges: when a subtree is exactly the keys with a prefix, and
    when two names share a key. */
module KeyRanges {
  import opened Text
  import opened Escapes
  import opened DistinguishedNames
  import opened Keys
  import opened KeyDecoding

  // ----------------------------------------------------------------- clean names

  lemma ComponentSame(r: Rdn, s: Rdn, last: bool)
    requires RdnOk(r) && RdnClean(r, last) && RdnOk(s) && RdnClean(s, last)
    ensures NormalizedRdn(r) == NormalizedRdn(s) <==> SameRdn(r, s)
  {
    if NormalizedRdn(r) == NormalizedRdn(s) {
      CleanRdnDecodes(r, last);
      CleanRdnDecodes(s, last);
      NormRdnSame(r);
      NormRdnSame(s);
      SameByThird(NormRdn(r), r, s);
    }
    if SameRdn(r, s) {
      SameTexts(r, s);
    }
  }

  lemma SameComponents(d: Dn, e: Dn)
    requires DnOk(d) && Clean(d) && DnOk(e) && Clean(e)
    ensures Components(d) == Components(e) <==> SameDn(d, e)
  {
    if |d.rdns| == |e.rdns| {
      forall i | 0 <= i < |d.rdns|
        ensures Components(d)[i] == Components(e)[i] <==> SameRdn(d.rdns[i], e.rdns[i])
      {
        ComponentSame(d.rdns[i], e.rdns[i], i == |d.rdns| - 1);
      }
    }
  }

  /** Clean names share a key exactly when they are equal. */
  lemma KeyInjective(pid: string, d: Dn, e: Dn)
    requires DnOk(d) && Clean(d) && DnOk(e) && Clean(e)
    ensures EntryKey(pid, d) == EntryKey(pid, e) <==> SameDn(d, e)
  {
    if SameDn(d, e) {
      SameKey(pid, d, e);
    }
    if EntryKey(pid, d) == EntryKey(pid, e) {
      PathOfKey(pid, d);
      PathOfKey(pid, e);
      CleanKeyDecodes(d);
      CleanKeyDecodes(e);
      NormDnSame(d);
      NormDnSame(e);
      SameDnByThird(NormDn(d), d, e);
    }
  }

  lemma SuffixComponents(d: Dn, base: Dn)
    requires DnOk(d) && Clean(d) && DnOk(base) && Clean(base) && |base.rdns| <= |d.rdns|
    ensures Components(d)[|d.rdns| - |base.rdns|..] == Components(base) <==> IsWithin(d, base)
  {
    var k := |d.rdns| - |base.rdns|;
    var suffix := Dn(d.rdns[k..]);
    assert Components(suffix) == Components(d)[k..];
    assert Clean(suffix) by {
      assert forall i :: 0 <= i < |suffix.rdns| ==> suffix.rdns[i] == d.rdns[k + i];
    }
    SameComponents(suffix, base);
  }

  lemma ReversedSlashFree(d: Dn)
    requires DnOk(d) && Clean(d)
    ensures SlashFree(ReversedComponents(d))
  {
    CleanKeyDecodes(d);
  }

  /** The keys of a subtree are a key range: a clean name has a key with the
      prefix of a clean base other than the root exactly when it is a strict
      descendant. */
  lemma SubtreeIsRange(pid: string, d: Dn, base: Dn)
    requires DnOk(d) && Clean(d) && DnOk(base) && Clean(base) && base.rdns != []
    ensures SubtreePrefix(pid, base) <= EntryKey(pid, d) <==> StrictDescendant(d, base)
  {
    ReversedSlashFree(d);
    ReversedSlashFree(base);
    PathPrefix(ReversedComponents(d), ReversedComponents(base));
    PrefixOfPath(pid, base, d);
    if |base.rdns| < |d.rdns| {
      SuffixComponents(d, base);
      ReversedPrefix(Components(d), Components(base));
    }
  }

  /** Normalizing keeps a name clean, and its key. */
  lemma NormDnClean(pid: string, d: Dn)
    requires DnOk(d) && Clean(d)
    ensures DnOk(NormDn(d)) && Clean(NormDn(d)) && EntryKey(pid, NormDn(d)) == EntryKey(pid, d)
  {
    forall i | 0 <= i < |d.rdns|
      ensures RdnOk(NormDn(d).rdns[i]) && RdnClean(NormDn(d).rdns[i], i == |d.rdns| - 1)
    {
      NormRdnClean(d.rdns[i], i == |d.rdns| - 1);
    }
    NormDnSame(d);
    SameKey(pid, NormDn(d), d);
  }

  lemma NormRdnClean(r: Rdn, last: bool)
    requires RdnOk(r) && RdnClean(r, last)
    ensures RdnOk(NormRdn(r)) && RdnClean(NormRdn(r), last)
  {
    NormRdnSame(r);
    forall i | 0 <= i < |r|
      ensures AttrOk(NormRdn(r)[i].attr) && AvaClean(NormRdn(r)[i], last && i == |r| - 1)
    {
      NormTrimmed(r[i].value);
    }
  }

  // -------------------------------------------------------------------- any name

  /** Below an ancestor the prefix always fits, clean or not. */
  lemma DescendantHasPrefix(pid: string, d: Dn, base: Dn)
    requires base.rdns != [] && StrictDescendant(d, base)
    ensures SubtreePrefix(pid, base) <= EntryKey(pid, d)
  {
    PathBelow(d, base, |d.rdns| - |base.rdns|);
    PrefixOfPath(pid, base, d);
  }

  lemma PathBelow(d: Dn, base: Dn, k: nat)
    requires 0 < k < |d.rdns| && SameDn(Dn(d.rdns[k..]), base)
    ensures TreePath(base) + "/" <= TreePath(d)
  {
    AncestorPrefix(d, k);
    SameKey("", Dn(d.rdns[k..]), base);
  }

  lemma AncestorPrefix(d: Dn, k: nat)
    requires 0 < k < |d.rdns|
    ensures TreePath(Dn(d.rdns[k..])) + "/" <= TreePath(d)
  {
    var above := Dn(d.rdns[k..]);
    var cs, bs := ReversedComponents(d), ReversedComponents(above);
    assert Components(above) == Components(d)[k..];
    ReversedPrefix(Components(d), Components(above));
    JoinConcat(bs, cs[|bs|..], "/");
    assert cs == bs + cs[|bs|..];
  }

  lemma AboveOther(d: Dn, b: Dn, c: Dn)
    requires SameDn(b, c) && StrictDescendant(d, b)
    ensures StrictDescendant(d, c)
  {
    var above := Dn(d.rdns[|d.rdns| - |b.rdns|..]);
    SameDnBack(above, b);
    SameDnByThird(b, above, c);
  }

  /** The name that a prefix of the path spells. */
  function Spelled(path: string): DistinguishedNames.Result<Dn> {
    Parsed(CommaForm(path))
  }

  /** The path is the key of a clean name, which is not the root. */
  ghost predicate SpellsName(path: string) {
    && Spelled(path).Ok? && Clean(Spelled(path).value) && Spelled(path).value.rdns != []
    && TreePath(Spelled(path).value) == path
  }

  lemma SpelledOk(path: string)
    requires Spelled(path).Ok?
    ensures DnOk(Spelled(path).value)
  {
    ParsedOk(CommaForm(path));
  }

  lemma CleanIsSpelled(base: Dn)
    requires DnOk(base) && Clean(base) && base.rdns != []
    ensures SpellsName(TreePath(base)) && SameDn(Spelled(TreePath(base)).value, base)
  {
    CleanKeyDecodes(base);
    NormDnClean("", base);
    NormDnSame(base);
    SameKey("", NormDn(base), base);
  }

  /** At every slash of the path, a name spelled before it is an ancestor. */
  ghost predicate Unambiguous(d: Dn) {
    forall i :: 0 <= i < |TreePath(d)| && TreePath(d)[i] == '/' ==> HarmlessCut(d, TreePath(d)[..i])
  }

  ghost predicate HarmlessCut(d: Dn, path: string) {
    SpellsName(path) ==> StrictDescendant(d, Spelled(path).value)
  }

  /** For every well-formed name: its key lies in the range of a clean base
      exactly for its ancestors, if and only if no prefix of the key up to a slash
      spells a clean name that is not an ancestor. */
  lemma KeyRangeExact(pid: string, d: Dn)
    requires DnOk(d)
    ensures (forall base: Dn :: DnOk(base) && Clean(base) && base.rdns != [] ==>
               (SubtreePrefix(pid, base) <= EntryKey(pid, d) <==> StrictDescendant(d, base)))
       <==> Unambiguous(d)
  {
    var path := TreePath(d);
    if Unambiguous(d) {
      forall base: Dn | DnOk(base) && Clean(base) && base.rdns != []
        ensures SubtreePrefix(pid, base) <= EntryKey(pid, d) <==> StrictDescendant(d, base)
      {
        RangeOfOne(pid, d, base);
      }
    } else {
      var i :| 0 <= i < |path| && path[i] == '/' && !HarmlessCut(d, path[..i]);
      var base := AmbiguousCut(pid, d, i);
    }
  }

  lemma AmbiguousCut(pid: string, d: Dn, i: nat) returns (base: Dn)
    requires i < |TreePath(d)| && TreePath(d)[i] == '/' && !HarmlessCut(d, TreePath(d)[..i])
    ensures DnOk(base) && Clean(base) && base.rdns != []
    ensures SubtreePrefix(pid, base) <= EntryKey(pid, d) && !StrictDescendant(d, base)
  {
    var cut := TreePath(d)[..i];
    base := Spelled(cut).value;
    SpelledOk(cut);
    CutPrefix(pid, d, base, i);
  }

  lemma CutPrefix(pid: string, d: Dn, base: Dn, i: nat)
    requires i < |TreePath(d)| && TreePath(d)[i] == '/' && TreePath(base) == TreePath(d)[..i]
    ensures SubtreePrefix(pid, base) <= EntryKey(pid, d)
  {
    PrefixOfPath(pid, base, d);
    SlashPrefix(TreePath(d), i);
  }

  lemma SlashPrefix(path: string, i: nat)
    requires i < |path| && path[i] == '/'
    ensures path[..i] + "/" <= path
  {
    assert path[..i] + "/" == path[..i + 1];
  }

  lemma RangeOfOne(pid: string, d: Dn, base: Dn)
    requires DnOk(d) && Unambiguous(d) && DnOk(base) && Clean(base) && base.rdns != []
    ensures SubtreePrefix(pid, base) <= EntryKey(pid, d) <==> StrictDescendant(d, base)
  {
    if StrictDescendant(d, base) {
      DescendantHasPrefix(pid, d, base);
    }
    if SubtreePrefix(pid, base) <= EntryKey(pid, d) {
      PrefixOfPath(pid, base, d);
      var path, i := TreePath(d), |TreePath(base)|;
      assert path[i] == (TreePath(base) + "/")[i] == '/';
      assert path[..i] == path[..i + 1][..i] == TreePath(base);
      assert HarmlessCut(d, path[..i]);
      CleanIsSpelled(base);
      AboveOther(d, Spelled(TreePath(base)).value, base);
    }
  }

  /** The key of `d` is the key of a clean name other than `d`. */
  ghost predicate Collides(pid: string, d: Dn, e: Dn) {
    DnOk(e) && Clean(e) && EntryKey(pid, e) == EntryKey(pid, d) && !SameDn(d, e)
  }

  /** For every well-formed name: some clean name collides with it if and only if
      the one its own key decodes to does. */
  lemma CollidesIff(pid: string, d: Dn)
    requires DnOk(d)
    ensures (exists e: Dn :: Collides(pid, d, e)) <==>
              Spelled(TreePath(d)).Ok? && Collides(pid, d, Spelled(TreePath(d)).value)
  {
    forall e: Dn | Collides(pid, d, e)
      ensures Spelled(TreePath(d)).Ok? && Collides(pid, d, Spelled(TreePath(d)).value)
    {
      PathOfKey(pid, d);
      PathOfKey(pid, e);
      CleanKeyDecodes(e);
      NormDnClean(pid, e);
      NormDnSame(e);
      if SameDn(d, NormDn(e)) {
        SameDnBack(d, NormDn(e));
        SameDnByThird(NormDn(e), d, e);
        assert false;
      }
    }
  }

  // -------------------------------------------------------------------- any base

  /** Up to a slash, the path of a slash-free name is the path of an ancestor. */
  lemma CutIsAncestor(d: Dn, path: string) returns (k: nat)
    requires SlashFree(Components(d)) && d.rdns != [] && path + "/" <= TreePath(d)
    ensures 0 < k < |d.rdns| && TreePath(Dn(d.rdns[k..])) == path
  {
    var cs, bs := ReversedComponents(d), Split(path, '/');
    SplitPrefix(cs, path);
    k := |cs| - |bs|;
    var above := Dn(d.rdns[k..]);
    assert Components(above) == Components(d)[k..];
    ReversedPrefix(Components(d), Components(above));
    assert ReversedComponents(above) == bs;
    JoinOfSplit(path, '/');
  }

  lemma SplitPrefix(cs: seq<string>, path: string)
    requires SlashFree(cs) && cs != [] && path + "/" <= Join(cs, "/")
    ensures Split(path, '/') < cs
  {
    var t := Join(cs, "/")[|path| + 1..];
    assert Join(cs, "/") == path + ['/'] + t;
    SplitConcat(path, t, '/');
    SplitOfJoin(cs, '/');
  }

  /** A clean name in the range of a base lies below a clean name with the key of
      that base. */
  lemma RangeHasAncestor(pid: string, d: Dn, base: Dn) returns (above: Dn)
    requires DnOk(d) && Clean(d) && base.rdns != [] && SubtreePrefix(pid, base) <= EntryKey(pid, d)
    ensures DnOk(above) && Clean(above) && EntryKey(pid, above) == EntryKey(pid, base)
    ensures |above.rdns| < |d.rdns| && d.rdns[|d.rdns| - |above.rdns|..] == above.rdns
  {
    CleanKeyDecodes(d);
    PrefixOfPath(pid, base, d);
    assert TreePath(Dn([])) == "";
    var k := CutIsAncestor(d, TreePath(base));
    above := Dn(d.rdns[k..]);
    assert forall i :: 0 <= i < |above.rdns| ==> above.rdns[i] == d.rdns[k + i];
  }

  /** A child of a clean name, clean itself. */
  function ChildOf(e: Dn): Dn {
    Dn([[Ava("ou", "x")]] + e.rdns)
  }

  lemma ChildIsClean(e: Dn)
    requires DnOk(e) && Clean(e)
    ensures DnOk(ChildOf(e)) && Clean(ChildOf(e)) && ChildOf(e).rdns[1..] == e.rdns
  {
    OrdinaryAva("ou", "x", e.rdns == []);
    OneMoreRdn([Ava("ou", "x")], e, ChildOf(e));
  }

  predicate HasAny(s: string, cs: string) {
    exists i :: 0 <= i < |s| && s[i] in cs
  }

  /** An attribute and a value with nothing special in them. */
  lemma OrdinaryAva(attr: string, v: string, last: bool)
    requires attr != "" && Lower(attr) == attr && !IsWhitespace(attr[0]) && !IsWhitespace(attr[|attr| - 1])
    requires v != "" && !IsWhitespace(v[0]) && !IsWhitespace(v[|v| - 1])
    requires !HasAny(attr, ",+=/\\") && !HasAny(Lower(v), ",+/\\")
    ensures RdnOk([Ava(attr, v)]) && RdnClean([Ava(attr, v)], last) && Norm(v) == Lower(v)
  {
    PlainAttr(attr);
    TrimNothing(v);
    LiteralClosed(attr);
  }

  lemma OneMoreRdn(r: Rdn, e: Dn, d: Dn)
    requires DnOk(e) && Clean(e) && RdnOk(r) && RdnClean(r, e.rdns == []) && d.rdns == [r] + e.rdns
    ensures DnOk(d) && Clean(d) && d.rdns[1..] == e.rdns
  {
    forall i | 0 <= i < |d.rdns|
      ensures RdnOk(d.rdns[i]) && RdnClean(d.rdns[i], i == |d.rdns| - 1)
    {
      if i > 0 {
        assert d.rdns[i] == e.rdns[i - 1];
      }
    }
  }

  /** A name is below its own proper ancestors' keys, not at them. */
  lemma ShorterKey(pid: string, e: Dn, base: Dn)
    requires StrictDescendant(e, base) && base.rdns != []
    ensures EntryKey(pid, e) != EntryKey(pid, base)
  {
    DescendantHasPrefix(pid, e, base);
  }

  /** The child of a name that collides with the base is in the base's range and
      not below the base. */
  lemma ChildOfOther(pid: string, base: Dn, e: Dn)
    requires DnOk(base) && base.rdns != [] && Collides(pid, base, e)
    ensures DnOk(ChildOf(e)) && Clean(ChildOf(e))
    ensures SubtreePrefix(pid, base) <= EntryKey(pid, ChildOf(e)) && !StrictDescendant(ChildOf(e), base)
  {
    var d := ChildOf(e);
    ChildIsClean(e);
    PathStart(base);
    PathOfKey(pid, base);
    PathOfKey(pid, e);
    assert TreePath(Dn([])) == "";
    SameDnReflexive(e);
    DescendantHasPrefix(pid, d, e);
    if StrictDescendant(d, base) {
      WithinOther(pid, base, e, d);
      assert false;
    }
  }

  lemma WithinOther(pid: string, base: Dn, e: Dn, d: Dn)
    requires base.rdns != [] && EntryKey(pid, e) == EntryKey(pid, base)
    requires |d.rdns| == |e.rdns| + 1 && d.rdns[1..] == e.rdns && StrictDescendant(d, base)
    ensures SameDn(base, e)
  {
    var k := |d.rdns| - |base.rdns|;
    assert d.rdns[k..] == e.rdns[k - 1..];
    if k > 1 {
      ShorterKey(pid, e, base);
      assert false;
    }
    assert e.rdns[0..] == e.rdns;
    SameDnBack(e, base);
  }

  /** For every well-formed base other than the root: the clean names in its range
      are exactly the clean names below it, if and only if no clean name collides
      with it. */
  lemma BaseRangeExact(pid: string, base: Dn)
    requires DnOk(base) && base.rdns != []
    ensures (forall d: Dn :: DnOk(d) && Clean(d) ==>
               (SubtreePrefix(pid, base) <= EntryKey(pid, d) <==> StrictDescendant(d, base)))
       <==> !exists e: Dn :: Collides(pid, base, e)
  {
    if e: Dn :| Collides(pid, base, e) {
      ChildOfOther(pid, base, e);
    } else {
      forall d: Dn | DnOk(d) && Clean(d)
        ensures SubtreePrefix(pid, base) <= EntryKey(pid, d) <==> StrictDescendant(d, base)
      {
        RangeOfBase(pid, d, base);
      }
    }
  }

  lemma RangeOfBase(pid: string, d: Dn, base: Dn)
    requires DnOk(d) && Clean(d) && base.rdns != [] && forall e: Dn :: !Collides(pid, base, e)
    ensures SubtreePrefix(pid, base) <= EntryKey(pid, d) <==> StrictDescendant(d, base)
  {
    if StrictDescendant(d, base) {
      DescendantHasPrefix(pid, d, base);
    }
    if SubtreePrefix(pid, base) <= EntryKey(pid, d) {
      var above := RangeHasAncestor(pid, d, base);
      assert !Collides(pid, base, above);
      SameDnBack(base, above);
    }
  }

  // -------------------------------------------------------------- failing names

  lemma PlainAttr(attr: string)
    requires attr != "" && Lower(attr) == attr && !IsWhitespace(attr[0]) && !IsWhitespace(attr[|attr| - 1])
    requires ',' !in attr && '+' !in attr && '=' !in attr
    ensures AttrOk(attr)
  {
    TrimNothing(attr);
    NotFound(attr, false, ',');
    NotFound(attr, false, '+');
    NotFound(attr, false, '=');
  }

  /** A plus in a value: one name with a value `a+uid=b` and one with two values
      share a key, and what is below either lies in the range of the other. */
  lemma PlusCollides(pid: string)
    ensures var d := Dn([[Ava("cn", "a+uid=b")]]);
            var e := Dn([[Ava("cn", "a"), Ava("uid", "b")]]);
            var child := Dn([[Ava("ou", "x")], [Ava("cn", "a+uid=b")]]);
            var other := Dn([[Ava("ou", "x")], [Ava("cn", "a"), Ava("uid", "b")]]);
            && EntryKey(pid, d) == EntryKey(pid, e) && !SameDn(d, e)
            && SubtreePrefix(pid, e) <= EntryKey(pid, child) && !StrictDescendant(child, e)
            && SubtreePrefix(pid, d) <= EntryKey(pid, other) && !StrictDescendant(other, d)
  {
    PlainValue("cn", "a+uid=b");
    PlainValue("cn", "a");
    PlainValue("uid", "b");
    assert "cn" + "=" + "a+uid=b" == "cn" + "=" + "a" + "+" + ("uid" + "=" + "b");
    TwoAvas(Ava("cn", "a"), Ava("uid", "b"));
    OneForTwo(pid, [Ava("cn", "a+uid=b")], [Ava("cn", "a"), Ava("uid", "b")], [Ava("ou", "x")]);
    OneForTwo(pid, [Ava("cn", "a"), Ava("uid", "b")], [Ava("cn", "a+uid=b")], [Ava("ou", "x")]);
  }

  /** Different relative names with one component. */
  lemma OneForTwo(pid: string, r: Rdn, s: Rdn, below: Rdn)
    requires NormalizedRdn(r) == NormalizedRdn(s) && |r| != |s|
    ensures EntryKey(pid, Dn([r])) == EntryKey(pid, Dn([s])) && !SameDn(Dn([r]), Dn([s]))
    ensures SubtreePrefix(pid, Dn([s])) <= EntryKey(pid, Dn([below, r])) && !StrictDescendant(Dn([below, r]), Dn([s]))
  {
    var c := NormalizedRdn(r);
    OneComponent(r, c);
    OneComponent(s, c);
    TwoComponents(below, r, NormalizedRdn(below), c);
    PrefixOfPath(pid, Dn([s]), Dn([below, r]));
    assert Dn([r]).rdns[0] == r && Dn([s]).rdns[0] == s;
    assert [below, r][1..] == [r];
  }

  /** A comma in a value: the key does not decode to the name. */
  lemma CommaIsLost(pid: string)
    ensures var d := Dn([[Ava("cn", "a,b")]]);
            DnOk(d) && !DecodesTo(DnFromTreeKey(pid, EntryKey(pid, d)), d)
  {
    var d := Dn([[Ava("cn", "a,b")]]);
    PlainAttr("cn");
    PlainValue("cn", "a,b");
    assert ',' in Norm(d.rdns[0][0].value) by { assert "a,b"[1] == ','; }
    assert !AvaClean(d.rdns[0][0], true);
    assert !RdnClean(d.rdns[0], true);
    KeyDecodes(pid, d);
  }
}
