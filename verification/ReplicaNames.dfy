/** The replica seen by name: which names an aggregate that watches the keys of
    a subtree finds, and under which spelling. */
module ReplicaNames {
  import opened Options
  import opened Text
  import opened Entries
  import opened Escapes
  import opened DistinguishedNames
  import opened DnRoundTrip
  import opened Keys
  import opened KeyDecoding
  import opened KeyRanges
  import opened Replica

  // ------------------------------------------------------------------- labels

  predicate CleanName(d: Dn) {
    DnOk(d) && Clean(d)
  }

  lemma CleanIsClosed(d: Dn)
    requires Clean(d)
    ensures AllAttrsClosed(d)
  {
    forall i, j | 0 <= i < |d.rdns| && 0 <= j < |d.rdns[i]|
      ensures Closed(d.rdns[i][j].attr)
    {
      assert RdnClean(d.rdns[i], i == |d.rdns| - 1);
    }
  }

  lemma NormRdnTwice(r: Rdn)
    ensures NormRdn(NormRdn(r)) == NormRdn(r)
  {
    forall i | 0 <= i < |r|
      ensures NormRdn(NormRdn(r))[i] == NormRdn(r)[i]
    {
      NormTrimmed(r[i].value);
    }
  }

  lemma NormDnTwice(d: Dn)
    ensures NormDn(NormDn(d)) == NormDn(d)
  {
    forall i | 0 <= i < |d.rdns|
      ensures NormRdns(NormDn(d))[i] == NormRdns(d)[i]
    {
      NormRdnTwice(d.rdns[i]);
    }
  }

  /** The key of a clean name is labelled with the normalized name. */
  lemma CleanLabel(pid: string, d: Dn)
    requires CleanName(d)
    ensures KeyLabels(pid)(EntryKey(pid, d)) == Some(Label(DnText(NormDn(d)), NormDn(d)))
  {
    PathOfKey(pid, d);
    CleanKeyDecodes(d);
  }

  /** The key of a clean name, or one that no name comes out of. */
  ghost predicate CleanKey(pid: string, k: string) {
    KeyLabels(pid)(k).None? || exists d :: CleanName(d) && k == EntryKey(pid, d)
  }

  ghost predicate CleanLog(pid: string, log: seq<Write>) {
    forall i :: 0 <= i < |log| ==> CleanKey(pid, log[i].key)
  }

  /** A clean key with the printed form of a name for a label: the name is
      normalized, and the key is its own. */
  lemma LabelTells(pid: string, k: string, d: Dn)
    requires CleanKey(pid, k) && CleanName(d) && LabelledAs(KeyLabels(pid), k, DnText(d))
    ensures d == NormDn(d) && k == EntryKey(pid, d)
  {
    var e :| CleanName(e) && k == EntryKey(pid, e);
    CleanLabel(pid, e);
    NormDnClean(pid, e);
    CleanIsClosed(NormDn(e));
    CleanIsClosed(d);
    TextInjective(NormDn(e), d);
    NormDnTwice(e);
  }

  lemma CleanOwnLabel(pid: string, log: seq<Write>, d: Dn)
    requires CleanLog(pid, log) && CleanName(d)
    ensures OwnLabel(KeyLabels(pid), log, EntryKey(pid, d), DnText(NormDn(d)))
  {
    CleanLabel(pid, d);
    NormDnClean(pid, d);
    forall i | 0 <= i < |log| && LabelledAs(KeyLabels(pid), log[i].key, DnText(NormDn(d)))
      ensures log[i].key == EntryKey(pid, d)
    {
      LabelTells(pid, log[i].key, NormDn(d));
    }
  }

  /** A spelling that is not normalized is nobody's label. */
  lemma OtherSpelling(pid: string, log: seq<Write>, d: Dn)
    requires CleanLog(pid, log) && CleanName(d) && d != NormDn(d)
    ensures LabelOf(KeyLabels(pid), log, DnText(d), "")
  {
    forall i | 0 <= i < |log|
      ensures !LabelledAs(KeyLabels(pid), log[i].key, DnText(d))
    {
      if LabelledAs(KeyLabels(pid), log[i].key, DnText(d)) {
        LabelTells(pid, log[i].key, d);
        assert false;
      }
    }
  }

  // -------------------------------------------------------------- convergence

  /** A session of one directory on the subtree of a clean base other than the
      root, over a log of clean names. */
  ghost predicate Follows(v: Watch, pid: string, base: Dn) {
    && v.Valid() && CleanLog(pid, v.log)
    && CleanName(base) && base.rdns != [] && v.baseKey == EntryKey(pid, base)
  }

  /** What an aggregate that was empty finds for a name after a session. */
  function FoundAfter(v: Watch, pid: string, whitelist: seq<string>, d: Dn): Option<Entry> {
    Found(After(v, KeyLabels(pid), whitelist, map[]), d)
  }

  /** At every revision reached, every name below the base is found by its
      normalized spelling, as the store has it: with the attributes on the
      whitelist, all of their values and nothing else. */
  lemma NamesConverge(v: Watch, pid: string, base: Dn, whitelist: seq<string>, d: Dn)
    requires Follows(v, pid, base) && CleanName(d) && StrictDescendant(d, base)
    ensures FoundAfter(v, pid, whitelist, NormDn(d)) == Wanted(v.log, whitelist, v.r, EntryKey(pid, d))
    ensures var stored, found := At(v.log, v.r), FoundAfter(v, pid, whitelist, NormDn(d));
            if EntryKey(pid, d) in stored then
              && found.Some? && stored[EntryKey(pid, d)].Some?
              && forall name ::
                   found.value.Get(name) ==
                     if exists i :: 0 <= i < |whitelist| && Lower(whitelist[i]) == Lower(name)
                     then stored[EntryKey(pid, d)].value.Get(name) else None
            else found.None?
  {
    DescendantHasPrefix(pid, d, base);
    CleanOwnLabel(pid, v.log, d);
    FreshReplicaConverges(v, KeyLabels(pid), whitelist, EntryKey(pid, d), DnText(NormDn(d)));
    SoundAt(v.log, v.r);
    var stored := At(v.log, v.r);
    if EntryKey(pid, d) in stored {
      forall name
        ensures Projected(stored[EntryKey(pid, d)].value, whitelist).Get(name) ==
                  if exists i :: 0 <= i < |whitelist| && Lower(whitelist[i]) == Lower(name)
                  then stored[EntryKey(pid, d)].value.Get(name) else None
      {
        ProjectionShows(stored[EntryKey(pid, d)].value, whitelist, name);
      }
    }
  }

  /** And nothing is found for a name that is neither the base nor below it. */
  lemma NothingElse(v: Watch, pid: string, base: Dn, whitelist: seq<string>, d: Dn)
    requires Follows(v, pid, base) && CleanName(d) && !StrictDescendant(d, base) && !SameDn(d, base)
    ensures FoundAfter(v, pid, whitelist, d) == None
  {
    if d == NormDn(d) {
      SubtreeIsRange(pid, d, base);
      KeyInjective(pid, d, base);
      CleanOwnLabel(pid, v.log, d);
      OutOfReach(v, KeyLabels(pid), whitelist, map[], EntryKey(pid, d), DnText(d));
    } else {
      SpellingIsMissed(v, pid, base, whitelist, d);
    }
  }

  lemma SpellingIsMissed(v: Watch, pid: string, base: Dn, whitelist: seq<string>, d: Dn)
    requires Follows(v, pid, base) && CleanName(d) && d != NormDn(d)
    ensures FoundAfter(v, pid, whitelist, d) == None
  {
    OtherSpelling(pid, v.log, d);
    OutOfReach(v, KeyLabels(pid), whitelist, map[], "", DnText(d));
  }

  /** A name is found as the store has it exactly when the store has nothing, or
      the name is spelled in normalized form: trimmed and in lower case. */
  lemma GetFindsIff(v: Watch, pid: string, base: Dn, whitelist: seq<string>, d: Dn)
    requires Follows(v, pid, base) && CleanName(d) && StrictDescendant(d, base)
    ensures FoundAfter(v, pid, whitelist, d) == Wanted(v.log, whitelist, v.r, EntryKey(pid, d)) <==>
              Wanted(v.log, whitelist, v.r, EntryKey(pid, d)).None? || d == NormDn(d)
  {
    NamesConverge(v, pid, base, whitelist, d);
    if d != NormDn(d) {
      SpellingIsMissed(v, pid, base, whitelist, d);
    }
  }

  /** After any number of sessions a name below the base, in normalized form, is
      found as the store has it where the last one ended, if and only if no earlier
      session left it there with none having noticed its key since. */
  lemma SessionsByName(vs: seq<Watch>, log: seq<Write>, pid: string, base: Dn, whitelist: seq<string>, d: Dn)
    requires SessionsOn(vs, log, EntryKey(pid, base)) && vs != [] && CleanLog(pid, log)
    requires base.rdns != [] && CleanName(d) && StrictDescendant(d, base)
    ensures Found(AfterAll(vs, KeyLabels(pid), whitelist, map[]), NormDn(d))
              == Wanted(log, whitelist, vs[|vs| - 1].r, EntryKey(pid, d))
       <==> !LeftBefore(vs, |vs| - 1, EntryKey(pid, d))
  {
    DescendantHasPrefix(pid, d, base);
    CleanOwnLabel(pid, log, d);
    SessionsAgreeIff(vs, log, EntryKey(pid, base), KeyLabels(pid), whitelist, EntryKey(pid, d), DnText(NormDn(d)));
  }

  // ------------------------------------------------------------ a missed entry

  const ALICE := Dn([[Ava("cn", "Alice")], [Ava("dc", "x")]])
  const ABOVE_ALICE := Dn([[Ava("dc", "x")]])

  /** One entry, in the store before the session began. */
  function OneEntry(pid: string, d: Dn, base: Dn, e: Entry): Watch {
    var k := EntryKey(pid, d);
    Watch([Put(k, Some(e))], EntryKey(pid, base), 1, 1, 1, 1, [(k, Some(e))], [])
  }

  lemma OneEntryValid(pid: string, d: Dn, base: Dn, e: Entry)
    requires base.rdns != [] && StrictDescendant(d, base)
    ensures OneEntry(pid, d, base, e).Valid()
    ensures At(OneEntry(pid, d, base, e).log, 1) == map[EntryKey(pid, d) := Some(e)]
  {
    var v := OneEntry(pid, d, base, e);
    DescendantHasPrefix(pid, d, base);
    assert At(v.log, 1) == At(v.log, 0)[EntryKey(pid, d) := Some(e)];
    assert v.rows[0].0 == EntryKey(pid, d);
  }

  lemma TwoRdns(r: Rdn, s: Rdn)
    requires RdnOk(r) && RdnClean(r, false) && RdnOk(s) && RdnClean(s, true)
    ensures CleanName(Dn([r, s])) && CleanName(Dn([s])) && StrictDescendant(Dn([r, s]), Dn([s]))
  {
    assert [r, s][1..] == [s];
  }

  lemma AliceAva()
    ensures RdnOk([Ava("cn", "Alice")]) && RdnClean([Ava("cn", "Alice")], false) && Norm("Alice") == Lower("Alice")
  {
    OrdinaryAva("cn", "Alice", false);
  }

  lemma AboveAva()
    ensures RdnOk([Ava("dc", "x")]) && RdnClean([Ava("dc", "x")], true)
  {
    OrdinaryAva("dc", "x", true);
  }

  lemma AliceIsClean()
    ensures CleanName(ALICE) && CleanName(ABOVE_ALICE) && StrictDescendant(ALICE, ABOVE_ALICE) && ALICE != NormDn(ALICE)
  {
    AliceAva();
    AboveAva();
    TwoRdns([Ava("cn", "Alice")], [Ava("dc", "x")]);
    Respelled(Ava("cn", "Alice"), Ava("dc", "x"));
  }

  lemma Respelled(a: Ava, b: Ava)
    requires a.value != "" && Norm(a.value) == Lower(a.value) && LowerChar(a.value[0]) != a.value[0]
    ensures Dn([[a], [b]]) != NormDn(Dn([[a], [b]]))
  {
    var d := Dn([[a], [b]]);
    assert NormDn(d).rdns[0][0].value[0] == LowerChar(d.rdns[0][0].value[0]);
  }

  /** An entry stored as `cn=Alice,dc=x` is in the aggregate and is not found
      under that name. */
  lemma AliceIsMissed(pid: string, whitelist: seq<string>, e: Entry)
    ensures var v := OneEntry(pid, ALICE, ABOVE_ALICE, e);
            && Follows(v, pid, ABOVE_ALICE)
            && Wanted(v.log, whitelist, 1, EntryKey(pid, ALICE)) == Some(Projected(e, whitelist))
            && FoundAfter(v, pid, whitelist, NormDn(ALICE)) == Some(Projected(e, whitelist))
            && FoundAfter(v, pid, whitelist, ALICE) == None
  {
    var v := OneEntry(pid, ALICE, ABOVE_ALICE, e);
    AliceIsClean();
    OneEntryValid(pid, ALICE, ABOVE_ALICE, e);
    assert CleanKey(pid, v.log[0].key);
    NamesConverge(v, pid, ABOVE_ALICE, whitelist, ALICE);
    SpellingIsMissed(v, pid, ABOVE_ALICE, whitelist, ALICE);
  }
}
