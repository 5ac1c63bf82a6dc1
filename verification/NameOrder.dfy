/** The parts of a multi-valued RDN: how they are ordered, and that the order in which
    they are written does not matter. */
module NameOrder {
  import Options
  import opened Text
  import opened Escapes
  import opened DistinguishedNames
  import opened Keys

  // ------------------------------------------------------------ dictionary order

  predicate Differ(a: string, b: string, k: int) {
    0 <= k < |a| && k < |b| && a[..k] == b[..k] && a[k] != b[k]
  }

  /** `a` comes before `b` in the dictionary: it is the start of `b`, or smaller where
      the two first differ. */
  ghost predicate Before(a: string, b: string) {
    a < b || exists k: int :: Differ(a, b, k) && a[k] < b[k]
  }

  lemma DifferBehind(c: char, x: string, y: string, k: int)
    ensures Differ([c] + x, [c] + y, k + 1) <==> Differ(x, y, k)
  {
    var a, b := [c] + x, [c] + y;
    if 0 <= k < |x| && k < |y| {
      assert a[..k + 1] == [c] + x[..k] && b[..k + 1] == [c] + y[..k];
      assert x[..k] == a[..k + 1][1..] && y[..k] == b[..k + 1][1..];
    }
  }

  lemma BeforeTails(a: string, b: string)
    requires a != "" && b != "" && a[0] == b[0]
    ensures Before(a, b) <==> Before(a[1..], b[1..])
  {
    var c, x, y := a[0], a[1..], b[1..];
    assert a == [c] + x && b == [c] + y;
    if exists k: int :: Differ(a, b, k) && a[k] < b[k] {
      var k: int :| Differ(a, b, k) && a[k] < b[k];
      DifferBehind(c, x, y, k - 1);
      assert Differ(x, y, k - 1);
    }
    if exists k: int :: Differ(x, y, k) && x[k] < y[k] {
      var k: int :| Differ(x, y, k) && x[k] < y[k];
      DifferBehind(c, x, y, k);
      assert Differ(a, b, k + 1);
    }
  }

  lemma BeforeHeads(a: string, b: string)
    requires a != "" && b != "" && a[0] != b[0]
    ensures Before(a, b) <==> a[0] < b[0]
  {
    if a[0] < b[0] {
      assert Differ(a, b, 0);
    }
  }

  lemma {:induction false} StringLeIff(a: string, b: string)
    ensures StringLe(a, b) <==> a == b || Before(a, b)
  {
    if a != "" && b != "" {
      if a[0] == b[0] {
        StringLeIff(a[1..], b[1..]);
        BeforeTails(a, b);
        assert a == [a[0]] + a[1..] && b == [b[0]] + b[1..];
      } else {
        BeforeHeads(a, b);
      }
    }
  }

  lemma {:induction false} NotBeforeBoth(a: string, b: string)
    requires Before(a, b)
    ensures !Before(b, a) && a != b
  {
    if a != "" && b != "" {
      if a[0] == b[0] {
        BeforeTails(a, b);
        BeforeTails(b, a);
        NotBeforeBoth(a[1..], b[1..]);
      } else {
        BeforeHeads(b, a);
        BeforeHeads(a, b);
      }
    }
  }

  lemma StringAntisymmetric(a: string, b: string)
    requires StringLe(a, b) && StringLe(b, a)
    ensures a == b
  {
    StringLeIff(a, b);
    StringLeIff(b, a);
    if Before(a, b) {
      NotBeforeBoth(a, b);
    }
  }

  lemma {:induction false} StringTransitive(a: string, b: string, c: string)
    requires StringLe(a, b) && StringLe(b, c)
    ensures StringLe(a, c)
  {
    if a != "" && a[0] == b[0] == c[0] {
      StringTransitive(a[1..], b[1..], c[1..]);
    }
  }

  // --------------------------------------------------------------- parts in order

  lemma AvaTransitive(a: Ava, b: Ava, c: Ava)
    requires AvaLe(a, b) && AvaLe(b, c)
    ensures AvaLe(a, c)
  {
    if a.attr == b.attr == c.attr {
      StringTransitive(Norm(a.value), Norm(b.value), Norm(c.value));
    } else if a.attr != b.attr && b.attr != c.attr {
      StringTransitive(a.attr, b.attr, c.attr);
      if a.attr == c.attr {
        StringAntisymmetric(a.attr, b.attr);
        assert false;
      }
    }
  }

  lemma {:induction false} SortedPairs(r: Rdn, i: nat, j: nat)
    requires IsSorted(r) && i < j < |r|
    ensures AvaLe(r[i], r[j])
    decreases j
  {
    assert AvaLe(r[j - 1], r[j - 1 + 1]);
    if i < j - 1 {
      SortedPairs(r, i, j - 1);
      AvaTransitive(r[i], r[j - 1], r[j]);
    }
  }

  /** A parsed RDN has its parts in the dictionary order of their attributes, and
      those of one attribute in the order of their normalized values. */
  lemma PartsInOrder(r: Rdn, i: nat, j: nat)
    requires i < j < |r|
    ensures |Sort(r)| == |r| && multiset(Sort(r)) == multiset(r)
    ensures var a, b := Sort(r)[i], Sort(r)[j];
            || Before(a.attr, b.attr)
            || (a.attr == b.attr && !Before(Lower(Trim(b.value)), Lower(Trim(a.value))))
  {
    SortSorts(r);
    SortedPairs(Sort(r), i, j);
    var a, b := Sort(r)[i], Sort(r)[j];
    StringLeIff(a.attr, b.attr);
    StringLeIff(Norm(a.value), Norm(b.value));
    if Before(Norm(b.value), Norm(a.value)) {
      NotBeforeBoth(Norm(b.value), Norm(a.value));
    }
  }

  // --------------------------------------------------------- the order as written

  function Map<A, B>(f: A -> B, s: seq<A>): (t: seq<B>)
    ensures |t| == |s|
  {
    seq(|s|, i requires 0 <= i < |s| => f(s[i]))
  }

  lemma WithoutOne<A>(s: seq<A>, j: nat)
    requires j < |s|
    ensures multiset(s) == multiset(s[..j] + s[j + 1..]) + multiset{s[j]}
  {
    assert s == s[..j] + [s[j]] + s[j + 1..];
  }

  lemma Cancel<A>(x: multiset<A>, y: multiset<A>, a: A)
    requires x + multiset{a} == y + multiset{a}
    ensures x == y
  {
    assert x == x + multiset{a} - multiset{a};
    assert y == y + multiset{a} - multiset{a};
  }

  lemma MapWithoutOne<A, B>(f: A -> B, s: seq<A>, j: nat)
    requires j < |s|
    ensures multiset(Map(f, s)) == multiset(Map(f, s[..j] + s[j + 1..])) + multiset{f(s[j])}
  {
    var t := Map(f, s);
    WithoutOne(t, j);
    assert t[..j] + t[j + 1..] == Map(f, s[..j] + s[j + 1..]);
  }

  lemma {:induction false} MapPermuted<A, B>(f: A -> B, s: seq<A>, t: seq<A>)
    requires multiset(s) == multiset(t)
    ensures multiset(Map(f, s)) == multiset(Map(f, t))
    decreases |s|
  {
    if s == [] {
      assert |multiset(t)| == 0 && t == [];
    } else {
      assert s[0] in multiset(t);
      var j :| 0 <= j < |t| && t[j] == s[0];
      WithoutOne(s, 0);
      WithoutOne(t, j);
      var s', t' := s[..0] + s[1..], t[..j] + t[j + 1..];
      Cancel(multiset(s'), multiset(t'), s[0]);
      MapPermuted(f, s', t');
      MapWithoutOne(f, s, 0);
      MapWithoutOne(f, t, j);
    }
  }

  predicate Normal(r: Rdn) {
    forall i :: 0 <= i < |r| ==> Norm(r[i].value) == r[i].value
  }

  /** The last part of a sorted RDN is a greatest one. */
  lemma LastIsGreatest(r: Rdn, a: Ava)
    requires IsSorted(r) && a in r
    ensures AvaLe(a, r[|r| - 1])
  {
    var i :| 0 <= i < |r| && r[i] == a;
    if i < |r| - 1 {
      SortedPairs(r, i, |r| - 1);
    } else {
      AvaTotal(a, a);
    }
  }

  lemma SameLast(r: Rdn, s: Rdn)
    requires IsSorted(r) && IsSorted(s) && Normal(r) && Normal(s) && multiset(r) == multiset(s) && r != [] && s != []
    ensures r[|r| - 1] == s[|s| - 1]
  {
    var a, b := r[|r| - 1], s[|s| - 1];
    assert a in multiset(s) && b in multiset(r);
    LastIsGreatest(s, a);
    LastIsGreatest(r, b);
    if a.attr == b.attr {
      StringAntisymmetric(Norm(a.value), Norm(b.value));
    } else {
      StringAntisymmetric(a.attr, b.attr);
    }
  }

  lemma {:induction false} SortedIsUnique(r: Rdn, s: Rdn)
    requires IsSorted(r) && IsSorted(s) && Normal(r) && Normal(s) && multiset(r) == multiset(s)
    ensures r == s
    decreases |r|
  {
    assert |r| == |multiset(r)| == |multiset(s)| == |s|;
    if r != [] {
      SameLast(r, s);
      var n := |r| - 1;
      SameFronts(r, s, r[..n], s[..n]);
      SortedIsUnique(r[..n], s[..n]);
      assert r == r[..n] + [r[n]] && s == s[..n] + [s[n]];
    }
  }

  lemma SameFronts(r: Rdn, s: Rdn, front: Rdn, front': Rdn)
    requires IsSorted(r) && IsSorted(s) && Normal(r) && Normal(s) && multiset(r) == multiset(s) && r != [] && s != []
    requires r[|r| - 1] == s[|s| - 1] && front == r[..|r| - 1] && front' == s[..|s| - 1]
    ensures IsSorted(front) && IsSorted(front') && Normal(front) && Normal(front')
    ensures multiset(front) == multiset(front')
  {
    WithLast(r);
    WithLast(s);
    FrontSorted(r, front);
    FrontSorted(s, front');
    Cancel(multiset(front), multiset(front'), r[|r| - 1]);
  }

  lemma NormAsMap(r: Rdn)
    ensures NormRdn(r) == Map((a: Ava) => Ava(a.attr, Norm(a.value)), r) && Normal(NormRdn(r))
  {
    forall i | 0 <= i < |r|
      ensures Norm(NormRdn(r)[i].value) == NormRdn(r)[i].value
    {
      NormTrimmed(r[i].value);
    }
  }

  /** Parts written in another order make the same RDN. */
  lemma OrderImmaterial(r: Rdn, s: Rdn)
    requires multiset(r) == multiset(s)
    ensures SameRdn(Sort(r), Sort(s))
  {
    var x, y := Sort(r), Sort(s);
    SortSorts(r);
    SortSorts(s);
    NormAsMap(x);
    NormAsMap(y);
    MapPermuted((a: Ava) => Ava(a.attr, Norm(a.value)), x, y);
    NormRdnSame(x);
    NormRdnSame(y);
    SortedIsUnique(NormRdn(x), NormRdn(y));
    forall i | 0 <= i < |x|
      ensures SameAva(x[i], y[i])
    {
      assert NormRdn(x)[i] == NormRdn(y)[i];
    }
  }

  /** The part a text is read as, where it can be read. */
  function PartOf(text: string): Ava {
    if ParsedAva(Trim(text)).Ok? then ParsedAva(Trim(text)).value else Ava("", "")
  }

  lemma ReadAsParts(ps: seq<string>)
    requires Collect(AvaResults(ps)).Ok?
    ensures Collect(AvaResults(ps)).value == Map(PartOf, ps)
    ensures forall i :: 0 <= i < |ps| ==> ParsedAva(Trim(ps[i])).Ok?
  {
    var rs := AvaResults(ps);
    Collected(rs);
    forall i | 0 <= i < |ps|
      ensures ParsedAva(Trim(ps[i])).Ok? && Collect(rs).value[i] == PartOf(ps[i])
    {
      assert rs[i] == Options.Ok(Collect(rs).value[i]);
    }
  }

  lemma AlsoRead(ps: seq<string>, qs: seq<string>)
    requires multiset(ps) == multiset(qs) && Collect(AvaResults(ps)).Ok?
    ensures Collect(AvaResults(qs)).Ok? && "" !in qs
  {
    ReadAsParts(ps);
    forall i | 0 <= i < |qs|
      ensures ParsedAva(Trim(qs[i])).Ok?
    {
      assert qs[i] in multiset(qs) && qs[i] in ps;
    }
    AllRead(qs);
  }

  lemma AllRead(qs: seq<string>)
    requires forall i :: 0 <= i < |qs| ==> ParsedAva(Trim(qs[i])).Ok?
    ensures Collect(AvaResults(qs)).Ok? && "" !in qs
  {
    NothingIsNoPart();
    Collected(AvaResults(qs));
  }

  lemma NothingIsNoPart()
    ensures ParsedAva(Trim("")).Err?
  {
    assert Trim("") == "";
  }

  lemma ReadBoth(p: string, q: string)
    requires multiset(Pieces(Trim(p), '+')) == multiset(Pieces(Trim(q), '+')) && ParsedRdn(p).Ok?
    ensures ParsedRdn(q).Ok? && SameRdn(ParsedRdn(p).value, ParsedRdn(q).value)
  {
    var ps, qs := Pieces(Trim(p), '+'), Pieces(Trim(q), '+');
    AlsoRead(ps, qs);
    assert Pieces("", '+')[0] == "";
    ReadAsParts(ps);
    ReadAsParts(qs);
    MapPermuted(PartOf, ps, qs);
    OrderImmaterial(Map(PartOf, ps), Map(PartOf, qs));
  }

  /** Texts with the same `+`-separated parts, in whatever order, are both read or both
      refused, and are read as the same RDN. */
  lemma WrittenOrderImmaterial(p: string, q: string)
    requires multiset(Pieces(Trim(p), '+')) == multiset(Pieces(Trim(q), '+'))
    ensures ParsedRdn(p).Ok? <==> ParsedRdn(q).Ok?
    ensures ParsedRdn(p).Ok? ==> SameRdn(ParsedRdn(p).value, ParsedRdn(q).value)
  {
    if ParsedRdn(p).Ok? {
      ReadBoth(p, q);
    }
    if ParsedRdn(q).Ok? {
      ReadBoth(q, p);
    }
  }
}
