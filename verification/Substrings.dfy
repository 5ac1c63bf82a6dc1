/** The greedy substring matcher of the search filter. */
module Substrings {
  import opened Options

  /** `p` occurs in `s` at position `i`. */
  predicate Occurs(s: string, p: string, i: nat) {
    i + |p| <= |s| && s[i..i + |p|] == p
  }

  function FindFrom(s: string, p: string, i: nat): (r: Option<nat>)
    requires i <= |s|
    ensures r.Some? ==> i <= r.value && Occurs(s, p, r.value) && forall j: nat :: i <= j < r.value ==> !Occurs(s, p, j)
    ensures r.None? ==> forall j: nat :: i <= j ==> !Occurs(s, p, j)
    decreases |s| - i
  {
    if Occurs(s, p, i) then Some(i) else if i == |s| then None else FindFrom(s, p, i + 1)
  }

  /** `str::find`: the first occurrence. */
  function Find(s: string, p: string): (r: Option<nat>)
    ensures r.Some? ==> Occurs(s, p, r.value) && forall j: nat :: j < r.value ==> !Occurs(s, p, j)
    ensures r.None? ==> forall j: nat :: !Occurs(s, p, j)
  {
    FindFrom(s, p, 0)
  }

  /** `ps` places every component of `any` in `value`, in order, without
      overlap, and no earlier than `start`. */
  ghost predicate Placement(value: string, start: nat, any: seq<string>, ps: seq<nat>) {
    && |ps| == |any|
    && forall k :: 0 <= k < |any| ==> Placed(value, start, any, ps, k)
  }

  ghost predicate Placed(value: string, start: nat, any: seq<string>, ps: seq<nat>, k: nat)
    requires k < |any| == |ps|
  {
    && Occurs(value, any[k], ps[k])
    && End(start, any[..k], ps[..k]) <= ps[k]
  }

  /** Where the last placed component ends. */
  ghost function End(start: nat, any: seq<string>, ps: seq<nat>): nat
    requires |ps| == |any|
  {
    if any == [] then start else ps[|any| - 1] + |any[|any| - 1]|
  }

  function InitialLength(initial: Option<string>): nat {
    if initial.Some? then |initial.value| else 0
  }

  /** The components have a place: `initial` at the start, every `any` after it
      in order and without overlap, `final` at the end and after them all. */
  ghost predicate Matches(value: string, initial: Option<string>, any: seq<string>, final: Option<string>) {
    && (initial.Some? ==> Occurs(value, initial.value, 0))
    && exists ps ::
         && Placement(value, InitialLength(initial), any, ps)
         && (final.Some? ==>
               && End(InitialLength(initial), any, ps) + |final.value| <= |value|
               && Occurs(value, final.value, |value| - |final.value|))
  }

  // -------------------------------------------------------- the value in pieces

  /** The components with a gap before each, and one after the last. */
  function Woven(gaps: seq<string>, any: seq<string>): string
    requires |gaps| == |any| + 1
  {
    if any == [] then gaps[0]
    else Woven(gaps[..|any|], any[..|any| - 1]) + any[|any| - 1] + gaps[|any|]
  }

  lemma {:induction false} PlacementWeaves(value: string, start: nat, any: seq<string>, ps: seq<nat>, limit: nat)
    returns (gaps: seq<string>)
    requires Placement(value, start, any, ps) && start <= limit <= |value| && End(start, any, ps) <= limit
    ensures |gaps| == |any| + 1 && value[start..limit] == Woven(gaps, any)
  {
    if any == [] {
      gaps := [value[start..limit]];
    } else {
      var n := |any| - 1;
      PlacementPrefix(value, start, any, ps, n);
      StartsBefore(value, start, any[..n], ps[..n]);
      var front := PlacementWeaves(value, start, any[..n], ps[..n], ps[n]);
      var p := ps[n];
      gaps := front + [value[p + |any[n]|..limit]];
      assert gaps[..|any|] == front;
      assert value[start..limit] == value[start..p] + value[p..p + |any[n]|] + value[p + |any[n]|..limit];
    }
  }

  lemma {:induction false} StartsBefore(value: string, start: nat, any: seq<string>, ps: seq<nat>)
    requires Placement(value, start, any, ps)
    ensures start <= End(start, any, ps)
  {
    if any != [] {
      PlacementPrefix(value, start, any, ps, |any| - 1);
      StartsBefore(value, start, any[..|any| - 1], ps[..|any| - 1]);
    }
  }

  lemma {:induction false} WeavesPlacement(value: string, start: nat, any: seq<string>, gaps: seq<string>, limit: nat)
    returns (ps: seq<nat>)
    requires start <= limit <= |value| && |gaps| == |any| + 1 && value[start..limit] == Woven(gaps, any)
    ensures Placement(value, start, any, ps) && End(start, any, ps) <= limit
  {
    if any == [] {
      ps := [];
    } else {
      var n := |any| - 1;
      var front := Woven(gaps[..|any|], any[..n]);
      var p := start + |front|;
      ThreePieces(value, start, limit, front, any[n], gaps[|any|]);
      var before := WeavesPlacement(value, start, any[..n], gaps[..|any|], p);
      ps := before + [p];
      assert any == any[..n] + [any[n]];
      PlacementExtend(value, start, any[..n], before, any[n], p);
    }
  }

  lemma ThreePieces(value: string, start: nat, limit: nat, a: string, b: string, c: string)
    requires start <= limit <= |value| && value[start..limit] == a + b + c
    ensures start + |a| + |b| <= limit
    ensures value[start..start + |a|] == a && value[start + |a|..start + |a| + |b|] == b
    ensures value[start + |a| + |b|..limit] == c
  {
    var s := value[start..limit];
    assert |s| == |a| + |b| + |c|;
    assert a == s[..|a|] && b == s[|a|..|a| + |b|] && c == s[|a| + |b|..];
    assert forall j :: 0 <= j < |s| ==> s[j] == value[start + j];
  }

  function TextOf(part: Option<string>): string {
    if part.Some? then part.value else ""
  }

  /** The components have a place exactly when the value is the initial one, then
      the others with something or nothing in between, then the final one. */
  lemma MatchesIff(value: string, initial: Option<string>, any: seq<string>, final: Option<string>)
    ensures Matches(value, initial, any, final) <==>
              exists gaps ::
                && |gaps| == |any| + 1
                && value == TextOf(initial) + Woven(gaps, any) + TextOf(final)
  {
    if Matches(value, initial, any, final) {
      var gaps := MatchWeaves(value, initial, any, final);
    }
    forall gaps | |gaps| == |any| + 1 && value == TextOf(initial) + Woven(gaps, any) + TextOf(final)
      ensures Matches(value, initial, any, final)
    {
      WovenMatches(value, initial, any, final, gaps);
    }
  }

  lemma MatchWeaves(value: string, initial: Option<string>, any: seq<string>, final: Option<string>)
    returns (gaps: seq<string>)
    requires Matches(value, initial, any, final)
    ensures |gaps| == |any| + 1 && value == TextOf(initial) + Woven(gaps, any) + TextOf(final)
  {
    var i, f := TextOf(initial), TextOf(final);
    var ps :|
      && Placement(value, InitialLength(initial), any, ps)
      && (final.Some? ==>
            && End(InitialLength(initial), any, ps) + |final.value| <= |value|
            && Occurs(value, final.value, |value| - |final.value|));
    StartsBefore(value, |i|, any, ps);
    EndsWithin(value, |i|, any, ps);
    gaps := PlacementWeaves(value, |i|, any, ps, |value| - |f|);
    assert value[..|i|] == i && value[|value| - |f|..] == f;
    assert value == value[..|i|] + value[|i|..|value| - |f|] + value[|value| - |f|..];
  }

  lemma WovenMatches(value: string, initial: Option<string>, any: seq<string>, final: Option<string>, gaps: seq<string>)
    requires |gaps| == |any| + 1 && value == TextOf(initial) + Woven(gaps, any) + TextOf(final)
    ensures Matches(value, initial, any, final)
  {
    var i, f := TextOf(initial), TextOf(final);
    Around(value, i, Woven(gaps, any), f);
    var ps := WeavesPlacement(value, |i|, any, gaps, |value| - |f|);
    PlacedMatches(value, initial, any, final, ps);
  }

  lemma Around(value: string, a: string, b: string, c: string)
    requires value == a + b + c
    ensures |a| <= |value| - |c| && value[|a|..|value| - |c|] == b && value[..|a|] == a && value[|value| - |c|..] == c
  {
  }

  lemma PlacedMatches(value: string, initial: Option<string>, any: seq<string>, final: Option<string>, ps: seq<nat>)
    requires |TextOf(initial)| + |TextOf(final)| <= |value|
    requires value[..|TextOf(initial)|] == TextOf(initial) && value[|value| - |TextOf(final)|..] == TextOf(final)
    requires Placement(value, |TextOf(initial)|, any, ps)
    requires End(|TextOf(initial)|, any, ps) <= |value| - |TextOf(final)|
    ensures Matches(value, initial, any, final)
  {
    assert |TextOf(initial)| == InitialLength(initial);
  }

  lemma EndsWithin(value: string, start: nat, any: seq<string>, ps: seq<nat>)
    requires Placement(value, start, any, ps) && start <= |value|
    ensures End(start, any, ps) <= |value|
  {
    if any != [] {
      PlacementPrefix(value, start, any, ps, |any| - 1);
    }
  }

  // ---------------------------------------------------------------- the matcher

  /** `rest` is always the part of the value after the leftmost placement of
      the components seen so far, so no other placement leaves more room. */
  method SubstringMatch(value: string, initial: Option<string>, any: seq<string>, final: Option<string>)
    returns (matched: bool)
    ensures matched <==> Matches(value, initial, any, final)
  {
    var rest := value;
    if initial.Some? {
      if !Occurs(rest, initial.value, 0) {
        return false;
      }
      rest := rest[|initial.value|..];
    }
    ghost var start := InitialLength(initial);
    ghost var ps: seq<nat> := [];
    for k := 0 to |any|
      invariant |rest| <= |value| && rest == value[|value| - |rest|..]
      invariant Leftmost(value, start, any[..k], ps, |value| - |rest|)
    {
      var pos := Find(rest, any[k]);
      if pos.None? {
        NoRoom(value, start, any, k, ps, rest);
        return false;
      }
      PlaceNext(value, start, any, k, ps, rest, pos.value);
      ps := ps + [|value| - |rest| + pos.value];
      rest := rest[pos.value + |any[k]|..];
    }
    assert any[..|any|] == any;
    matched := final.None? || (|rest| >= |final.value| && Occurs(rest, final.value, |rest| - |final.value|));
    FinalFits(value, initial, any, final, ps, rest);
  }

  lemma FinalFits(value: string, initial: Option<string>, any: seq<string>, final: Option<string>, ps: seq<nat>,
                  rest: string)
    requires initial.Some? ==> Occurs(value, initial.value, 0)
    requires |rest| <= |value| && rest == value[|value| - |rest|..]
    requires Leftmost(value, InitialLength(initial), any, ps, |value| - |rest|)
    ensures Matches(value, initial, any, final) <==>
              final.None? || (|rest| >= |final.value| && Occurs(rest, final.value, |rest| - |final.value|))
  {
    if final.Some? && |rest| >= |final.value| {
      OccursInRest(value, rest, final.value, |rest| - |final.value|);
    }
  }

  /** `ps` is a placement ending at `at`, and every placement ends there or later. */
  ghost predicate Leftmost(value: string, start: nat, any: seq<string>, ps: seq<nat>, at: nat) {
    && Placement(value, start, any, ps)
    && End(start, any, ps) == at
    && forall qs :: Placement(value, start, any, qs) ==> at <= End(start, any, qs)
  }

  lemma PlacementPrefix(value: string, start: nat, any: seq<string>, qs: seq<nat>, k: nat)
    requires Placement(value, start, any, qs) && k < |any|
    ensures Placement(value, start, any[..k], qs[..k])
    ensures Occurs(value, any[k], qs[k]) && End(start, any[..k], qs[..k]) <= qs[k]
  {
    assert Placed(value, start, any, qs, k);
    forall j | 0 <= j < k
      ensures Placed(value, start, any[..k], qs[..k], j)
    {
      assert Placed(value, start, any, qs, j);
      assert any[..k][..j] == any[..j] && qs[..k][..j] == qs[..j];
    }
  }

  lemma PlacementExtend(value: string, start: nat, any: seq<string>, ps: seq<nat>, a: string, p: nat)
    requires Placement(value, start, any, ps) && Occurs(value, a, p) && End(start, any, ps) <= p
    ensures Placement(value, start, any + [a], ps + [p])
  {
    forall j | 0 <= j <= |any|
      ensures Placed(value, start, any + [a], ps + [p], j)
    {
      assert (any + [a])[..j] == any[..j] && (ps + [p])[..j] == ps[..j];
      if j < |any| {
        assert Placed(value, start, any, ps, j);
      } else {
        assert any[..j] == any && ps[..j] == ps;
      }
    }
  }

  lemma OccursInRest(value: string, rest: string, p: string, i: nat)
    requires |rest| <= |value| && rest == value[|value| - |rest|..]
    ensures Occurs(rest, p, i) <==> Occurs(value, p, |value| - |rest| + i)
  {
    var at := |value| - |rest|;
    if i + |p| <= |rest| {
      assert rest[i..i + |p|] == value[at + i..at + i + |p|];
    }
  }

  lemma NoRoom(value: string, start: nat, any: seq<string>, k: nat, ps: seq<nat>, rest: string)
    requires k < |any| && |rest| <= |value| && rest == value[|value| - |rest|..]
    requires Leftmost(value, start, any[..k], ps, |value| - |rest|)
    requires forall j: nat :: !Occurs(rest, any[k], j)
    ensures forall qs :: !Placement(value, start, any, qs)
  {
    forall qs | Placement(value, start, any, qs)
      ensures false
    {
      PlacementPrefix(value, start, any, qs, k);
      OccursInRest(value, rest, any[k], qs[k] - (|value| - |rest|));
    }
  }

  lemma PlaceNext(value: string, start: nat, any: seq<string>, k: nat, ps: seq<nat>, rest: string, pos: nat)
    requires k < |any| && |rest| <= |value| && rest == value[|value| - |rest|..]
    requires Leftmost(value, start, any[..k], ps, |value| - |rest|)
    requires Occurs(rest, any[k], pos) && forall j: nat :: j < pos ==> !Occurs(rest, any[k], j)
    ensures Leftmost(value, start, any[..k + 1], ps + [|value| - |rest| + pos], |value| - |rest| + pos + |any[k]|)
  {
    var at := |value| - |rest|;
    var next := any[..k + 1];
    assert next[..k] == any[..k] && next == any[..k] + [any[k]];
    OccursInRest(value, rest, any[k], pos);
    PlacementExtend(value, start, any[..k], ps, any[k], at + pos);
    forall qs | Placement(value, start, next, qs)
      ensures at + pos + |any[k]| <= End(start, next, qs)
    {
      PlacementPrefix(value, start, next, qs, k);
      OccursInRest(value, rest, any[k], qs[k] - at);
    }
  }
}
