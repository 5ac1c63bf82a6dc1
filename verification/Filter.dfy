/**
  Search filter evaluation (section 4.5.1.7 of RFC 4511): three-valued logic
  over the items, computed with early-exit loops.
 */
module Filter {
  import opened Options
  import opened Entries
  import opened Substrings

  datatype Tri = True | False | Undefined

  datatype Component = Initial(text: string) | Any(text: string) | Final(text: string)

  datatype Filter =
    | And(all: seq<Filter>)
    | Or(some: seq<Filter>)
    | Not(inner: Filter)
    | Present(attr: string)
    | Equality(attr: string, value: string)
    | Approx(attr: string, value: string)
    | SubstringsOf(attr: string, parts: seq<Component>)
    | GreaterOrEqual(attr: string, value: string)
    | LessOrEqual(attr: string, value: string)
    | Extensible(rule: Option<string>, kind: Option<string>, value: string)

  predicate IsItem(f: Filter) {
    !f.And? && !f.Or? && !f.Not?
  }

  /** The string preparation and matching rules that the items use: `fold`,
      `fold_component`, `order` and the table behind `rule`. */
  datatype Rules = Rules(
    fold: string -> string,
    foldComponent: string -> string,
    order: (string, string) -> int,
    known: Option<string> -> bool,
    compare: (Option<string>, string, string) -> Option<bool>)

  function FromBool(b: bool): Tri {
    if b then True else False
  }

  // -------------------------------------------------------------- the meaning

  /** An assignment of truth values to items, extended to every filter. */
  ghost function Meaning(items: Filter -> Tri, f: Filter): Tri
    decreases f
  {
    match f
    case And(fs) =>
      if exists i :: 0 <= i < |fs| && Meaning(items, fs[i]) == False then False
      else if exists i :: 0 <= i < |fs| && Meaning(items, fs[i]) == Undefined then Undefined
      else True
    case Or(fs) =>
      if exists i :: 0 <= i < |fs| && Meaning(items, fs[i]) == True then True
      else if exists i :: 0 <= i < |fs| && Meaning(items, fs[i]) == Undefined then Undefined
      else False
    case Not(g) => Negate(Meaning(items, g))
    case _ => items(f)
  }

  function Negate(t: Tri): Tri {
    match t
    case True => False
    case False => True
    case Undefined => Undefined
  }

  /** `any_value` */
  ghost predicate SomeValue(e: Entry, attr: string, test: string -> bool) {
    exists i :: 0 <= i < |e.Values(attr)| && test(e.Values(attr)[i])
  }

  /** At most one initial component, first, and at most one final one, last. */
  predicate WellPlaced(parts: seq<Component>) {
    forall i :: 0 <= i < |parts| ==> (parts[i].Initial? ==> i == 0) && (parts[i].Final? ==> i == |parts| - 1)
  }

  function InitialOf(r: Rules, parts: seq<Component>): Option<string> {
    if parts != [] && parts[0].Initial? then Some(r.foldComponent(parts[0].text)) else None
  }

  function FinalOf(r: Rules, parts: seq<Component>): Option<string> {
    if parts != [] && parts[|parts| - 1].Final? then Some(r.foldComponent(parts[|parts| - 1].text)) else None
  }

  function AnysOf(r: Rules, parts: seq<Component>): seq<string> {
    if parts == [] then []
    else
      var front := AnysOf(r, parts[..|parts| - 1]);
      if parts[|parts| - 1].Any? then front + [r.foldComponent(parts[|parts| - 1].text)] else front
  }

  /** The attributes an extensible match looks at. */
  function Candidates(e: Entry, kind: Option<string>): set<string> {
    if kind.Some? then {kind.value} else e.attrs.Keys
  }

  ghost predicate SomeCandidate(r: Rules, e: Entry, f: Filter, outcome: Option<bool>)
    requires f.Extensible?
  {
    exists attr, i :: attr in Candidates(e, f.kind) && 0 <= i < |e.Values(attr)|
                      && r.compare(f.rule, e.Values(attr)[i], f.value) == outcome
  }

  /** The value of one item for an entry. */
  ghost function ItemValue(r: Rules, e: Entry, f: Filter): Tri
  {
    match f
    case Present(attr) => FromBool(e.Values(attr) != [])
    case Equality(attr, value) => FromBool(SomeValue(e, attr, v => r.fold(v) == r.fold(value)))
    case Approx(attr, value) => FromBool(SomeValue(e, attr, v => r.fold(v) == r.fold(value)))
    case SubstringsOf(attr, parts) =>
      if !WellPlaced(parts) then Undefined
      else FromBool(exists i :: 0 <= i < |e.Values(attr)|
                                && Matches(r.fold(e.Values(attr)[i]), InitialOf(r, parts), AnysOf(r, parts),
                                           FinalOf(r, parts)))
    case GreaterOrEqual(attr, value) => FromBool(SomeValue(e, attr, v => r.order(v, value) >= 0))
    case LessOrEqual(attr, value) => FromBool(SomeValue(e, attr, v => r.order(v, value) <= 0))
    case Extensible(rule, kind, value) =>
      if !r.known(rule) || (kind.None? && rule.None?) then Undefined
      else if SomeCandidate(r, e, f, Some(true)) then True
      else if kind.Some? && SomeCandidate(r, e, f, None) then Undefined
      else False
    case _ => Undefined
  }

  /** The value of a filter for an entry. */
  ghost function Eval(r: Rules, e: Entry, f: Filter): Tri {
    Meaning(g => ItemValue(r, e, g), f)
  }

  // ----------------------------------------------------------- the evaluation

  method AnyValue(e: Entry, attr: string, test: string -> bool) returns (t: Tri)
    ensures t == FromBool(SomeValue(e, attr, test))
  {
    var vals := e.Values(attr);
    for i := 0 to |vals|
      invariant forall j :: 0 <= j < i ==> !test(vals[j])
    {
      if test(vals[i]) {
        return True;
      }
    }
    t := False;
  }

  predicate Placed(c: Component, i: nat, n: nat) {
    (c.Initial? ==> i == 0) && (c.Final? ==> i == n - 1)
  }

  /** What the loop has of the first `i` components, all in their places. */
  predicate Collected(r: Rules, parts: seq<Component>, i: nat, initial: Option<string>, anys: seq<string>,
                      final: Option<string>)
    requires i <= |parts|
  {
    && (forall j :: 0 <= j < i ==> Placed(parts[j], j, |parts|))
    && initial == (if i > 0 then InitialOf(r, parts) else None)
    && anys == AnysOf(r, parts[..i])
    && final == if i == |parts| then FinalOf(r, parts) else None
  }

  lemma CollectNext(r: Rules, parts: seq<Component>, i: nat, initial: Option<string>, anys: seq<string>,
                    final: Option<string>)
    requires i < |parts| && Collected(r, parts, i, initial, anys, final)
    ensures Placed(parts[i], i, |parts|) ==>
              var text := r.foldComponent(parts[i].text);
              Collected(r, parts, i + 1,
                        if parts[i].Initial? then Some(text) else initial,
                        if parts[i].Any? then anys + [text] else anys,
                        if parts[i].Final? then Some(text) else final)
    ensures !Placed(parts[i], i, |parts|) ==> !WellPlaced(parts)
  {
    assert parts[..i + 1][..i] == parts[..i];
  }

  lemma AllCollected(r: Rules, parts: seq<Component>, initial: Option<string>, anys: seq<string>, final: Option<string>)
    requires Collected(r, parts, |parts|, initial, anys, final)
    ensures WellPlaced(parts) && initial == InitialOf(r, parts)
    ensures anys == AnysOf(r, parts) && final == FinalOf(r, parts)
  {
    assert parts[..|parts|] == parts;
    assert forall i :: 0 <= i < |parts| ==> Placed(parts[i], i, |parts|);
  }

  /** The folded components by kind, or that one is out of place. */
  method CollectParts(r: Rules, parts: seq<Component>)
    returns (placed: bool, initial: Option<string>, anys: seq<string>, final: Option<string>)
    ensures placed <==> WellPlaced(parts)
    ensures placed ==> initial == InitialOf(r, parts) && anys == AnysOf(r, parts) && final == FinalOf(r, parts)
  {
    initial, anys, final := None, [], None;
    var n := |parts|;
    for i := 0 to n
      invariant Collected(r, parts, i, initial, anys, final)
    {
      CollectNext(r, parts, i, initial, anys, final);
      match parts[i] {
        case Initial(v) =>
          if i != 0 {
            return false, initial, anys, final;
          }
          initial := Some(r.foldComponent(v));
        case Any(v) =>
          anys := anys + [r.foldComponent(v)];
        case Final(v) =>
          if i != n - 1 {
            return false, initial, anys, final;
          }
          final := Some(r.foldComponent(v));
      }
    }
    AllCollected(r, parts, initial, anys, final);
    placed := true;
  }

  method EvaluateSubstrings(r: Rules, e: Entry, f: Filter) returns (t: Tri)
    requires f.SubstringsOf?
    ensures t == ItemValue(r, e, f)
  {
    var placed, initial, anys, final := CollectParts(r, f.parts);
    if !placed {
      return Undefined;
    }
    var vals := e.Values(f.attr);
    for i := 0 to |vals|
      invariant forall j :: 0 <= j < i ==> !Matches(r.fold(vals[j]), initial, anys, final)
    {
      var m := SubstringMatch(r.fold(vals[i]), initial, anys, final);
      if m {
        return True;
      }
    }
    t := False;
  }

  method EvaluateExtensible(r: Rules, e: Entry, f: Filter) returns (t: Tri)
    requires f.Extensible?
    ensures t == ItemValue(r, e, f)
  {
    if !r.known(f.rule) || (f.kind.None? && f.rule.None?) {
      return Undefined;
    }
    var attrs := Candidates(e, f.kind);
    var result := False;
    while attrs != {}
      invariant attrs <= Candidates(e, f.kind)
      invariant forall attr, i :: attr in Candidates(e, f.kind) - attrs && 0 <= i < |e.Values(attr)| ==>
                  r.compare(f.rule, e.Values(attr)[i], f.value) != Some(true)
      invariant result == if f.kind.Some? && Seen(r, e, f, Candidates(e, f.kind) - attrs) then Undefined else False
    {
      var attr :| attr in attrs;
      var vals := e.Values(attr);
      ghost var before := result;
      for i := 0 to |vals|
        invariant forall j :: 0 <= j < i ==> r.compare(f.rule, vals[j], f.value) != Some(true)
        invariant result == if f.kind.Some? && exists j :: 0 <= j < i && r.compare(f.rule, vals[j], f.value) == None
                            then Undefined else before
      {
        match r.compare(f.rule, vals[i], f.value) {
          case Some(b) =>
            if b {
              return True;
            }
          case None =>
            if f.kind.Some? {
              result := Undefined;
            }
        }
      }
      attrs := attrs - {attr};
    }
    t := result;
  }

  /** Some value of one of `attrs` cannot be read under the rule. */
  ghost predicate Seen(r: Rules, e: Entry, f: Filter, attrs: set<string>)
    requires f.Extensible?
  {
    exists attr, i ::
      attr in attrs && 0 <= i < |e.Values(attr)| && r.compare(f.rule, e.Values(attr)[i], f.value) == None
  }

  method Evaluate(r: Rules, e: Entry, f: Filter) returns (t: Tri)
    ensures t == Eval(r, e, f)
    decreases f
  {
    match f {
      case And(fs) =>
        var result := True;
        for i := 0 to |fs|
          invariant forall j :: 0 <= j < i ==> Eval(r, e, fs[j]) != False
          invariant result == if exists j :: 0 <= j < i && Eval(r, e, fs[j]) == Undefined then Undefined else True
        {
          var x := Evaluate(r, e, fs[i]);
          match x {
            case False => return False;
            case Undefined => result := Undefined;
            case True =>
          }
        }
        t := result;
      case Or(fs) =>
        var result := False;
        for i := 0 to |fs|
          invariant forall j :: 0 <= j < i ==> Eval(r, e, fs[j]) != True
          invariant result == if exists j :: 0 <= j < i && Eval(r, e, fs[j]) == Undefined then Undefined else False
        {
          var x := Evaluate(r, e, fs[i]);
          match x {
            case True => return True;
            case Undefined => result := Undefined;
            case False =>
          }
        }
        t := result;
      case Not(g) =>
        var x := Evaluate(r, e, g);
        t := Negate(x);
      case Present(attr) => t := FromBool(e.Values(attr) != []);
      case Equality(attr, value) => t := AnyValue(e, attr, v => r.fold(v) == r.fold(value));
      case Approx(attr, value) => t := AnyValue(e, attr, v => r.fold(v) == r.fold(value));
      case SubstringsOf(_, _) => t := EvaluateSubstrings(r, e, f);
      case GreaterOrEqual(attr, value) => t := AnyValue(e, attr, v => r.order(v, value) >= 0);
      case LessOrEqual(attr, value) => t := AnyValue(e, attr, v => r.order(v, value) <= 0);
      case Extensible(_, _, _) => t := EvaluateExtensible(r, e, f);
    }
  }

  /** `matches`: only a filter that is TRUE selects the entry. */
  method Selects(r: Rules, e: Entry, f: Filter) returns (b: bool)
    ensures b <==> Eval(r, e, f) == True
    ensures b ==> Eval(r, e, Not(f)) != True
  {
    var t := Evaluate(r, e, f);
    b := t == True;
  }

  // ------------------------------------------------------- what the items ask for

  /** Presence, equality, approximate match and order: true when some value of the
      attribute has it, and otherwise false. `order` is positive where its first
      argument comes later. */
  lemma ValuesDecide(r: Rules, e: Entry, attr: string, value: string)
    ensures var vs := e.Values(attr);
            && Eval(r, e, Present(attr)) == (if |vs| > 0 then True else False)
            && Eval(r, e, Equality(attr, value))
               == (if exists i :: 0 <= i < |vs| && r.fold(vs[i]) == r.fold(value) then True else False)
            && Eval(r, e, Approx(attr, value)) == Eval(r, e, Equality(attr, value))
            && Eval(r, e, GreaterOrEqual(attr, value))
               == (if exists i :: 0 <= i < |vs| && r.order(vs[i], value) >= 0 then True else False)
            && Eval(r, e, LessOrEqual(attr, value))
               == (if exists i :: 0 <= i < |vs| && r.order(vs[i], value) <= 0 then True else False)
  {
  }

  /** Where the attribute is present one of the two order items is true; and one is
      false exactly when all values lie strictly on the other side. */
  lemma OrderItemsSplit(r: Rules, e: Entry, attr: string, value: string)
    ensures Eval(r, e, Present(attr)) == True <==>
              Eval(r, e, GreaterOrEqual(attr, value)) == True || Eval(r, e, LessOrEqual(attr, value)) == True
    ensures Eval(r, e, Not(GreaterOrEqual(attr, value))) == True <==>
              forall i :: 0 <= i < |e.Values(attr)| ==> r.order(e.Values(attr)[i], value) < 0
    ensures Eval(r, e, Not(LessOrEqual(attr, value))) == True <==>
              forall i :: 0 <= i < |e.Values(attr)| ==> r.order(e.Values(attr)[i], value) > 0
  {
    ValuesDecide(r, e, attr, value);
    var vs := e.Values(attr);
    if |vs| > 0 {
      assert r.order(vs[0], value) >= 0 || r.order(vs[0], value) <= 0;
    }
  }

  /** A substrings item is undefined when a component is out of place, and otherwise
      true when some value matches the initial, the any and the final ones. */
  lemma SubstringsDecide(r: Rules, e: Entry, attr: string, parts: seq<Component>)
    ensures var t := Eval(r, e, SubstringsOf(attr, parts));
            if exists i :: 0 <= i < |parts| && ((parts[i].Initial? && i != 0) || (parts[i].Final? && i != |parts| - 1))
            then t == Undefined
            else t == True || t == False
    ensures Eval(r, e, SubstringsOf(attr, parts)) == True <==>
              && WellPlaced(parts)
              && exists i :: 0 <= i < |e.Values(attr)| &&
                   Matches(r.fold(e.Values(attr)[i]), InitialOf(r, parts), AnysOf(r, parts), FinalOf(r, parts))
  {
  }

  /** An extensible match: undefined without a rule it knows or without rule and type;
      else true when a value of the type, or without a type of any attribute, passes;
      else undefined when the type is named and a value of it cannot be compared. */
  lemma ExtensibleDecides(r: Rules, e: Entry, rule: Option<string>, kind: Option<string>, value: string)
    ensures var t := Eval(r, e, Extensible(rule, kind, value));
            if !r.known(rule) || (kind == None && rule == None) then t == Undefined
            else
              && (t == True <==>
                    exists attr, i ::
                      && (if kind.Some? then attr == kind.value else attr in e.attrs)
                      && 0 <= i < |e.Values(attr)| && r.compare(rule, e.Values(attr)[i], value) == Some(true))
              && (t == Undefined <==>
                    && t != True && kind.Some?
                    && exists i :: 0 <= i < |e.Values(kind.value)| &&
                         r.compare(rule, e.Values(kind.value)[i], value) == None)
  {
  }

  // ------------------------------------------------------------ equivalences

  /** Pushes every negation down to the items, by De Morgan and double negation. */
  function Nnf(f: Filter, negated: bool): Filter
    decreases f
  {
    match f
    case And(fs) =>
      var gs := seq(|fs|, i requires 0 <= i < |fs| => Nnf(fs[i], negated));
      if negated then Or(gs) else And(gs)
    case Or(fs) =>
      var gs := seq(|fs|, i requires 0 <= i < |fs| => Nnf(fs[i], negated));
      if negated then And(gs) else Or(gs)
    case Not(g) => Nnf(g, !negated)
    case _ => if negated then Not(f) else f
  }

  /** Only items are negated. */
  predicate IsNnf(f: Filter)
    decreases f
  {
    match f
    case And(fs) => forall i :: 0 <= i < |fs| ==> IsNnf(fs[i])
    case Or(fs) => forall i :: 0 <= i < |fs| ==> IsNnf(fs[i])
    case Not(g) => IsItem(g)
    case _ => true
  }

  lemma {:induction false} NnfIsNnf(f: Filter, negated: bool)
    ensures IsNnf(Nnf(f, negated))
    decreases f
  {
    match f
    case And(fs) =>
      forall i | 0 <= i < |fs| ensures IsNnf(Nnf(fs[i], negated)) { NnfIsNnf(fs[i], negated); }
    case Or(fs) =>
      forall i | 0 <= i < |fs| ensures IsNnf(Nnf(fs[i], negated)) { NnfIsNnf(fs[i], negated); }
    case Not(g) => NnfIsNnf(g, !negated);
    case _ =>
  }

  function NegateIf(negated: bool, t: Tri): Tri {
    if negated then Negate(t) else t
  }

  lemma {:induction false} NnfMeaning(items: Filter -> Tri, f: Filter, negated: bool)
    ensures Meaning(items, Nnf(f, negated)) == NegateIf(negated, Meaning(items, f))
    decreases f
  {
    match f
    case And(fs) => NnfChildren(items, fs, negated, f);
    case Or(fs) => NnfChildren(items, fs, negated, f);
    case Not(g) => NnfMeaning(items, g, !negated);
    case _ =>
  }

  lemma {:induction false} NnfChildren(items: Filter -> Tri, fs: seq<Filter>, negated: bool, f: Filter)
    requires f == And(fs) || f == Or(fs)
    ensures Meaning(items, Nnf(f, negated)) == NegateIf(negated, Meaning(items, f))
    decreases f, 0
  {
    forall i | 0 <= i < |fs|
      ensures Meaning(items, Nnf(fs[i], negated)) == NegateIf(negated, Meaning(items, fs[i]))
    {
      NnfMeaning(items, fs[i], negated);
    }
    var gs := seq(|fs|, i requires 0 <= i < |fs| => Nnf(fs[i], negated));
    SameOutcomes(items, fs, gs, negated, f);
  }

  lemma SameOutcomes(items: Filter -> Tri, fs: seq<Filter>, gs: seq<Filter>, negated: bool, f: Filter)
    requires |fs| == |gs| && (f == And(fs) || f == Or(fs))
    requires forall i :: 0 <= i < |fs| ==> Meaning(items, gs[i]) == NegateIf(negated, Meaning(items, fs[i]))
    ensures Meaning(items, if f.And? == negated then Or(gs) else And(gs)) == NegateIf(negated, Meaning(items, f))
  {
    forall t
      ensures HasOutcome(items, fs, t) <==> HasOutcome(items, gs, NegateIf(negated, t))
    {
      if HasOutcome(items, fs, t) {
        var i :| 0 <= i < |fs| && Meaning(items, fs[i]) == t;
        assert Meaning(items, gs[i]) == NegateIf(negated, t);
      }
      if HasOutcome(items, gs, NegateIf(negated, t)) {
        var i :| 0 <= i < |gs| && Meaning(items, gs[i]) == NegateIf(negated, t);
        assert Meaning(items, fs[i]) == t;
      }
    }
    assert HasOutcome(items, fs, True) <==> HasOutcome(items, gs, NegateIf(negated, True));
    assert HasOutcome(items, fs, False) <==> HasOutcome(items, gs, NegateIf(negated, False));
    assert HasOutcome(items, fs, Undefined) <==> HasOutcome(items, gs, NegateIf(negated, Undefined));
    Outcomes(items, fs);
    Outcomes(items, gs);
  }

  ghost predicate HasOutcome(items: Filter -> Tri, fs: seq<Filter>, t: Tri) {
    exists i :: 0 <= i < |fs| && Meaning(items, fs[i]) == t
  }

  lemma Outcomes(items: Filter -> Tri, fs: seq<Filter>)
    ensures Meaning(items, And(fs)) ==
              if HasOutcome(items, fs, False) then False
              else if HasOutcome(items, fs, Undefined) then Undefined
              else True
    ensures Meaning(items, Or(fs)) ==
              if HasOutcome(items, fs, True) then True
              else if HasOutcome(items, fs, Undefined) then Undefined
              else False
  {
  }

  /** Moving the negations to the items changes no three-valued result. */
  lemma NegationNormalForm(r: Rules, e: Entry, f: Filter)
    ensures IsNnf(Nnf(f, false))
    ensures Eval(r, e, Nnf(f, false)) == Eval(r, e, f)
  {
    NnfIsNnf(f, false);
    NnfMeaning(g => ItemValue(r, e, g), f, false);
  }

  /** And and Or depend on which filters they hold, not on order or repetition. */
  lemma ChildrenAsSet(r: Rules, e: Entry, fs: seq<Filter>, gs: seq<Filter>)
    requires forall f :: f in fs <==> f in gs
    ensures Eval(r, e, And(fs)) == Eval(r, e, And(gs))
    ensures Eval(r, e, Or(fs)) == Eval(r, e, Or(gs))
  {
    var items := g => ItemValue(r, e, g);
    forall t
      ensures HasOutcome(items, fs, t) <==> HasOutcome(items, gs, t)
    {
      if HasOutcome(items, fs, t) {
        var i :| 0 <= i < |fs| && Meaning(items, fs[i]) == t;
        assert fs[i] in gs;
      }
      if HasOutcome(items, gs, t) {
        var i :| 0 <= i < |gs| && Meaning(items, gs[i]) == t;
        assert gs[i] in fs;
      }
    }
    assert HasOutcome(items, fs, True) <==> HasOutcome(items, gs, True);
    assert HasOutcome(items, fs, False) <==> HasOutcome(items, gs, False);
    assert HasOutcome(items, fs, Undefined) <==> HasOutcome(items, gs, Undefined);
    Outcomes(items, fs);
    Outcomes(items, gs);
  }

  /** A filter that is not Undefined stays as it is when Undefined items are
      decided either way: Undefined never stands for a wrong answer. */
  lemma {:induction false} UndefinedIsUnknown(items: Filter -> Tri, decided: Filter -> Tri, f: Filter)
    requires forall g :: items(g) == Undefined || decided(g) == items(g)
    requires Meaning(items, f) != Undefined
    ensures Meaning(decided, f) == Meaning(items, f)
    decreases f
  {
    match f
    case And(fs) => UndefinedChildren(items, decided, fs, f);
    case Or(fs) => UndefinedChildren(items, decided, fs, f);
    case Not(g) => UndefinedIsUnknown(items, decided, g);
    case _ =>
  }

  lemma {:induction false} UndefinedChildren(items: Filter -> Tri, decided: Filter -> Tri, fs: seq<Filter>, f: Filter)
    requires forall g :: items(g) == Undefined || decided(g) == items(g)
    requires (f == And(fs) || f == Or(fs)) && Meaning(items, f) != Undefined
    ensures Meaning(decided, f) == Meaning(items, f)
    decreases f, 0
  {
    forall i | 0 <= i < |fs| && Meaning(items, fs[i]) != Undefined
      ensures Meaning(decided, fs[i]) == Meaning(items, fs[i])
    {
      UndefinedIsUnknown(items, decided, fs[i]);
    }
    Outcomes(items, fs);
    Outcomes(decided, fs);
  }
}
