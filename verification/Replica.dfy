/** The partial replica of the global catalog (`iron-gc`): subscribe to a subtree,
    scan it, then apply the events of the subscription. */
module Replica {
  import opened Options
  import opened Text
  import opened Entries
  import DN = DistinguishedNames
  import Keys

  // -------------------------------------------------------------- projection

  predicate Listed(whitelist: seq<string>, name: string) {
    exists i :: 0 <= i < |whitelist| && Lower(whitelist[i]) == Lower(name)
  }

  /** The attributes on the whitelist. A name that is not stored in lower case is
      not found again, and drops out. */
  function Projected(e: Entry, whitelist: seq<string>): Entry {
    Entry(map a | a in e.attrs && Lower(a) == a && Listed(whitelist, a) :: e.attrs[a])
  }

  /** What a projection has: for a name that the whitelist has in some case, what
      the entry has, and for any other nothing. */
  lemma ProjectionShows(e: Entry, whitelist: seq<string>, name: string)
    ensures Projected(e, whitelist).Get(name)
         == if exists i :: 0 <= i < |whitelist| && Lower(whitelist[i]) == Lower(name) then e.Get(name) else None
  {
    LowerIdempotent(name);
  }

  /** What the loop has kept once it has seen the names in `done`. */
  ghost predicate Kept(e: Entry, whitelist: seq<string>, done: set<string>, kept: map<string, seq<string>>) {
    && (forall x :: x in kept ==> x in e.attrs && kept[x] == e.attrs[x] && Lower(x) == x && Listed(whitelist, x))
    && (forall a :: a in done && Listed(whitelist, a) && Lower(a) in e.attrs ==> Lower(a) in kept)
  }

  method Project(e: Entry, whitelist: seq<string>) returns (p: Entry)
    ensures p == Projected(e, whitelist)
    ensures forall name :: p.Get(name) ==
              if exists i :: 0 <= i < |whitelist| && Lower(whitelist[i]) == Lower(name) then e.Get(name) else None
  {
    p := Entry(map[]);
    var names := e.attrs.Keys;
    ghost var done: set<string> := {};
    while names != {}
      invariant names + done == e.attrs.Keys
      invariant Kept(e, whitelist, done, p.attrs)
      decreases |names|
    {
      var name :| name in names;
      LowerIdempotent(name);
      ghost var before := p.attrs;
      if Listed(whitelist, name) {
        var values := e.Get(name);
        if values.Some? {
          p := p.Set(name, values.value);
        }
      }
      KeptStep(e, whitelist, done, before, name);
      names, done := names - {name}, done + {name};
    }
    assert done == e.attrs.Keys;
    AllKept(e, whitelist, p.attrs);
    ProjectionShowsAll(e, whitelist);
  }

  lemma ProjectionShowsAll(e: Entry, whitelist: seq<string>)
    ensures forall name :: Projected(e, whitelist).Get(name) ==
              if exists i :: 0 <= i < |whitelist| && Lower(whitelist[i]) == Lower(name) then e.Get(name) else None
  {
    forall name
      ensures Projected(e, whitelist).Get(name) ==
                if exists i :: 0 <= i < |whitelist| && Lower(whitelist[i]) == Lower(name) then e.Get(name) else None
    {
      ProjectionShows(e, whitelist, name);
    }
  }

  lemma KeptStep(e: Entry, whitelist: seq<string>, done: set<string>, kept: map<string, seq<string>>, name: string)
    requires Kept(e, whitelist, done, kept) && Lower(Lower(name)) == Lower(name)
    ensures Kept(e, whitelist, done + {name},
                 if Listed(whitelist, name) && Lower(name) in e.attrs then kept[Lower(name) := e.attrs[Lower(name)]]
                 else kept)
  {
  }

  lemma AllKept(e: Entry, whitelist: seq<string>, kept: map<string, seq<string>>)
    requires Kept(e, whitelist, e.attrs.Keys, kept)
    ensures kept == Projected(e, whitelist).attrs
  {
    forall a | a in e.attrs && Lower(a) == a && Listed(whitelist, a)
      ensures a in kept
    {
      assert Lower(a) in kept;
    }
  }

  // ----------------------------------------------------------------- the store

  /** A committed write; a value that does not decode is `None`. */
  datatype Write = Put(key: string, value: Option<Entry>) | Del(key: string)

  type Contents = map<string, Option<Entry>>

  /** The store after the first `r` writes. */
  function At(log: seq<Write>, r: nat): Contents
    requires r <= |log|
  {
    if r == 0 then map[]
    else
      match log[r - 1]
      case Put(k, v) => At(log, r - 1)[k := v]
      case Del(k) => At(log, r - 1) - {k}
  }

  /** The writes after revision `w` up to `r` that a subscription to a prefix sees. */
  function Events(log: seq<Write>, prefix: string, w: nat, r: nat): seq<Write>
    requires w <= r <= |log|
    decreases r
  {
    if w == r then []
    else Events(log, prefix, w, r - 1) + (if prefix <= log[r - 1].key then [log[r - 1]] else [])
  }

  type Row = (string, Option<Entry>)

  /** The rows of the range below a prefix at a revision. */
  ghost predicate IsRange(log: seq<Write>, prefix: string, r: nat, rows: seq<Row>)
    requires r <= |log|
  {
    && (forall i :: 0 <= i < |rows| ==>
          prefix <= rows[i].0 && rows[i].0 in At(log, r) && rows[i].1 == At(log, r)[rows[i].0])
    && (forall k :: k in At(log, r) && prefix <= k ==> HasRow(rows, k))
  }

  /** The answer to a read of one key at a revision. */
  function ReadAt(log: seq<Write>, r: nat, k: string): Option<Option<Entry>>
    requires r <= |log|
  {
    if k in At(log, r) then Some(At(log, r)[k]) else None
  }

  /** The range as the store had it at revision `s1`, and before it the base entry
      as the store had it at revision `s2`. */
  method ScanSubtree(range: seq<Row>, baseKey: string, base: Option<Option<Entry>>, ghost log: seq<Write>,
                     ghost s1: nat, ghost s2: nat)
    returns (out: seq<Row>)
    requires s1 <= |log| && s2 <= |log|
    requires IsRange(log, baseKey + "/", s1, range) && base == ReadAt(log, s2, baseKey)
    ensures IsScan(log, baseKey + "/", baseKey, s1, s2, out)
  {
    out := range;
    if base.Some? {
      out := [(baseKey, base.value)] + out;
    }
    ScanIsScan(range, baseKey, base, log, s1, s2, out);
  }

  lemma ScanIsScan(range: seq<Row>, baseKey: string, base: Option<Option<Entry>>, log: seq<Write>, s1: nat, s2: nat,
                   out: seq<Row>)
    requires s1 <= |log| && s2 <= |log|
    requires IsRange(log, baseKey + "/", s1, range) && base == ReadAt(log, s2, baseKey)
    requires out == (if base.Some? then [(baseKey, base.value)] else []) + range
    ensures IsScan(log, baseKey + "/", baseKey, s1, s2, out)
  {
    var n := |out| - |range|;
    assert forall i :: 0 <= i < |range| ==> out[n + i] == range[i];
    forall k | k in At(log, s1) && baseKey + "/" <= k
      ensures HasRow(out, k)
    {
      var i :| 0 <= i < |range| && range[i].0 == k;
      assert out[n + i].0 == k;
    }
    if base.Some? {
      assert out[0].0 == baseKey;
    }
  }

  /** The rows of a scan whose range was read at revision `s1` and whose base
      entry was read at revision `s2`. */
  ghost predicate IsScan(log: seq<Write>, prefix: string, baseKey: string, s1: nat, s2: nat, rows: seq<Row>)
    requires s1 <= |log| && s2 <= |log|
  {
    && (forall i :: 0 <= i < |rows| ==> FromScan(log, prefix, baseKey, s1, s2, rows[i]))
    && (forall k :: k in At(log, s1) && prefix <= k ==> HasRow(rows, k))
    && (baseKey in At(log, s2) ==> HasRow(rows, baseKey))
  }

  ghost predicate FromScan(log: seq<Write>, prefix: string, baseKey: string, s1: nat, s2: nat, row: Row)
    requires s1 <= |log| && s2 <= |log|
  {
    || (prefix <= row.0 && row.0 in At(log, s1) && row.1 == At(log, s1)[row.0])
    || (row.0 == baseKey && baseKey in At(log, s2) && row.1 == At(log, s2)[baseKey])
  }

  predicate HasRow(rows: seq<Row>, k: string) {
    exists i :: 0 <= i < |rows| && rows[i].0 == k
  }

  // ------------------------------------------------------------ the aggregate

  /** A tree key taken apart: the name, and its printed form. */
  datatype Label = Label(text: string, dn: DN.Dn)

  type Labels = string -> Option<Label>

  function KeyLabels(pid: string): Labels {
    k =>
      match Keys.DnFromTreeKey(pid, k)
      case NotUnderRoot => None
      case Decoded(r) => if r.Ok? then Some(Label(DN.DnText(r.value), r.value)) else None
  }

  type Slice = map<string, (DN.Dn, Entry)>

  function Upserted(labels: Labels, whitelist: seq<string>, agg: Slice, key: string, e: Entry): Slice {
    match labels(key)
    case None => agg
    case Some(l) => agg[l.text := (l.dn, Projected(e, whitelist))]
  }

  function Removed(labels: Labels, agg: Slice, key: string): Slice {
    match labels(key)
    case None => agg
    case Some(l) => agg - {l.text}
  }

  function AfterRow(labels: Labels, whitelist: seq<string>, agg: Slice, row: Row): Slice {
    match row.1
    case None => agg
    case Some(e) => Upserted(labels, whitelist, agg, row.0, e)
  }

  function AfterRows(labels: Labels, whitelist: seq<string>, agg: Slice, rows: seq<Row>): Slice {
    if rows == [] then agg
    else AfterRow(labels, whitelist, AfterRows(labels, whitelist, agg, rows[..|rows| - 1]), rows[|rows| - 1])
  }

  function AfterEvent(labels: Labels, whitelist: seq<string>, agg: Slice, e: Write): Slice {
    match e
    case Put(k, v) => AfterRow(labels, whitelist, agg, (k, v))
    case Del(k) => Removed(labels, agg, k)
  }

  function AfterEvents(labels: Labels, whitelist: seq<string>, agg: Slice, es: seq<Write>): Slice {
    if es == [] then agg
    else AfterEvent(labels, whitelist, AfterEvents(labels, whitelist, agg, es[..|es| - 1]), es[|es| - 1])
  }

  /** An event the watcher cannot decode ends the session. */
  predicate Broken(e: Write) {
    e.Put? && e.value.None?
  }

  predicate NoneBroken(es: seq<Write>) {
    forall i :: 0 <= i < |es| ==> !Broken(es[i])
  }

  /** What is applied of a stream: the events before the first broken one. */
  function Unbroken(es: seq<Write>): seq<Write> {
    if es == [] || Broken(es[0]) then [] else [es[0]] + Unbroken(es[1..])
  }

  lemma {:induction false} UnbrokenUpTo(es: seq<Write>, rest: seq<Write>)
    requires NoneBroken(es) && (rest == [] || Broken(rest[0]))
    ensures Unbroken(es + rest) == es
  {
    if es == [] {
      assert es + rest == rest;
    } else {
      UnbrokenUpTo(es[1..], rest);
      assert (es + rest)[1..] == es[1..] + rest;
    }
  }

  /** The watcher takes the first event of each response, if there is one. */
  function Taken(responses: seq<seq<Write>>): seq<Write> {
    if responses == [] then []
    else
      var last := responses[|responses| - 1];
      Taken(responses[..|responses| - 1]) + (if last == [] then [] else [last[0]])
  }

  class Aggregate {
    var entries: Slice
    var ready: set<string>

    constructor ()
      ensures entries == map[] && ready == {}
    {
      entries, ready := map[], {};
    }

    method MarkReady(pid: string)
      modifies this`ready
      ensures ready == old(ready) + {pid}
    {
      ready := ready + {pid};
    }

    method Upsert(dn: DN.Dn, e: Entry)
      modifies this`entries
      ensures entries == old(entries)[DN.DnText(dn) := (dn, e)]
    {
      entries := entries[DN.DnText(dn) := (dn, e)];
    }

    method Remove(dn: DN.Dn)
      modifies this`entries
      ensures entries == old(entries) - {DN.DnText(dn)}
    {
      entries := entries - {DN.DnText(dn)};
    }

    /** Looks under the name as it prints. */
    method Get(dn: DN.Dn) returns (e: Option<Entry>)
      ensures e == Found(entries, dn)
    {
      var text := DN.DnText(dn);
      if text in entries {
        return Some(entries[text].1);
      }
      return None;
    }

    method ApplyEntry(pid: string, whitelist: seq<string>, key: string, e: Entry)
      modifies this`entries
      ensures entries == Upserted(KeyLabels(pid), whitelist, old(entries), key, e)
    {
      var l := KeyLabels(pid)(key);
      if l.Some? {
        var p := Project(e, whitelist);
        Upsert(l.value.dn, p);
      }
    }

    method ApplyRows(pid: string, whitelist: seq<string>, rows: seq<Row>)
      modifies this`entries
      ensures entries == AfterRows(KeyLabels(pid), whitelist, old(entries), rows)
    {
      ghost var labels := KeyLabels(pid);
      for i := 0 to |rows|
        invariant entries == AfterRows(labels, whitelist, old(entries), rows[..i])
      {
        assert rows[..i + 1][..i] == rows[..i];
        if rows[i].1.Some? {
          ApplyEntry(pid, whitelist, rows[i].0, rows[i].1.value);
        }
      }
      assert rows[..|rows|] == rows;
    }

    /** False, and nothing is done, when the event does not decode. */
    method ApplyEvent(pid: string, whitelist: seq<string>, e: Write) returns (ok: bool)
      modifies this`entries
      ensures ok == !Broken(e)
      ensures entries == AfterEvent(KeyLabels(pid), whitelist, old(entries), e)
      ensures !ok ==> entries == old(entries)
    {
      match e {
        case Put(k, v) =>
          if v.None? {
            return false;
          }
          ApplyEntry(pid, whitelist, k, v.value);
        case Del(k) =>
          var l := KeyLabels(pid)(k);
          if l.Some? {
            Remove(l.value.dn);
          }
      }
      ok := true;
    }

    method ApplyResponses(pid: string, whitelist: seq<string>, responses: seq<seq<Write>>)
      modifies this`entries
      ensures entries == AfterEvents(KeyLabels(pid), whitelist, old(entries), Unbroken(Taken(responses)))
    {
      ghost var labels, taken, all := KeyLabels(pid), [], Taken(responses);
      for i := 0 to |responses|
        invariant taken == Taken(responses[..i]) && NoneBroken(taken)
        invariant entries == AfterEvents(labels, whitelist, old(entries), taken)
      {
        TakenStep(responses, i);
        if responses[i] != [] {
          var event := responses[i][0];
          TakenPrefix(responses, i + 1);
          TakenNext(all, taken, event);
          EventsSnoc(labels, whitelist, old(entries), taken, event);
          var ok := ApplyEvent(pid, whitelist, event);
          if !ok {
            UnbrokenUpTo(taken, all[|taken|..]);
            return;
          }
          taken := taken + [event];
        }
      }
      assert responses[..|responses|] == responses;
      UnbrokenUpTo(all, []);
      assert all + [] == all;
    }

    /** One session: the rows of the scan, then the responses of the stream, up to
        an event that does not decode. */
    method WatchOnce(pid: string, whitelist: seq<string>, rows: seq<Row>, responses: seq<seq<Write>>)
      modifies this
      ensures entries == Session(KeyLabels(pid), whitelist, old(entries), rows, responses)
      ensures ready == old(ready) + {pid}
    {
      ApplyRows(pid, whitelist, rows);
      MarkReady(pid);
      ApplyResponses(pid, whitelist, responses);
    }

    /** The watcher's loop: a session, and when it has ended the next. */
    method Run(pid: string, whitelist: seq<string>, sessions: seq<Watch>)
      modifies this
      ensures entries == AfterAll(sessions, KeyLabels(pid), whitelist, old(entries))
      ensures ready == if sessions == [] then old(ready) else old(ready) + {pid}
    {
      for i := 0 to |sessions|
        invariant entries == AfterAll(sessions[..i], KeyLabels(pid), whitelist, old(entries))
        invariant ready == if i == 0 then old(ready) else old(ready) + {pid}
      {
        assert sessions[..i + 1][..i] == sessions[..i];
        WatchOnce(pid, whitelist, sessions[i].rows, sessions[i].responses);
      }
      assert sessions[..|sessions|] == sessions;
    }
  }

  function Session(labels: Labels, whitelist: seq<string>, agg: Slice, rows: seq<Row>, responses: seq<seq<Write>>)
    : Slice
  {
    AfterEvents(labels, whitelist, AfterRows(labels, whitelist, agg, rows), Unbroken(Taken(responses)))
  }

  function Held(agg: Slice, text: string): Option<Entry> {
    if text in agg then Some(agg[text].1) else None
  }

  function Found(agg: Slice, dn: DN.Dn): Option<Entry> {
    Held(agg, DN.DnText(dn))
  }

  lemma TakenStep(responses: seq<seq<Write>>, i: nat)
    requires i < |responses|
    ensures Taken(responses[..i + 1]) == Taken(responses[..i]) + (if responses[i] == [] then [] else [responses[i][0]])
  {
    assert responses[..i + 1][..i] == responses[..i];
  }

  lemma TakenNext(all: seq<Write>, taken: seq<Write>, e: Write)
    requires taken + [e] <= all
    ensures |taken| < |all| && all[|taken|] == e && all == taken + all[|taken|..]
  {
  }

  lemma {:induction false} TakenPrefix(responses: seq<seq<Write>>, i: nat)
    requires i <= |responses|
    ensures Taken(responses[..i]) <= Taken(responses)
  {
    if i == |responses| {
      assert responses[..i] == responses;
    } else {
      TakenPrefix(responses[..|responses| - 1], i);
      assert responses[..|responses| - 1][..i] == responses[..i];
    }
  }

  // --------------------------------------------------------------- convergence

  /** What the replica should hold of a key at a revision. */
  function Wanted(log: seq<Write>, whitelist: seq<string>, r: nat, k: string): Option<Entry>
    requires r <= |log|
  {
    if k in At(log, r) && At(log, r)[k].Some? then Some(Projected(At(log, r)[k].value, whitelist)) else None
  }

  predicate Touched(log: seq<Write>, w: nat, r: nat, k: string)
    requires w <= r <= |log|
  {
    exists i :: w <= i < r && log[i].key == k
  }

  /** Every written value decodes. */
  predicate Sound(log: seq<Write>) {
    NoneBroken(log)
  }

  predicate LabelledAs(labels: Labels, key: string, text: string) {
    labels(key).Some? && labels(key).value.text == text
  }

  /** No key that is ever written has the label, but for `k`. */
  ghost predicate LabelOf(labels: Labels, log: seq<Write>, text: string, k: string) {
    forall i :: 0 <= i < |log| && LabelledAs(labels, log[i].key, text) ==> log[i].key == k
  }

  /** No other key that is ever written has the label of `k`. */
  ghost predicate OwnLabel(labels: Labels, log: seq<Write>, k: string, text: string) {
    LabelledAs(labels, k, text) && LabelOf(labels, log, text, k)
  }

  lemma {:induction false} KeysAreWritten(log: seq<Write>, r: nat)
    requires r <= |log|
    ensures forall k :: k in At(log, r) ==> exists i :: 0 <= i < r && log[i].key == k
  {
    if r > 0 {
      KeysAreWritten(log, r - 1);
      forall k | k in At(log, r)
        ensures exists i :: 0 <= i < r && log[i].key == k
      {
        if k in At(log, r - 1) {
          var i :| 0 <= i < r - 1 && log[i].key == k;
        } else {
          assert log[r - 1].key == k;
        }
      }
    }
  }

  lemma {:induction false} SoundAt(log: seq<Write>, r: nat)
    requires r <= |log| && Sound(log)
    ensures forall k :: k in At(log, r) ==> At(log, r)[k].Some?
  {
    if r > 0 {
      SoundAt(log, r - 1);
    }
  }

  /** A key that is not touched keeps its value. */
  lemma {:induction false} Untouched(log: seq<Write>, w: nat, r: nat, k: string)
    requires w <= r <= |log| && !Touched(log, w, r, k)
    ensures k in At(log, w) <==> k in At(log, r)
    ensures k in At(log, w) ==> At(log, w)[k] == At(log, r)[k]
    decreases r
  {
    if w < r {
      assert !Touched(log, w, r - 1, k);
      Untouched(log, w, r - 1, k);
      assert log[r - 1].key != k;
    }
  }

  lemma UntouchedLess(log: seq<Write>, w: nat, s: nat, r: nat, k: string)
    requires w <= s <= r <= |log| && !Touched(log, w, r, k)
    ensures !Touched(log, w, s, k) && !Touched(log, s, r, k)
  {
  }

  /** After the events, a watched key is as its last write left it, or as it was
      when nothing wrote it. */
  lemma {:induction false} EventsHeld(labels: Labels, whitelist: seq<string>, log: seq<Write>, prefix: string, w: nat,
                                      r: nat, agg: Slice, k: string, text: string)
    requires w <= r <= |log| && Sound(log) && OwnLabel(labels, log, k, text) && prefix <= k
    ensures Held(AfterEvents(labels, whitelist, agg, Events(log, prefix, w, r)), text)
         == if Touched(log, w, r, k) then Wanted(log, whitelist, r, k) else Held(agg, text)
    decreases r
  {
    if w < r {
      EventsHeld(labels, whitelist, log, prefix, w, r - 1, agg, k, text);
      HeldStep(labels, whitelist, log, prefix, w, r, agg, k, text);
      TouchedStep(log, w, r, k);
      var before := AfterEvents(labels, whitelist, agg, Events(log, prefix, w, r - 1));
      var after := AfterEvents(labels, whitelist, agg, Events(log, prefix, w, r));
      LastDecides(log[r - 1].key == k, Touched(log, w, r - 1, k), Touched(log, w, r, k), Held(before, text),
                  Held(after, text), Wanted(log, whitelist, r - 1, k), Wanted(log, whitelist, r, k), Held(agg, text));
    }
  }

  lemma LastDecides(last: bool, touched: bool, touched': bool, held: Option<Entry>, held': Option<Entry>,
                    wanted: Option<Entry>, wanted': Option<Entry>, base: Option<Entry>)
    requires touched' == (touched || last) && held == if touched then wanted else base
    requires if last then held' == wanted' else held' == held && wanted' == wanted
    ensures held' == if touched' then wanted' else base
  {
  }

  lemma HeldStep(labels: Labels, whitelist: seq<string>, log: seq<Write>, prefix: string, w: nat, r: nat, agg: Slice,
                 k: string, text: string)
    requires w < r <= |log| && Sound(log) && OwnLabel(labels, log, k, text) && prefix <= k
    ensures var before := AfterEvents(labels, whitelist, agg, Events(log, prefix, w, r - 1));
            var after := AfterEvents(labels, whitelist, agg, Events(log, prefix, w, r));
            && (log[r - 1].key == k ==> Held(after, text) == Wanted(log, whitelist, r, k))
            && (log[r - 1].key != k ==> Held(after, text) == Held(before, text))
            && (log[r - 1].key != k ==> Wanted(log, whitelist, r, k) == Wanted(log, whitelist, r - 1, k))
  {
    EventsStep(labels, whitelist, log, prefix, w, r, agg);
    OneEvent(labels, whitelist, log, r, AfterEvents(labels, whitelist, agg, Events(log, prefix, w, r - 1)), k, text);
  }

  lemma TouchedStep(log: seq<Write>, w: nat, r: nat, k: string)
    requires w < r <= |log|
    ensures Touched(log, w, r, k) <==> Touched(log, w, r - 1, k) || log[r - 1].key == k
  {
    if Touched(log, w, r, k) && log[r - 1].key != k {
      var i :| w <= i < r && log[i].key == k;
      assert i < r - 1;
    }
    if Touched(log, w, r - 1, k) {
      var i :| w <= i < r - 1 && log[i].key == k;
      assert log[i].key == k;
    }
  }

  lemma EventsStep(labels: Labels, whitelist: seq<string>, log: seq<Write>, prefix: string, w: nat, r: nat, agg: Slice)
    requires w < r <= |log|
    ensures var before := AfterEvents(labels, whitelist, agg, Events(log, prefix, w, r - 1));
            AfterEvents(labels, whitelist, agg, Events(log, prefix, w, r))
              == if prefix <= log[r - 1].key then AfterEvent(labels, whitelist, before, log[r - 1]) else before
  {
    EventsSnoc(labels, whitelist, agg, Events(log, prefix, w, r - 1), log[r - 1]);
  }

  lemma EventsSnoc(labels: Labels, whitelist: seq<string>, agg: Slice, es: seq<Write>, e: Write)
    ensures AfterEvents(labels, whitelist, agg, es + [e])
         == AfterEvent(labels, whitelist, AfterEvents(labels, whitelist, agg, es), e)
    ensures es + [] == es
  {
    assert (es + [e])[..|es|] == es;
  }

  lemma OneEvent(labels: Labels, whitelist: seq<string>, log: seq<Write>, r: nat, agg: Slice, k: string, text: string)
    requires 0 < r <= |log| && Sound(log) && OwnLabel(labels, log, k, text)
    ensures var e := log[r - 1];
            && (e.key == k ==> Held(AfterEvent(labels, whitelist, agg, e), text) == Wanted(log, whitelist, r, k))
            && (e.key != k ==> Held(AfterEvent(labels, whitelist, agg, e), text) == Held(agg, text))
            && (e.key != k ==> Wanted(log, whitelist, r, k) == Wanted(log, whitelist, r - 1, k))
  {
    var e := log[r - 1];
    assert !Broken(e);
  }

  /** The rows of a scan, each with a value of its own key. */
  lemma {:induction false} RowsHeld(labels: Labels, whitelist: seq<string>, rows: seq<Row>, agg: Slice, k: string,
                                    text: string, v: Entry)
    requires LabelledAs(labels, k, text)
    requires forall i :: 0 <= i < |rows| && LabelledAs(labels, rows[i].0, text) ==>
               rows[i].0 == k && rows[i].1 == Some(v)
    ensures Held(AfterRows(labels, whitelist, agg, rows), text)
         == if HasRow(rows, k) then Some(Projected(v, whitelist)) else Held(agg, text)
  {
    if rows != [] {
      var n := |rows| - 1;
      RowsHeld(labels, whitelist, rows[..n], agg, k, text, v);
      assert HasRow(rows, k) <==> HasRow(rows[..n], k) || rows[n].0 == k by {
        if HasRow(rows, k) && rows[n].0 != k {
          var i :| 0 <= i < |rows| && rows[i].0 == k;
          assert rows[..n][i].0 == k;
        }
        if HasRow(rows[..n], k) {
          var i :| 0 <= i < n && rows[..n][i].0 == k;
          assert rows[i].0 == k;
        }
      }
    }
  }

  /** Rows that carry the label of a watched key are rows of that key. */
  lemma ScanRows(labels: Labels, log: seq<Write>, prefix: string, baseKey: string, s1: nat, s2: nat, rows: seq<Row>,
                 k: string, text: string)
    requires s1 <= |log| && s2 <= |log| && IsScan(log, prefix, baseKey, s1, s2, rows) && OwnLabel(labels, log, k, text)
    requires k != baseKey
    ensures forall i :: 0 <= i < |rows| && LabelledAs(labels, rows[i].0, text) ==>
              rows[i].0 == k && k in At(log, s1) && rows[i].1 == At(log, s1)[k]
  {
    KeysAreWritten(log, s1);
    KeysAreWritten(log, s2);
    forall i | 0 <= i < |rows| && LabelledAs(labels, rows[i].0, text)
      ensures rows[i].0 == k && k in At(log, s1) && rows[i].1 == At(log, s1)[k]
    {
      assert FromScan(log, prefix, baseKey, s1, s2, rows[i]);
    }
  }

  /** After the scan a watched key is as the range read it, or as it was before
      when the range did not have it. */
  lemma ScanHeld(labels: Labels, whitelist: seq<string>, log: seq<Write>, prefix: string, baseKey: string, s1: nat,
                 s2: nat, rows: seq<Row>, agg: Slice, k: string, text: string)
    requires s1 <= |log| && s2 <= |log| && Sound(log) && OwnLabel(labels, log, k, text)
    requires IsScan(log, prefix, baseKey, s1, s2, rows) && prefix <= k && k != baseKey
    ensures Held(AfterRows(labels, whitelist, agg, rows), text)
         == if k in At(log, s1) then Wanted(log, whitelist, s1, k) else Held(agg, text)
  {
    SoundAt(log, s1);
    ScanRows(labels, log, prefix, baseKey, s1, s2, rows, k, text);
    var v := if k in At(log, s1) then At(log, s1)[k].value else Entry(map[]);
    RowsHeld(labels, whitelist, rows, agg, k, text, v);
    if HasRow(rows, k) {
      var i :| 0 <= i < |rows| && rows[i].0 == k;
    }
  }

  function Flatten(responses: seq<seq<Write>>): seq<Write> {
    if responses == [] then [] else Flatten(responses[..|responses| - 1]) + responses[|responses| - 1]
  }

  predicate OneByOne(responses: seq<seq<Write>>) {
    forall i :: 0 <= i < |responses| ==> |responses[i]| <= 1
  }

  lemma {:induction false} TakenIsAll(responses: seq<seq<Write>>)
    requires OneByOne(responses)
    ensures Taken(responses) == Flatten(responses)
  {
    if responses != [] {
      TakenIsAll(responses[..|responses| - 1]);
      var last := responses[|responses| - 1];
      assert last == if last == [] then [] else [last[0]];
    }
  }

  lemma {:induction false} EventsSound(log: seq<Write>, prefix: string, w: nat, r: nat)
    requires w <= r <= |log| && Sound(log)
    ensures NoneBroken(Events(log, prefix, w, r))
    decreases r
  {
    if w < r {
      EventsSound(log, prefix, w, r - 1);
    }
  }

  /** A session that subscribed at revision `w`, read the range at `s1` and the
      base entry at `s2`, and has been sent the events up to `r`. */
  datatype Watch = Watch(
    log: seq<Write>,
    baseKey: string,
    w: nat,
    s1: nat,
    s2: nat,
    r: nat,
    rows: seq<Row>,
    responses: seq<seq<Write>>)
  {
    function Prefix(): string {
      baseKey + "/"
    }

    predicate InOrder() {
      w <= s1 <= s2 <= r <= |log|
    }

    /** In that order, with values that decode and one event to a response. */
    ghost predicate Valid() {
      && InOrder() && Sound(log) && IsScan(log, Prefix(), baseKey, s1, s2, rows)
      && OneByOne(responses) && Flatten(responses) == Events(log, Prefix(), w, r)
    }
  }

  /** What the session leaves of an aggregate. */
  function After(v: Watch, labels: Labels, whitelist: seq<string>, agg: Slice): Slice {
    Session(labels, whitelist, agg, v.rows, v.responses)
  }

  lemma AfterWatch(v: Watch, labels: Labels, whitelist: seq<string>, agg: Slice)
    requires v.Valid()
    ensures After(v, labels, whitelist, agg)
         == AfterEvents(labels, whitelist, AfterRows(labels, whitelist, agg, v.rows),
                        Events(v.log, v.Prefix(), v.w, v.r))
  {
    TakenIsAll(v.responses);
    EventsSound(v.log, v.Prefix(), v.w, v.r);
    var es := Events(v.log, v.Prefix(), v.w, v.r);
    UnbrokenUpTo(es, []);
    assert es + [] == es;
  }

  /** The session neither scanned the key nor heard of a write of it. */
  ghost predicate Unnoticed(v: Watch, k: string)
    requires v.InOrder()
  {
    k !in At(v.log, v.s1) && !Touched(v.log, v.w, v.r, k)
  }

  /** A session leaves a key that it notices as the store has it in the end, and
      any other as it was; then the store has nothing there. */
  lemma SessionHeld(v: Watch, labels: Labels, whitelist: seq<string>, agg: Slice, k: string, text: string)
    requires v.Valid() && OwnLabel(labels, v.log, k, text) && v.Prefix() <= k
    ensures Held(After(v, labels, whitelist, agg), text)
         == if Unnoticed(v, k) then Held(agg, text) else Wanted(v.log, whitelist, v.r, k)
    ensures Unnoticed(v, k) ==> k !in At(v.log, v.r)
  {
    AfterWatch(v, labels, whitelist, agg);
    ScanHeld(labels, whitelist, v.log, v.Prefix(), v.baseKey, v.s1, v.s2, v.rows, agg, k, text);
    EventsHeld(labels, whitelist, v.log, v.Prefix(), v.w, v.r, AfterRows(labels, whitelist, agg, v.rows), k, text);
    if !Touched(v.log, v.w, v.r, k) {
      UntouchedLess(v.log, v.w, v.s1, v.r, k);
      Untouched(v.log, v.s1, v.r, k);
    }
  }

  /** Whatever the replica held before, and however old the events that replay
      over the scan: it agrees on a key below the base, at any revision reached,
      exactly when the key was written since the subscription, or was in the scan,
      or had not been held. */
  lemma ReplicaAgreesIff(v: Watch, labels: Labels, whitelist: seq<string>, agg: Slice, k: string, text: string)
    requires v.Valid() && OwnLabel(labels, v.log, k, text) && v.Prefix() <= k
    ensures Held(After(v, labels, whitelist, agg), text) == Wanted(v.log, whitelist, v.r, k)
       <==> Touched(v.log, v.w, v.r, k) || k in At(v.log, v.s1) || text !in agg
  {
    SessionHeld(v, labels, whitelist, agg, k, text);
  }

  /** A replica that starts empty converges on every key below the base. */
  lemma FreshReplicaConverges(v: Watch, labels: Labels, whitelist: seq<string>, k: string, text: string)
    requires v.Valid() && OwnLabel(labels, v.log, k, text) && v.Prefix() <= k
    ensures Held(After(v, labels, whitelist, map[]), text) == Wanted(v.log, whitelist, v.r, k)
  {
    ReplicaAgreesIff(v, labels, whitelist, map[], k, text);
  }

  /** An entry held from an earlier session and deleted before this one began:
      the session ends up to date and still holds it. */
  lemma DeletedWhileAway(labels: Labels, whitelist: seq<string>, baseKey: string, k: string, e: Entry)
    requires labels(k).Some?
    ensures var v := Watch([Put(k, Some(e)), Del(k)], baseKey, 2, 2, 2, 2, [], []);
            var l := labels(k).value;
            var agg := map[l.text := (l.dn, Projected(e, whitelist))];
            && v.Valid()
            && Wanted(v.log, whitelist, 2, k) == None && Held(After(v, labels, whitelist, agg), l.text).Some?
  {
    var log := [Put(k, Some(e)), Del(k)];
    assert At(log, 1) == At(log, 0)[k := Some(e)] && At(log, 2) == At(log, 1) - {k};
  }

  // ---------------------------------------------------------- many sessions

  /** One session after the other. */
  function AfterAll(vs: seq<Watch>, labels: Labels, whitelist: seq<string>, agg: Slice): Slice {
    if vs == [] then agg
    else After(vs[|vs| - 1], labels, whitelist, AfterAll(vs[..|vs| - 1], labels, whitelist, agg))
  }

  /** Sessions on one subtree of one store. */
  ghost predicate SessionsOn(vs: seq<Watch>, log: seq<Write>, baseKey: string) {
    forall i :: 0 <= i < |vs| ==> vs[i].Valid() && vs[i].log == log && vs[i].baseKey == baseKey
  }

  /** The key was there when session `j` ended, and no session since has noticed it. */
  ghost predicate LeftBy(vs: seq<Watch>, j: nat, k: string)
    requires j < |vs| && forall i :: 0 <= i < |vs| ==> vs[i].InOrder()
  {
    vs[j].InOrder() && k in At(vs[j].log, vs[j].r) && forall m :: j < m < |vs| ==> Unnoticed(vs[m], k)
  }

  /** One of the first `n` sessions left the key so. */
  ghost predicate LeftBefore(vs: seq<Watch>, n: nat, k: string)
    requires n <= |vs| && forall i :: 0 <= i < |vs| ==> vs[i].InOrder()
  {
    exists j :: 0 <= j < n && LeftBy(vs, j, k)
  }

  lemma LeftByStep(vs: seq<Watch>, n: nat, j: nat, k: string)
    requires |vs| == n + 1 && j < n && forall i :: 0 <= i < |vs| ==> vs[i].InOrder()
    ensures LeftBy(vs, j, k) <==> Unnoticed(vs[n], k) && LeftBy(vs[..n], j, k)
  {
    var front := vs[..n];
    if LeftBy(vs, j, k) {
      assert forall m :: j < m < n ==> front[m] == vs[m];
    }
    if Unnoticed(vs[n], k) && LeftBy(front, j, k) {
      forall m | j < m < |vs|
        ensures Unnoticed(vs[m], k)
      {
        if m < n {
          assert Unnoticed(front[m], k);
        }
      }
    }
  }

  lemma LeftStep(vs: seq<Watch>, n: nat, k: string)
    requires |vs| == n + 1 && forall i :: 0 <= i < |vs| ==> vs[i].InOrder()
    ensures LeftBefore(vs, n, k) <==> Unnoticed(vs[n], k) && LeftBefore(vs[..n], n, k)
    ensures LeftBefore(vs, n + 1, k) <==> k in At(vs[n].log, vs[n].r) || LeftBefore(vs, n, k)
  {
    forall j | 0 <= j < n
      ensures LeftBy(vs, j, k) <==> Unnoticed(vs[n], k) && LeftBy(vs[..n], j, k)
    {
      LeftByStep(vs, n, j, k);
    }
    assert LeftBy(vs, n, k) <==> k in At(vs[n].log, vs[n].r);
  }

  /** What an aggregate that was empty holds after any number of sessions: exactly
      the keys that some session left there and none has noticed since. */
  lemma {:induction false} HeldAfterAll(vs: seq<Watch>, log: seq<Write>, baseKey: string, labels: Labels,
                                        whitelist: seq<string>, k: string, text: string)
    requires SessionsOn(vs, log, baseKey) && OwnLabel(labels, log, k, text) && baseKey + "/" <= k
    ensures Held(AfterAll(vs, labels, whitelist, map[]), text).Some? <==> LeftBefore(vs, |vs|, k)
  {
    if vs != [] {
      var n := |vs| - 1;
      HeldAfterAll(vs[..n], log, baseKey, labels, whitelist, k, text);
      LastSession(vs[n], labels, whitelist, AfterAll(vs[..n], labels, whitelist, map[]), k, text);
      LeftStep(vs, n, k);
    }
  }

  lemma LastSession(v: Watch, labels: Labels, whitelist: seq<string>, agg: Slice, k: string, text: string)
    requires v.Valid() && OwnLabel(labels, v.log, k, text) && v.Prefix() <= k
    ensures Held(After(v, labels, whitelist, agg), text).Some? <==>
              k in At(v.log, v.r) || (Unnoticed(v, k) && Held(agg, text).Some?)
    ensures Held(After(v, labels, whitelist, agg), text) == Wanted(v.log, whitelist, v.r, k) <==>
              !(Unnoticed(v, k) && Held(agg, text).Some?)
  {
    SoundAt(v.log, v.r);
    SessionHeld(v, labels, whitelist, agg, k, text);
  }

  /** After any number of sessions, from empty: a key below the base is as the store
      has it where the last session ended, if and only if no earlier session left
      it there with none having noticed it since. */
  lemma SessionsAgreeIff(vs: seq<Watch>, log: seq<Write>, baseKey: string, labels: Labels, whitelist: seq<string>,
                         k: string, text: string)
    requires SessionsOn(vs, log, baseKey) && vs != [] && OwnLabel(labels, log, k, text) && baseKey + "/" <= k
    ensures Held(AfterAll(vs, labels, whitelist, map[]), text) == Wanted(log, whitelist, vs[|vs| - 1].r, k) <==>
              !LeftBefore(vs, |vs| - 1, k)
  {
    var n := |vs| - 1;
    HeldAfterAll(vs[..n], log, baseKey, labels, whitelist, k, text);
    LastSession(vs[n], labels, whitelist, AfterAll(vs[..n], labels, whitelist, map[]), k, text);
    LeftStep(vs, n, k);
  }

  // ------------------------------------------------------------- other labels

  lemma OtherEvent(labels: Labels, whitelist: seq<string>, agg: Slice, e: Write, text: string)
    requires !LabelledAs(labels, e.key, text)
    ensures Held(AfterEvent(labels, whitelist, agg, e), text) == Held(agg, text)
  {
  }

  /** Events of other keys leave what is held alone. */
  lemma {:induction false} EventsSkip(labels: Labels, whitelist: seq<string>, log: seq<Write>, prefix: string, w: nat,
                                      r: nat, agg: Slice, k: string, text: string)
    requires w <= r <= |log| && LabelOf(labels, log, text, k) && !(prefix <= k)
    ensures Held(AfterEvents(labels, whitelist, agg, Events(log, prefix, w, r)), text) == Held(agg, text)
    decreases r
  {
    if w < r {
      EventsSkip(labels, whitelist, log, prefix, w, r - 1, agg, k, text);
      EventsStep(labels, whitelist, log, prefix, w, r, agg);
      if prefix <= log[r - 1].key {
        var before := AfterEvents(labels, whitelist, agg, Events(log, prefix, w, r - 1));
        OtherEvent(labels, whitelist, before, log[r - 1], text);
      }
    }
  }

  lemma {:induction false} RowsSkip(labels: Labels, whitelist: seq<string>, rows: seq<Row>, agg: Slice, text: string)
    requires forall i :: 0 <= i < |rows| ==> !LabelledAs(labels, rows[i].0, text)
    ensures Held(AfterRows(labels, whitelist, agg, rows), text) == Held(agg, text)
  {
    if rows != [] {
      RowsSkip(labels, whitelist, rows[..|rows| - 1], agg, text);
    }
  }

  lemma OtherRows(v: Watch, labels: Labels, k: string, text: string)
    requires v.Valid() && LabelOf(labels, v.log, text, k) && !(v.Prefix() <= k) && k != v.baseKey
    ensures forall i :: 0 <= i < |v.rows| ==> !LabelledAs(labels, v.rows[i].0, text)
  {
    KeysAreWritten(v.log, v.s1);
    KeysAreWritten(v.log, v.s2);
    forall i | 0 <= i < |v.rows|
      ensures !LabelledAs(labels, v.rows[i].0, text)
    {
      assert FromScan(v.log, v.Prefix(), v.baseKey, v.s1, v.s2, v.rows[i]);
    }
  }

  /** A session leaves alone what no key in its reach has for a label. */
  lemma OutOfReach(v: Watch, labels: Labels, whitelist: seq<string>, agg: Slice, k: string, text: string)
    requires v.Valid() && LabelOf(labels, v.log, text, k) && !(v.Prefix() <= k) && k != v.baseKey
    ensures Held(After(v, labels, whitelist, agg), text) == Held(agg, text)
  {
    AfterWatch(v, labels, whitelist, agg);
    OtherRows(v, labels, k, text);
    RowsSkip(labels, whitelist, v.rows, agg, text);
    EventsSkip(labels, whitelist, v.log, v.Prefix(), v.w, v.r, AfterRows(labels, whitelist, agg, v.rows), k, text);
  }

  // ------------------------------------------------------------- the base entry

  /** The subscription does not cover the base entry: the replica keeps what the
      scan read of it, and agrees at a later revision exactly when that is still
      the entry. */
  lemma BaseEntryIff(v: Watch, labels: Labels, whitelist: seq<string>, agg: Slice, text: string)
    requires v.Valid() && OwnLabel(labels, v.log, v.baseKey, text)
    ensures Held(After(v, labels, whitelist, agg), text) == Wanted(v.log, whitelist, v.r, v.baseKey)
       <==> Wanted(v.log, whitelist, v.r, v.baseKey) ==
              if v.baseKey in At(v.log, v.s2) then Wanted(v.log, whitelist, v.s2, v.baseKey) else Held(agg, text)
  {
    AfterWatch(v, labels, whitelist, agg);
    EventsSkip(labels, whitelist, v.log, v.Prefix(), v.w, v.r, AfterRows(labels, whitelist, agg, v.rows), v.baseKey,
               text);
    SoundAt(v.log, v.s2);
    BaseRows(labels, v.log, v.baseKey, v.s1, v.s2, v.rows, text);
    var x := if v.baseKey in At(v.log, v.s2) then At(v.log, v.s2)[v.baseKey].value else Entry(map[]);
    RowsHeld(labels, whitelist, v.rows, agg, v.baseKey, text, x);
    if HasRow(v.rows, v.baseKey) {
      var i :| 0 <= i < |v.rows| && v.rows[i].0 == v.baseKey;
    }
  }

  lemma BaseRows(labels: Labels, log: seq<Write>, baseKey: string, s1: nat, s2: nat, rows: seq<Row>, text: string)
    requires s1 <= |log| && s2 <= |log| && IsScan(log, baseKey + "/", baseKey, s1, s2, rows)
    requires OwnLabel(labels, log, baseKey, text)
    ensures forall i :: 0 <= i < |rows| && LabelledAs(labels, rows[i].0, text) ==>
              rows[i].0 == baseKey && baseKey in At(log, s2) && rows[i].1 == At(log, s2)[baseKey]
  {
    KeysAreWritten(log, s1);
    KeysAreWritten(log, s2);
    forall i | 0 <= i < |rows| && LabelledAs(labels, rows[i].0, text)
      ensures rows[i].0 == baseKey && baseKey in At(log, s2) && rows[i].1 == At(log, s2)[baseKey]
    {
      assert FromScan(log, baseKey + "/", baseKey, s1, s2, rows[i]);
    }
  }

  /** A base entry rewritten after the scan. */
  function Rewritten(baseKey: string, first: Entry, second: Entry): Watch {
    Watch([Put(baseKey, Some(first)), Put(baseKey, Some(second))], baseKey, 1, 1, 1, 2, [(baseKey, Some(first))], [])
  }

  lemma RewrittenValid(baseKey: string, first: Entry, second: Entry)
    ensures Rewritten(baseKey, first, second).Valid()
    ensures At(Rewritten(baseKey, first, second).log, 2) == map[baseKey := Some(second)]
  {
    var v := Rewritten(baseKey, first, second);
    assert At(v.log, 1) == At(v.log, 0)[baseKey := Some(first)];
    assert At(v.log, 2) == At(v.log, 1)[baseKey := Some(second)];
    assert v.rows[0].0 == baseKey;
    assert Events(v.log, v.Prefix(), 1, 1) == [] && Events(v.log, v.Prefix(), 1, 2) == [];
  }

  /** The session that is sent nothing of the rewrite still holds the first entry. */
  lemma BaseEntryGoesStale(labels: Labels, whitelist: seq<string>, baseKey: string, first: Entry, second: Entry)
    requires labels(baseKey).Some? && Projected(first, whitelist) != Projected(second, whitelist)
    ensures var v := Rewritten(baseKey, first, second);
            && v.Valid()
            && Wanted(v.log, whitelist, 2, baseKey) == Some(Projected(second, whitelist))
            && Held(After(v, labels, whitelist, map[]), labels(baseKey).value.text) == Some(Projected(first, whitelist))
  {
    var v, text := Rewritten(baseKey, first, second), labels(baseKey).value.text;
    RewrittenValid(baseKey, first, second);
    AfterWatch(v, labels, whitelist, map[]);
    EventsSkip(labels, whitelist, v.log, v.Prefix(), 1, 2, AfterRows(labels, whitelist, map[], v.rows), baseKey, text);
    RowsHeld(labels, whitelist, v.rows, map[], baseKey, text, first);
  }

  // ------------------------------------------------------------------- batches

  predicate Shaped(responses: seq<seq<Write>>, sizes: seq<nat>) {
    |responses| == |sizes| && forall i :: 0 <= i < |sizes| ==> |responses[i]| == sizes[i]
  }

  /** Taking one event of each response is as good as taking them all. */
  ghost predicate Harmless(labels: Labels, whitelist: seq<string>, sizes: seq<nat>) {
    forall responses: seq<seq<Write>>, agg: Slice ::
      Shaped(responses, sizes) ==> SameOutcome(labels, whitelist, agg, responses)
  }

  ghost predicate SameOutcome(labels: Labels, whitelist: seq<string>, agg: Slice, responses: seq<seq<Write>>) {
    AfterEvents(labels, whitelist, agg, Taken(responses)) == AfterEvents(labels, whitelist, agg, Flatten(responses))
  }

  /** Deletions of one key around a write of another. */
  predicate OnlyThese(es: seq<Write>, a: string, b: string, e: Entry) {
    forall i :: 0 <= i < |es| ==> es[i] == Del(a) || es[i] == Put(b, Some(e))
  }

  lemma {:induction false} WrittenShows(labels: Labels, whitelist: seq<string>, es: seq<Write>, a: string, b: string,
                                        e: Entry)
    requires labels(a).Some? && labels(b).Some? && labels(a).value.text != labels(b).value.text
    requires OnlyThese(es, a, b, e)
    ensures Held(AfterEvents(labels, whitelist, map[], es), labels(b).value.text).Some? <==> Put(b, Some(e)) in es
  {
    if es != [] {
      WrittenShows(labels, whitelist, es[..|es| - 1], a, b, e);
      assert es == es[..|es| - 1] + [es[|es| - 1]];
    }
  }

  function Batch(size: nat, special: bool, a: string, b: string, e: Entry): (r: seq<Write>)
    ensures |r| == size
  {
    seq(size, j => if special && j == 1 then Put(b, Some(e)) else Del(a))
  }

  function Batches(sizes: seq<nat>, at: nat, a: string, b: string, e: Entry): (r: seq<seq<Write>>)
    ensures Shaped(r, sizes)
  {
    seq(|sizes|, i requires 0 <= i < |sizes| => Batch(sizes[i], i == at, a, b, e))
  }

  lemma {:induction false} BatchesTaken(rs: seq<seq<Write>>, a: string, b: string, e: Entry)
    requires forall i :: 0 <= i < |rs| ==> OnlyThese(rs[i], a, b, e) && (rs[i] != [] ==> rs[i][0] == Del(a))
    ensures OnlyThese(Taken(rs), a, b, e) && Put(b, Some(e)) !in Taken(rs) && OnlyThese(Flatten(rs), a, b, e)
  {
    if rs != [] {
      BatchesTaken(rs[..|rs| - 1], a, b, e);
    }
  }

  lemma {:induction false} InFlatten(rs: seq<seq<Write>>, i: nat, j: nat)
    requires i < |rs| && j < |rs[i]|
    ensures rs[i][j] in Flatten(rs)
  {
    if i < |rs| - 1 {
      InFlatten(rs[..|rs| - 1], i, j);
    }
  }

  /** Events are lost for some stream exactly when some response has more than
      one; `a` and `b` are any two keys with labels of their own. */
  lemma BatchesHarmlessIff(labels: Labels, whitelist: seq<string>, sizes: seq<nat>, a: string, b: string)
    requires labels(a).Some? && labels(b).Some? && labels(a).value.text != labels(b).value.text
    ensures Harmless(labels, whitelist, sizes) <==> forall i :: 0 <= i < |sizes| ==> sizes[i] <= 1
  {
    if forall i :: 0 <= i < |sizes| ==> sizes[i] <= 1 {
      forall responses: seq<seq<Write>>, agg: Slice | Shaped(responses, sizes)
        ensures SameOutcome(labels, whitelist, agg, responses)
      {
        TakenIsAll(responses);
      }
    } else {
      var at :| 0 <= at < |sizes| && sizes[at] > 1;
      var e := Entry(map[]);
      var rs := Batches(sizes, at, a, b, e);
      BatchesTaken(rs, a, b, e);
      assert rs[at][1] == Put(b, Some(e));
      InFlatten(rs, at, 1);
      WrittenShows(labels, whitelist, Taken(rs), a, b, e);
      WrittenShows(labels, whitelist, Flatten(rs), a, b, e);
      assert !SameOutcome(labels, whitelist, map[], rs);
    }
  }
}
