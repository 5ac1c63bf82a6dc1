/** Secondary indexes kept in step with the entry tree (`iron_store::index`). */
module Index {
  import opened Options
  import opened Text
  import opened Entries
  import opened IndexKeys
  import Keys
  import DN = DistinguishedNames
  import DnRoundTrip

  /** A name as the store uses it: its tree key and its printed form. */
  datatype Name = Name(key: string, text: string)

  function NameOf(pid: string, d: DN.Dn): Name {
    Name(Keys.EntryKey(pid, d), DN.DnText(d))
  }

  /** An encoded entry, or any other value. */
  datatype Value = Stored(entry: Entry) | Text(text: string)

  type KeyValues = map<string, Value>

  // --------------------------------------------------------------- index keys

  function ValueKeys(pid: string, n: Name, attr: string, values: seq<string>): (ks: seq<string>)
    ensures |ks| == |values|
  {
    seq(|values|, i requires 0 <= i < |values| => IndexKey(pid, attr, values[i], n.text))
  }

  function IndexList(pid: string, spec: seq<string>, n: Name, e: Entry): seq<string> {
    if spec == [] then []
    else IndexList(pid, spec[..|spec| - 1], n, e) + ValueKeys(pid, n, spec[|spec| - 1], e.Values(spec[|spec| - 1]))
  }

  method IndexKeysFor(pid: string, spec: seq<string>, n: Name, e: Entry) returns (keys: seq<string>)
    ensures keys == IndexList(pid, spec, n, e)
  {
    keys := [];
    for i := 0 to |spec|
      invariant keys == IndexList(pid, spec[..i], n, e)
    {
      assert spec[..i + 1][..i] == spec[..i];
      ghost var before := keys;
      var values := e.Get(spec[i]);
      if values.Some? {
        for j := 0 to |values.value|
          invariant keys == before + ValueKeys(pid, n, spec[i], values.value[..j])
        {
          var k := IndexKey(pid, spec[i], values.value[j], n.text);
          assert ValueKeys(pid, n, spec[i], values.value[..j + 1])
                == ValueKeys(pid, n, spec[i], values.value[..j]) + [k];
          keys := keys + [k];
        }
        assert values.value[..|values.value|] == values.value;
      }
    }
    assert spec[..|spec|] == spec;
  }

  /** The index keys of an entry are those of its values of indexed attributes. */
  lemma {:induction false} InIndexList(pid: string, spec: seq<string>, n: Name, e: Entry, x: string)
    ensures x in IndexList(pid, spec, n, e) <==>
              exists i, j ::
                && 0 <= i < |spec| && 0 <= j < |e.Values(spec[i])|
                && x == IndexKey(pid, spec[i], e.Values(spec[i])[j], n.text)
  {
    if spec != [] {
      var front, last := spec[..|spec| - 1], spec[|spec| - 1];
      var vs := e.Values(last);
      InIndexList(pid, front, n, e, x);
      if x in ValueKeys(pid, n, last, vs) {
        var j :| 0 <= j < |vs| && ValueKeys(pid, n, last, vs)[j] == x;
        assert x == IndexKey(pid, spec[|spec| - 1], e.Values(spec[|spec| - 1])[j], n.text);
      }
      forall i, j |
        && 0 <= i < |spec| && 0 <= j < |e.Values(spec[i])|
        && x == IndexKey(pid, spec[i], e.Values(spec[i])[j], n.text)
        ensures x in IndexList(pid, spec, n, e)
      {
        if i < |spec| - 1 {
          assert front[i] == spec[i];
        } else {
          assert ValueKeys(pid, n, last, vs)[j] == x;
        }
      }
    }
  }

  /** Which index keys an entry has under a name. */
  type Lister = (Name, Entry) -> seq<string>

  function Listing(pid: string, spec: seq<string>): Lister {
    (n, e) => IndexList(pid, spec, n, e)
  }

  // ------------------------------------------------------------- transactions

  datatype Op = Put(key: string, value: Value) | Delete(key: string)

  function Apply(kv: KeyValues, op: Op): KeyValues {
    match op
    case Put(k, v) => kv[k := v]
    case Delete(k) => kv - {k}
  }

  function ApplyAll(kv: KeyValues, ops: seq<Op>): KeyValues {
    if ops == [] then kv else Apply(ApplyAll(kv, ops[..|ops| - 1]), ops[|ops| - 1])
  }

  lemma ApplyMore(kv: KeyValues, ops: seq<Op>, op: Op)
    ensures ApplyAll(kv, ops + [op]) == Apply(ApplyAll(kv, ops), op)
  {
    assert (ops + [op])[..|ops|] == ops;
  }

  function Gone(oldKeys: seq<string>, newKeys: seq<string>): set<string> {
    set k | k in oldKeys && k !in newKeys
  }

  function Pointing(keys: seq<string>, text: string): KeyValues {
    map k | k in keys :: Text(text)
  }

  /** One write of an entry with its index, given the keys believed to be there. */
  function AfterPut(kv: KeyValues, n: Name, oldKeys: seq<string>, newKeys: seq<string>, e: Entry): KeyValues {
    (kv - Gone(oldKeys, newKeys))[n.key := Stored(e)] + Pointing(newKeys, n.text)
  }

  function AfterDelete(kv: KeyValues, n: Name, oldKeys: seq<string>): KeyValues {
    kv - {n.key} - Members(oldKeys)
  }

  function Members(keys: seq<string>): set<string> {
    set k | k in keys
  }

  datatype Read = Unreadable | Absent | Found(entry: Entry)

  function ReadOf(kv: KeyValues, n: Name): Read {
    if n.key !in kv then Absent else if kv[n.key].Stored? then Found(kv[n.key].entry) else Unreadable
  }

  function SeenKeys(list: Lister, n: Name, seen: Option<Entry>): seq<string> {
    match seen
    case None => []
    case Some(e) => list(n, e)
  }

  class Store {
    const pid: string
    const spec: seq<string>
    var kv: KeyValues

    constructor (pid: string, spec: seq<string>)
      ensures this.pid == pid && this.spec == spec && kv == map[]
    {
      this.pid, this.spec, kv := pid, spec, map[];
    }

    method ReadEntry(n: Name) returns (r: Read)
      ensures r == ReadOf(kv, n)
    {
      if n.key !in kv {
        return Absent;
      }
      match kv[n.key] {
        case Stored(e) => return Found(e);
        case Text(_) => return Unreadable;
      }
    }

    /** The unguarded transaction of a put: it rests on an earlier read. */
    method CommitPut(n: Name, seen: Option<Entry>, e: Entry)
      modifies this`kv
      ensures kv == AfterPut(old(kv), n, SeenKeys(Listing(pid, spec), n, seen), IndexList(pid, spec, n, e), e)
    {
      var newKeys := IndexKeysFor(pid, spec, n, e);
      var oldKeys: seq<string> := [];
      if seen.Some? {
        oldKeys := IndexKeysFor(pid, spec, n, seen.value);
      }
      var ops: seq<Op> := [];
      for i := 0 to |oldKeys|
        invariant kv == old(kv)
        invariant ApplyAll(kv, ops) == kv - Gone(oldKeys[..i], newKeys)
      {
        GoneGrows(kv, oldKeys, newKeys, i);
        if oldKeys[i] !in newKeys {
          ApplyMore(kv, ops, Delete(oldKeys[i]));
          ops := ops + [Delete(oldKeys[i])];
        }
      }
      assert oldKeys[..|oldKeys|] == oldKeys;
      ApplyMore(kv, ops, Put(n.key, Stored(e)));
      ops := ops + [Put(n.key, Stored(e))];
      ghost var written := (kv - Gone(oldKeys, newKeys))[n.key := Stored(e)];
      for i := 0 to |newKeys|
        invariant kv == old(kv)
        invariant ApplyAll(kv, ops) == written + Pointing(newKeys[..i], n.text)
      {
        PointingGrows(written, newKeys, i, n.text);
        ApplyMore(kv, ops, Put(newKeys[i], Text(n.text)));
        ops := ops + [Put(newKeys[i], Text(n.text))];
      }
      assert newKeys[..|newKeys|] == newKeys;
      kv := ApplyAll(kv, ops);
    }

    method PutEntryIndexed(n: Name, e: Entry) returns (ok: bool)
      modifies this`kv
      ensures ok == !ReadOf(old(kv), n).Unreadable? && kv == Performed(Listing(pid, spec), old(kv), Write(n, e))
    {
      var before := ReadEntry(n);
      if before.Unreadable? {
        return false;
      }
      CommitPut(n, if before.Found? then Some(before.entry) else None, e);
      ok := true;
    }

    method CreateEntryIndexed(n: Name, e: Entry) returns (created: bool)
      modifies this`kv
      ensures created == (n.key !in old(kv)) && kv == Performed(Listing(pid, spec), old(kv), Create(n, e))
    {
      var ops := [Put(n.key, Stored(e))];
      ApplyMore(kv, [], Put(n.key, Stored(e)));
      assert [] + ops == ops;
      ghost var written := kv[n.key := Stored(e)];
      var keys := IndexKeysFor(pid, spec, n, e);
      for i := 0 to |keys|
        invariant kv == old(kv)
        invariant ApplyAll(kv, ops) == written + Pointing(keys[..i], n.text)
      {
        PointingGrows(written, keys, i, n.text);
        ApplyMore(kv, ops, Put(keys[i], Text(n.text)));
        ops := ops + [Put(keys[i], Text(n.text))];
      }
      assert keys[..|keys|] == keys;
      NothingGone(kv, keys);
      created := n.key !in kv;
      if created {
        kv := ApplyAll(kv, ops);
      }
    }

    method DeleteEntryIndexed(n: Name) returns (ok: bool)
      modifies this`kv
      ensures ok == !ReadOf(old(kv), n).Unreadable? && kv == Performed(Listing(pid, spec), old(kv), Erase(n))
    {
      var before := ReadEntry(n);
      if before.Unreadable? {
        return false;
      }
      if before.Absent? {
        return true;
      }
      var oldKeys := IndexKeysFor(pid, spec, n, before.entry);
      var ops := [Delete(n.key)];
      ApplyMore(kv, [], Delete(n.key));
      assert [] + ops == ops;
      for i := 0 to |oldKeys|
        invariant kv == old(kv)
        invariant ApplyAll(kv, ops) == kv - {n.key} - Members(oldKeys[..i])
      {
        MembersGrow(kv - {n.key}, oldKeys, i);
        ApplyMore(kv, ops, Delete(oldKeys[i]));
        ops := ops + [Delete(oldKeys[i])];
      }
      assert oldKeys[..|oldKeys|] == oldKeys;
      kv := ApplyAll(kv, ops);
      ok := true;
    }

    /** `rows` is what the store answers to the range request. */
    method LookupByIndex(attr: string, value: string, rows: seq<(string, Value)>) returns (r: Option<seq<DN.Dn>>)
      requires IsRange(kv, IndexPrefix(pid, attr, value), rows)
      ensures r == NamesIn(rows)
    {
      var names: seq<DN.Dn> := [];
      ghost var os := RowNames(rows);
      for i := 0 to |rows|
        invariant AllSome(os[..i]) == Some(names)
      {
        assert os[..i + 1][..i] == os[..i];
        if !rows[i].1.Text? {
          AllSomeFails(os, i);
          return None;
        }
        var d := DN.Parse(rows[i].1.text);
        if d.Err? {
          AllSomeFails(os, i);
          return None;
        }
        names := names + [d.value];
      }
      assert os[..|rows|] == os;
      r := Some(names);
    }
  }

  /** The rows of the keys that have a prefix, each once. */
  ghost predicate IsRange(kv: KeyValues, prefix: string, rows: seq<(string, Value)>) {
    && (forall i, j :: 0 <= i < |rows| && 0 <= j < |rows| && rows[i].0 == rows[j].0 ==> i == j)
    && (forall i :: 0 <= i < |rows| ==> rows[i].0 in kv && prefix <= rows[i].0 && rows[i].1 == kv[rows[i].0])
    && (forall k :: k in kv && prefix <= k ==> exists i :: 0 <= i < |rows| && rows[i].0 == k)
  }

  function RowName(v: Value): Option<DN.Dn> {
    if v.Text? && DN.Parsed(v.text).Ok? then Some(DN.Parsed(v.text).value) else None
  }

  function RowNames(rows: seq<(string, Value)>): (os: seq<Option<DN.Dn>>)
    ensures |os| == |rows|
  {
    seq(|rows|, i requires 0 <= i < |rows| => RowName(rows[i].1))
  }

  /** The names the rows hold, unless one of them is none. */
  function NamesIn(rows: seq<(string, Value)>): Option<seq<DN.Dn>> {
    AllSome(RowNames(rows))
  }

  lemma GoneGrows(kv: KeyValues, oldKeys: seq<string>, newKeys: seq<string>, i: nat)
    requires i < |oldKeys|
    ensures kv - Gone(oldKeys[..i + 1], newKeys)
         == if oldKeys[i] in newKeys then kv - Gone(oldKeys[..i], newKeys)
            else kv - Gone(oldKeys[..i], newKeys) - {oldKeys[i]}
  {
    assert oldKeys[..i + 1] == oldKeys[..i] + [oldKeys[i]];
    assert Gone(oldKeys[..i + 1], newKeys)
          == Gone(oldKeys[..i], newKeys) + (if oldKeys[i] in newKeys then {} else {oldKeys[i]});
  }

  lemma NothingGone(kv: KeyValues, newKeys: seq<string>)
    ensures kv - Gone([], newKeys) == kv
  {
    assert Gone([], newKeys) == {};
  }

  lemma MembersGrow(kv: KeyValues, keys: seq<string>, i: nat)
    requires i < |keys|
    ensures kv - Members(keys[..i + 1]) == kv - Members(keys[..i]) - {keys[i]}
  {
    assert keys[..i + 1] == keys[..i] + [keys[i]];
    assert Members(keys[..i + 1]) == Members(keys[..i]) + {keys[i]};
  }

  lemma PointingGrows(kv: KeyValues, keys: seq<string>, i: nat, text: string)
    requires i < |keys|
    ensures kv + Pointing(keys[..i + 1], text) == (kv + Pointing(keys[..i], text))[keys[i] := Text(text)]
  {
    assert keys[..i + 1] == keys[..i] + [keys[i]];
  }

  // -------------------------------------------------------------- serial calls

  datatype Call = Write(name: Name, entry: Entry) | Create(name: Name, entry: Entry) | Erase(name: Name)

  function Performed(list: Lister, kv: KeyValues, c: Call): KeyValues {
    match c
    case Write(n, e) =>
      (match ReadOf(kv, n)
       case Unreadable => kv
       case Absent => AfterPut(kv, n, [], list(n, e), e)
       case Found(b) => AfterPut(kv, n, list(n, b), list(n, e), e))
    case Create(n, e) =>
      if n.key in kv then kv else AfterPut(kv, n, [], list(n, e), e)
    case Erase(n) =>
      match ReadOf(kv, n)
      case Unreadable => kv
      case Absent => kv
      case Found(b) => AfterDelete(kv, n, list(n, b))
  }

  function Run(list: Lister, calls: seq<Call>): KeyValues {
    if calls == [] then map[] else Performed(list, Run(list, calls[..|calls| - 1]), calls[|calls| - 1])
  }

  // ---------------------------------------------------------------- agreement

  /** The entries, each with the name it was last written under. */
  type Tree = map<string, (Name, Entry)>

  function KeysAt(list: Lister, tree: Tree, k: string): seq<string> {
    if k in tree then list(tree[k].0, tree[k].1) else []
  }

  ghost predicate Owned(list: Lister, tree: Tree, x: string) {
    exists k :: k in tree && x in KeysAt(list, tree, k)
  }

  ghost predicate TreeMatches(pid: string, kv: KeyValues, tree: Tree) {
    && (forall k :: k in tree ==> IsTreeKey(pid, k) && tree[k].0.key == k && k in kv && kv[k] == Stored(tree[k].1))
    && (forall k :: k in kv && IsTreeKey(pid, k) ==> k in tree)
  }

  /** The index keys present are those of the entries, and point at their names. */
  ghost predicate IndexMatches(pid: string, list: Lister, kv: KeyValues, tree: Tree) {
    && (forall k, x :: k in tree && x in KeysAt(list, tree, k) ==> x in kv && kv[x] == Text(tree[k].0.text))
    && (forall x :: x in kv && IsIndexKey(pid, x) ==> Owned(list, tree, x))
  }

  ghost predicate Agrees(pid: string, list: Lister, kv: KeyValues, tree: Tree) {
    TreeMatches(pid, kv, tree) && IndexMatches(pid, list, kv, tree)
  }

  /** Different entries have different names. */
  ghost predicate TextsApart(tree: Tree) {
    forall j, k :: j in tree && k in tree && tree[j].0.text == tree[k].0.text ==> j == k
  }

  lemma ListIsIndex(pid: string, spec: seq<string>, n: Name, e: Entry, x: string)
    requires x in IndexList(pid, spec, n, e)
    ensures IsIndexKey(pid, x) && !IsTreeKey(pid, x)
  {
    InIndexList(pid, spec, n, e, x);
    TreeAndIndexApart(pid, x);
  }

  lemma ListTellsText(pid: string, spec: seq<string>, n: Name, e: Entry, n': Name, e': Entry, x: string)
    requires x in IndexList(pid, spec, n, e) && x in IndexList(pid, spec, n', e')
    ensures n.text == n'.text
  {
    InIndexList(pid, spec, n, e, x);
    InIndexList(pid, spec, n', e', x);
    var i, j :|
      && 0 <= i < |spec| && 0 <= j < |e.Values(spec[i])|
      && x == IndexKey(pid, spec[i], e.Values(spec[i])[j], n.text);
    var i', j' :|
      && 0 <= i' < |spec| && 0 <= j' < |e'.Values(spec[i'])|
      && x == IndexKey(pid, spec[i'], e'.Values(spec[i'])[j'], n'.text);
    KeyInjective(pid, spec[i], e.Values(spec[i])[j], n.text, spec[i'], e'.Values(spec[i'])[j'], n'.text);
  }

  /** Index keys are index keys, and tell the name they were made with. */
  ghost predicate Telling(pid: string, list: Lister) {
    && (forall n, e, x :: x in list(n, e) ==> IsIndexKey(pid, x))
    && (forall n, e, n', e', x :: x in list(n, e) && x in list(n', e') ==> n.text == n'.text)
  }

  lemma ListingTells(pid: string, spec: seq<string>)
    ensures Telling(pid, Listing(pid, spec))
  {
    var list := Listing(pid, spec);
    forall n, e, x | x in list(n, e)
      ensures IsIndexKey(pid, x)
    {
      ListIsIndex(pid, spec, n, e, x);
    }
    forall n, e, n', e', x | x in list(n, e) && x in list(n', e')
      ensures n.text == n'.text
    {
      ListTellsText(pid, spec, n, e, n', e', x);
    }
  }

  // ------------------------------------------------------------------- writing

  /** Nothing else is written under the same printed name. */
  ghost predicate FreeText(tree: Tree, n: Name) {
    forall k :: k in tree && k != n.key ==> tree[k].0.text != n.text
  }

  /** No index key of the entry being replaced is left out of what the write
      believes to be there or is about to put there. */
  ghost predicate Covered(current: seq<string>, seen: seq<string>, coming: seq<string>) {
    forall x :: x in current ==> x in seen || x in coming
  }

  /** What a write does to the index keys. */
  ghost predicate Follows(pid: string, kv: KeyValues, kv': KeyValues, text: string, seen: seq<string>,
                          coming: seq<string>)
  {
    forall x :: IsIndexKey(pid, x) ==>
      && (x in kv' <==> x in coming || (x in kv && x !in seen))
      && (x in kv' ==> kv'[x] == if x in coming then Text(text) else kv[x])
  }

  lemma PutFollows(pid: string, kv: KeyValues, n: Name, seen: seq<string>, coming: seq<string>, e: Entry)
    requires IsTreeKey(pid, n.key)
    ensures Follows(pid, kv, AfterPut(kv, n, seen, coming, e), n.text, seen, coming)
  {
    TreeAndIndexApart(pid, n.key);
  }

  lemma TreeKeysNotListed(pid: string, ks: seq<string>)
    requires forall x :: x in ks ==> IsIndexKey(pid, x)
    ensures forall k :: IsTreeKey(pid, k) ==> k !in ks
  {
    forall k | IsTreeKey(pid, k)
      ensures k !in ks
    {
      TreeAndIndexApart(pid, k);
    }
  }

  lemma PutTreeMatches(pid: string, kv: KeyValues, tree: Tree, n: Name, seen: seq<string>, coming: seq<string>,
                       e: Entry)
    requires TreeMatches(pid, kv, tree) && IsTreeKey(pid, n.key)
    requires forall x :: x in seen || x in coming ==> IsIndexKey(pid, x)
    ensures TreeMatches(pid, AfterPut(kv, n, seen, coming, e), tree[n.key := (n, e)])
  {
    TreeKeysNotListed(pid, seen);
    TreeKeysNotListed(pid, coming);
  }

  lemma OwnedAfter(list: Lister, tree: Tree, n: Name, e: Entry, x: string)
    ensures Owned(list, tree[n.key := (n, e)], x) <==>
              x in list(n, e) || exists k :: k in tree && k != n.key && x in KeysAt(list, tree, k)
  {
    var tree' := tree[n.key := (n, e)];
    if x in list(n, e) {
      assert n.key in tree' && x in KeysAt(list, tree', n.key);
    }
    forall k | k in tree && k != n.key && x in KeysAt(list, tree, k)
      ensures Owned(list, tree', x)
    {
      assert k in tree' && KeysAt(list, tree', k) == KeysAt(list, tree, k);
    }
    if Owned(list, tree', x) {
      var k :| k in tree' && x in KeysAt(list, tree', k);
      if k != n.key {
        assert k in tree && x in KeysAt(list, tree, k);
      }
    }
  }

  lemma CoveredMatches(pid: string, list: Lister, kv: KeyValues, kv': KeyValues, tree: Tree, n: Name,
                       seen: Option<Entry>, e: Entry)
    requires Telling(pid, list) && IndexMatches(pid, list, kv, tree) && FreeText(tree, n)
    requires Follows(pid, kv, kv', n.text, SeenKeys(list, n, seen), list(n, e))
    requires Covered(KeysAt(list, tree, n.key), SeenKeys(list, n, seen), list(n, e))
    ensures IndexMatches(pid, list, kv', tree[n.key := (n, e)])
  {
    var tree' := tree[n.key := (n, e)];
    forall k, x | k in tree' && x in KeysAt(list, tree', k)
      ensures x in kv' && kv'[x] == Text(tree'[k].0.text)
    {
      if k != n.key {
        assert x in KeysAt(list, tree, k);
      }
    }
    forall x | x in kv' && IsIndexKey(pid, x)
      ensures Owned(list, tree', x)
    {
      OwnedAfter(list, tree, n, e, x);
      if x !in list(n, e) {
        assert x in kv && Owned(list, tree, x);
      }
    }
  }

  lemma UncoveredRemains(pid: string, list: Lister, kv: KeyValues, kv': KeyValues, tree: Tree, n: Name,
                         seen: Option<Entry>, e: Entry)
    requires Telling(pid, list) && IndexMatches(pid, list, kv, tree) && TextsApart(tree)
    requires Follows(pid, kv, kv', n.text, SeenKeys(list, n, seen), list(n, e))
    requires !Covered(KeysAt(list, tree, n.key), SeenKeys(list, n, seen), list(n, e))
    ensures !IndexMatches(pid, list, kv', tree[n.key := (n, e)])
  {
    var x :| x in KeysAt(list, tree, n.key) && x !in SeenKeys(list, n, seen) && x !in list(n, e);
    OwnedAfter(list, tree, n, e, x);
    assert forall k :: k in tree && k != n.key ==> x !in KeysAt(list, tree, k);
    assert x in kv' && !Owned(list, tree[n.key := (n, e)], x);
  }

  /** A write of an entry, whatever it read before: the index agrees afterwards
      exactly when every index key of the entry it replaces is among those it
      saw or those it writes. */
  lemma PutAgreesIff(pid: string, list: Lister, kv: KeyValues, tree: Tree, n: Name, seen: Option<Entry>, e: Entry)
    requires Telling(pid, list) && Agrees(pid, list, kv, tree)
    requires IsTreeKey(pid, n.key) && FreeText(tree, n) && TextsApart(tree)
    ensures Agrees(pid, list, AfterPut(kv, n, SeenKeys(list, n, seen), list(n, e), e), tree[n.key := (n, e)])
       <==> Covered(KeysAt(list, tree, n.key), SeenKeys(list, n, seen), list(n, e))
  {
    var kv' := AfterPut(kv, n, SeenKeys(list, n, seen), list(n, e), e);
    PutTreeMatches(pid, kv, tree, n, SeenKeys(list, n, seen), list(n, e), e);
    PutFollows(pid, kv, n, SeenKeys(list, n, seen), list(n, e), e);
    if Covered(KeysAt(list, tree, n.key), SeenKeys(list, n, seen), list(n, e)) {
      CoveredMatches(pid, list, kv, kv', tree, n, seen, e);
    } else {
      UncoveredRemains(pid, list, kv, kv', tree, n, seen, e);
    }
  }

  /** Two writes both read, and saw the same, before either wrote; the first has
      committed. After the second the index agrees exactly when every index key of
      the first entry was seen or is kept by the second. */
  lemma UnserialisedPuts(pid: string, list: Lister, kv: KeyValues, tree: Tree, n: Name, seen: Option<Entry>,
                         first: Entry, second: Entry)
    requires Telling(pid, list) && Agrees(pid, list, kv, tree) && n.key in tree && tree[n.key] == (n, first)
    requires IsTreeKey(pid, n.key) && FreeText(tree, n) && TextsApart(tree)
    ensures Agrees(pid, list, AfterPut(kv, n, SeenKeys(list, n, seen), list(n, second), second),
                   tree[n.key := (n, second)])
       <==> Covered(list(n, first), SeenKeys(list, n, seen), list(n, second))
  {
    PutAgreesIff(pid, list, kv, tree, n, seen, second);
  }

  /** For instance, one indexed value replaced by another stays in the index. */
  lemma StaleValue(pid: string, n: Name, attr: string, v: string, w: string)
    requires v != w
    ensures var list := Listing(pid, [attr]);
            !Covered(list(n, Entry(map[Lower(attr) := [v]])), [], list(n, Entry(map[Lower(attr) := [w]])))
  {
    var before, after := Entry(map[Lower(attr) := [v]]), Entry(map[Lower(attr) := [w]]);
    var x := IndexKey(pid, attr, v, n.text);
    InIndexList(pid, [attr], n, before, x);
    InIndexList(pid, [attr], n, after, x);
    assert [attr][0] == attr && before.Values(attr) == [v] && after.Values(attr) == [w];
    assert before.Values([attr][0])[0] == v;
    KeyInjective(pid, attr, v, n.text, attr, w, n.text);
  }

  /** A rewrite of an entry under another spelling of its name, freshly read: the
      index agrees exactly when the entry had nothing indexed. */
  lemma RespelledPut(pid: string, list: Lister, kv: KeyValues, tree: Tree, n: Name, e: Entry)
    requires Telling(pid, list) && Agrees(pid, list, kv, tree)
    requires IsTreeKey(pid, n.key) && FreeText(tree, n) && TextsApart(tree)
    requires n.key in tree && tree[n.key].0.text != n.text
    ensures Agrees(pid, list, Performed(list, kv, Write(n, e)), tree[n.key := (n, e)]) <==>
              KeysAt(list, tree, n.key) == []
  {
    var seen := Some(tree[n.key].1);
    PutAgreesIff(pid, list, kv, tree, n, seen, e);
    var current := KeysAt(list, tree, n.key);
    if current != [] {
      assert current[0] in current;
    }
  }

  // ------------------------------------------------------------------ deleting

  lemma OwnedWithout(list: Lister, tree: Tree, key: string, x: string)
    ensures Owned(list, tree - {key}, x) <==> exists k :: k in tree && k != key && x in KeysAt(list, tree, k)
  {
    var tree' := tree - {key};
    forall k | k in tree && k != key && x in KeysAt(list, tree, k)
      ensures Owned(list, tree', x)
    {
      assert k in tree' && KeysAt(list, tree', k) == KeysAt(list, tree, k);
    }
    if Owned(list, tree', x) {
      var k :| k in tree' && x in KeysAt(list, tree', k);
      assert k in tree && x in KeysAt(list, tree, k);
    }
  }

  lemma DeleteFollows(pid: string, kv: KeyValues, n: Name, gone: seq<string>)
    requires IsTreeKey(pid, n.key)
    ensures Follows(pid, kv, AfterDelete(kv, n, gone), n.text, gone, [])
  {
    TreeAndIndexApart(pid, n.key);
  }

  lemma DeleteTreeMatches(pid: string, kv: KeyValues, tree: Tree, n: Name, gone: seq<string>)
    requires TreeMatches(pid, kv, tree) && forall x :: x in gone ==> IsIndexKey(pid, x)
    ensures TreeMatches(pid, AfterDelete(kv, n, gone), tree - {n.key})
  {
    TreeKeysNotListed(pid, gone);
  }

  lemma CoveredDelete(pid: string, list: Lister, kv: KeyValues, kv': KeyValues, tree: Tree, n: Name, seen: Entry)
    requires Telling(pid, list) && IndexMatches(pid, list, kv, tree) && FreeText(tree, n)
    requires Follows(pid, kv, kv', n.text, list(n, seen), []) && Covered(KeysAt(list, tree, n.key), list(n, seen), [])
    ensures IndexMatches(pid, list, kv', tree - {n.key})
  {
    var tree' := tree - {n.key};
    forall k, x | k in tree' && x in KeysAt(list, tree', k)
      ensures x in kv' && kv'[x] == Text(tree'[k].0.text)
    {
      assert x in KeysAt(list, tree, k);
    }
    forall x | x in kv' && IsIndexKey(pid, x)
      ensures Owned(list, tree', x)
    {
      OwnedWithout(list, tree, n.key, x);
      assert Owned(list, tree, x);
    }
  }

  lemma UncoveredDelete(pid: string, list: Lister, kv: KeyValues, kv': KeyValues, tree: Tree, n: Name, seen: Entry)
    requires Telling(pid, list) && IndexMatches(pid, list, kv, tree) && TextsApart(tree)
    requires Follows(pid, kv, kv', n.text, list(n, seen), []) && !Covered(KeysAt(list, tree, n.key), list(n, seen), [])
    ensures !IndexMatches(pid, list, kv', tree - {n.key})
  {
    var x :| x in KeysAt(list, tree, n.key) && x !in list(n, seen);
    OwnedWithout(list, tree, n.key, x);
    assert forall k :: k in tree && k != n.key ==> x !in KeysAt(list, tree, k);
    assert x in kv' && !Owned(list, tree - {n.key}, x);
  }

  /** A delete, whatever entry it found before: the index agrees afterwards exactly
      when every index key of the entry that goes is among those it found. */
  lemma DeleteAgreesIff(pid: string, list: Lister, kv: KeyValues, tree: Tree, n: Name, seen: Entry)
    requires Telling(pid, list) && Agrees(pid, list, kv, tree)
    requires IsTreeKey(pid, n.key) && FreeText(tree, n) && TextsApart(tree)
    ensures Agrees(pid, list, AfterDelete(kv, n, list(n, seen)), tree - {n.key})
       <==> Covered(KeysAt(list, tree, n.key), list(n, seen), [])
  {
    var kv' := AfterDelete(kv, n, list(n, seen));
    DeleteFollows(pid, kv, n, list(n, seen));
    DeleteTreeMatches(pid, kv, tree, n, list(n, seen));
    if Covered(KeysAt(list, tree, n.key), list(n, seen), []) {
      CoveredDelete(pid, list, kv, kv', tree, n, seen);
    } else {
      UncoveredDelete(pid, list, kv, kv', tree, n, seen);
    }
  }

  // ---------------------------------------------------------------- serial runs

  function TreeAfter(tree: Tree, c: Call): Tree {
    match c
    case Write(n, e) => tree[n.key := (n, e)]
    case Create(n, e) => if n.key in tree then tree else tree[n.key := (n, e)]
    case Erase(n) => tree - {n.key}
  }

  function TreeOf(calls: seq<Call>): Tree {
    if calls == [] then map[] else TreeAfter(TreeOf(calls[..|calls| - 1]), calls[|calls| - 1])
  }

  /** The name, where it is in use, is spelled the same; no other entry is. */
  ghost predicate Spelled(tree: Tree, n: Name) {
    (n.key in tree ==> tree[n.key].0 == n) && FreeText(tree, n)
  }

  lemma CallAgrees(pid: string, list: Lister, kv: KeyValues, tree: Tree, c: Call)
    requires Telling(pid, list) && Agrees(pid, list, kv, tree) && TextsApart(tree)
    requires IsTreeKey(pid, c.name.key) && Spelled(tree, c.name)
    ensures Agrees(pid, list, Performed(list, kv, c), TreeAfter(tree, c)) && TextsApart(TreeAfter(tree, c))
  {
    match c {
      case Write(n, e) => WriteAgrees(pid, list, kv, tree, n, e);
      case Create(n, e) =>
        if n.key !in tree {
          WriteAgrees(pid, list, kv, tree, n, e);
        }
      case Erase(n) => EraseAgrees(pid, list, kv, tree, n);
    }
  }

  lemma ReadTells(pid: string, kv: KeyValues, tree: Tree, n: Name)
    requires TreeMatches(pid, kv, tree) && IsTreeKey(pid, n.key)
    ensures ReadOf(kv, n) == if n.key in tree then Found(tree[n.key].1) else Absent
  {
  }

  lemma ApartWith(tree: Tree, n: Name, e: Entry)
    requires TextsApart(tree) && FreeText(tree, n)
    ensures TextsApart(tree[n.key := (n, e)]) && TextsApart(tree - {n.key})
  {
  }

  lemma WriteAgrees(pid: string, list: Lister, kv: KeyValues, tree: Tree, n: Name, e: Entry)
    requires Telling(pid, list) && Agrees(pid, list, kv, tree) && TextsApart(tree)
    requires IsTreeKey(pid, n.key) && Spelled(tree, n)
    ensures Agrees(pid, list, Performed(list, kv, Write(n, e)), tree[n.key := (n, e)])
    ensures n.key !in tree ==> Agrees(pid, list, Performed(list, kv, Create(n, e)), tree[n.key := (n, e)])
    ensures TextsApart(tree[n.key := (n, e)])
  {
    PutAgreesIff(pid, list, kv, tree, n, if n.key in tree then Some(tree[n.key].1) else None, e);
    ReadTells(pid, kv, tree, n);
    ApartWith(tree, n, e);
  }

  lemma EraseAgrees(pid: string, list: Lister, kv: KeyValues, tree: Tree, n: Name)
    requires Telling(pid, list) && Agrees(pid, list, kv, tree) && TextsApart(tree)
    requires IsTreeKey(pid, n.key) && Spelled(tree, n)
    ensures Agrees(pid, list, Performed(list, kv, Erase(n)), tree - {n.key}) && TextsApart(tree - {n.key})
  {
    ReadTells(pid, kv, tree, n);
    if n.key in tree {
      DeleteAgreesIff(pid, list, kv, tree, n, tree[n.key].1);
      ApartWith(tree, n, tree[n.key].1);
    } else {
      assert tree - {n.key} == tree;
    }
  }

  /** Throughout a run, one key means one spelling and the other way round. */
  ghost predicate OneSpelling(pid: string, calls: seq<Call>) {
    && (forall i :: 0 <= i < |calls| ==> IsTreeKey(pid, calls[i].name.key))
    && (forall i, j :: 0 <= i < |calls| && 0 <= j < |calls| ==>
          (calls[i].name.key == calls[j].name.key <==> calls[i].name.text == calls[j].name.text))
  }

  ghost predicate FromCalls(calls: seq<Call>, tree: Tree) {
    forall k :: k in tree ==> tree[k].0.key == k && exists i :: 0 <= i < |calls| && calls[i].name == tree[k].0
  }

  lemma {:induction false} TreeFromCalls(calls: seq<Call>)
    ensures FromCalls(calls, TreeOf(calls))
  {
    if calls != [] {
      var n := |calls| - 1;
      TreeFromCalls(calls[..n]);
      var before, after := TreeOf(calls[..n]), TreeOf(calls);
      forall k | k in after
        ensures after[k].0.key == k && exists i :: 0 <= i < |calls| && calls[i].name == after[k].0
      {
        if k in before && after[k] == before[k] {
          var i :| 0 <= i < n && calls[..n][i].name == before[k].0;
          assert calls[i].name == after[k].0;
        } else {
          assert calls[n].name == after[k].0;
        }
      }
    }
  }

  lemma SpelledInRun(pid: string, calls: seq<Call>, n: nat)
    requires OneSpelling(pid, calls) && n < |calls|
    ensures Spelled(TreeOf(calls[..n]), calls[n].name)
  {
    var tree := TreeOf(calls[..n]);
    TreeFromCalls(calls[..n]);
    forall k | k in tree
      ensures k == calls[n].name.key <==> tree[k].0.text == calls[n].name.text
    {
      var i :| 0 <= i < n && calls[..n][i].name == tree[k].0;
      assert calls[i].name == tree[k].0;
    }
  }

  /** Over every serial run of puts, creates and deletes with one spelling for
      each name, the index agrees with the tree. */
  lemma {:induction false} RunAgrees(pid: string, list: Lister, calls: seq<Call>)
    requires Telling(pid, list) && OneSpelling(pid, calls)
    ensures Agrees(pid, list, Run(list, calls), TreeOf(calls)) && TextsApart(TreeOf(calls))
  {
    if calls != [] {
      var n := |calls| - 1;
      assert OneSpelling(pid, calls[..n]);
      RunAgrees(pid, list, calls[..n]);
      SpelledInRun(pid, calls, n);
      CallAgrees(pid, list, Run(list, calls[..n]), TreeOf(calls[..n]), calls[n]);
    }
  }

  // ----------------------------------------------------------- interleaved runs

  /** The transaction of a put or a delete, with what its call had read before: in
      any interleaving that may be any entry, or none. */
  datatype Commit = Putting(name: Name, seen: Option<Entry>, entry: Entry) | Deleting(name: Name, found: Entry)

  function Committed(list: Lister, kv: KeyValues, c: Commit): KeyValues {
    match c
    case Putting(n, seen, e) => AfterPut(kv, n, SeenKeys(list, n, seen), list(n, e), e)
    case Deleting(n, found) => AfterDelete(kv, n, list(n, found))
  }

  function StoreOf(list: Lister, cs: seq<Commit>): KeyValues {
    if cs == [] then map[] else Committed(list, StoreOf(list, cs[..|cs| - 1]), cs[|cs| - 1])
  }

  function CallOf(c: Commit): Call {
    match c
    case Putting(n, _, e) => Write(n, e)
    case Deleting(n, _) => Erase(n)
  }

  function CallsOf(cs: seq<Commit>): (calls: seq<Call>)
    ensures |calls| == |cs|
  {
    seq(|cs|, i requires 0 <= i < |cs| => CallOf(cs[i]))
  }

  /** The commit loses none of the index keys of the entry in its way. */
  ghost predicate Careful(list: Lister, tree: Tree, c: Commit) {
    match c
    case Putting(n, seen, e) => Covered(KeysAt(list, tree, n.key), SeenKeys(list, n, seen), list(n, e))
    case Deleting(n, found) => Covered(KeysAt(list, tree, n.key), list(n, found), [])
  }

  ghost predicate CarefulAt(list: Lister, cs: seq<Commit>, i: nat)
    requires i < |cs|
  {
    Careful(list, TreeOf(CallsOf(cs[..i])), cs[i])
  }

  ghost predicate AgreesAt(pid: string, list: Lister, cs: seq<Commit>, i: nat)
    requires i <= |cs|
  {
    Agrees(pid, list, StoreOf(list, cs[..i]), TreeOf(CallsOf(cs[..i])))
  }

  lemma CommitAgreesIff(pid: string, list: Lister, kv: KeyValues, tree: Tree, c: Commit)
    requires Telling(pid, list) && Agrees(pid, list, kv, tree) && TextsApart(tree)
    requires IsTreeKey(pid, c.name.key) && FreeText(tree, c.name)
    ensures Agrees(pid, list, Committed(list, kv, c), TreeAfter(tree, CallOf(c))) <==> Careful(list, tree, c)
  {
    match c {
      case Putting(n, seen, e) => PutAgreesIff(pid, list, kv, tree, n, seen, e);
      case Deleting(n, found) => DeleteAgreesIff(pid, list, kv, tree, n, found);
    }
  }

  lemma StepAgreesIff(pid: string, list: Lister, cs: seq<Commit>, i: nat)
    requires Telling(pid, list) && OneSpelling(pid, CallsOf(cs)) && i < |cs| && AgreesAt(pid, list, cs, i)
    ensures AgreesAt(pid, list, cs, i + 1) <==> CarefulAt(list, cs, i)
  {
    var calls := CallsOf(cs);
    assert cs[..i + 1][..i] == cs[..i];
    assert CallsOf(cs[..i + 1])[..i] == CallsOf(cs[..i]) == calls[..i];
    SpelledInRun(pid, calls, i);
    assert OneSpelling(pid, calls[..i]);
    RunAgrees(pid, list, calls[..i]);
    CommitAgreesIff(pid, list, StoreOf(list, cs[..i]), TreeOf(calls[..i]), cs[i]);
  }

  /** Over every interleaving of puts and deletes, with one spelling for each name:
      index and tree agree after every commit if and only if each commit saw or
      rewrites every index key of the entry it replaces or removes. */
  lemma {:induction false} InterleavedAgreesIff(pid: string, list: Lister, cs: seq<Commit>)
    requires Telling(pid, list) && OneSpelling(pid, CallsOf(cs))
    ensures (forall i :: 0 <= i <= |cs| ==> AgreesAt(pid, list, cs, i)) <==>
              forall i :: 0 <= i < |cs| ==> CarefulAt(list, cs, i)
  {
    if forall i :: 0 <= i <= |cs| ==> AgreesAt(pid, list, cs, i) {
      forall i | 0 <= i < |cs|
        ensures CarefulAt(list, cs, i)
      {
        assert AgreesAt(pid, list, cs, i) && AgreesAt(pid, list, cs, i + 1);
        StepAgreesIff(pid, list, cs, i);
      }
    }
    if forall i :: 0 <= i < |cs| ==> CarefulAt(list, cs, i) {
      forall i | 0 <= i <= |cs|
        ensures AgreesAt(pid, list, cs, i)
      {
        CarefulAgrees(pid, list, cs, i);
      }
    }
  }

  lemma {:induction false} CarefulAgrees(pid: string, list: Lister, cs: seq<Commit>, i: nat)
    requires Telling(pid, list) && OneSpelling(pid, CallsOf(cs)) && i <= |cs|
    requires forall j :: 0 <= j < |cs| ==> CarefulAt(list, cs, j)
    ensures AgreesAt(pid, list, cs, i)
  {
    if i > 0 {
      CarefulAgrees(pid, list, cs, i - 1);
      StepAgreesIff(pid, list, cs, i - 1);
    } else {
      assert cs[..0] == [] && CallsOf(cs[..0]) == [];
    }
  }

  /** A first put into an empty store, and then a commit that is not careful. */
  lemma SecondIsCareless(pid: string, list: Lister, cs: seq<Commit>, first: Entry)
    requires Telling(pid, list) && |cs| == 2 && IsTreeKey(pid, cs[0].name.key) && cs[1].name == cs[0].name
    requires cs[0] == Putting(cs[0].name, None, first)
    requires !Careful(list, map[cs[0].name.key := (cs[0].name, first)], cs[1])
    ensures !AgreesAt(pid, list, cs, 2)
  {
    var n := cs[0].name;
    assert CallsOf(cs[..1]) == [Write(n, first)];
    assert forall i :: 0 <= i < 2 ==> CallsOf(cs)[i].name == n;
    FirstAgrees(pid, list, cs);
    OneWrite(n, first);
    StepIn(pid, list, cs, 1, map[n.key := (n, first)]);
  }

  lemma FirstAgrees(pid: string, list: Lister, cs: seq<Commit>)
    requires Telling(pid, list) && OneSpelling(pid, CallsOf(cs)) && cs != []
    ensures AgreesAt(pid, list, cs, 1)
  {
    assert cs[..0] == [] && CallsOf(cs[..0]) == [];
    StepIn(pid, list, cs, 0, map[]);
  }

  lemma StepIn(pid: string, list: Lister, cs: seq<Commit>, i: nat, tree: Tree)
    requires Telling(pid, list) && OneSpelling(pid, CallsOf(cs)) && i < |cs| && AgreesAt(pid, list, cs, i)
    requires TreeOf(CallsOf(cs[..i])) == tree
    ensures AgreesAt(pid, list, cs, i + 1) <==> Careful(list, tree, cs[i])
  {
    StepAgreesIff(pid, list, cs, i);
  }

  /** Two puts of different values of an indexed attribute, both of which read
      before either wrote: from an empty store the index ends up wrong. */
  lemma RacingPuts(pid: string, n: Name, attr: string, v: string, w: string)
    requires v != w && IsTreeKey(pid, n.key)
    ensures var list := Listing(pid, [attr]);
            var first, second := Entry(map[Lower(attr) := [v]]), Entry(map[Lower(attr) := [w]]);
            !AgreesAt(pid, list, [Putting(n, None, first), Putting(n, None, second)], 2)
  {
    var list, first, second := Listing(pid, [attr]), Entry(map[Lower(attr) := [v]]), Entry(map[Lower(attr) := [w]]);
    var cs := [Putting(n, None, first), Putting(n, None, second)];
    ListingTells(pid, [attr]);
    StaleValue(pid, n, attr, v, w);
    SecondIsCareless(pid, list, cs, first);
  }

  lemma LosesWhatItDoesNotSee(list: Lister, n: Name, found: Entry, there: Entry)
    requires !Covered(list(n, there), [], list(n, found))
    ensures !Covered(list(n, there), list(n, found), [])
  {
    var x :| x in list(n, there) && x !in list(n, found);
  }

  lemma TwoWrites(n: Name, first: Entry, second: Entry)
    ensures TreeOf([Write(n, first), Write(n, second)]) == map[n.key := (n, second)]
  {
    OneWrite(n, first);
    assert [Write(n, first), Write(n, second)][..1] == [Write(n, first)];
  }

  /** An entry found by a delete and rewritten before the delete commits. */
  lemma DeleteIsCareless(pid: string, list: Lister, cs: seq<Commit>, n: Name, first: Entry, second: Entry)
    requires Telling(pid, list) && IsTreeKey(pid, n.key) && !Covered(list(n, second), list(n, first), [])
    requires |cs| == 3 && cs[0] == Putting(n, None, first)
    requires cs[1] == Putting(n, Some(first), second) && cs[2] == Deleting(n, first)
    ensures AgreesAt(pid, list, cs, 2) && !AgreesAt(pid, list, cs, 3)
  {
    CallsBefore(cs, n, first, second);
    FirstAgrees(pid, list, cs);
    OneWrite(n, first);
    TwoWrites(n, first, second);
    RewriteIsCareful(list, n, first, second);
    StepIn(pid, list, cs, 1, map[n.key := (n, first)]);
    StepIn(pid, list, cs, 2, map[n.key := (n, second)]);
  }

  lemma RewriteIsCareful(list: Lister, n: Name, first: Entry, second: Entry)
    ensures Careful(list, map[n.key := (n, first)], Putting(n, Some(first), second))
    ensures Careful(list, map[n.key := (n, second)], Deleting(n, first)) <==>
              Covered(list(n, second), list(n, first), [])
  {
  }

  lemma CallsBefore(cs: seq<Commit>, n: Name, first: Entry, second: Entry)
    requires |cs| == 3 && CallOf(cs[0]) == Write(n, first) && CallOf(cs[1]) == Write(n, second) && cs[2].name == n
    ensures CallsOf(cs[..1]) == [Write(n, first)] && CallsOf(cs[..2]) == [Write(n, first), Write(n, second)]
    ensures forall i :: 0 <= i < 3 ==> CallsOf(cs)[i].name == n
  {
  }

  /** So with one value put, replaced and, on the strength of the first, deleted:
      the index keeps the key of the second. */
  lemma RacingDelete(pid: string, n: Name, attr: string, v: string, w: string)
    requires v != w && IsTreeKey(pid, n.key)
    ensures var first, second := Entry(map[Lower(attr) := [v]]), Entry(map[Lower(attr) := [w]]);
            var cs := [Putting(n, None, first), Putting(n, Some(first), second), Deleting(n, first)];
            !AgreesAt(pid, Listing(pid, [attr]), cs, 3)
  {
    var list, first, second := Listing(pid, [attr]), Entry(map[Lower(attr) := [v]]), Entry(map[Lower(attr) := [w]]);
    ListingTells(pid, [attr]);
    StaleValue(pid, n, attr, w, v);
    LosesWhatItDoesNotSee(list, n, first, second);
    DeleteIsCareless(pid, list, [Putting(n, None, first), Putting(n, Some(first), second), Deleting(n, first)], n,
                     first, second);
  }

  // -------------------------------------------------------------------- lookup

  /** Names whose printed form parses back. */
  ghost predicate Good(d: DN.Dn) {
    DN.DnOk(d) && DnRoundTrip.AllAttrsClosed(d) && DnRoundTrip.AllPrintable(d)
  }

  ghost predicate NamesKnown(pid: string, tree: Tree, names: map<string, DN.Dn>) {
    forall k :: k in tree ==> k in names && Good(names[k]) && tree[k].0 == NameOf(pid, names[k])
  }

  predicate HasValue(e: Entry, attr: string, value: string) {
    value in e.Values(attr)
  }

  lemma ListedHolds(pid: string, spec: seq<string>, n: Name, e: Entry, attr: string, value: string, x: string)
    requires x in IndexList(pid, spec, n, e) && IndexPrefix(pid, attr, value) <= x
    ensures HasValue(e, attr, value) && x == IndexKey(pid, attr, value, n.text)
  {
    InIndexList(pid, spec, n, e, x);
    var i, j :|
      && 0 <= i < |spec| && 0 <= j < |e.Values(spec[i])|
      && x == IndexKey(pid, spec[i], e.Values(spec[i])[j], n.text);
    var held := e.Values(spec[i])[j];
    PrefixSelects(pid, attr, value, spec[i], held, n.text);
    assert e.Values(spec[i]) == e.Values(attr);
  }

  lemma HeldIsListed(pid: string, spec: seq<string>, n: Name, e: Entry, attr: string, value: string) returns (x: string)
    requires HasValue(e, attr, value) && exists i :: 0 <= i < |spec| && Lower(spec[i]) == Lower(attr)
    ensures x in IndexList(pid, spec, n, e) && IndexPrefix(pid, attr, value) <= x
  {
    var i :| 0 <= i < |spec| && Lower(spec[i]) == Lower(attr);
    assert e.Values(spec[i]) == e.Values(attr);
    var j :| 0 <= j < |e.Values(spec[i])| && e.Values(spec[i])[j] == value;
    x := IndexKey(pid, spec[i], value, n.text);
    InIndexList(pid, spec, n, e, x);
    PrefixSelects(pid, attr, value, spec[i], value, n.text);
  }

  lemma PrefixChain(a: string, b: string, c: string)
    requires a <= b <= c
    ensures a <= c
  {
    assert c[..|a|] == c[..|b|][..|a|];
  }

  lemma PrefixIsIndex(pid: string, attr: string, value: string, x: string)
    requires IndexPrefix(pid, attr, value) <= x
    ensures IsIndexKey(pid, x)
  {
    PrefixChain(IndexRoot(pid), IndexPrefix(pid, attr, value), x);
  }

  /** A row of the answer is the index key of an entry with the value. */
  lemma RowOwner(pid: string, spec: seq<string>, list: Lister, kv: KeyValues, tree: Tree, attr: string, value: string,
                 x: string)
    returns (k: string)
    requires list == Listing(pid, spec) && Telling(pid, list) && IndexMatches(pid, list, kv, tree)
    requires x in kv && IndexPrefix(pid, attr, value) <= x
    ensures k in tree && HasValue(tree[k].1, attr, value) && kv[x] == Text(tree[k].0.text)
    ensures x == IndexKey(pid, attr, value, tree[k].0.text)
  {
    PrefixIsIndex(pid, attr, value, x);
    assert Owned(list, tree, x);
    k :| k in tree && x in KeysAt(list, tree, k);
    ListedHolds(pid, spec, tree[k].0, tree[k].1, attr, value, x);
  }

  lemma OwnerRow(pid: string, spec: seq<string>, list: Lister, kv: KeyValues, tree: Tree, attr: string, value: string,
                 k: string)
    returns (x: string)
    requires list == Listing(pid, spec) && IndexMatches(pid, list, kv, tree)
    requires k in tree && HasValue(tree[k].1, attr, value)
    requires exists i :: 0 <= i < |spec| && Lower(spec[i]) == Lower(attr)
    ensures x in kv && IndexPrefix(pid, attr, value) <= x && kv[x] == Text(tree[k].0.text)
  {
    x := HeldIsListed(pid, spec, tree[k].0, tree[k].1, attr, value);
    assert x in KeysAt(list, tree, k);
  }

  lemma GoodRow(pid: string, d: DN.Dn)
    requires Good(d)
    ensures RowName(Text(NameOf(pid, d).text)).Some? && DN.SameDn(RowName(Text(NameOf(pid, d).text)).value, d)
  {
    DnRoundTrip.PrintParse(d);
  }

  /** When the index agrees with the tree, a lookup by an indexed attribute gives
      exactly the names of the entries that hold the value. */
  lemma LookupExact(pid: string, spec: seq<string>, kv: KeyValues, tree: Tree, names: map<string, DN.Dn>, attr: string,
                    value: string, rows: seq<(string, Value)>)
    requires Agrees(pid, Listing(pid, spec), kv, tree) && NamesKnown(pid, tree, names)
    requires exists i :: 0 <= i < |spec| && Lower(spec[i]) == Lower(attr)
    requires IsRange(kv, IndexPrefix(pid, attr, value), rows)
    ensures NamesIn(rows).Some? && ExactlyHolders(tree, names, attr, value, NamesIn(rows).value)
  {
    var list, os := Listing(pid, spec), RowNames(rows);
    ListingTells(pid, spec);
    forall i | 0 <= i < |rows|
      ensures os[i].Some? && NamesHolder(tree, names, attr, value, os[i].value)
    {
      RowIsHolder(pid, spec, list, kv, tree, names, attr, value, rows[i]);
    }
    AllSomeHolds(os);
    forall i | 0 <= i < |rows|
      ensures NamesHolder(tree, names, attr, value, NamesIn(rows).value[i])
    {
      assert os[i] == Some(NamesIn(rows).value[i]);
    }
    forall k | k in tree && HasValue(tree[k].1, attr, value)
      ensures NamedOnce(NamesIn(rows).value, names[k])
    {
      var i := HolderHasRow(pid, spec, list, kv, tree, names, attr, value, rows, k);
      assert os[i] == Some(NamesIn(rows).value[i]);
      forall j | 0 <= j < |rows| && DN.SameDn(NamesIn(rows).value[j], names[k])
        ensures j == i
      {
        assert os[j] == Some(NamesIn(rows).value[j]);
        RowOfHolder(pid, spec, list, kv, tree, names, attr, value, rows[i], k);
        RowOfHolder(pid, spec, list, kv, tree, names, attr, value, rows[j], k);
      }
    }
  }

  /** A row that names a holder is the one index key the holder has there. */
  lemma RowOfHolder(pid: string, spec: seq<string>, list: Lister, kv: KeyValues, tree: Tree, names: map<string, DN.Dn>,
                    attr: string, value: string, row: (string, Value), k: string)
    requires list == Listing(pid, spec) && Telling(pid, list) && Agrees(pid, list, kv, tree)
    requires NamesKnown(pid, tree, names)
    requires row.0 in kv && IndexPrefix(pid, attr, value) <= row.0 && row.1 == kv[row.0]
    requires k in tree && RowName(row.1).Some? && DN.SameDn(RowName(row.1).value, names[k])
    ensures row.0 == IndexKey(pid, attr, value, tree[k].0.text)
  {
    var owner := RowOwner(pid, spec, list, kv, tree, attr, value, row.0);
    GoodRow(pid, names[owner]);
    Keys.SameDnByThird(RowName(row.1).value, names[k], names[owner]);
    Keys.SameKey(pid, names[k], names[owner]);
    assert tree[k].0.key == k && tree[owner].0.key == owner;
  }

  ghost predicate NamesHolder(tree: Tree, names: map<string, DN.Dn>, attr: string, value: string, d: DN.Dn) {
    exists k :: k in tree && HasValue(tree[k].1, attr, value) && k in names && DN.SameDn(d, names[k])
  }

  predicate NamedOnce(found: seq<DN.Dn>, d: DN.Dn) {
    exists i :: 0 <= i < |found| && DN.SameDn(found[i], d) &&
      forall j :: 0 <= j < |found| && DN.SameDn(found[j], d) ==> j == i
  }

  /** `found` names the entries that hold the value, each once, and only those. */
  ghost predicate ExactlyHolders(tree: Tree, names: map<string, DN.Dn>, attr: string, value: string,
                                 found: seq<DN.Dn>)
  {
    && (forall i :: 0 <= i < |found| ==> NamesHolder(tree, names, attr, value, found[i]))
    && (forall k :: k in tree && HasValue(tree[k].1, attr, value) ==>
          k in names && NamedOnce(found, names[k]))
  }

  lemma RowIsHolder(pid: string, spec: seq<string>, list: Lister, kv: KeyValues, tree: Tree, names: map<string, DN.Dn>,
                    attr: string, value: string, row: (string, Value))
    requires list == Listing(pid, spec) && Telling(pid, list) && IndexMatches(pid, list, kv, tree)
    requires NamesKnown(pid, tree, names)
    requires row.0 in kv && IndexPrefix(pid, attr, value) <= row.0 && row.1 == kv[row.0]
    ensures RowName(row.1).Some? && NamesHolder(tree, names, attr, value, RowName(row.1).value)
  {
    var k := RowOwner(pid, spec, list, kv, tree, attr, value, row.0);
    GoodRow(pid, names[k]);
  }

  lemma HolderHasRow(pid: string, spec: seq<string>, list: Lister, kv: KeyValues, tree: Tree, names: map<string, DN.Dn>,
                     attr: string, value: string, rows: seq<(string, Value)>, k: string)
    returns (i: nat)
    requires list == Listing(pid, spec) && IndexMatches(pid, list, kv, tree) && NamesKnown(pid, tree, names)
    requires k in tree && HasValue(tree[k].1, attr, value)
    requires exists j :: 0 <= j < |spec| && Lower(spec[j]) == Lower(attr)
    requires IsRange(kv, IndexPrefix(pid, attr, value), rows)
    ensures i < |rows| && RowNames(rows)[i].Some? && DN.SameDn(RowNames(rows)[i].value, names[k])
  {
    var x := OwnerRow(pid, spec, list, kv, tree, attr, value, k);
    i :| 0 <= i < |rows| && rows[i].0 == x;
    GoodRow(pid, names[k]);
  }

  /** Names that parse back from one printed form share a key: within a run the
      spelling of such a name tells its key. */
  lemma TextTellsKey(pid: string, d: DN.Dn, e: DN.Dn)
    requires Good(d) && Good(e) && DN.DnText(d) == DN.DnText(e)
    ensures NameOf(pid, d) == NameOf(pid, e)
  {
    DnRoundTrip.PrintParse(d);
    DnRoundTrip.PrintParse(e);
    Keys.SameDnByThird(DN.Parsed(DN.DnText(d)).value, d, e);
    Keys.SameKey(pid, d, e);
  }

  /** The names of a run, each by its key. */
  ghost predicate Named(pid: string, calls: seq<Call>, dns: seq<DN.Dn>) {
    |dns| == |calls| && forall i :: 0 <= i < |calls| ==> Good(dns[i]) && calls[i].name == NameOf(pid, dns[i])
  }

  lemma NamesOfRun(pid: string, calls: seq<Call>, dns: seq<DN.Dn>) returns (names: map<string, DN.Dn>)
    requires Named(pid, calls, dns)
    ensures NamesKnown(pid, TreeOf(calls), names)
  {
    TreeFromCalls(calls);
    var tree := TreeOf(calls);
    names := map k | k in tree :: DnAt(pid, calls, dns, tree[k].0);
  }

  ghost function DnAt(pid: string, calls: seq<Call>, dns: seq<DN.Dn>, n: Name): (d: DN.Dn)
    requires Named(pid, calls, dns) && exists i :: 0 <= i < |calls| && calls[i].name == n
    ensures Good(d) && n == NameOf(pid, d)
  {
    var i :| 0 <= i < |calls| && calls[i].name == n;
    dns[i]
  }

  /** After every serial run over names that print and parse back, with one
      spelling for each key, a lookup finds exactly the holders of the value. */
  lemma RunLookup(pid: string, spec: seq<string>, calls: seq<Call>, dns: seq<DN.Dn>, attr: string, value: string,
                  rows: seq<(string, Value)>)
    requires Named(pid, calls, dns)
    requires forall i, j :: 0 <= i < |calls| && 0 <= j < |calls| && calls[i].name.key == calls[j].name.key ==>
               calls[i].name.text == calls[j].name.text
    requires exists i :: 0 <= i < |spec| && Lower(spec[i]) == Lower(attr)
    requires IsRange(Run(Listing(pid, spec), calls), IndexPrefix(pid, attr, value), rows)
    ensures NamesIn(rows).Some?
    ensures exists names :: NamesKnown(pid, TreeOf(calls), names) &&
              ExactlyHolders(TreeOf(calls), names, attr, value, NamesIn(rows).value)
  {
    var list := Listing(pid, spec);
    ListingTells(pid, spec);
    RunSpelling(pid, calls, dns);
    RunAgrees(pid, list, calls);
    var names := NamesOfRun(pid, calls, dns);
    LookupExact(pid, spec, Run(list, calls), TreeOf(calls), names, attr, value, rows);
  }

  lemma RunSpelling(pid: string, calls: seq<Call>, dns: seq<DN.Dn>)
    requires Named(pid, calls, dns)
    requires forall i, j :: 0 <= i < |calls| && 0 <= j < |calls| && calls[i].name.key == calls[j].name.key ==>
               calls[i].name.text == calls[j].name.text
    ensures OneSpelling(pid, calls)
  {
    forall i | 0 <= i < |calls|
      ensures IsTreeKey(pid, calls[i].name.key)
    {
      assert Keys.TreeRoot(pid) <= Keys.EntryKey(pid, dns[i]);
    }
    forall i, j | 0 <= i < |calls| && 0 <= j < |calls| && calls[i].name.text == calls[j].name.text
      ensures calls[i].name.key == calls[j].name.key
    {
      TextTellsKey(pid, dns[i], dns[j]);
    }
  }

  // ------------------------------------------------------------- two spellings

  lemma AliceName(pid: string, v: string)
    requires v == "Alice" || v == "alice"
    ensures NameOf(pid, DN.Dn([[DN.Ava("cn", v)]])).text == "cn" + "=" + v && DN.Norm(v) == "alice"
  {
    DnRoundTrip.TextAlone("cn", v);
    TrimNothing(v);
    assert Lower(v) == "alice";
  }

  lemma OneKey(pid: string, a: DN.Ava, b: DN.Ava)
    requires DN.SameAva(a, b)
    ensures NameOf(pid, DN.Dn([[a]])).key == NameOf(pid, DN.Dn([[b]])).key
  {
    var d, e := DN.Dn([[a]]), DN.Dn([[b]]);
    assert DN.SameRdn(d.rdns[0], e.rdns[0]);
    Keys.SameKey(pid, d, e);
  }

  /** One key, two printed forms: `cn=Alice` and `cn=alice`. */
  lemma TwoSpellings(pid: string)
    ensures var n, m := NameOf(pid, DN.Dn([[DN.Ava("cn", "Alice")]])), NameOf(pid, DN.Dn([[DN.Ava("cn", "alice")]]));
            n.key == m.key && n.text == "cn" + "=" + "Alice" && m.text == "cn" + "=" + "alice" && n.text != m.text
  {
    AliceName(pid, "Alice");
    AliceName(pid, "alice");
    OneKey(pid, DN.Ava("cn", "Alice"), DN.Ava("cn", "alice"));
    assert ("cn" + "=" + "Alice")[3] == 'A' && ("cn" + "=" + "alice")[3] == 'a';
  }

  /** Written as `cn=Alice` and then as `cn=alice`, an entry with an indexed value
      leaves a stale key. */
  lemma RespellingGoesStale(pid: string, e: Entry)
    requires e.Values("cn") != []
    ensures var n, m := NameOf(pid, DN.Dn([[DN.Ava("cn", "Alice")]])), NameOf(pid, DN.Dn([[DN.Ava("cn", "alice")]]));
            var list, calls := Listing(pid, ["cn"]), [Write(n, e), Write(m, e)];
            !Agrees(pid, list, Run(list, calls), TreeOf(calls))
  {
    var d := DN.Dn([[DN.Ava("cn", "Alice")]]);
    TwoSpellings(pid);
    ListingTells(pid, ["cn"]);
    FirstIsListed(pid, NameOf(pid, d), e);
    assert Keys.TreeRoot(pid) <= Keys.EntryKey(pid, d);
    RespelledRun(pid, Listing(pid, ["cn"]), NameOf(pid, d), NameOf(pid, DN.Dn([[DN.Ava("cn", "alice")]])), e);
  }

  lemma RespelledRun(pid: string, list: Lister, n: Name, m: Name, e: Entry)
    requires Telling(pid, list) && IsTreeKey(pid, n.key) && n.key == m.key && n.text != m.text && list(n, e) != []
    ensures var calls := [Write(n, e), Write(m, e)];
            !Agrees(pid, list, Run(list, calls), TreeOf(calls))
  {
    var first := [Write(n, e)];
    RunAgrees(pid, list, first);
    OneWrite(n, e);
    RespelledPut(pid, list, Run(list, first), TreeOf(first), m, e);
    assert [Write(n, e), Write(m, e)][..1] == first;
  }

  lemma FirstIsListed(pid: string, n: Name, e: Entry)
    requires e.Values("cn") != []
    ensures IndexList(pid, ["cn"], n, e) != []
  {
    var x := IndexKey(pid, ["cn"][0], e.Values(["cn"][0])[0], n.text);
    InIndexList(pid, ["cn"], n, e, x);
  }

  lemma OneWrite(n: Name, e: Entry)
    ensures TreeOf([Write(n, e)]) == map[n.key := (n, e)]
  {
    assert [Write(n, e)][..0] == [];
    assert TreeOf([Write(n, e)][..0]) == map[];
  }

  /** A tree key that holds no readable entry is left alone by every call, and one that
      is taken by a create. */
  lemma LeftAlone(list: Lister, kv: KeyValues, n: Name, e: Entry)
    requires n.key in kv
    ensures Performed(list, kv, Create(n, e)) == kv
    ensures kv[n.key].Text? ==> Performed(list, kv, Write(n, e)) == kv && Performed(list, kv, Erase(n)) == kv
  {
  }
}
