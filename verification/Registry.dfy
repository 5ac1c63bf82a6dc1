/** Routing a name to the naming context that owns it (`iron_partition::registry`). */
module Registry {
  import opened Options
  import opened DistinguishedNames
  import opened Keys

  datatype Partition = Partition(id: string, base: Dn)

  type Partitions = map<string, Partition>

  /** Every partition is filed under its own id. */
  predicate Filed(parts: Partitions) {
    forall i :: i in parts ==> parts[i].id == i
  }

  predicate Owns(parts: Partitions, i: string, d: Dn) {
    i in parts && IsWithin(d, parts[i].base)
  }

  /** The partition under `i` has the longest base among those that hold `d`. */
  predicate Longest(parts: Partitions, i: string, d: Dn) {
    && Owns(parts, i, d)
    && forall j :: j in parts && IsWithin(d, parts[j].base) ==> |parts[j].base.rdns| <= |parts[i].base.rdns|
  }

  class PartitionRegistry {
    var partitions: Partitions

    constructor ()
      ensures partitions == map[]
    {
      partitions := map[];
    }

    method Insert(p: Partition) returns (ok: bool)
      requires Filed(partitions)
      modifies this
      ensures Filed(partitions)
      ensures ok <==> p.id !in old(partitions)
      ensures partitions == if ok then old(partitions)[p.id := p] else old(partitions)
    {
      if p.id in partitions {
        return false;
      }
      partitions := partitions[p.id := p];
      ok := true;
    }

    /** `order` is the order in which the map is walked. */
    method Resolve(d: Dn, order: seq<string>) returns (r: Option<Partition>)
      requires Filed(partitions) && forall i :: i in partitions <==> i in order
      ensures r.None? <==> forall i :: i in partitions ==> !IsWithin(d, partitions[i].base)
      ensures r.Some? ==>
                r.value.id in partitions && partitions[r.value.id] == r.value && Longest(partitions, r.value.id, d)
    {
      r := None;
      for n := 0 to |order|
        invariant r.None? ==> forall m :: 0 <= m < n ==> !IsWithin(d, partitions[order[m]].base)
        invariant r.Some? ==> r.value.id in partitions && partitions[r.value.id] == r.value && IsWithin(d, r.value.base)
        invariant r.Some? ==> forall m :: 0 <= m < n && IsWithin(d, partitions[order[m]].base) ==>
                    |partitions[order[m]].base.rdns| <= |r.value.base.rdns|
      {
        assert order[n] in partitions;
        var p := partitions[order[n]];
        if IsWithin(d, p.base) && (r.None? || |r.value.base.rdns| <= |p.base.rdns|) {
          r := Some(p);
        }
      }
    }
  }

  // --------------------------------------------------------------- uniqueness

  lemma EqualLengthSuffixes(d: Dn, b: Dn, c: Dn)
    requires IsWithin(d, b) && IsWithin(d, c) && |b.rdns| == |c.rdns|
    ensures SameDn(b, c)
  {
    SameDnByThird(Dn(d.rdns[|d.rdns| - |b.rdns|..]), b, c);
  }

  ghost predicate BasesApart(parts: Partitions) {
    forall i, j :: i in parts && j in parts && SameDn(parts[i].base, parts[j].base) ==> i == j
  }

  /** With distinct bases the owner of a name is unique. */
  lemma OwnerUnique(parts: Partitions, d: Dn, i: string, j: string)
    requires BasesApart(parts) && Longest(parts, i, d) && Longest(parts, j, d)
    ensures i == j
  {
    EqualLengthSuffixes(d, parts[i].base, parts[j].base);
  }

  // -------------------------------------------------------------- walking up

  /** The ancestor of `d` that is `k` steps up. */
  function Ancestor(d: Dn, k: nat): Dn
    requires k <= |d.rdns|
  {
    Dn(d.rdns[k..])
  }

  ghost predicate BaseOf(parts: Partitions, i: string, d: Dn) {
    i in parts && SameDn(d, parts[i].base)
  }

  lemma AncestorHolds(parts: Partitions, i: string, d: Dn, k: nat)
    requires k <= |d.rdns| && BaseOf(parts, i, Ancestor(d, k))
    ensures IsWithin(d, parts[i].base) && |parts[i].base.rdns| == |d.rdns| - k
  {
  }

  /** Longest-suffix routing is walking up from the name to the first ancestor
      that is the base of a partition. */
  lemma OwnerIsFirstAncestor(parts: Partitions, d: Dn, i: string)
    ensures Longest(parts, i, d) <==>
              exists k: nat :: k <= |d.rdns| && BaseOf(parts, i, Ancestor(d, k)) &&
                forall j, m: nat :: m < k ==> !BaseOf(parts, j, Ancestor(d, m))
  {
    if Longest(parts, i, d) {
      var k := |d.rdns| - |parts[i].base.rdns|;
      assert BaseOf(parts, i, Ancestor(d, k));
      forall j, m: nat | m < k
        ensures !BaseOf(parts, j, Ancestor(d, m))
      {
        if BaseOf(parts, j, Ancestor(d, m)) {
          AncestorHolds(parts, j, d, m);
          assert false;
        }
      }
    }
    forall k: nat |
      && k <= |d.rdns| && BaseOf(parts, i, Ancestor(d, k))
      && forall j, m: nat :: m < k ==> !BaseOf(parts, j, Ancestor(d, m))
      ensures Longest(parts, i, d)
    {
      FirstIsLongest(parts, d, i, k);
    }
  }

  lemma FirstIsLongest(parts: Partitions, d: Dn, i: string, k: nat)
    requires k <= |d.rdns| && BaseOf(parts, i, Ancestor(d, k))
    requires forall j, m: nat :: m < k ==> !BaseOf(parts, j, Ancestor(d, m))
    ensures Longest(parts, i, d)
  {
    assert |parts[i].base.rdns| == |d.rdns| - k;
    forall j | j in parts && IsWithin(d, parts[j].base)
      ensures |parts[j].base.rdns| <= |parts[i].base.rdns|
    {
      assert BaseOf(parts, j, Ancestor(d, |d.rdns| - |parts[j].base.rdns|));
    }
  }
}
