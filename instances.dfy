/**
 * Coordination between open copies of the application.  Each copy pings a
 * shared list of descriptors; the copy with the smallest id among the fresh
 * ones is the primary.  Ids are creation instants (the decimal string of
 * Date.now(), compared here by their numeric value) and pings are instants
 * in milliseconds.
 */
module Instances {
  import StableSort
  import Lookup

  datatype Descriptor = Descriptor(id: nat, lastPing: int)

  /** How long a descriptor stays fresh without a ping, in milliseconds. */
  const StaleAfter := 5000

  predicate IsFresh(d: Descriptor, now: int) {
    now - d.lastPing <= StaleAfter
  }

  /** instances.filter(instance => (now - instance.lastPing) <= 5000). */
  function Fresh(ds: seq<Descriptor>, now: int): (r: seq<Descriptor>)
    ensures |r| <= |ds|
  {
    if ds == [] then []
    else
      var d := ds[|ds| - 1];
      Fresh(ds[..|ds| - 1], now) + (if IsFresh(d, now) then [d] else [])
  }

  /** The filter keeps exactly the fresh descriptors. */
  lemma {:induction false} FreshMembers(ds: seq<Descriptor>, now: int)
    ensures forall d :: d in Fresh(ds, now) <==> d in ds && IsFresh(d, now)
  {
    if ds != [] {
      var pre, d := ds[..|ds| - 1], ds[|ds| - 1];
      FreshMembers(pre, now);
      assert ds == pre + [d];
    }
  }

  /** instances.find(i => i.id === id), as the position of the first match or -1. */
  function IndexOfInstance(ds: seq<Descriptor>, id: nat): (k: int)
    ensures -1 <= k < |ds|
    ensures k >= 0 ==> ds[k].id == id && forall j :: 0 <= j < k ==> ds[j].id != id
    ensures k == -1 ==> forall j :: 0 <= j < |ds| ==> ds[j].id != id
  {
    Lookup.FirstWithKey(ds, ById, id)
  }

  /** The first descriptor of this instance gets the new ping, or one is appended. */
  function Upserted(ds: seq<Descriptor>, id: nat, now: int): seq<Descriptor> {
    var k := IndexOfInstance(ds, id);
    if k == -1 then ds + [Descriptor(id, now)] else ds[k := ds[k].(lastPing := now)]
  }

  function ById(d: Descriptor): int {
    d.id
  }

  /** The list checkActiveInstance stores: fresh descriptors, this one pinged, sorted by id. */
  function Checked(stored: seq<Descriptor>, id: nat, now: int): seq<Descriptor> {
    StableSort.Sort(Upserted(Fresh(stored, now), id, now), ById)
  }

  /** isFirstInstance: instances[0].id === this.instanceId. */
  function IsPrimary(stored: seq<Descriptor>, id: nat, now: int): bool {
    var r := Checked(stored, id, now);
    |r| > 0 && r[0].id == id
  }

  /**
   * The upsert keeps every descriptor fresh, pings this instance, keeps the
   * descriptors of the other instances and adds nothing else.
   */
  lemma UpsertedFresh(ds: seq<Descriptor>, id: nat, now: int)
    requires forall d :: d in ds ==> IsFresh(d, now)
    ensures forall d :: d in Upserted(ds, id, now) ==> IsFresh(d, now)
    ensures Descriptor(id, now) in Upserted(ds, id, now)
    ensures forall d :: d in Upserted(ds, id, now) && d != Descriptor(id, now) ==> d in ds
    ensures forall d :: d in ds && d.id != id ==> d in Upserted(ds, id, now)
  {
    var k := IndexOfInstance(ds, id);
    if k != -1 {
      var r := ds[k := ds[k].(lastPing := now)];
      assert r[k] == Descriptor(id, now);
      forall d | d in r && d != Descriptor(id, now) ensures d in ds {
        var j :| 0 <= j < |r| && r[j] == d;
        assert j != k && r[j] == ds[j];
      }
      forall d | d in ds && d.id != id ensures d in r {
        var j :| 0 <= j < |ds| && ds[j] == d;
        assert j != k && r[j] == ds[j];
      }
    }
  }

  /**
   * After a check: every kept descriptor is fresh, this instance is present
   * with the new ping, the list is sorted by ascending id, and every other
   * descriptor comes from the stored list.
   */
  lemma CheckedProperties(stored: seq<Descriptor>, id: nat, now: int)
    ensures var r := Checked(stored, id, now);
      && (forall d :: d in r ==> IsFresh(d, now))
      && Descriptor(id, now) in r
      && (forall i, j :: 0 <= i < j < |r| ==> r[i].id <= r[j].id)
      && (forall d :: d in r && d != Descriptor(id, now) ==> d in stored)
      && multiset(r) == multiset(Upserted(Fresh(stored, now), id, now))
  {
    var u := Upserted(Fresh(stored, now), id, now);
    var r := Checked(stored, id, now);
    FreshMembers(stored, now);
    UpsertedFresh(Fresh(stored, now), id, now);
    assert forall d :: d in r <==> d in multiset(r);
    assert forall d :: d in u <==> d in multiset(u);
    forall i, j | 0 <= i < j < |r| ensures r[i].id <= r[j].id {
      assert ById(r[i]) <= ById(r[j]);
    }
  }

  /**
   * This instance is the primary exactly when no descriptor of the checked
   * list has a smaller id, that is, when no fresh descriptor in storage has one.
   */
  lemma PrimaryIffOldest(stored: seq<Descriptor>, id: nat, now: int)
    ensures IsPrimary(stored, id, now) <==> forall d :: d in Checked(stored, id, now) ==> id <= d.id
    ensures IsPrimary(stored, id, now) <==> forall d :: d in stored && IsFresh(d, now) ==> id <= d.id
  {
    var r := Checked(stored, id, now);
    CheckedProperties(stored, id, now);
    StableSort.FirstIsLeast(r, ById);
    assert ById(r[0]) <= ById(Descriptor(id, now));
    assert r[0] in r;
    CheckedHoldsFresh(stored, id, now);
  }

  /** Every fresh stored descriptor of another instance is in the checked list. */
  lemma CheckedHoldsFresh(stored: seq<Descriptor>, id: nat, now: int)
    ensures forall d :: d in stored && IsFresh(d, now) && d.id != id ==> d in Checked(stored, id, now)
  {
    var u := Upserted(Fresh(stored, now), id, now);
    FreshMembers(stored, now);
    UpsertedFresh(Fresh(stored, now), id, now);
    CheckedProperties(stored, id, now);
    assert forall d :: d in u <==> d in multiset(u);
    assert forall d :: d in Checked(stored, id, now) <==> d in multiset(Checked(stored, id, now));
  }

  /** A descriptor pinged exactly 5000 ms ago is kept, one pinged 5001 ms ago is dropped. */
  lemma StalenessBoundary()
    ensures Checked([Descriptor(100, 0)], 200, 5000) == [Descriptor(100, 0), Descriptor(200, 5000)]
    ensures Checked([Descriptor(100, 0)], 200, 5001) == [Descriptor(200, 5001)]
    ensures !IsPrimary([Descriptor(100, 0)], 200, 5000) && IsPrimary([Descriptor(100, 0)], 200, 5001)
  {
    assert Fresh([Descriptor(100, 0)], 5000) == [Descriptor(100, 0)];
    assert Fresh([Descriptor(100, 0)], 5001) == [];
    var u := [Descriptor(100, 0), Descriptor(200, 5000)];
    assert Upserted([Descriptor(100, 0)], 200, 5000) == u;
    assert u[..1] == [Descriptor(100, 0)] && u[..1][..0] == [];
    assert StableSort.Sort([Descriptor(100, 0)], ById) == [Descriptor(100, 0)];
    assert [Descriptor(200, 5001)][..0] == [];
  }

  /** The removal part of beforeUnload: activeInstances.filter(i => i.id !== this.instanceId). */
  function Without(ds: seq<Descriptor>, id: nat): (r: seq<Descriptor>)
    ensures |r| <= |ds|
  {
    if ds == [] then []
    else
      var d := ds[|ds| - 1];
      Without(ds[..|ds| - 1], id) + (if d.id != id then [d] else [])
  }

  /** The removal keeps exactly the descriptors of other instances. */
  lemma {:induction false} WithoutMembers(ds: seq<Descriptor>, id: nat)
    ensures forall d :: d in Without(ds, id) <==> d in ds && d.id != id
  {
    if ds != [] {
      var pre, d := ds[..|ds| - 1], ds[|ds| - 1];
      WithoutMembers(pre, id);
      assert ds == pre + [d];
    }
  }

  /** A list without this instance is stored back unchanged. */
  lemma {:induction false} WithoutAbsentIsIdentity(ds: seq<Descriptor>, id: nat)
    requires forall k :: 0 <= k < |ds| ==> ds[k].id != id
    ensures Without(ds, id) == ds
  {
    if ds != [] {
      var pre := ds[..|ds| - 1];
      WithoutAbsentIsIdentity(pre, id);
      assert ds == pre + [ds[|ds| - 1]];
    }
  }

  /** After leaving, the next check by another instance no longer sees this one. */
  lemma LeaveThenCheck(stored: seq<Descriptor>, me: nat, other: nat, now: int)
    requires me != other
    ensures forall d :: d in Checked(Without(stored, me), other, now) ==> d.id != me
  {
    WithoutMembers(stored, me);
    CheckedProperties(Without(stored, me), other, now);
  }

  /** One open copy: its id, whether it is the primary, and the ids it last saw. */
  class Coordinator {
    const instanceId: nat
    var isFirstInstance: bool
    var activeInstances: set<nat>

    constructor (id: nat)
      ensures instanceId == id && isFirstInstance && activeInstances == {}
    {
      instanceId := id;
      isFirstInstance := true;
      activeInstances := {};
    }

    /**
     * checkActiveInstance: given the stored list, drop stale descriptors,
     * ping this one, sort by id and decide primacy; returns the list to store
     * and the decision.
     */
    method CheckActiveInstance(stored: seq<Descriptor>, now: int) returns (instances: seq<Descriptor>, first: bool)
      modifies this
      ensures instances == Checked(stored, instanceId, now)
      ensures first == isFirstInstance == IsPrimary(stored, instanceId, now)
      ensures activeInstances == set d | d in instances :: d.id
    {
      instances := [];
      var j := 0;
      while j < |stored|
        invariant 0 <= j <= |stored|
        invariant instances == Fresh(stored[..j], now)
      {
        assert stored[..j + 1][..j] == stored[..j];
        if now - stored[j].lastPing <= StaleAfter {
          instances := instances + [stored[j]];
        }
        j := j + 1;
      }
      assert stored[..j] == stored;
      ghost var kept := instances;
      var k := IndexOfInstance(instances, instanceId);
      if k == -1 {
        instances := instances + [Descriptor(instanceId, now)];
      } else {
        instances := instances[k := instances[k].(lastPing := now)];
      }
      assert instances == Upserted(kept, instanceId, now) && |instances| > 0;
      instances := StableSort.Sort(instances, ById);
      assert instances == Checked(stored, instanceId, now);
      isFirstInstance := instances[0].id == instanceId;
      assert isFirstInstance == IsPrimary(stored, instanceId, now);
      activeInstances := set d | d in instances :: d.id;
      first := isFirstInstance;
    }

    /** The removal part of beforeUnload: the list to store once this copy is gone. */
    method Leave(stored: seq<Descriptor>) returns (remaining: seq<Descriptor>)
      ensures remaining == Without(stored, instanceId)
    {
      remaining := [];
      var j := 0;
      while j < |stored|
        invariant 0 <= j <= |stored|
        invariant remaining == Without(stored[..j], instanceId)
      {
        assert stored[..j + 1][..j] == stored[..j];
        if stored[j].id != instanceId {
          remaining := remaining + [stored[j]];
        }
        j := j + 1;
      }
      assert stored[..j] == stored;
    }
  }
}
