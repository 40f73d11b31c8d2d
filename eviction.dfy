/** One round of the background eviction loop: when the hot tier's cache
    holds more keys than its capacity, the coldest candidates still in
    tier 0 move, with their slabs, to tier 1. */
module Eviction {
  import opened Slabs
  import opened Tiers

  /** Most keys one round takes from the cache. */
  const MaxBatch := 1000

  /** How many candidates a round asks the cache for, given its live count
      and its capacity. */
  function BatchSize(cacheCount: nat, capacity: nat): (n: nat)
    ensures n <= MaxBatch
    ensures cacheCount <= capacity ==> n == 0
    ensures cacheCount > capacity ==> 0 < n && capacity <= cacheCount - n
    ensures cacheCount > capacity ==> cacheCount - n == capacity || n == MaxBatch
  {
    if cacheCount > capacity then
      if cacheCount - capacity < MaxBatch then cacheCount - capacity else MaxBatch
    else 0
  }

  /** One candidate: if tier 0 still holds it, its entry moves to tier 1
      (overwriting what tier 1 had); otherwise it is skipped. */
  function EvictOne(t0: Tier, t1: Tier, key: Key): (Tier, Tier) {
    if key in t0 then (t0 - {key}, t1[key := t0[key]]) else (t0, t1)
  }

  /** The candidates handled in order. */
  function EvictAll(t0: Tier, t1: Tier, ids: seq<Key>): (Tier, Tier) {
    if |ids| == 0 then (t0, t1)
    else
      var p := EvictAll(t0, t1, ids[..|ids| - 1]);
      EvictOne(p.0, p.1, ids[|ids| - 1])
  }

  /** After a round no candidate is left in tier 0; every candidate that was
      there is in tier 1 with the slab it had in tier 0; every other key of
      either tier keeps its entry. */
  lemma {:induction false} EvictAllEffect(t0: Tier, t1: Tier, ids: seq<Key>)
    ensures var r := EvictAll(t0, t1, ids);
      && (forall k :: k in ids ==> k !in r.0)
      && (forall k :: k !in ids ==> (k in r.0 <==> k in t0))
      && (forall k :: k !in ids && k in t0 ==> r.0[k] == t0[k])
      && (forall k :: k in ids && k in t0 ==> k in r.1 && r.1[k] == t0[k])
      && (forall k :: !(k in ids && k in t0) ==> (k in r.1 <==> k in t1))
      && (forall k :: !(k in ids && k in t0) && k in t1 ==> r.1[k] == t1[k])
  {
    if |ids| > 0 {
      var n := |ids| - 1;
      var pre := ids[..n];
      EvictAllEffect(t0, t1, pre);
      assert ids == pre + [ids[n]];
      assert forall k :: k in ids <==> k in pre || k == ids[n];
    }
  }

  /** A round loses no key: the keys held by the two tiers together are
      the same before and after, and no entry refers to a new slab. */
  lemma EvictAllKeepsKeys(t0: Tier, t1: Tier, ids: seq<Key>)
    ensures var r := EvictAll(t0, t1, ids);
      && r.0.Keys + r.1.Keys == t0.Keys + t1.Keys
      && r.0.Values + r.1.Values <= t0.Values + t1.Values
  {
    var r := EvictAll(t0, t1, ids);
    EvictAllEffect(t0, t1, ids);
    MovedKeys(t0, t1, r.0, r.1, set k | k in ids);
    MovedSlabs(t0, t1, r.0, r.1, set k | k in ids);
  }

  /** Entries moved from `t0` to `t1` for the keys of `moved`, the rest
      untouched, leave the union of the keys as it was. */
  lemma MovedKeys(t0: Tier, t1: Tier, r0: Tier, r1: Tier, moved: set<Key>)
    requires forall k :: k in moved ==> k !in r0
    requires forall k :: k !in moved ==> (k in r0 <==> k in t0)
    requires forall k :: k in moved && k in t0 ==> k in r1
    requires forall k :: !(k in moved && k in t0) ==> (k in r1 <==> k in t1)
    ensures r0.Keys + r1.Keys == t0.Keys + t1.Keys
  {
    forall k ensures k in r0.Keys + r1.Keys <==> k in t0.Keys + t1.Keys {
      if k in moved && k in t0 {
        assert k in r1;
      }
    }
  }

  /** Entries moved from `t0` to `t1` for the keys of `moved`, the rest
      untouched, refer to no slab that neither tier referred to. */
  lemma MovedSlabs(t0: Tier, t1: Tier, r0: Tier, r1: Tier, moved: set<Key>)
    requires forall k :: k in r0 ==> k in t0 && r0[k] == t0[k]
    requires forall k :: k in moved && k in t0 ==> k in r1 && r1[k] == t0[k]
    requires forall k :: !(k in moved && k in t0) ==> (k in r1 <==> k in t1)
    requires forall k :: !(k in moved && k in t0) && k in t1 ==> r1[k] == t1[k]
    ensures r0.Values + r1.Values <= t0.Values + t1.Values
  {
    forall id | id in r0.Values + r1.Values ensures id in t0.Values + t1.Values {
      if id in r0.Values {
        var k := KeyOf(r0, id);
        assert k in t0 && t0[k] == id;
      } else {
        var k := KeyOf(r1, id);
        if k in moved && k in t0 {
          assert t0[k] == id;
        } else {
          assert k in t1 && t1[k] == id;
        }
      }
    }
  }
}
