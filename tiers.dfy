/** The tier list of the manager as values: each tier is its backend's
    key-to-slab map, tier 0 the hot one. Lookup order, removal from every
    tier, sizes, backend enumeration and bulk commit. */
module Tiers {
  import opened Base
  import opened Slabs

  /** A sparse feature id (the source's key type K, an int64). */
  type Key = int

  /** One backend's contents. */
  type Tier = map<Key, SlabId>

  /** The slabs some tier refers to. */
  function Referenced(tiers: seq<Tier>): (ids: set<SlabId>)
    ensures forall id :: id in ids <==> exists i :: 0 <= i < |tiers| && id in tiers[i].Values
  {
    if |tiers| == 0 then {}
    else
      var prefix := tiers[..|tiers| - 1];
      assert forall i :: 0 <= i < |prefix| ==> prefix[i] == tiers[i];
      Referenced(prefix) + tiers[|tiers| - 1].Values
  }

  /** No tier refers to a destroyed slab. */
  ghost predicate Live(tiers: seq<Tier>, heap: Heap) {
    Referenced(tiers) <= heap.Keys
  }

  /** `n` tiers holding nothing. */
  function EmptyTiers(n: nat): (r: seq<Tier>)
    ensures |r| == n && forall i :: 0 <= i < n ==> r[i] == map[]
  {
    seq(n, _ => map[])
  }

  /** New, empty tiers refer to no slab. */
  lemma LiveAppendEmpty(tiers: seq<Tier>, heap: Heap, n: nat)
    requires Live(tiers, heap)
    ensures Live(tiers + EmptyTiers(n), heap)
  {
    var t := tiers + EmptyTiers(n);
    forall id | id in Referenced(t) ensures id in heap {
      var i :| 0 <= i < |t| && id in t[i].Values;
      assert i < |tiers| && t[i] == tiers[i];
    }
  }

  /** The first tier, in lookup order, that holds `key`. */
  function FirstHit(tiers: seq<Tier>, key: Key): (level: Option<nat>)
    ensures level.Some? ==> level.value < |tiers| && key in tiers[level.value]
    ensures level.Some? ==> forall j :: 0 <= j < level.value ==> key !in tiers[j]
    ensures level.None? ==> forall j :: 0 <= j < |tiers| ==> key !in tiers[j]
  {
    if |tiers| == 0 then None
    else if key in tiers[0] then Some(0)
    else match FirstHit(tiers[1..], key)
      case None => None
      case Some(l) => Some(l + 1)
  }

  /** `key` removed from every tier. */
  function RemoveAll(tiers: seq<Tier>, key: Key): (r: seq<Tier>)
    ensures |r| == |tiers|
    ensures forall i :: 0 <= i < |r| ==> key !in r[i]
    ensures forall i, k :: 0 <= i < |r| && k != key ==>
      (k in r[i] <==> k in tiers[i]) && (k in r[i] ==> r[i][k] == tiers[i][k])
  {
    seq(|tiers|, i requires 0 <= i < |tiers| => tiers[i] - {key})
  }

  /** Removing a key twice is removing it once. */
  lemma RemoveAllIdempotent(tiers: seq<Tier>, key: Key)
    ensures RemoveAll(RemoveAll(tiers, key), key) == RemoveAll(tiers, key)
  {
    var once := RemoveAll(tiers, key);
    var twice := RemoveAll(once, key);
    forall i | 0 <= i < |tiers| ensures twice[i] == once[i] {
      assert twice[i].Keys == once[i].Keys;
    }
  }

  /** Removal keeps every other slab reference, so no slab is destroyed. */
  lemma RemoveAllKeepsLive(tiers: seq<Tier>, key: Key, heap: Heap)
    requires Live(tiers, heap)
    ensures Live(RemoveAll(tiers, key), heap)
  {
    var r := RemoveAll(tiers, key);
    forall id | id in Referenced(r) ensures id in heap {
      var i :| 0 <= i < |r| && id in r[i].Values;
      var k := KeyOf(r[i], id);
      assert tiers[i][k] == id;
    }
  }

  /** A key under which `m` stores `id`. */
  lemma KeyOf(m: Tier, id: SlabId) returns (k: Key)
    requires id in m.Values
    ensures k in m && m[k] == id
  {
    if forall x :: x in m ==> m[x] != id { assert false; }
    k :| k in m && m[k] == id;
  }

  /** Number of entries over all tiers. */
  function TotalSize(tiers: seq<Tier>): nat {
    if |tiers| == 0 then 0 else TotalSize(tiers[..|tiers| - 1]) + |tiers[|tiers| - 1]|
  }

  /** Number of tiers that hold `key`. */
  function Holding(tiers: seq<Tier>, key: Key): nat {
    if |tiers| == 0 then 0
    else Holding(tiers[..|tiers| - 1], key) + (if key in tiers[|tiers| - 1] then 1 else 0)
  }

  /** Removing a key shrinks the total size by one per tier that held it. */
  lemma {:induction false} RemoveAllSize(tiers: seq<Tier>, key: Key)
    ensures Holding(tiers, key) <= TotalSize(tiers)
    ensures TotalSize(RemoveAll(tiers, key)) == TotalSize(tiers) - Holding(tiers, key)
  {
    if |tiers| > 0 {
      var n := |tiers| - 1;
      RemoveAllSize(tiers[..n], key);
      assert RemoveAll(tiers, key)[..n] == RemoveAll(tiers[..n], key);
      var last := tiers[n];
      if key in last {
        assert (last - {key}).Keys == last.Keys - {key};
        assert |last - {key}| == |last| - 1;
      } else {
        assert last - {key} == last;
      }
    }
  }

  /** `keys`, `ids` list the entries of `m` once each, in the backend's
      enumeration order. */
  ghost predicate IsEnumeration(keys: seq<Key>, ids: seq<SlabId>, m: Tier) {
    && |keys| == |ids| == |m|
    && (forall j :: 0 <= j < |keys| ==> keys[j] in m && ids[j] == m[keys[j]])
    && (forall k :: k in m ==> k in keys)
    && (forall j, l :: 0 <= j < l < |keys| ==> keys[j] != keys[l])
  }

  /** One backend enumeration: entry j maps `keys[j]` to `ids[j]`. */
  datatype Snapshot = Snapshot(keys: seq<Key>, ids: seq<SlabId>)

  /** A backend's GetSnapshot: every entry once, in an order the backend
      chooses. */
  method EnumerateTier(m: Tier) returns (keys: seq<Key>, ids: seq<SlabId>)
    ensures IsEnumeration(keys, ids, m)
  {
    keys, ids := [], [];
    var rest := m.Keys;
    while |rest| > 0
      invariant rest <= m.Keys
      invariant |keys| == |ids| && |keys| + |rest| == |m|
      invariant forall j :: 0 <= j < |keys| ==> keys[j] in m && keys[j] !in rest && ids[j] == m[keys[j]]
      invariant forall k :: k in m ==> k in keys || k in rest
      invariant forall j, l :: 0 <= j < l < |keys| ==> keys[j] != keys[l]
      decreases |rest|
    {
      if forall x :: x !in rest { assert false; }
      var k: Key :| k in rest;
      keys, ids := keys + [k], ids + [m[k]];
      rest := rest - {k};
    }
  }

  /** A backend's BatchCommit: each key in turn is written with its slab. */
  function CommitAll(m: Tier, keys: seq<Key>, ids: seq<SlabId>): Tier
    requires |keys| == |ids|
  {
    if |keys| == 0 then m
    else CommitAll(m, keys[..|keys| - 1], ids[..|ids| - 1])[keys[|keys| - 1] := ids[|ids| - 1]]
  }

  /** After a bulk commit each listed key maps to the slab of its last
      occurrence, and every other entry is as it was. */
  lemma {:induction false} CommitAllEffect(m: Tier, keys: seq<Key>, ids: seq<SlabId>)
    requires |keys| == |ids|
    ensures var r := CommitAll(m, keys, ids);
      && (forall k :: k !in keys ==> (k in r <==> k in m) && (k in r ==> r[k] == m[k]))
      && (forall j :: 0 <= j < |keys| && (forall l :: j < l < |keys| ==> keys[l] != keys[j]) ==>
            keys[j] in r && r[keys[j]] == ids[j])
  {
    if |keys| > 0 {
      var n := |keys| - 1;
      CommitAllEffect(m, keys[..n], ids[..n]);
      var p := CommitAll(m, keys[..n], ids[..n]);
      var r := CommitAll(m, keys, ids);
      forall k | k !in keys ensures (k in r <==> k in m) && (k in r ==> r[k] == m[k]) {
        assert k !in keys[..n];
      }
      forall j | 0 <= j < |keys| && (forall l :: j < l < |keys| ==> keys[l] != keys[j])
        ensures keys[j] in r && r[keys[j]] == ids[j]
      {
        if j < n {
          assert keys[..n][j] == keys[j];
          assert forall l :: j < l < n ==> keys[..n][l] == keys[l];
        }
      }
    }
  }

  /** A bulk commit refers only to slabs the tier or the batch referred to. */
  lemma {:induction false} CommitAllRefs(m: Tier, keys: seq<Key>, ids: seq<SlabId>)
    requires |keys| == |ids|
    ensures forall id :: id in CommitAll(m, keys, ids).Values ==> id in m.Values || id in ids
  {
    if |keys| > 0 {
      var n := |keys| - 1;
      CommitAllRefs(m, keys[..n], ids[..n]);
      var p := CommitAll(m, keys[..n], ids[..n]);
      forall id | id in CommitAll(m, keys, ids).Values ensures id in m.Values || id in ids {
        var k := KeyOf(CommitAll(m, keys, ids), id);
        if k != keys[n] {
          assert p[k] == id;
          assert id in ids[..n] ==> id in ids;
        }
      }
    }
  }
}
