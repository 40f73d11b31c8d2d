/** GetOrCreate: lookup through the tiers in order, promotion of a key found
    in a lower tier into tier 0, allocation on a miss, and the outcome of an
    insert into tier 0 that loses a race with a concurrent caller. */
module Lookup {
  import opened Base
  import opened Layout
  import opened Slabs
  import opened Tiers

  /** The state after a GetOrCreate call and the slab it hands back. */
  datatype Outcome = Outcome(tiers: seq<Tier>, heap: Heap, nextId: SlabId, slab: SlabId)

  /** One GetOrCreate(key, size) call. `alloc` is tier 0's allocator.
      `racer` is the slab a concurrent caller inserted into tier 0 for the
      same key after this call's lookup and before its insert (None when no
      caller did), which makes this call's insert fail. After a failed insert
      the call destroys the slab it was about to insert: only a slab it has
      just allocated, or, when `freeFound` holds, also one it found in a
      lower tier. */
  function Resolve(tiers: seq<Tier>, heap: Heap, nextId: SlabId, alloc: AllocKind,
                   key: Key, size: nat, racer: Option<SlabId>, freeFound: bool): Outcome
    requires |tiers| >= 1
  {
    var hit := FirstHit(tiers, key);
    if hit == Some(0) then Outcome(tiers, heap, nextId, tiers[0][key])
    else
      var created := hit.None?;
      var id := if created then nextId else tiers[hit.value][key];
      var heap1 := if created then heap[nextId := NewSlab(alloc, size)] else heap;
      var next1 := if created then nextId + 1 else nextId;
      match racer
      case None => Outcome(tiers[0 := tiers[0][key := id]], heap1, next1, id)
      case Some(winner) =>
        Outcome(tiers[0 := tiers[0][key := winner]],
                if created || freeFound then heap1 - {id} else heap1, next1, winner)
  }

  /** GetOrCreate as the source writes it: a lost insert race destroys the
      slab even when it was found in a lower tier. */
  function GetOrCreateAsWritten(tiers: seq<Tier>, heap: Heap, nextId: SlabId, alloc: AllocKind,
                                key: Key, size: nat, racer: Option<SlabId>): Outcome
    requires |tiers| >= 1
  {
    Resolve(tiers, heap, nextId, alloc, key, size, racer, true)
  }

  /** GetOrCreate with the loser destroying only the slab it allocated; the
      manager runs this one. */
  function GetOrCreateSpec(tiers: seq<Tier>, heap: Heap, nextId: SlabId, alloc: AllocKind,
                           key: Key, size: nat, racer: Option<SlabId>): Outcome
    requires |tiers| >= 1
  {
    Resolve(tiers, heap, nextId, alloc, key, size, racer, false)
  }

  /** Whatever path it takes, GetOrCreate leaves `key` in tier 0 mapped to
      the live slab it returns; lower tiers and the other keys of tier 0 keep
      their entries; no existing slab is destroyed or changed and at most the
      one fresh handle is added. */
  lemma GetOrCreateResolvesKey(tiers: seq<Tier>, heap: Heap, nextId: SlabId, alloc: AllocKind,
                               key: Key, size: nat, racer: Option<SlabId>)
    requires |tiers| >= 1 && Live(tiers, heap) && HandlesBelow(heap, nextId)
    requires racer.Some? ==> racer.value in heap
    ensures var r := GetOrCreateSpec(tiers, heap, nextId, alloc, key, size, racer);
      && |r.tiers| == |tiers|
      && key in r.tiers[0] && r.tiers[0][key] == r.slab && r.slab in r.heap
      && (forall i :: 1 <= i < |tiers| ==> r.tiers[i] == tiers[i])
      && (forall k :: k != key ==> (k in r.tiers[0] <==> k in tiers[0]))
      && (forall k :: k != key && k in tiers[0] ==> r.tiers[0][k] == tiers[0][k])
      && (forall id :: id in heap ==> id in r.heap && r.heap[id] == heap[id])
      && (forall id :: id in r.heap ==> id in heap || id == nextId)
      && Live(r.tiers, r.heap) && HandlesBelow(r.heap, r.nextId)
  {
    var r := GetOrCreateSpec(tiers, heap, nextId, alloc, key, size, racer);
    assert key in r.tiers[0] && r.tiers[0][key] == r.slab && r.slab in r.heap;
    assert forall id :: id in heap ==> id in r.heap && r.heap[id] == heap[id];
    forall id | id in Referenced(r.tiers) ensures id in r.heap {
      var i :| 0 <= i < |r.tiers| && id in r.tiers[i].Values;
      var k := KeyOf(r.tiers[i], id);
      if i != 0 || k != key {
        assert r.tiers[i][k] == tiers[i][k];
        assert id in tiers[i].Values;
      }
    }
  }

  /** A key already in tier 0 is returned as it is and nothing changes. */
  lemma GetOrCreateFastPath(tiers: seq<Tier>, heap: Heap, nextId: SlabId, alloc: AllocKind,
                            key: Key, size: nat, racer: Option<SlabId>)
    requires |tiers| >= 1 && key in tiers[0]
    ensures GetOrCreateSpec(tiers, heap, nextId, alloc, key, size, racer)
         == Outcome(tiers, heap, nextId, tiers[0][key])
  {
  }

  /** A key found only in a lower tier is promoted: tier 0 gains the same
      slab, the lower tier keeps its entry and nothing is allocated. */
  lemma GetOrCreatePromotes(tiers: seq<Tier>, heap: Heap, nextId: SlabId, alloc: AllocKind,
                            key: Key, size: nat, level: nat)
    requires level < |tiers| && key in tiers[level]
    requires forall j :: 0 <= j < level ==> key !in tiers[j]
    requires level != 0
    ensures var r := GetOrCreateSpec(tiers, heap, nextId, alloc, key, size, None);
      && r.slab == tiers[level][key]
      && r.tiers == tiers[0 := tiers[0][key := tiers[level][key]]]
      && r.heap == heap && r.nextId == nextId
  {
    assert FirstHit(tiers, key) == Some(level);
  }

  /** A key absent from every tier gets exactly one new, fresh slab from
      tier 0's allocator, inserted into tier 0. */
  lemma GetOrCreateAllocates(tiers: seq<Tier>, heap: Heap, nextId: SlabId, alloc: AllocKind,
                             key: Key, size: nat)
    requires |tiers| >= 1 && HandlesBelow(heap, nextId)
    requires forall j :: 0 <= j < |tiers| ==> key !in tiers[j]
    ensures var r := GetOrCreateSpec(tiers, heap, nextId, alloc, key, size, None);
      && nextId !in heap
      && r.slab == nextId && r.nextId == nextId + 1
      && r.heap == heap[nextId := NewSlab(alloc, size)]
      && |r.heap| == |heap| + 1
      && r.tiers == tiers[0 := tiers[0][key := nextId]]
  {
    assert nextId !in heap;
  }

  /** A call whose insert loses the race returns the winner's slab, and the
      slab it allocated for the key is destroyed again, so one key never
      owns two slabs. */
  lemma GetOrCreateLosesRace(tiers: seq<Tier>, heap: Heap, nextId: SlabId, alloc: AllocKind,
                             key: Key, size: nat, winner: SlabId)
    requires |tiers| >= 1 && key !in tiers[0] && HandlesBelow(heap, nextId) && winner in heap
    ensures var r := GetOrCreateSpec(tiers, heap, nextId, alloc, key, size, Some(winner));
      && r.slab == winner && r.heap == heap
      && r.tiers == tiers[0 := tiers[0][key := winner]]
  {
    assert nextId !in heap;
  }

  /** As written, two callers that both find a key in tier 1 race to
      promote the same slab; the loser destroys that slab, which both tiers
      and the value returned to the caller still refer to. */
  lemma GetOrCreateAsWrittenFreesPromotedSlab()
    ensures var tiers := [map[], map[7 := 0]];
      var heap := map[0 := NewSlab(PmemAllocator, 4)];
      var r := GetOrCreateAsWritten(tiers, heap, 1, EvAllocator, 7, 4, Some(0));
      && Live(tiers, heap) && HandlesBelow(heap, 1)
      && r.slab == 0 && r.tiers[0][7] == 0 && r.tiers[1][7] == 0
      && 0 !in r.heap && !Live(r.tiers, r.heap)
  {
    var tiers := [map[], map[7 := 0]];
    var heap := map[0 := NewSlab(PmemAllocator, 4)];
    assert FirstHit(tiers, 7) == Some(1);
    var r := GetOrCreateAsWritten(tiers, heap, 1, EvAllocator, 7, 4, Some(0));
    assert 0 in r.tiers[1].Values;
    assert 0 in Referenced(tiers) by { assert 0 in tiers[1].Values; }
  }
}
