/** The StorageManager of a multi-level embedding table: the tier list it
    builds from the storage configuration, the slot geometry it fixes once,
    and the operations that look up, create, remove, count, export, prune,
    commit and evict the slabs the tiers refer to. */
module Manager {
  import opened Base
  import opened Layout
  import opened Slabs
  import opened Tiers
  import opened Lookup
  import opened Eviction
  import opened Shrink
  import opened Checkpoint

  /** `size_t(-1)`: the cache capacity of a manager built without one. */
  const Unbounded: nat := 0xFFFF_FFFF_FFFF_FFFF

  const MultiLevelLimitMessage := "Not support multi-level(>2) embedding."

  /** A closure handed to Schedule, known by a name. */
  datatype Task = Task(name: string)

  /** The tier list and the slabs agree: one backend, one allocator and one
      width per tier; every entry refers to a live slab; the next handle is
      fresh; a multi-tier manager has its background machinery. */
  ghost predicate Consistent(specs: seq<TierSpec>, tiers: seq<Tier>, tierDims: seq<nat>, heap: Heap,
                             nextId: SlabId, background: bool) {
    && |specs| == |tiers| == |tierDims|
    && Live(tiers, heap) && HandlesBelow(heap, nextId)
    && (|tiers| > 1 ==> background)
  }

  /** Replacing the tiers and the heap by live ones of the same shape, with
      no new slab, keeps the manager consistent. */
  lemma ConsistentAfterReplace(specs: seq<TierSpec>, tiers: seq<Tier>, tierDims: seq<nat>, heap: Heap,
                             nextId: SlabId, background: bool, t: seq<Tier>, h: Heap)
    requires Consistent(specs, tiers, tierDims, heap, nextId, background)
    requires |t| == |tiers| && Live(t, h) && h.Keys <= heap.Keys
    ensures Consistent(specs, t, tierDims, h, nextId, background)
  {
  }

  /** Appending empty tiers for a layout keeps the manager consistent once
      a multi-tier list has its background machinery. */
  lemma ConsistentAfterInit(specs: seq<TierSpec>, tiers: seq<Tier>, tierDims: seq<nat>, heap: Heap,
                            nextId: SlabId, background: bool, layout: seq<TierSpec>)
    requires Consistent(specs, tiers, tierDims, heap, nextId, background)
    ensures Consistent(specs + layout, tiers + EmptyTiers(|layout|), tierDims + ZeroDims(|layout|),
                       heap, nextId, background || |tiers| + |layout| > 1)
  {
    LiveAppendEmpty(tiers, heap, |layout|);
  }

  /** `n` tier widths not yet known. */
  function ZeroDims(n: nat): (r: seq<nat>)
    ensures |r| == n && forall i :: 0 <= i < n ==> r[i] == 0
  {
    seq(n, _ => 0)
  }

  /** Frees, one by one, every slab a tier refers to. */
  method DestroyTier(heap: Heap, m: Tier) returns (h: Heap)
    ensures h == heap - m.Values
  {
    var keys, ids := EnumerateTier(m);
    h := heap;
    var j := 0;
    while j < |ids|
      invariant j <= |ids|
      invariant h == heap - (set l | 0 <= l < j :: ids[l])
    {
      h := h - {ids[j]};
      j := j + 1;
    }
    assert (set l | 0 <= l < j :: ids[l]) == m.Values by {
      forall id | id in m.Values ensures id in (set l | 0 <= l < j :: ids[l]) {
        var k := KeyOf(m, id);
        var l :| 0 <= l < |keys| && keys[l] == k;
      }
    }
  }

  /** The slot geometry a manager keeps: slots and slabs are whole
      multiples of the 16-byte alignment, and once `done` the cache capacity
      is the one derived from the slab width. */
  predicate Geometry(scalarSize: nat, allocLen: nat, totalDims: nat, done: bool, cacheCapacity: nat) {
    && ValidScalarSize(scalarSize)
    && (allocLen * scalarSize) % SlotAlignment == 0
    && (totalDims * scalarSize) % SlotAlignment == 0
    && (done ==> totalDims > 0 && cacheCapacity == CacheCapacity(totalDims, scalarSize))
  }

  /** One tier's scan as a loop: stamp or pick victims entry by entry. */
  method ScanEntries(heap: Heap, keys: seq<Key>, ids: seq<SlabId>, policy: Policy)
    returns (h: Heap, victims: seq<Victim>)
    requires |keys| == |ids| && forall j :: 0 <= j < |ids| ==> ids[j] in heap
    ensures Scan(h, victims) == ScanTier(heap, keys, ids, policy)
  {
    h, victims := heap, [];
    var j := 0;
    while j < |keys|
      invariant j <= |keys| && h.Keys == heap.Keys
      invariant Scan(h, victims) == ScanTier(heap, keys[..j], ids[..j], policy)
    {
      assert keys[..j + 1][..j] == keys[..j] && ids[..j + 1][..j] == ids[..j];
      var id := ids[j];
      ghost var e := ScanEntry(h, keys[j], id, policy);
      ghost var before := victims;
      var s := h[id];
      match policy {
        case Staleness(gs, stepsToLive) =>
          if s.step == UnsetStep {
            h := h[id := s.(step := gs)];
          } else if gs - s.step > stepsToLive {
            victims := victims + [Victim(keys[j], id)];
          }
        case Weight(primary, lowWeight) =>
          if primary in s.slots && lowWeight(s) {
            victims := victims + [Victim(keys[j], id)];
          }
      }
      assert h == e.heap && victims == before + e.victims;
      j := j + 1;
    }
    assert keys[..j] == keys && ids[..j] == ids;
  }

  /** One tier's dump as a loop: the entries whose slab holds both the
      exported and the primary embedding are appended, with the address of
      the exported slot at `allocLen * embIndex`. */
  method DumpEntries(d: Dump, heap: Heap, keys: seq<Key>, ids: seq<SlabId>, cfg: EmbConfig,
                     allocLen: int, freqOf: (Key, Slab) -> int) returns (dump: Dump)
    requires |keys| == |ids| && InHeap(ids, heap)
    ensures dump == DumpTier(d, heap, keys, ids, cfg, allocLen, freqOf)
  {
    dump := d;
    var j := 0;
    while j < |keys|
      invariant j <= |keys|
      invariant dump == DumpTier(d, heap, keys[..j], ids[..j], cfg, allocLen, freqOf)
    {
      assert keys[..j + 1][..j] == keys[..j] && ids[..j + 1][..j] == ids[..j];
      ghost var e := DumpEntry(dump, heap, keys[j], ids[j], cfg, allocLen, freqOf);
      var s := heap[ids[j]];
      if cfg.embIndex in s.slots && cfg.primaryEmbIndex in s.slots {
        dump := dump.(keys := dump.keys + [keys[j]],
                      values := dump.values + [ValueRef(ids[j], allocLen * cfg.embIndex)]);
        if cfg.filterFreq != 0 || cfg.isMultiLevel {
          dump := dump.(freqs := dump.freqs + [freqOf(keys[j], s)]);
        }
        if cfg.stepsToLive != 0 {
          dump := dump.(versions := dump.versions + [s.step]);
        }
      }
      assert dump == e;
      j := j + 1;
    }
    assert keys[..j] == keys && ids[..j] == ids;
  }

  /** One tier's removal phase: every victim's key leaves tier `i`; then
      each victim slab no tier refers to any more is destroyed. */
  method RemoveVictims(tiers: seq<Tier>, i: nat, heap: Heap, victims: seq<Victim>)
    returns (t: seq<Tier>, h: Heap)
    requires i < |tiers|
    ensures (t, h) == Prune(tiers, i, heap, victims)
  {
    var m := tiers[i];
    var j := 0;
    while j < |victims|
      invariant j <= |victims|
      invariant m == tiers[i] - VictimKeys(victims[..j])
    {
      assert VictimKeys(victims[..j + 1]) == VictimKeys(victims[..j]) + {victims[j].key} by {
        assert victims[..j + 1] == victims[..j] + [victims[j]];
      }
      m := m - {victims[j].key};
      j := j + 1;
    }
    assert victims[..j] == victims;
    t := tiers[i := m];
    var refs := Referenced(t);
    h := heap;
    j := 0;
    while j < |victims|
      invariant j <= |victims|
      invariant h == heap - (VictimSlabs(victims[..j]) - refs)
    {
      assert VictimSlabs(victims[..j + 1]) == VictimSlabs(victims[..j]) + {victims[j].slab} by {
        assert victims[..j + 1] == victims[..j] + [victims[j]];
      }
      if victims[j].slab !in refs {
        h := h - {victims[j].slab};
      }
      j := j + 1;
    }
    assert victims[..j] == victims;
  }

  /** GetOrCreate's steps on the tier contents: look the key up tier by
      tier, allocate on a miss, and insert into tier 0 unless it was found
      there; an insert that loses to `racer` takes the winner's slab and
      destroys the one just allocated. */
  method LookupOrCreate(tiers: seq<Tier>, heap: Heap, nextId: SlabId, alloc: AllocKind,
                        key: Key, size: nat, racer: Option<SlabId>) returns (o: Outcome)
    requires |tiers| >= 1
    ensures o == GetOrCreateSpec(tiers, heap, nextId, alloc, key, size, racer)
  {
    var t, h, next := tiers, heap, nextId;
    var level := 0;
    while level < |t| && key !in t[level]
      invariant 0 <= level <= |t|
      invariant forall j :: 0 <= j < level ==> key !in t[j]
    {
      level := level + 1;
    }
    var found := level < |t|;
    assert FirstHit(t, key) == if found then Some(level) else None;
    var slab;
    if found {
      slab := t[level][key];
    } else {
      slab := next;
      h := h[next := NewSlab(alloc, size)];
      next := next + 1;
    }
    if level != 0 || !found {
      match racer {
        case None =>
          t := t[0 := t[0][key := slab]];
        case Some(winner) =>
          if !found {
            h := h - {slab};
          }
          t := t[0 := t[0][key := winner]];
          slab := winner;
      }
    }
    o := Outcome(t, h, next, slab);
  }

  /** The passes of a Shrink over the tiers in order: enumerate the
      tier, scan the enumeration, prune the victims. */
  method ShrinkPasses(tiers: seq<Tier>, heap: Heap, policy: Policy)
    returns (t: seq<Tier>, h: Heap, ghost snaps: seq<Snapshot>)
    requires Live(tiers, heap)
    ensures |snaps| == |tiers| && Enumerates(snaps, tiers)
    ensures (t, h) == ShrinkTiers(tiers, heap, snaps, policy)
    ensures |t| == |tiers| && Live(t, h) && h.Keys <= heap.Keys
  {
    t, h, snaps := tiers, heap, [];
    var i := 0;
    while i < |tiers|
      invariant i <= |tiers| == |t| && |snaps| == i && Enumerates(snaps, tiers)
      invariant (t, h) == ShrinkTiers(tiers, heap, snaps, policy)
      invariant h.Keys <= heap.Keys
    {
      var keys, ids := EnumerateTier(t[i]);
      assert t[i] == tiers[i];
      forall j | 0 <= j < |ids| ensures ids[j] in h {
        assert ids[j] in t[i].Values;
      }
      var h1, victims := ScanEntries(h, keys, ids, policy);
      PruneKeepsLive(t, i, h1, victims);
      t, h := RemoveVictims(t, i, h1, victims);
      ghost var prev := snaps;
      snaps := snaps + [Snapshot(keys, ids)];
      assert snaps[..i] == prev;
      i := i + 1;
    }
  }

  class StorageManager {
    const name: string
    const config: StorageConfig
    /** sizeof(V), the byte width of one embedding scalar. */
    const scalarSize: nat

    /** Backend and allocator of each tier, fastest first. */
    var specs: seq<TierSpec>
    /** Contents of each tier's backend. */
    var tiers: seq<Tier>
    /** The total slab width each tier's backend has been told (0 until then). */
    var tierDims: seq<nat>
    /** The live slabs, and the handle the next allocation gets. */
    var heap: Heap
    var nextId: SlabId
    /** Scalars per slot, padded so every slot starts 16-byte aligned. */
    var allocLen: nat
    /** Scalars per slab; fixed by the first SetAllocLen that sets it. */
    var totalDims: nat
    var cacheCapacity: nat
    /** The cache capacity has been derived from the slab width. */
    var done: bool
    /** The eviction cache, the eviction thread and the thread pool exist. */
    var background: bool
    /** The tasks handed to the thread pool. */
    var pool: seq<Task>

    ghost predicate Valid()
      reads this
    {
      && Geometry(scalarSize, allocLen, totalDims, done, cacheCapacity)
      && Consistent(specs, tiers, tierDims, heap, nextId, background)
    }

    /** A manager with no tier yet; `cap` is the cache capacity
        (Unbounded unless given). */
    constructor(name: string, sc: StorageConfig, scalarSize: nat, cap: nat)
      requires ValidScalarSize(scalarSize)
      ensures Valid()
      ensures this.name == name && config == sc && this.scalarSize == scalarSize
      ensures specs == [] && tiers == [] && tierDims == [] && heap == map[] && nextId == 0
      ensures allocLen == 0 && totalDims == 0 && cacheCapacity == cap
      ensures !done && !background && pool == []
    {
      this.name := name;
      config := sc;
      this.scalarSize := scalarSize;
      specs, tiers, tierDims := [], [], [];
      heap, nextId := map[], 0;
      allocLen, totalDims, cacheCapacity := 0, 0, cap;
      done, background, pool := false, false, [];
    }

    /** Appends the tiers of the configuration; with more than one tier the
        background machinery starts. More than two tiers in all is fatal. */
    method Init() returns (st: Status)
      requires Valid()
      modifies this
      ensures Valid()
      ensures specs == old(specs) + TierLayout(config)
      ensures tiers == old(tiers) + EmptyTiers(|TierLayout(config)|)
      ensures tierDims == old(tierDims) + ZeroDims(|TierLayout(config)|)
      ensures background == (old(background) || |tiers| > 1)
      ensures st == if |tiers| > 2 then Fatal(MultiLevelLimitMessage) else Ok
      ensures old(|tiers|) == 0 ==> specs == TierLayout(config) && st == Ok
      ensures heap == old(heap) && nextId == old(nextId) && pool == old(pool)
      ensures allocLen == old(allocLen) && totalDims == old(totalDims)
      ensures cacheCapacity == old(cacheCapacity) && done == old(done)
    {
      var layout := TierLayout(config);
      var count := |tiers| + |layout|;
      var bg := background || count > 1;
      var s := specs + layout;
      if |tiers| == 0 {
        assert |layout| <= 2 && s == layout;
      }
      ConsistentAfterInit(specs, tiers, tierDims, heap, nextId, background, layout);
      specs, tiers, tierDims, background := s, tiers + EmptyTiers(|layout|), tierDims + ZeroDims(|layout|), bg;
      st := if count > 2 then Fatal(MultiLevelLimitMessage) else Ok;
    }

    /** Pads `valueLen` to the slot alignment; the first call that yields a
        nonzero width fixes totalDims, tells the on-disk tier, and sizes the
        cache of a two-tier manager. */
    method SetAllocLen(valueLen: nat, slotNum: nat)
      requires Valid()
      requires totalDims == 0 && DiskTier(config).Some? ==> DiskTier(config).value < |tiers|
      requires totalDims == 0 && |tiers| > 1 ==> AlignedLen(valueLen, scalarSize) * slotNum > 0
      modifies this
      ensures Valid()
      ensures allocLen == AlignedLen(valueLen, scalarSize)
      ensures old(totalDims) != 0 ==>
        && totalDims == old(totalDims) && tierDims == old(tierDims)
        && cacheCapacity == old(cacheCapacity) && done == old(done)
      ensures old(totalDims) == 0 ==>
        && totalDims == allocLen * slotNum
        && tierDims == (match DiskTier(config)
                        case Some(d) => old(tierDims)[d := totalDims]
                        case None => old(tierDims))
        && cacheCapacity == (if |tiers| > 1 then CacheCapacity(totalDims, scalarSize) else old(cacheCapacity))
        && done == (old(done) || |tiers| > 1)
      ensures specs == old(specs) && tiers == old(tiers) && heap == old(heap) && nextId == old(nextId)
      ensures background == old(background) && pool == old(pool)
    {
      AlignedLenIsAligned(valueLen, scalarSize);
      allocLen := AlignedLen(valueLen, scalarSize);
      var temp := allocLen * slotNum;
      if totalDims == 0 {
        AlignedOffset(allocLen, scalarSize, slotNum);
        totalDims := temp;
        match DiskTier(config) {
          case Some(d) => tierDims := tierDims[d := totalDims];
          case None =>
        }
        if |tiers| > 1 {
          cacheCapacity := CacheCapacity(totalDims, scalarSize);
          done := true;
        }
      }
    }

    /** Scalars per slot; every slot start is 16-byte aligned. */
    function GetAllocLen(): (n: nat)
      requires Valid()
      reads this
      ensures (n * scalarSize) % SlotAlignment == 0
    {
      allocLen
    }

    /** Offset of slot `index` in a slab: aligned, and past the slots before it. */
    function GetOffset(index: int): (o: int)
      requires Valid()
      reads this
      ensures index >= 0 ==> 0 <= o && (o * scalarSize) % SlotAlignment == 0
      ensures index >= 1 ==> o == GetOffset(index - 1) + allocLen
    {
      if index >= 0 then AlignedOffset(allocLen, scalarSize, index); SlotOffset(allocLen, index)
      else SlotOffset(allocLen, index)
    }

    /** Scalars per slab; a whole number of aligned slots. */
    function GetTotalDims(): (n: nat)
      requires Valid()
      reads this
      ensures (n * scalarSize) % SlotAlignment == 0
    {
      totalDims
    }

    /** Hands `fn` to the thread pool of a multi-tier manager; a one-tier
        manager has no pool and drops it. */
    method Schedule(fn: Task)
      requires Valid()
      modifies this
      ensures Valid()
      ensures pool == if |tiers| > 1 then old(pool) + [fn] else old(pool)
      ensures specs == old(specs) && tiers == old(tiers) && tierDims == old(tierDims)
      ensures heap == old(heap) && nextId == old(nextId) && allocLen == old(allocLen)
      ensures totalDims == old(totalDims) && cacheCapacity == old(cacheCapacity)
      ensures done == old(done) && background == old(background)
    {
      if |tiers| > 1 {
        assert background;
        pool := pool + [fn];
      }
    }

    /** Finds `key` in the first tier holding it, allocating a slab from
        tier 0's allocator on a miss, and makes tier 0 hold it. `racer` is
        the slab a concurrent caller inserts into tier 0 for `key` between
        this call's lookup and its insert, if any. */
    method GetOrCreate(key: Key, size: nat, racer: Option<SlabId>) returns (slab: SlabId, st: Status)
      requires Valid() && |tiers| >= 1
      requires racer.Some? ==> racer.value in heap
      modifies this
      ensures Valid() && st == Ok
      ensures Outcome(tiers, heap, nextId, slab)
           == GetOrCreateSpec(old(tiers), old(heap), old(nextId), old(specs[0].alloc), key, size, racer)
      ensures key in tiers[0] && tiers[0][key] == slab && slab in heap
      ensures specs == old(specs) && tierDims == old(tierDims) && allocLen == old(allocLen)
      ensures totalDims == old(totalDims) && cacheCapacity == old(cacheCapacity)
      ensures done == old(done) && background == old(background) && pool == old(pool)
    {
      var alloc := specs[0].alloc;
      GetOrCreateResolvesKey(tiers, heap, nextId, alloc, key, size, racer);
      var o := LookupOrCreate(tiers, heap, nextId, alloc, key, size, racer);
      tiers, heap, nextId, slab := o.tiers, o.heap, o.nextId, o.slab;
      st := Ok;
    }

    /** A write through the pointer GetOrCreate hands out: slab `id` now
        holds the embedding values `slots` and step `step`, and nothing else
        changes. The tiers still refer to the same slabs, so the manager
        stays valid. */
    method UpdateSlab(id: SlabId, slots: map<nat, seq<Scalar>>, step: int)
      requires Valid() && id in heap
      modifies this
      ensures Valid()
      ensures heap == old(heap)[id := old(heap)[id].(slots := slots, step := step)]
      ensures heap.Keys == old(heap).Keys
      ensures specs == old(specs) && tiers == old(tiers) && tierDims == old(tierDims)
      ensures nextId == old(nextId) && allocLen == old(allocLen) && totalDims == old(totalDims)
      ensures cacheCapacity == old(cacheCapacity) && done == old(done)
      ensures background == old(background) && pool == old(pool)
    {
      var h := heap[id := heap[id].(slots := slots, step := step)];
      ConsistentAfterReplace(specs, tiers, tierDims, heap, nextId, background, tiers, h);
      heap := h;
    }

    /** Removes `key` from every tier. */
    method Remove(key: Key) returns (st: Status)
      requires Valid()
      modifies this
      ensures Valid() && st == Ok
      ensures tiers == RemoveAll(old(tiers), key)
      ensures specs == old(specs) && tierDims == old(tierDims) && heap == old(heap)
      ensures nextId == old(nextId) && allocLen == old(allocLen) && totalDims == old(totalDims)
      ensures cacheCapacity == old(cacheCapacity) && done == old(done)
      ensures background == old(background) && pool == old(pool)
    {
      RemoveAllKeepsLive(tiers, key, heap);
      var t := tiers;
      var i := 0;
      while i < |t|
        invariant |t| == |tiers| && i <= |t|
        invariant forall j :: 0 <= j < i ==> t[j] == tiers[j] - {key}
        invariant forall j :: i <= j < |t| ==> t[j] == tiers[j]
      {
        t := t[i := t[i] - {key}];
        i := i + 1;
      }
      tiers := t;
      st := Ok;
    }

    /** Number of entries over all tiers. */
    method Size() returns (n: nat)
      requires Valid()
      ensures n == TotalSize(tiers)
    {
      n := 0;
      var i := 0;
      while i < |tiers|
        invariant i <= |tiers| && n == TotalSize(tiers[..i])
      {
        assert tiers[..i + 1][..i] == tiers[..i];
        n := n + |tiers[i]|;
        i := i + 1;
      }
      assert tiers[..i] == tiers;
    }

    /** Appends every tier's entries, tier after tier, to the given lists;
        `snaps` records each backend's enumeration. */
    method GetSnapshot(intoKeys: seq<Key>, intoIds: seq<SlabId>)
      returns (keys: seq<Key>, ids: seq<SlabId>, st: Status, ghost snaps: seq<Snapshot>)
      ensures st == Ok && |snaps| == |tiers| && Enumerates(snaps, tiers)
      ensures keys == intoKeys + FlatKeys(snaps) && ids == intoIds + FlatIds(snaps)
    {
      keys, ids, snaps := intoKeys, intoIds, [];
      var i := 0;
      while i < |tiers|
        invariant i <= |tiers| && |snaps| == i && Enumerates(snaps, tiers)
        invariant keys == intoKeys + FlatKeys(snaps) && ids == intoIds + FlatIds(snaps)
      {
        var k, d := EnumerateTier(tiers[i]);
        ghost var prev := snaps;
        snaps := snaps + [Snapshot(k, d)];
        assert snaps[..i] == prev;
        keys, ids := keys + k, ids + d;
        i := i + 1;
      }
      st := Ok;
    }

    /** The checkpoint dump: appends, for every entry of every tier whose
        slab holds both the exported and the primary embedding, its key, a
        address of its exported slot, its frequency and its step (those two
        only when `cfg` asks for them), and returns the number of keys. */
    method GetSnapshotDump(cfg: EmbConfig, freqOf: (Key, Slab) -> int, into: Dump)
      returns (count: nat, dump: Dump, ghost snaps: seq<Snapshot>)
      requires Valid()
      ensures |snaps| == |tiers| && Enumerates(snaps, tiers)
      ensures forall i :: 0 <= i < |snaps| ==> |snaps[i].keys| == |snaps[i].ids| && InHeap(snaps[i].ids, heap)
      ensures dump == DumpTiers(into, heap, snaps, cfg, allocLen, freqOf)
      ensures count == |dump.keys| == |into.keys| + ExportedCount(tiers, heap, cfg)
      ensures dump.keys == into.keys + AllEligibleKeys(heap, snaps, cfg)
      ensures into == EmptyDump ==>
        && Rows(dump, heap, cfg, allocLen, freqOf)
        && (forall j :: 0 <= j < |dump.keys| ==> InSomeTier(tiers, dump.keys[j], dump.values[j].slab))
        && (forall k :: k in dump.keys <==> ExportedAny(tiers, heap, k, cfg))
    {
      dump, snaps := into, [];
      var i := 0;
      while i < |tiers|
        invariant i <= |tiers| && |snaps| == i && Enumerates(snaps, tiers)
        invariant forall l :: 0 <= l < |snaps| ==> |snaps[l].keys| == |snaps[l].ids| && InHeap(snaps[l].ids, heap)
        invariant dump == DumpTiers(into, heap, snaps, cfg, allocLen, freqOf)
      {
        var keys, ids := EnumerateTier(tiers[i]);
        assert InHeap(ids, heap) by {
          forall j | 0 <= j < |ids| ensures ids[j] in heap {
            assert ids[j] in tiers[i].Values;
          }
        }
        dump := DumpEntries(dump, heap, keys, ids, cfg, allocLen, freqOf);
        ghost var prev := snaps;
        snaps := snaps + [Snapshot(keys, ids)];
        assert snaps[..i] == prev;
        i := i + 1;
      }
      count := |dump.keys|;
      DumpTiersCount(into, heap, tiers, snaps, cfg, allocLen, freqOf);
      DumpTiersKeys(into, heap, snaps, cfg, allocLen, freqOf);
      if into == EmptyDump {
        DumpTiersRows(heap, tiers, snaps, cfg, allocLen, freqOf);
        DumpTiersPairs(heap, tiers, snaps, cfg, allocLen, freqOf);
        DumpTiersFilter(heap, tiers, snaps, cfg, allocLen, freqOf);
      }
    }

    /** The pass both Shrink operations make: each tier in turn is
        enumerated, scanned by `policy`, and pruned. */
    method ShrinkWith(policy: Policy) returns (st: Status, ghost snaps: seq<Snapshot>)
      requires Valid()
      modifies this
      ensures Valid() && st == Ok
      ensures |snaps| == |old(tiers)| && Enumerates(snaps, old(tiers))
      ensures (tiers, heap) == ShrinkTiers(old(tiers), old(heap), snaps, policy)
      ensures heap.Keys <= old(heap).Keys
      ensures Steady(policy) ==> Swept(old(tiers), old(heap), |old(tiers)|, policy, tiers, heap)
      ensures specs == old(specs) && tierDims == old(tierDims) && nextId == old(nextId)
      ensures allocLen == old(allocLen) && totalDims == old(totalDims)
      ensures cacheCapacity == old(cacheCapacity) && done == old(done)
      ensures background == old(background) && pool == old(pool)
    {
      var t, h;
      t, h, snaps := ShrinkPasses(tiers, heap, policy);
      if Steady(policy) {
        ShrinkTiersEffect(tiers, heap, snaps, policy);
      }
      ConsistentAfterReplace(specs, tiers, tierDims, heap, nextId, background, t, h);
      tiers, heap := t, h;
      st := Ok;
    }

    /** Shrink by weight: drops entries whose primary embedding has an L2
        weight under the threshold (`lowWeight` decides that for a slab). */
    method ShrinkByWeight(cfg: EmbConfig, lowWeight: Slab -> bool) returns (st: Status, ghost snaps: seq<Snapshot>)
      requires Valid()
      modifies this
      ensures Valid() && st == Ok
      ensures |snaps| == |old(tiers)| && Enumerates(snaps, old(tiers))
      ensures (tiers, heap) == ShrinkTiers(old(tiers), old(heap), snaps, Weight(cfg.primaryEmbIndex, lowWeight))
      ensures Swept(old(tiers), old(heap), |old(tiers)|, Weight(cfg.primaryEmbIndex, lowWeight), tiers, heap)
      ensures forall id :: id in heap <==>
        id in old(heap) && !(id in Referenced(old(tiers)) && cfg.primaryEmbIndex in old(heap)[id].slots && lowWeight(old(heap)[id]))
      ensures forall id :: id in heap ==> heap[id] == old(heap)[id]
      ensures specs == old(specs) && tierDims == old(tierDims) && nextId == old(nextId)
      ensures allocLen == old(allocLen) && totalDims == old(totalDims)
      ensures cacheCapacity == old(cacheCapacity) && done == old(done)
      ensures background == old(background) && pool == old(pool)
    {
      st, snaps := ShrinkWith(Weight(cfg.primaryEmbIndex, lowWeight));
      SweptAll(old(tiers), old(heap), Weight(cfg.primaryEmbIndex, lowWeight), tiers, heap);
    }

    /** Shrink by staleness at global step `gs`: stamps unset steps and drops
        entries not updated for more than `stepsToLive` steps. */
    method ShrinkByStaleness(gs: int, stepsToLive: int) returns (st: Status, ghost snaps: seq<Snapshot>)
      requires Valid()
      modifies this
      ensures Valid() && st == Ok
      ensures |snaps| == |old(tiers)| && Enumerates(snaps, old(tiers))
      ensures (tiers, heap) == ShrinkTiers(old(tiers), old(heap), snaps, Staleness(gs, stepsToLive))
      ensures stepsToLive >= 0 ==> Swept(old(tiers), old(heap), |old(tiers)|, Staleness(gs, stepsToLive), tiers, heap)
      ensures stepsToLive >= 0 ==> forall id :: id in heap <==>
        id in old(heap) && !(id in Referenced(old(tiers)) && Stale(old(heap)[id], gs, stepsToLive))
      ensures stepsToLive >= 0 ==> forall id :: id in heap ==>
        heap[id] == if id in Referenced(old(tiers)) then Stamped(old(heap)[id], gs) else old(heap)[id]
      ensures specs == old(specs) && tierDims == old(tierDims) && nextId == old(nextId)
      ensures allocLen == old(allocLen) && totalDims == old(totalDims)
      ensures cacheCapacity == old(cacheCapacity) && done == old(done)
      ensures background == old(background) && pool == old(pool)
    {
      st, snaps := ShrinkWith(Staleness(gs, stepsToLive));
      if stepsToLive >= 0 {
        SweptAll(old(tiers), old(heap), Staleness(gs, stepsToLive), tiers, heap);
      }
    }

    /** Destroys every slab tier 0 refers to; the tiers keep their entries,
        so the manager is fit only for deletion afterwards. */
    method Destroy() returns (st: Status)
      requires Valid() && |tiers| >= 1
      modifies this
      ensures st == Ok
      ensures heap == old(heap) - old(tiers[0]).Values
      ensures specs == old(specs) && tiers == old(tiers) && tierDims == old(tierDims)
      ensures nextId == old(nextId) && allocLen == old(allocLen) && totalDims == old(totalDims)
      ensures cacheCapacity == old(cacheCapacity) && done == old(done)
      ensures background == old(background) && pool == old(pool)
    {
      var h := DestroyTier(heap, tiers[0]);
      heap := h;
      st := Ok;
    }

    /** Writes each listed key with its slab into every tier's backend. */
    method BatchCommit(keys: seq<Key>, ids: seq<SlabId>) returns (st: Status)
      requires Valid() && |keys| == |ids|
      requires forall j :: 0 <= j < |ids| ==> ids[j] in heap
      modifies this
      ensures Valid() && st == Ok
      ensures |tiers| == |old(tiers)|
      ensures forall i :: 0 <= i < |tiers| ==> tiers[i] == CommitAll(old(tiers)[i], keys, ids)
      ensures specs == old(specs) && tierDims == old(tierDims) && heap == old(heap)
      ensures nextId == old(nextId) && allocLen == old(allocLen) && totalDims == old(totalDims)
      ensures cacheCapacity == old(cacheCapacity) && done == old(done)
      ensures background == old(background) && pool == old(pool)
    {
      var t := tiers;
      var i := 0;
      while i < |t|
        invariant |t| == |tiers| && i <= |t|
        invariant forall j :: 0 <= j < i ==> t[j] == CommitAll(tiers[j], keys, ids)
        invariant forall j :: i <= j < |t| ==> t[j] == tiers[j]
      {
        t := t[i := CommitAll(t[i], keys, ids)];
        i := i + 1;
      }
      forall id | id in Referenced(t) ensures id in heap {
        var j :| 0 <= j < |t| && id in t[j].Values;
        CommitAllRefs(tiers[j], keys, ids);
        if id !in tiers[j].Values {
          var l :| 0 <= l < |ids| && ids[l] == id;
        }
      }
      tiers := t;
      st := Ok;
    }

    /** Writes `key` with slab `id` into tier 0's backend. */
    method Commit(key: Key, id: SlabId) returns (st: Status)
      requires Valid() && |tiers| >= 1 && id in heap
      modifies this
      ensures Valid() && st == Ok
      ensures tiers == old(tiers)[0 := old(tiers)[0][key := id]]
      ensures specs == old(specs) && tierDims == old(tierDims) && heap == old(heap)
      ensures nextId == old(nextId) && allocLen == old(allocLen) && totalDims == old(totalDims)
      ensures cacheCapacity == old(cacheCapacity) && done == old(done)
      ensures background == old(background) && pool == old(pool)
    {
      ghost var before := tiers;
      tiers := tiers[0 := tiers[0][key := id]];
      forall x | x in Referenced(tiers) ensures x in heap {
        var i :| 0 <= i < |tiers| && x in tiers[i].Values;
        var k := KeyOf(tiers[i], x);
        if i != 0 || k != key {
          assert x in before[i].Values;
        }
      }
      st := Ok;
    }

    /** One round of the eviction loop. `cacheKeys` is the cache's contents,
        coldest first. When the cache is over capacity, up to MaxBatch of
        its coldest keys are taken; each still in tier 0 moves, with its
        slab, to tier 1. Returns how many keys were taken. */
    method EvictionRound(cacheKeys: seq<Key>) returns (taken: nat)
      requires Valid() && |tiers| >= 2
      modifies this
      ensures Valid()
      ensures taken == BatchSize(|cacheKeys|, cacheCapacity) && taken <= |cacheKeys|
      ensures var r := EvictAll(old(tiers)[0], old(tiers)[1], cacheKeys[..taken]);
        tiers == old(tiers)[0 := r.0][1 := r.1]
      ensures specs == old(specs) && tierDims == old(tierDims) && heap == old(heap)
      ensures nextId == old(nextId) && allocLen == old(allocLen) && totalDims == old(totalDims)
      ensures cacheCapacity == old(cacheCapacity) && done == old(done)
      ensures background == old(background) && pool == old(pool)
    {
      var cacheCount := |cacheKeys|;
      taken := 0;
      if cacheCount > cacheCapacity {
        var k := cacheCount - cacheCapacity;
        if k > MaxBatch {
          k := MaxBatch;
        }
        var evic := cacheKeys[..k];
        taken := |evic|;
        var t0, t1 := tiers[0], tiers[1];
        var i := 0;
        while i < taken
          invariant i <= taken
          invariant (t0, t1) == EvictAll(tiers[0], tiers[1], evic[..i])
        {
          assert evic[..i + 1][..i] == evic[..i];
          if evic[i] in t0 {
            var v := t0[evic[i]];
            t0 := t0 - {evic[i]};
            t1 := t1[evic[i] := v];
          }
          i := i + 1;
        }
        assert evic[..i] == evic;
        EvictAllKeepsKeys(tiers[0], tiers[1], evic);
        ghost var before := tiers;
        tiers := tiers[0 := t0][1 := t1];
        forall x | x in Referenced(tiers) ensures x in heap {
          var j :| 0 <= j < |tiers| && x in tiers[j].Values;
          if j >= 2 {
            assert x in before[j].Values;
          } else {
            assert x in before[0].Values + before[1].Values;
          }
        }
      }
    }
  }
}
