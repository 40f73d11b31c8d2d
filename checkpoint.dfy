/** Checkpoint export: the manager's two GetSnapshot operations as values.
    The plain one lists every tier's entries, tier after tier. The dump
    keeps only entries whose slab holds both the exported and the primary
    embedding, and records for each the address of the exported slot, and its
    frequency and step when the embedding's configuration asks for them. */
module Checkpoint {
  import opened Layout
  import opened Slabs
  import opened Tiers

  /** The entries of the tier enumerations, tier after tier. */
  function FlatKeys(snaps: seq<Snapshot>): seq<Key> {
    if |snaps| == 0 then [] else FlatKeys(snaps[..|snaps| - 1]) + snaps[|snaps| - 1].keys
  }

  function FlatIds(snaps: seq<Snapshot>): seq<SlabId> {
    if |snaps| == 0 then [] else FlatIds(snaps[..|snaps| - 1]) + snaps[|snaps| - 1].ids
  }

  /** Each snaps[i] enumerates tiers[i]. */
  ghost predicate Enumerates(snaps: seq<Snapshot>, tiers: seq<Tier>) {
    && |snaps| <= |tiers|
    && forall i :: 0 <= i < |snaps| ==> IsEnumeration(snaps[i].keys, snaps[i].ids, tiers[i])
  }

  /** Some tier maps `key` to `id`. */
  ghost predicate InSomeTier(tiers: seq<Tier>, key: Key, id: SlabId) {
    exists i :: 0 <= i < |tiers| && key in tiers[i] && tiers[i][key] == id
  }

  /** The plain snapshot of all tiers lists exactly Size() entries, each of
      them an entry of some tier, and it misses no key of any tier. */
  lemma {:induction false} FlatSnapshotComplete(tiers: seq<Tier>, snaps: seq<Snapshot>)
    requires |snaps| == |tiers| && Enumerates(snaps, tiers)
    ensures |FlatKeys(snaps)| == |FlatIds(snaps)| == TotalSize(tiers)
    ensures forall j :: 0 <= j < |FlatKeys(snaps)| ==> InSomeTier(tiers, FlatKeys(snaps)[j], FlatIds(snaps)[j])
    ensures forall i, k :: 0 <= i < |tiers| && k in tiers[i] ==> k in FlatKeys(snaps)
  {
    if |tiers| > 0 {
      var n := |tiers| - 1;
      var pt, ps := tiers[..n], snaps[..n];
      assert Enumerates(ps, pt) by {
        forall i | 0 <= i < n ensures IsEnumeration(ps[i].keys, ps[i].ids, pt[i]) {
          assert ps[i] == snaps[i] && pt[i] == tiers[i];
        }
      }
      FlatSnapshotComplete(pt, ps);
      var fk, fi := FlatKeys(snaps), FlatIds(snaps);
      var pk, pi := FlatKeys(ps), FlatIds(ps);
      assert fk == pk + snaps[n].keys && fi == pi + snaps[n].ids;
      forall j | 0 <= j < |fk| ensures InSomeTier(tiers, fk[j], fi[j]) {
        if j < |pk| {
          assert fk[j] == pk[j] && fi[j] == pi[j];
          assert InSomeTier(pt, pk[j], pi[j]);
          var i :| 0 <= i < n && pk[j] in pt[i] && pt[i][pk[j]] == pi[j];
          assert pt[i] == tiers[i];
        } else {
          var l := j - |pk|;
          assert fk[j] == snaps[n].keys[l] && fi[j] == snaps[n].ids[l];
          assert fk[j] in tiers[n] && tiers[n][fk[j]] == fi[j];
        }
      }
      forall i, k | 0 <= i < |tiers| && k in tiers[i] ensures k in fk {
        if i < n {
          assert pt[i] == tiers[i];
          assert k in pk;
        } else {
          assert k in snaps[n].keys;
        }
      }
    }
  }

  /** The fields of an embedding's configuration the dump reads. */
  datatype EmbConfig = EmbConfig(embIndex: nat, primaryEmbIndex: nat, filterFreq: int,
                                 isMultiLevel: bool, stepsToLive: int)

  /** The dump's four output lists, appended to together. */
  datatype Dump = Dump(keys: seq<Key>, values: seq<ValueRef>, versions: seq<int>, freqs: seq<int>)

  const EmptyDump := Dump([], [], [], [])

  /** A slab is exported when both the exported and the primary embedding
      slots hold a value. */
  predicate Eligible(s: Slab, cfg: EmbConfig) {
    cfg.embIndex in s.slots && cfg.primaryEmbIndex in s.slots
  }

  /** Frequencies are kept for a filtered or multi-level embedding. */
  predicate DumpsFreq(cfg: EmbConfig) {
    cfg.filterFreq != 0 || cfg.isMultiLevel
  }

  /** Steps are kept for an embedding with a time to live. */
  predicate DumpsVersion(cfg: EmbConfig) {
    cfg.stepsToLive != 0
  }

  /** Every listed slab is in the heap. */
  predicate InHeap(ids: seq<SlabId>, heap: Heap) {
    forall j :: 0 <= j < |ids| ==> ids[j] in heap
  }

  /** The dump step for one enumerated entry; `freqOf` is the filter's
      frequency of a key and its slab. */
  function DumpEntry(d: Dump, heap: Heap, key: Key, id: SlabId, cfg: EmbConfig, allocLen: int,
                     freqOf: (Key, Slab) -> int): Dump
    requires id in heap
  {
    var s := heap[id];
    if Eligible(s, cfg) then
      Dump(d.keys + [key], d.values + [ValueRef(id, SlotOffset(allocLen, cfg.embIndex))],
           if DumpsVersion(cfg) then d.versions + [s.step] else d.versions,
           if DumpsFreq(cfg) then d.freqs + [freqOf(key, s)] else d.freqs)
    else d
  }

  /** The dump steps for one tier's enumeration, in order. */
  function DumpTier(d: Dump, heap: Heap, keys: seq<Key>, ids: seq<SlabId>, cfg: EmbConfig,
                    allocLen: int, freqOf: (Key, Slab) -> int): Dump
    requires |keys| == |ids| && InHeap(ids, heap)
  {
    if |keys| == 0 then d
    else
      var n := |keys| - 1;
      var p := DumpTier(d, heap, keys[..n], ids[..n], cfg, allocLen, freqOf);
      DumpEntry(p, heap, keys[n], ids[n], cfg, allocLen, freqOf)
  }

  /** The dump over the enumerations of tiers 0 .. |snaps| - 1. */
  function DumpTiers(d: Dump, heap: Heap, snaps: seq<Snapshot>, cfg: EmbConfig, allocLen: int,
                     freqOf: (Key, Slab) -> int): Dump
    requires forall i :: 0 <= i < |snaps| ==> |snaps[i].keys| == |snaps[i].ids| && InHeap(snaps[i].ids, heap)
  {
    if |snaps| == 0 then d
    else
      var n := |snaps| - 1;
      var p := DumpTiers(d, heap, snaps[..n], cfg, allocLen, freqOf);
      DumpTier(p, heap, snaps[n].keys, snaps[n].ids, cfg, allocLen, freqOf)
  }

  /** Row j of a dump: the key of an eligible slab, the address of that
      slab's exported slot at the slot's offset, and the slab's step and the
      key's frequency when those lists are kept (and those lists empty when
      they are not). */
  ghost predicate Rows(d: Dump, heap: Heap, cfg: EmbConfig, allocLen: int, freqOf: (Key, Slab) -> int) {
    && |d.values| == |d.keys|
    && |d.versions| == (if DumpsVersion(cfg) then |d.keys| else 0)
    && |d.freqs| == (if DumpsFreq(cfg) then |d.keys| else 0)
    && forall j :: 0 <= j < |d.keys| ==> RowAt(d, j, heap, cfg, allocLen, freqOf)
  }

  ghost predicate RowAt(d: Dump, j: nat, heap: Heap, cfg: EmbConfig, allocLen: int, freqOf: (Key, Slab) -> int)
    requires j < |d.keys| == |d.values|
    requires |d.versions| == (if DumpsVersion(cfg) then |d.keys| else 0)
    requires |d.freqs| == (if DumpsFreq(cfg) then |d.keys| else 0)
  {
    var id := d.values[j].slab;
    && id in heap && Eligible(heap[id], cfg)
    && d.values[j].offset == SlotOffset(allocLen, cfg.embIndex)
    && (DumpsVersion(cfg) ==> d.versions[j] == heap[id].step)
    && (DumpsFreq(cfg) ==> d.freqs[j] == freqOf(d.keys[j], heap[id]))
  }

  /** A tier's dump only appends well-formed rows, at most one per entry,
      and keeps the rows it started with. */
  lemma {:induction false} DumpTierRows(d: Dump, heap: Heap, keys: seq<Key>, ids: seq<SlabId>,
                                        cfg: EmbConfig, allocLen: int, freqOf: (Key, Slab) -> int)
    requires |keys| == |ids| && InHeap(ids, heap) && Rows(d, heap, cfg, allocLen, freqOf)
    ensures var r := DumpTier(d, heap, keys, ids, cfg, allocLen, freqOf);
      && Rows(r, heap, cfg, allocLen, freqOf)
      && |d.keys| <= |r.keys| <= |d.keys| + |keys|
      && r.keys[..|d.keys|] == d.keys && r.values[..|d.keys|] == d.values
  {
    if |keys| > 0 {
      var n := |keys| - 1;
      DumpTierRows(d, heap, keys[..n], ids[..n], cfg, allocLen, freqOf);
      var p := DumpTier(d, heap, keys[..n], ids[..n], cfg, allocLen, freqOf);
      var r := DumpTier(d, heap, keys, ids, cfg, allocLen, freqOf);
      if Eligible(heap[ids[n]], cfg) {
        assert r.keys == p.keys + [keys[n]];
        forall j | 0 <= j < |r.keys| ensures RowAt(r, j, heap, cfg, allocLen, freqOf) {
          if j < |p.keys| {
            assert RowAt(p, j, heap, cfg, allocLen, freqOf);
          }
        }
        assert r.keys[..|d.keys|] == p.keys[..|d.keys|];
        assert r.values[..|d.keys|] == p.values[..|d.keys|];
      }
    }
  }

  /** Each row a tier's dump adds pairs a key with the slab the enumeration
      gives that key: the dump never separates a key from its own value. */
  lemma {:induction false} DumpTierPairs(d: Dump, heap: Heap, keys: seq<Key>, ids: seq<SlabId>,
                                         cfg: EmbConfig, allocLen: int, freqOf: (Key, Slab) -> int)
    requires |keys| == |ids| && InHeap(ids, heap) && |d.values| == |d.keys|
    ensures var r := DumpTier(d, heap, keys, ids, cfg, allocLen, freqOf);
      && |r.values| == |r.keys| && |d.keys| <= |r.keys|
      && (forall j :: 0 <= j < |d.keys| ==> r.keys[j] == d.keys[j] && r.values[j] == d.values[j])
      && (forall j :: |d.keys| <= j < |r.keys| ==>
            exists l :: 0 <= l < |keys| && keys[l] == r.keys[j] && ids[l] == r.values[j].slab)
  {
    if |keys| > 0 {
      var n := |keys| - 1;
      DumpTierPairs(d, heap, keys[..n], ids[..n], cfg, allocLen, freqOf);
      var p := DumpTier(d, heap, keys[..n], ids[..n], cfg, allocLen, freqOf);
      var r := DumpTier(d, heap, keys, ids, cfg, allocLen, freqOf);
      forall j | |d.keys| <= j < |r.keys|
        ensures exists l :: 0 <= l < |keys| && keys[l] == r.keys[j] && ids[l] == r.values[j].slab
      {
        if j < |p.keys| {
          assert r.keys[j] == p.keys[j] && r.values[j] == p.values[j];
          var l :| 0 <= l < n && keys[..n][l] == p.keys[j] && ids[..n][l] == p.values[j].slab;
          assert keys[l] == r.keys[j] && ids[l] == r.values[j].slab;
        } else {
          assert keys[n] == r.keys[j] && ids[n] == r.values[j].slab;
        }
      }
    }
  }

  /** Starting from empty lists, every row of the dump of all tiers pairs a
      key with the slab some tier maps that key to. */
  lemma {:induction false} DumpTiersPairs(heap: Heap, tiers: seq<Tier>, snaps: seq<Snapshot>,
                                          cfg: EmbConfig, allocLen: int, freqOf: (Key, Slab) -> int)
    requires |snaps| == |tiers| && Enumerates(snaps, tiers) && Live(tiers, heap)
    ensures forall i :: 0 <= i < |snaps| ==> |snaps[i].keys| == |snaps[i].ids| && InHeap(snaps[i].ids, heap)
    ensures var r := DumpTiers(EmptyDump, heap, snaps, cfg, allocLen, freqOf);
      && |r.values| == |r.keys|
      && forall j :: 0 <= j < |r.keys| ==> InSomeTier(tiers, r.keys[j], r.values[j].slab)
  {
    EnumeratedInHeap(heap, tiers, snaps);
    if |snaps| > 0 {
      var n := |snaps| - 1;
      EnumeratesPrefix(tiers, snaps, heap, n);
      DumpTiersPairs(heap, tiers[..n], snaps[..n], cfg, allocLen, freqOf);
      var p := DumpTiers(EmptyDump, heap, snaps[..n], cfg, allocLen, freqOf);
      var s := snaps[n];
      DumpTierPairs(p, heap, s.keys, s.ids, cfg, allocLen, freqOf);
      var r := DumpTiers(EmptyDump, heap, snaps, cfg, allocLen, freqOf);
      forall j | 0 <= j < |r.keys| ensures InSomeTier(tiers, r.keys[j], r.values[j].slab) {
        if j < |p.keys| {
          assert InSomeTier(tiers[..n], p.keys[j], p.values[j].slab);
          var i :| 0 <= i < n && p.keys[j] in tiers[..n][i] && tiers[..n][i][p.keys[j]] == p.values[j].slab;
          assert tiers[..n][i] == tiers[i];
        } else {
          var l :| 0 <= l < |s.keys| && s.keys[l] == r.keys[j] && s.ids[l] == r.values[j].slab;
          assert s.keys[l] in tiers[n] && tiers[n][s.keys[l]] == s.ids[l];
        }
      }
    }
  }

  /** The keys a tier's dump adds are exactly the tier's keys whose slab is
      eligible. */
  lemma {:induction false} DumpTierMembers(d: Dump, heap: Heap, keys: seq<Key>, ids: seq<SlabId>,
                                           cfg: EmbConfig, allocLen: int, freqOf: (Key, Slab) -> int)
    requires |keys| == |ids| && InHeap(ids, heap)
    ensures forall k :: k in DumpTier(d, heap, keys, ids, cfg, allocLen, freqOf).keys <==>
      k in d.keys || exists j :: 0 <= j < |keys| && keys[j] == k && Eligible(heap[ids[j]], cfg)
  {
    if |keys| > 0 {
      var n := |keys| - 1;
      DumpTierMembers(d, heap, keys[..n], ids[..n], cfg, allocLen, freqOf);
      forall k ensures k in DumpTier(d, heap, keys, ids, cfg, allocLen, freqOf).keys <==>
        k in d.keys || exists j :: 0 <= j < |keys| && keys[j] == k && Eligible(heap[ids[j]], cfg)
      {
        if exists j :: 0 <= j < |keys| && keys[j] == k && Eligible(heap[ids[j]], cfg) {
          var j :| 0 <= j < |keys| && keys[j] == k && Eligible(heap[ids[j]], cfg);
          if j < n {
            assert keys[..n][j] == k && ids[..n][j] == ids[j];
          }
        }
      }
    }
  }

  /** Tier `i` holds `key` with an eligible, live slab. */
  ghost predicate Exported(tiers: seq<Tier>, heap: Heap, i: int, key: Key, cfg: EmbConfig)
    requires 0 <= i < |tiers|
  {
    key in tiers[i] && tiers[i][key] in heap && Eligible(heap[tiers[i][key]], cfg)
  }

  /** The slabs an enumeration of live tiers lists are in the heap. */
  lemma EnumeratedInHeap(heap: Heap, tiers: seq<Tier>, snaps: seq<Snapshot>)
    requires Enumerates(snaps, tiers) && Live(tiers, heap)
    ensures forall i :: 0 <= i < |snaps| ==> |snaps[i].keys| == |snaps[i].ids| && InHeap(snaps[i].ids, heap)
  {
    forall i | 0 <= i < |snaps| ensures InHeap(snaps[i].ids, heap) {
      forall j | 0 <= j < |snaps[i].ids| ensures snaps[i].ids[j] in heap {
        assert snaps[i].ids[j] in tiers[i].Values;
      }
    }
  }

  /** Enumerations of a prefix of the tiers. */
  lemma EnumeratesPrefix(tiers: seq<Tier>, snaps: seq<Snapshot>, heap: Heap, n: nat)
    requires Enumerates(snaps, tiers) && Live(tiers, heap) && n <= |snaps|
    ensures Enumerates(snaps[..n], tiers[..n]) && Live(tiers[..n], heap)
  {
    forall i | 0 <= i < n ensures IsEnumeration(snaps[..n][i].keys, snaps[..n][i].ids, tiers[..n][i]) {
      assert snaps[..n][i] == snaps[i] && tiers[..n][i] == tiers[i];
    }
  }

  /** Starting from empty lists, the dump of all tiers has well-formed rows
      and no more of them than Size(). */
  lemma {:induction false} DumpTiersRows(heap: Heap, tiers: seq<Tier>, snaps: seq<Snapshot>,
                                         cfg: EmbConfig, allocLen: int, freqOf: (Key, Slab) -> int)
    requires |snaps| == |tiers| && Enumerates(snaps, tiers) && Live(tiers, heap)
    ensures forall i :: 0 <= i < |snaps| ==> |snaps[i].keys| == |snaps[i].ids| && InHeap(snaps[i].ids, heap)
    ensures var r := DumpTiers(EmptyDump, heap, snaps, cfg, allocLen, freqOf);
      Rows(r, heap, cfg, allocLen, freqOf) && |r.keys| <= TotalSize(tiers)
  {
    EnumeratedInHeap(heap, tiers, snaps);
    if |snaps| > 0 {
      var n := |snaps| - 1;
      EnumeratesPrefix(tiers, snaps, heap, n);
      DumpTiersRows(heap, tiers[..n], snaps[..n], cfg, allocLen, freqOf);
      var p := DumpTiers(EmptyDump, heap, snaps[..n], cfg, allocLen, freqOf);
      DumpTierRows(p, heap, snaps[n].keys, snaps[n].ids, cfg, allocLen, freqOf);
    }
  }

  /** Some tier holds `key` with an eligible, live slab. */
  ghost predicate ExportedAny(tiers: seq<Tier>, heap: Heap, key: Key, cfg: EmbConfig) {
    exists i :: 0 <= i < |tiers| && Exported(tiers, heap, i, key, cfg)
  }

  /** Writing both the exported and the primary embedding of a key's slab
      makes the next dump list that key. */
  lemma WrittenIsExported(tiers: seq<Tier>, heap: Heap, i: nat, key: Key, cfg: EmbConfig,
                          slots: map<nat, seq<Scalar>>, step: int)
    requires i < |tiers| && key in tiers[i] && tiers[i][key] in heap
    requires cfg.embIndex in slots && cfg.primaryEmbIndex in slots
    ensures var id := tiers[i][key];
      ExportedAny(tiers, heap[id := heap[id].(slots := slots, step := step)], key, cfg)
  {
    var id := tiers[i][key];
    assert Exported(tiers, heap[id := heap[id].(slots := slots, step := step)], i, key, cfg);
  }

  /** ExportedAny over the tiers, split at the last tier. */
  lemma ExportedAnySplit(tiers: seq<Tier>, heap: Heap, key: Key, cfg: EmbConfig)
    requires |tiers| > 0
    ensures var n := |tiers| - 1;
      ExportedAny(tiers, heap, key, cfg) <==> ExportedAny(tiers[..n], heap, key, cfg) || Exported(tiers, heap, n, key, cfg)
  {
    var n := |tiers| - 1;
    if ExportedAny(tiers, heap, key, cfg) {
      var i :| 0 <= i < |tiers| && Exported(tiers, heap, i, key, cfg);
      if i < n {
        assert tiers[..n][i] == tiers[i];
        assert Exported(tiers[..n], heap, i, key, cfg);
      }
    }
    if ExportedAny(tiers[..n], heap, key, cfg) {
      var i :| 0 <= i < n && Exported(tiers[..n], heap, i, key, cfg);
      assert tiers[..n][i] == tiers[i];
      assert Exported(tiers, heap, i, key, cfg);
    }
  }

  /** The keys one tier's dump adds are that tier's exported keys. */
  lemma DumpTierExports(d: Dump, heap: Heap, tiers: seq<Tier>, i: nat, s: Snapshot,
                        cfg: EmbConfig, allocLen: int, freqOf: (Key, Slab) -> int)
    requires i < |tiers| && IsEnumeration(s.keys, s.ids, tiers[i]) && InHeap(s.ids, heap)
    ensures forall k :: k in DumpTier(d, heap, s.keys, s.ids, cfg, allocLen, freqOf).keys <==>
      k in d.keys || Exported(tiers, heap, i, k, cfg)
  {
    DumpTierMembers(d, heap, s.keys, s.ids, cfg, allocLen, freqOf);
    forall k | Exported(tiers, heap, i, k, cfg)
      ensures exists j :: 0 <= j < |s.keys| && s.keys[j] == k && Eligible(heap[s.ids[j]], cfg)
    {
      var j :| 0 <= j < |s.keys| && s.keys[j] == k;
      assert s.ids[j] == tiers[i][k];
    }
  }

  /** Checkpoint filtering: starting from empty lists, the dump of all tiers
      holds a key exactly when some tier holds it with a slab that has both
      the exported and the primary embedding. */
  lemma {:induction false} DumpTiersFilter(heap: Heap, tiers: seq<Tier>, snaps: seq<Snapshot>,
                                           cfg: EmbConfig, allocLen: int, freqOf: (Key, Slab) -> int)
    requires |snaps| == |tiers| && Enumerates(snaps, tiers) && Live(tiers, heap)
    ensures forall i :: 0 <= i < |snaps| ==> |snaps[i].keys| == |snaps[i].ids| && InHeap(snaps[i].ids, heap)
    ensures forall k :: k in DumpTiers(EmptyDump, heap, snaps, cfg, allocLen, freqOf).keys <==>
      ExportedAny(tiers, heap, k, cfg)
  {
    EnumeratedInHeap(heap, tiers, snaps);
    if |snaps| > 0 {
      var n := |snaps| - 1;
      EnumeratesPrefix(tiers, snaps, heap, n);
      DumpTiersFilter(heap, tiers[..n], snaps[..n], cfg, allocLen, freqOf);
      var p := DumpTiers(EmptyDump, heap, snaps[..n], cfg, allocLen, freqOf);
      DumpTierExports(p, heap, tiers, n, snaps[n], cfg, allocLen, freqOf);
      forall k ensures ExportedAny(tiers, heap, k, cfg) <==>
        ExportedAny(tiers[..n], heap, k, cfg) || Exported(tiers, heap, n, k, cfg)
      {
        ExportedAnySplit(tiers, heap, k, cfg);
      }
    }
  }

  /** The enumerated keys whose slab is exported, in enumeration order: the
      reference the dump's key list is compared with. */
  function EligibleKeys(heap: Heap, keys: seq<Key>, ids: seq<SlabId>, cfg: EmbConfig): (r: seq<Key>)
    requires |keys| == |ids| && InHeap(ids, heap)
    ensures |r| <= |keys|
    ensures forall x :: x in r ==> x in keys
  {
    if |keys| == 0 then []
    else
      var n := |keys| - 1;
      EligibleKeys(heap, keys[..n], ids[..n], cfg) + if Eligible(heap[ids[n]], cfg) then [keys[n]] else []
  }

  /** A tier's dump appends exactly the eligible enumerated keys, each once
      and in enumeration order. */
  lemma {:induction false} DumpTierKeys(d: Dump, heap: Heap, keys: seq<Key>, ids: seq<SlabId>,
                                        cfg: EmbConfig, allocLen: int, freqOf: (Key, Slab) -> int)
    requires |keys| == |ids| && InHeap(ids, heap)
    ensures DumpTier(d, heap, keys, ids, cfg, allocLen, freqOf).keys == d.keys + EligibleKeys(heap, keys, ids, cfg)
  {
    if |keys| > 0 {
      var n := |keys| - 1;
      DumpTierKeys(d, heap, keys[..n], ids[..n], cfg, allocLen, freqOf);
    }
  }

  /** The eligible keys of every enumeration, tier after tier. */
  function AllEligibleKeys(heap: Heap, snaps: seq<Snapshot>, cfg: EmbConfig): (r: seq<Key>)
    requires forall i :: 0 <= i < |snaps| ==> |snaps[i].keys| == |snaps[i].ids| && InHeap(snaps[i].ids, heap)
    ensures |r| <= |FlatKeys(snaps)|
  {
    if |snaps| == 0 then []
    else
      var n := |snaps| - 1;
      AllEligibleKeys(heap, snaps[..n], cfg) + EligibleKeys(heap, snaps[n].keys, snaps[n].ids, cfg)
  }

  /** The dump of all tiers appends the eligible keys tier after tier, each
      tier's in its enumeration order. */
  lemma {:induction false} DumpTiersKeys(d: Dump, heap: Heap, snaps: seq<Snapshot>,
                                         cfg: EmbConfig, allocLen: int, freqOf: (Key, Slab) -> int)
    requires forall i :: 0 <= i < |snaps| ==> |snaps[i].keys| == |snaps[i].ids| && InHeap(snaps[i].ids, heap)
    ensures DumpTiers(d, heap, snaps, cfg, allocLen, freqOf).keys == d.keys + AllEligibleKeys(heap, snaps, cfg)
  {
    if |snaps| > 0 {
      var n := |snaps| - 1;
      DumpTiersKeys(d, heap, snaps[..n], cfg, allocLen, freqOf);
      var p := DumpTiers(d, heap, snaps[..n], cfg, allocLen, freqOf);
      DumpTierKeys(p, heap, snaps[n].keys, snaps[n].ids, cfg, allocLen, freqOf);
    }
  }

  /** No key occurs twice in `s`. */
  predicate NoRepeats(s: seq<Key>) {
    forall j, l :: 0 <= j < l < |s| ==> s[j] != s[l]
  }

  /** With distinct enumerated keys, the eligible keys are distinct too. */
  lemma {:induction false} EligibleKeysDistinct(heap: Heap, keys: seq<Key>, ids: seq<SlabId>, cfg: EmbConfig)
    requires |keys| == |ids| && InHeap(ids, heap) && NoRepeats(keys)
    ensures NoRepeats(EligibleKeys(heap, keys, ids, cfg))
  {
    if |keys| > 0 {
      var n := |keys| - 1;
      assert NoRepeats(keys[..n]);
      EligibleKeysDistinct(heap, keys[..n], ids[..n], cfg);
      var p := EligibleKeys(heap, keys[..n], ids[..n], cfg);
      var r := EligibleKeys(heap, keys, ids, cfg);
      assert r == p + if Eligible(heap[ids[n]], cfg) then [keys[n]] else [];
      assert keys[n] !in keys[..n];
      forall j, l | 0 <= j < l < |r| ensures r[j] != r[l] {
        if l < |p| {
          assert r[j] == p[j] && r[l] == p[l];
        } else {
          assert r[l] == keys[n] && r[j] == p[j];
          assert p[j] in keys[..n];
        }
      }
    }
  }

  /** The keys of tier `m` whose slab is live and exported. */
  ghost function TierExports(m: Tier, heap: Heap, cfg: EmbConfig): set<Key> {
    set k | k in m && m[k] in heap && Eligible(heap[m[k]], cfg)
  }

  /** The number of entries the tiers export; a key two tiers hold counts
      once for each. */
  ghost function ExportedCount(tiers: seq<Tier>, heap: Heap, cfg: EmbConfig): nat {
    if |tiers| == 0 then 0
    else ExportedCount(tiers[..|tiers| - 1], heap, cfg) + |TierExports(tiers[|tiers| - 1], heap, cfg)|
  }

  /** A sequence without repeats has as many elements as its set. */
  lemma {:induction false} DistinctCard(s: seq<Key>)
    requires NoRepeats(s)
    ensures |set x | x in s| == |s|
  {
    if |s| > 0 {
      var n := |s| - 1;
      assert NoRepeats(s[..n]);
      DistinctCard(s[..n]);
      assert (set x | x in s) == (set x | x in s[..n]) + {s[n]};
      assert s[n] !in s[..n];
    }
  }

  /** The eligible keys of an enumeration of tier `m` are exactly the tier's
      exported keys, each once. */
  lemma EligibleKeysCount(heap: Heap, m: Tier, keys: seq<Key>, ids: seq<SlabId>, cfg: EmbConfig)
    requires IsEnumeration(keys, ids, m) && InHeap(ids, heap)
    ensures |EligibleKeys(heap, keys, ids, cfg)| == |TierExports(m, heap, cfg)|
  {
    var r := EligibleKeys(heap, keys, ids, cfg);
    assert NoRepeats(keys);
    EligibleKeysDistinct(heap, keys, ids, cfg);
    DistinctCard(r);
    var noFreq := (k: Key, s: Slab) => 0;
    DumpTierMembers(EmptyDump, heap, keys, ids, cfg, 0, noFreq);
    DumpTierKeys(EmptyDump, heap, keys, ids, cfg, 0, noFreq);
    assert DumpTier(EmptyDump, heap, keys, ids, cfg, 0, noFreq).keys == r;
    forall k ensures k in r <==> k in TierExports(m, heap, cfg) {
      if k in r {
        var j :| 0 <= j < |keys| && keys[j] == k && Eligible(heap[ids[j]], cfg);
        assert ids[j] == m[k];
      }
      if k in TierExports(m, heap, cfg) {
        var j :| 0 <= j < |keys| && keys[j] == k;
        assert ids[j] == m[k];
      }
    }
    assert (set x | x in r) == TierExports(m, heap, cfg);
  }

  /** The dump of all tiers appends one row per exported entry: its length
      grows by exactly ExportedCount. */
  lemma {:induction false} DumpTiersCount(d: Dump, heap: Heap, tiers: seq<Tier>, snaps: seq<Snapshot>,
                                          cfg: EmbConfig, allocLen: int, freqOf: (Key, Slab) -> int)
    requires |snaps| == |tiers| && Enumerates(snaps, tiers) && Live(tiers, heap)
    ensures forall i :: 0 <= i < |snaps| ==> |snaps[i].keys| == |snaps[i].ids| && InHeap(snaps[i].ids, heap)
    ensures |DumpTiers(d, heap, snaps, cfg, allocLen, freqOf).keys| == |d.keys| + ExportedCount(tiers, heap, cfg)
  {
    EnumeratedInHeap(heap, tiers, snaps);
    if |snaps| > 0 {
      var n := |snaps| - 1;
      EnumeratesPrefix(tiers, snaps, heap, n);
      DumpTiersCount(d, heap, tiers[..n], snaps[..n], cfg, allocLen, freqOf);
      var p := DumpTiers(d, heap, snaps[..n], cfg, allocLen, freqOf);
      DumpTierKeys(p, heap, snaps[n].keys, snaps[n].ids, cfg, allocLen, freqOf);
      EligibleKeysCount(heap, tiers[n], snaps[n].keys, snaps[n].ids, cfg);
    }
  }
}
