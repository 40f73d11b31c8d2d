# StorageManager of a multi-level embedding table

This project models the `StorageManager` of DeepRec's multi-level embedding
variables in Dafny. The manager keeps a list of one or two storage tiers,
fastest first. Each tier is a key-value backend (a lock-free hash map or a
LevelDB store) paired with an allocator. The backends map sparse feature ids
to value slabs (`ValuePtr` objects). The manager:

- builds the tier list from the storage configuration (`Init`);
- fixes the 16-byte-aligned slot length, the slab width and the eviction-cache
  capacity (`SetAllocLen` and its getters);
- looks keys up tier by tier, promotes them to tier 0 and allocates missing
  ones (`GetOrCreate`), and settles a lost insert race;
- removes, counts, enumerates and commits keys;
- exports a checkpoint dump filtered by embedding slot;
- prunes stale or light entries (`Shrink`) and destroys tier 0's slabs;
- runs rounds of background eviction from tier 0 to tier 1.

Module layout:

- `base.dfy` (`Base`): `Option` and `Status`. `Fatal` stands for a failed `CHECK`.
- `layout.dfy` (`Layout`): storage kinds, the tier layout `Init` builds, slot
  alignment, slot offsets and the cache capacity formula.
- `slabs.dfy` (`Slabs`): slabs and the heap of live slabs. A `SlabId` stands
  for a `ValuePtr<V>*`; a slab holds its step and the values of the
  embedding slots that have one.
- `tiers.dfy` (`Tiers`): each tier as a key-to-slab map, plus lookup order,
  removal, sizes, backend enumeration and bulk commit.
- `lookup.dfy` (`Lookup`): `GetOrCreate` as a function of the tiers, the heap
  and the concurrent racer.
- `eviction.dfy` (`Eviction`): one eviction round.
- `shrink.dfy` (`Shrink`): the two `Shrink` passes.
- `checkpoint.dfy` (`Checkpoint`): both `GetSnapshot` overloads.
- `manager.dfy` (`Manager`): the `StorageManager` class. Its fields are
  updated in place by methods with loops. Each method is proved equal to the
  specification functions above, and lemmas prove the properties of those
  functions.

A backend's own enumeration order is not visible in the source. `EnumerateTier`
picks the order. Methods that depend on it return the enumerations they used
as a ghost `snaps` out-parameter, and their contracts hold for every order.

The model follows these details of the code:

- `alloc_len_` is recomputed on every `SetAllocLen` call
  (multilevel_embedding.h:113). Only `total_dims_`, the per-tier dims and the
  cache capacity are fixed by the first call that finds `total_dims_ == 0`.
- The cache capacity is `1024*1024*1024 / total_dims_ * sizeof(V)`
  (line 123): the budget is divided by the slab width and then multiplied by
  the scalar size. It is not divided by width × size.
- An eviction round compares the cache's count with the capacity, not tier 0's
  size (line 348).
- `Schedule` with a single tier drops the callback (lines 149-153). It does
  not run it inline.
- The dump keeps an entry only when both the exported slot and the primary
  slot hold a value (line 218).

## Model

| member | source | states |
|---|---|---|
| Layout.TierLayout | tensorflow/core/framework/embedding/multilevel_embedding.h:59-94 | Init builds one or two tiers; two exactly for DRAM_PMEM and DRAM_LEVELDB, and then tier 0 is the DRAM hash map on the default allocator; every kind other than the PMEM and LEVELDB ones starts with that DRAM tier |
| Layout.DiskTier | tensorflow/core/framework/embedding/multilevel_embedding.h:117-121 | the tier told the total dims is the LevelDB tier: index 0 for LEVELDB, 1 for DRAM_LEVELDB, none otherwise; it is always the one LevelDB tier of the layout |
| Layout.AlignedLenCases | tensorflow/core/framework/embedding/multilevel_embedding.h:113 | for every scalar width, the padded length holds the value, spans whole 16-byte units, pads by less than one unit, and is no longer than any other aligned length that holds the value |
| Layout.AlignedLenIsAligned | tensorflow/core/framework/embedding/multilevel_embedding.h:112-113 | the slot length is at least the value length, its byte size is a multiple of 16, and the padding is less than 16 bytes |
| Layout.AlignedLenIsLeast | tensorflow/core/framework/embedding/multilevel_embedding.h:113 | the slot length is the least aligned length holding the value, so an aligned length is kept unchanged |
| Layout.AlignedLenExamples | tensorflow/core/framework/embedding/multilevel_embedding.h:113 | 3 four-byte scalars pad to 4, 4 stay 4, and 5 eight-byte scalars pad to 6 |
| Layout.SlotLayout | tensorflow/core/framework/embedding/multilevel_embedding.h:113-116 | with the padded slot length every slot starts 16-byte aligned, holds the value before the next slot starts, and the last slot ends inside the slab of `alloc_len * slot_num` scalars |
| Layout.AlignedOffset | tensorflow/core/framework/embedding/multilevel_embedding.h:135-137 | a slot offset `alloc_len * index` is 16-byte aligned whenever the slot length is |
| Layout.CacheCapacityIsFloor | tensorflow/core/framework/embedding/multilevel_embedding.h:123 | the capacity is `sizeof(V)` times the number of whole slab widths in the 2^30 budget: `c*d <= B*s < c*d + d*s` |
| Tiers.FirstHit | tensorflow/core/framework/embedding/multilevel_embedding.h:157-164 | the lookup stops at the first tier holding the key; no earlier tier holds it, and none is found only when no tier holds it |
| Tiers.RemoveAll | tensorflow/core/framework/embedding/multilevel_embedding.h:184-189 | after Remove no tier holds the key, and every other key of every tier keeps its entry |
| Tiers.RemoveAllIdempotent | tensorflow/core/framework/embedding/multilevel_embedding.h:184-189 | removing a key twice is the same as removing it once |
| Tiers.RemoveAllKeepsLive | tensorflow/core/framework/embedding/multilevel_embedding.h:184-189 | Remove leaves every remaining entry pointing at a live slab |
| Tiers.RemoveAllSize | tensorflow/core/framework/embedding/multilevel_embedding.h:184-197 | Remove lowers Size() by the number of tiers that held the key |
| Tiers.EnumerateTier | tensorflow/core/framework/embedding/multilevel_embedding.h:202 | a backend snapshot lists each entry of the tier exactly once, each key with its slab |
| Tiers.CommitAllEffect | tensorflow/core/framework/embedding/multilevel_embedding.h:305-310 | after a batch commit each listed key maps to the slab of its last occurrence in the batch, and every unlisted key keeps its entry |
| Tiers.CommitAllRefs | tensorflow/core/framework/embedding/multilevel_embedding.h:305-310 | a batch commit refers only to slabs the tier or the batch referred to |
| Lookup.GetOrCreateResolvesKey | tensorflow/core/framework/embedding/multilevel_embedding.h:155-182 | on every path tier 0 ends up mapping the key to the returned slab, which is live; lower tiers and other tier-0 keys keep their entries; no existing slab is destroyed or changed; at most the fresh handle is added; every entry stays live |
| Lookup.GetOrCreateFastPath | tensorflow/core/framework/embedding/multilevel_embedding.h:158-164 | a key already in tier 0 is returned with nothing changed |
| Lookup.GetOrCreatePromotes | tensorflow/core/framework/embedding/multilevel_embedding.h:158-172 | a key found first in a lower tier is inserted into tier 0 with the same slab, the lower tier keeps it and nothing is allocated |
| Lookup.GetOrCreateAllocates | tensorflow/core/framework/embedding/multilevel_embedding.h:165-172 | a key in no tier gets exactly one fresh slab from tier 0's allocator, inserted into tier 0 |
| Lookup.GetOrCreateLosesRace | tensorflow/core/framework/embedding/multilevel_embedding.h:173-178 | an insert that loses the race destroys the slab it just allocated and returns the winner's slab |
| Lookup.GetOrCreateAsWrittenFreesPromotedSlab | tensorflow/core/framework/embedding/multilevel_embedding.h:168-179 | as written, a lost promotion race destroys a slab that both tiers and the caller's result still use |
| Eviction.BatchSize | tensorflow/core/framework/embedding/multilevel_embedding.h:348-352 | a round asks for nothing while the cache is within capacity; otherwise for at least one key and at most 1000, never taking the count below capacity, and bringing it to capacity unless capped at 1000 |
| Eviction.EvictAllEffect | tensorflow/core/framework/embedding/multilevel_embedding.h:355-363 | after a round no candidate is in tier 0; each candidate that was in tier 0 is in tier 1 with its tier-0 slab; every other entry of both tiers is unchanged |
| Eviction.EvictAllKeepsKeys | tensorflow/core/framework/embedding/multilevel_embedding.h:355-363 | a round loses no key from the two tiers together and refers to no new slab |
| Shrink.StalenessStamps | tensorflow/core/framework/embedding/multilevel_embedding.h:273-277 | a staleness scan stamps every unset step with the global step, keeps set steps and touches no other slab; a slab two entries share is stamped once |
| Shrink.StalenessPrunes | tensorflow/core/framework/embedding/multilevel_embedding.h:273-281 | a staleness scan picks an entry exactly when its step, as the scan started, is set and `gs - step > steps_to_live` (for a negative `steps_to_live` only when the entries' slabs are distinct) |
| Shrink.WeightRule | tensorflow/core/framework/embedding/multilevel_embedding.h:243-254 | a weight scan picks an entry exactly when its primary slot holds a value of low L2 weight, and changes no slab |
| Shrink.ScanRule | tensorflow/core/framework/embedding/multilevel_embedding.h:243-282 | under either policy (a staleness horizon not negative) a scan touches exactly the enumerated slabs and picks exactly the entries whose slab is doomed |
| Shrink.ScanOfTier | tensorflow/core/framework/embedding/multilevel_embedding.h:268-282 | the scan of a tier's snapshot picks the keys of that tier whose slab is doomed, and exactly its doomed slabs |
| Shrink.PruneKeepsLive | tensorflow/core/framework/embedding/multilevel_embedding.h:256-261 | the removal phase removes exactly the victims' keys from the scanned tier, leaves the other tiers alone, destroys exactly the victim slabs no tier refers to any more, and keeps every entry live |
| Shrink.TierPass | tensorflow/core/framework/embedding/multilevel_embedding.h:268-289 | one tier's pass keeps the tier count, keeps every entry live and leaves the other tiers unchanged |
| Shrink.TierPassEffect | tensorflow/core/framework/embedding/multilevel_embedding.h:268-289 | one tier's pass removes exactly the tier's keys whose slab is doomed and keeps the others with their slab; it destroys a slab exactly when the tier referred to it, it is doomed and no tier still does; the tier's remaining slabs are stamped (staleness) and every other slab is unchanged |
| Shrink.ShrinkTiers | tensorflow/core/framework/embedding/multilevel_embedding.h:266-291 | the passes over the tiers keep the tier count and every entry live, and leave tiers not yet passed unchanged |
| Shrink.ShrinkTiersEffect | tensorflow/core/framework/embedding/multilevel_embedding.h:266-291 | after the passes over the first n tiers, each of them has lost exactly its keys whose slab was doomed at the start, the rest keep their slab, and the heap is as `Swept` describes |
| Shrink.SweptAll | tensorflow/core/framework/embedding/multilevel_embedding.h:266-291 | after a pass over every tier a slab is gone exactly when some tier referred to it and it was doomed, and each remaining slab some tier referred to is stamped |
| Shrink.ShrinkAsWrittenFreesSharedSlab | tensorflow/core/framework/embedding/multilevel_embedding.h:283-288 | as written, pruning a stale slab shared by tier 0 and tier 1 destroys it while tier 1 still refers to it |
| Checkpoint.FlatSnapshotComplete | tensorflow/core/framework/embedding/multilevel_embedding.h:199-205 | the plain snapshot lists exactly Size() entries, each an entry of some tier, and misses no key of any tier |
| Checkpoint.DumpTierPairs | tensorflow/core/framework/embedding/multilevel_embedding.h:215-221 | each row one tier's dump adds pairs a snapshot key with that key's own slab, and earlier rows are kept |
| Checkpoint.DumpTierRows | tensorflow/core/framework/embedding/multilevel_embedding.h:215-229 | one tier's dump appends at most one row per entry; each row is an eligible live slab's key, the address of its exported slot at `alloc_len * emb_index`, and its step and frequency when kept; earlier rows are kept |
| Checkpoint.DumpTierMembers | tensorflow/core/framework/embedding/multilevel_embedding.h:215-220 | the keys one tier's dump adds are exactly the enumerated keys whose slab holds both the exported and the primary embedding |
| Checkpoint.DumpTierExports | tensorflow/core/framework/embedding/multilevel_embedding.h:211-220 | the keys one tier's dump adds are exactly that tier's keys with an eligible live slab |
| Checkpoint.DumpTiersRows | tensorflow/core/framework/embedding/multilevel_embedding.h:207-234 | the dump of all tiers has well-formed rows, with versions and frequencies present exactly when the configuration asks, and no more rows than Size() |
| Checkpoint.DumpTiersPairs | tensorflow/core/framework/embedding/multilevel_embedding.h:207-234 | every row of the dump of all tiers pairs a key with the slab some tier maps that key to |
| Checkpoint.WrittenIsExported | tensorflow/core/framework/embedding/multilevel_embedding.h:216-218 | once a key's slab holds both the exported and the primary embedding, the dump lists that key |
| Checkpoint.DumpTierKeys | tensorflow/core/framework/embedding/multilevel_embedding.h:214-221 | a tier's dump appends exactly the snapshot keys whose slab holds both embeddings, each once and in snapshot order |
| Checkpoint.DumpTiersKeys | tensorflow/core/framework/embedding/multilevel_embedding.h:211-221 | the dump of all tiers appends those keys tier after tier |
| Checkpoint.EligibleKeysCount | tensorflow/core/framework/embedding/multilevel_embedding.h:214-221 | a tier's dump adds as many rows as the tier has keys with an exported live slab |
| Checkpoint.DumpTiersCount | tensorflow/core/framework/embedding/multilevel_embedding.h:207-233 | the key list grows by exactly the number of exported tier entries, a key held by two tiers counting twice |
| Checkpoint.DumpTiersFilter | tensorflow/core/framework/embedding/multilevel_embedding.h:207-234 | the dump holds a key exactly when some tier holds it with a slab having both the exported and the primary embedding |
| Manager.ScanEntries | tensorflow/core/framework/embedding/multilevel_embedding.h:273-282 | the scan loop computes the stamped heap and the victim list of the scan specification |
| Manager.DumpEntries | tensorflow/core/framework/embedding/multilevel_embedding.h:215-231 | the dump loop computes the dump specification of one tier |
| Manager.RemoveVictims | tensorflow/core/framework/embedding/multilevel_embedding.h:256-261 | the removal loops compute the corrected removal phase |
| Manager.LookupOrCreate | tensorflow/core/framework/embedding/multilevel_embedding.h:155-182 | the lookup loop and the insert compute the corrected GetOrCreate specification |
| Manager.ShrinkPasses | tensorflow/core/framework/embedding/multilevel_embedding.h:266-291 | the pass loop enumerates every tier and computes ShrinkTiers on those enumerations, keeping every entry live and creating no slab |
| Manager.DestroyTier | tensorflow/core/framework/embedding/multilevel_embedding.h:297-301 | the loop destroys exactly the slabs tier 0 refers to |
| Manager.StorageManager.constructor | tensorflow/core/framework/embedding/multilevel_embedding.h:34-44 | a new manager has no tier, zero lengths and the given cache capacity |
| Manager.StorageManager.Init | tensorflow/core/framework/embedding/multilevel_embedding.h:59-108 | appends the configuration's tiers, starts the background machinery with more than one tier, and is fatal with more than two; on a fresh manager the tiers are the layout and the status is OK |
| Manager.StorageManager.SetAllocLen | tensorflow/core/framework/embedding/multilevel_embedding.h:110-129 | the slot length is the aligned length on every call; the first call that finds no total dims fixes them, tells the LevelDB tier and, with two tiers, sets the cache capacity and `done`; later calls leave those unchanged |
| Manager.StorageManager.GetAllocLen | tensorflow/core/framework/embedding/multilevel_embedding.h:131-133 | the slot length is 16-byte aligned |
| Manager.StorageManager.GetOffset | tensorflow/core/framework/embedding/multilevel_embedding.h:135-137 | every slot offset is 16-byte aligned and one slot length past the previous one |
| Manager.StorageManager.GetTotalDims | tensorflow/core/framework/embedding/multilevel_embedding.h:139-141 | the slab width is 16-byte aligned |
| Manager.StorageManager.Schedule | tensorflow/core/framework/embedding/multilevel_embedding.h:149-153 | a multi-tier manager hands the task to its pool; a one-tier manager changes nothing |
| Manager.StorageManager.GetOrCreate | tensorflow/core/framework/embedding/multilevel_embedding.h:155-182 | the new tiers, heap and handle are those of the corrected GetOrCreate, tier 0 maps the key to the returned live slab, and the manager stays consistent |
| Manager.StorageManager.UpdateSlab | tensorflow/core/framework/embedding/multilevel_embedding.h:155 | a write through a slab GetOrCreate handed out changes that slab's values and step only; the tiers and every other slab are unchanged and the manager stays valid |
| Manager.StorageManager.Remove | tensorflow/core/framework/embedding/multilevel_embedding.h:184-189 | the key is removed from every tier, and nothing else changes |
| Manager.StorageManager.Size | tensorflow/core/framework/embedding/multilevel_embedding.h:191-197 | returns the sum of the tier sizes |
| Manager.StorageManager.GetSnapshot | tensorflow/core/framework/embedding/multilevel_embedding.h:199-205 | appends each tier's enumeration, tier after tier, to the given lists |
| Manager.StorageManager.GetSnapshotDump | tensorflow/core/framework/embedding/multilevel_embedding.h:207-234 | appends the filtered dump of every tier's enumeration: the keys with both embeddings, tier after tier and in snapshot order, each entry once; returns the new length of the key list, which is the old length plus the number of exported entries; into empty lists, every row is a tier's key with its own slab, well formed, and the keys are exactly those with a slab holding both embeddings |
| Manager.StorageManager.ShrinkWith | tensorflow/core/framework/embedding/multilevel_embedding.h:236-291 | the tiers and heap become ShrinkTiers over each tier's enumeration; no slab is created, the manager stays consistent, and under a steady policy every tier is swept |
| Manager.StorageManager.ShrinkByWeight | tensorflow/core/framework/embedding/multilevel_embedding.h:236-264 | each tier loses exactly its keys whose slab has a primary embedding of low weight; such a slab is destroyed when a tier referred to it, and every other slab is kept unchanged |
| Manager.StorageManager.ShrinkByStaleness | tensorflow/core/framework/embedding/multilevel_embedding.h:266-291 | for `steps_to_live >= 0`, each tier loses exactly its keys whose slab is stale; a stale slab a tier referred to is destroyed; every other slab a tier referred to has its unset step stamped with `gs` |
| Manager.StorageManager.Destroy | tensorflow/core/framework/embedding/multilevel_embedding.h:293-303 | every slab tier 0 refers to is destroyed, and nothing else changes |
| Manager.StorageManager.BatchCommit | tensorflow/core/framework/embedding/multilevel_embedding.h:305-310 | every tier's backend commits the whole batch; the manager stays consistent |
| Manager.StorageManager.Commit | tensorflow/core/framework/embedding/multilevel_embedding.h:316-319 | tier 0 maps the key to the given slab; other tiers are unchanged |
| Manager.StorageManager.EvictionRound | tensorflow/core/framework/embedding/multilevel_embedding.h:341-364 | one round takes BatchSize of the coldest cache keys and moves those still in tier 0 to tier 1; nothing else changes and the manager stays consistent |

## Left out

- Threads and locks are not modelled: the spin flag in SetAllocLen, `mu_`, the eviction thread, the thread pool's execution and the shutdown condition variable. Every operation runs atomically. Only GetOrCreate's insert race is modelled, through its `racer` parameter.
- Logging (`VLOG`, `LOG`) and `DebugString` are left out.
- `FreeValuePtr` is left out, because it only forwards to the backends. `Cache()` is left out, because it only returns the cache.
- The destructor is left out: thread shutdown and deleting the backends are memory management.
- Manager.StorageManager.EvictionRound: models one iteration of the BatchEviction loop only. The initial wait for `done_` and the timed wait are left out. The LRU cache is outside the model: its contents, coldest first, are a parameter, and the removal of the taken ids from the cache is not modelled.
- Manager.StorageManager.ShrinkByWeight: the L2-weight computation in floating point (lines 246-251) is abstracted as the predicate `lowWeight`. The `value_len` argument only feeds that computation, so it is not a parameter.
- `new_value_ptr_fn_` is fixed: every allocation creates a `NormalContiguousValuePtr`, modelled as `NewSlab`.
- Backends are modelled as maps from keys to slab handles: every backend keeps the pointer it is given and returns it from Lookup and GetSnapshot, as the lock-free hash maps of DRAM and PMEM do. The LevelDB backend serialises values and returns a fresh copy; that is not modelled. With a DRAM_LEVELDB layout the race destroy in GetOrCreate frees only the caller's copy, so the first finding needs a tier 1 that keeps pointers (DRAM_PMEM), and the corrected GetOrCreate, which keeps that copy, would leak it there.
- Manager.StorageManager.UpdateSlab: stands for the writes callers make through a `ValuePtr` (setting embedding values and the step). A slab's byte layout, one buffer with each slot at `alloc_len * index`, is abstracted to a map from slot index to values. The scalar type `V` is an integer (`Slabs.Scalar`). The frequency and other header fields are not stored; the dump takes frequencies as the parameter `freqOf`.
- Integers are unbounded. The `int64` / `int` overflow of `alloc_len_ * slot_num`, of `gs - version` and of the size sum is not modelled. Lengths and counts are `nat`, so negative `value_len`, `slot_num` or sizes cannot be expressed.
- The unbounded cache capacity `size_t(-1)` is the constant `Manager.Unbounded`.
- Manager.StorageManager.Destroy: does not re-establish `Valid()`, because tier 0 still lists the destroyed slabs, as in the source. After Destroy the manager is only fit for deletion.
- Manager.StorageManager.Remove: does not free the removed slabs, as in the source (the backends' `Remove` only drops the entry).
- Manager.StorageManager.GetSnapshot and Manager.StorageManager.GetSnapshotDump: `TF_CHECK_OK` on the backend snapshot never fails here, because the modelled backends always enumerate.
- Manager.StorageManager.SetAllocLen: requires a LevelDB tier to exist before the first width is fixed, and a nonzero width for a two-tier manager. The source would index past `kvs_` or divide by zero there.
- Manager.StorageManager.GetOrCreate: runs the corrected race handling (see Findings), not the as-written one.
- Manager.StorageManager.ShrinkWith: runs the corrected removal phase (see Findings), not the as-written one.
- Manager.StorageManager.ShrinkByStaleness: states which keys and slabs go, and which steps are stamped, only for `steps_to_live >= 0`. With a negative `steps_to_live`, a slab stamped earlier in the same pass (shared by two keys of one tier, or a promoted key left in tier 1) is judged by its new step and can be pruned although it was unset at the start; the model computes that case (ShrinkTiers) but proves no summary of it.

## Findings

| source | as written | input that shows it | evidently intended | confidence | as-written member | corrected member |
|---|---|---|---|---|---|---|
| tensorflow/core/framework/embedding/multilevel_embedding.h:168-179 | after an insert into tier 0 fails, the slab in `*value_ptr` is destroyed and deleted even when it was found in a lower tier rather than just allocated; with a tier 1 that keeps pointers (DRAM_PMEM) that slab is shared | tiers `[{}, {7: s0}]`; two callers both find key 7 in tier 1; the winner inserts `s0` into tier 0; the loser's insert fails, so it destroys `s0`, which tier 0, tier 1 and the caller's result still use | destroy the slab only when this call allocated it | not executed | Lookup.GetOrCreateAsWrittenFreesPromotedSlab | Lookup.GetOrCreateResolvesKey |
| tensorflow/core/framework/embedding/multilevel_embedding.h:256-288 | in both Shrink overloads (the removal loops at lines 256-261 and 283-288) each victim's slab is destroyed as soon as its key leaves the scanned tier, even though promotion leaves the same slab in the other tier when tier 1 keeps pointers (DRAM_PMEM) | tiers `[{7: s0}, {7: s0}]` (key 7 promoted and left in tier 1); `s0` has step 5; `Shrink(100, 10)` prunes key 7 from tier 0 and destroys `s0`, and tier 1's pass then reads the destroyed slab | destroy a victim slab only when no tier refers to it any more | not executed | Shrink.ShrinkAsWrittenFreesSharedSlab | Shrink.PruneKeepsLive |
