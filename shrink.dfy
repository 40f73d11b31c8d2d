/** The two Shrink passes. Each tier in turn is enumerated; a scan of the
    enumeration stamps unset steps and picks victims; then the victims'
    keys leave that tier and their slabs are destroyed. */
module Shrink {
  import opened Slabs
  import opened Tiers

  /** What a pass prunes: slabs whose step lags the global step `gs` by
      more than `stepsToLive`, or slabs whose value at `primary` has an L2
      weight under the threshold (`lowWeight` decides that for a slab). */
  datatype Policy =
    | Staleness(gs: int, stepsToLive: int)
    | Weight(primary: nat, lowWeight: Slab -> bool)

  /** A tier entry chosen for deletion. */
  datatype Victim = Victim(key: Key, slab: SlabId)

  /** Heap after a scan, and the victims it chose in scan order. */
  datatype Scan = Scan(heap: Heap, victims: seq<Victim>)

  /** A slab whose step is set and lags `gs` by more than `stepsToLive`. */
  predicate Stale(s: Slab, gs: int, stepsToLive: int) {
    s.step != UnsetStep && gs - s.step > stepsToLive
  }

  /** The scan's step for one entry. A staleness pass stamps an unset step
      with `gs` and keeps the entry; otherwise it prunes when `gs - step`
      exceeds the horizon. A weight pass prunes when the primary slot holds
      a value of low weight. */
  function ScanEntry(heap: Heap, key: Key, id: SlabId, policy: Policy): (r: Scan)
    requires id in heap
    ensures r.heap.Keys == heap.Keys
  {
    var s := heap[id];
    match policy
    case Staleness(gs, stepsToLive) =>
      if s.step == UnsetStep then Scan(heap[id := s.(step := gs)], [])
      else if Stale(s, gs, stepsToLive) then Scan(heap, [Victim(key, id)])
      else Scan(heap, [])
    case Weight(primary, lowWeight) =>
      if primary in s.slots && lowWeight(s) then Scan(heap, [Victim(key, id)])
      else Scan(heap, [])
  }

  /** The scan of one tier's enumeration, in order. */
  function ScanTier(heap: Heap, keys: seq<Key>, ids: seq<SlabId>, policy: Policy): (r: Scan)
    requires |keys| == |ids| && forall j :: 0 <= j < |ids| ==> ids[j] in heap
    ensures r.heap.Keys == heap.Keys
  {
    if |keys| == 0 then Scan(heap, [])
    else
      var n := |keys| - 1;
      var p := ScanTier(heap, keys[..n], ids[..n], policy);
      var e := ScanEntry(p.heap, keys[n], ids[n], policy);
      Scan(e.heap, p.victims + e.victims)
  }

  /** A staleness scan's effect on one slab: an unset step becomes `gs`. */
  function Stamped(s: Slab, gs: int): Slab {
    if s.step == UnsetStep then s.(step := gs) else s
  }

  /** Staleness rule for steps: an unset step becomes `gs`, a set step is
      kept, nothing else of a slab changes, and slabs outside the tier are
      untouched. A slab that two entries share is stamped once. */
  lemma {:induction false} StalenessStamps(heap: Heap, keys: seq<Key>, ids: seq<SlabId>,
                                          gs: int, stepsToLive: int)
    requires |keys| == |ids| && forall j :: 0 <= j < |ids| ==> ids[j] in heap
    ensures var r := ScanTier(heap, keys, ids, Staleness(gs, stepsToLive));
      && (forall id :: id in heap && id !in ids ==> r.heap[id] == heap[id])
      && (forall j :: 0 <= j < |ids| ==> r.heap[ids[j]] == Stamped(heap[ids[j]], gs))
  {
    var policy := Staleness(gs, stepsToLive);
    if |keys| > 0 {
      var n := |keys| - 1;
      var pk, pi := keys[..n], ids[..n];
      StalenessStamps(heap, pk, pi, gs, stepsToLive);
      var p := ScanTier(heap, pk, pi, policy);
      var r := ScanTier(heap, keys, ids, policy);
      var s := heap[ids[n]];
      if ids[n] in pi {
        var j :| 0 <= j < n && pi[j] == ids[n];
        assert p.heap[ids[n]] == Stamped(s, gs);
      } else {
        assert p.heap[ids[n]] == s;
      }
      assert r.heap == ScanEntry(p.heap, keys[n], ids[n], policy).heap;
      assert r.heap == p.heap[ids[n] := Stamped(s, gs)];
      forall id | id in heap && id !in ids ensures r.heap[id] == heap[id] {
        assert id !in pi;
      }
      forall j | 0 <= j < |ids| ensures r.heap[ids[j]] == Stamped(heap[ids[j]], gs) {
        if j < n {
          assert pi[j] == ids[j];
        }
      }
    }
  }

  /** The scan reaches the last entry's slab as stale as it started: it
      is either untouched or stamped earlier in the pass, and a horizon that
      is not negative does not prune a freshly stamped step. */
  lemma StaleBeforeLast(heap: Heap, keys: seq<Key>, ids: seq<SlabId>, gs: int, stepsToLive: int)
    requires |keys| == |ids| > 0 && forall j :: 0 <= j < |ids| ==> ids[j] in heap
    requires stepsToLive >= 0 || forall j, l :: 0 <= j < l < |ids| ==> ids[j] != ids[l]
    ensures var n := |keys| - 1;
      var p := ScanTier(heap, keys[..n], ids[..n], Staleness(gs, stepsToLive));
      Stale(p.heap[ids[n]], gs, stepsToLive) == Stale(heap[ids[n]], gs, stepsToLive)
  {
    var n := |keys| - 1;
    StalenessStamps(heap, keys[..n], ids[..n], gs, stepsToLive);
    var p := ScanTier(heap, keys[..n], ids[..n], Staleness(gs, stepsToLive));
    if ids[n] in ids[..n] {
      var j :| 0 <= j < n && ids[..n][j] == ids[n];
      if stepsToLive < 0 {
        assert false;
      }
      assert p.heap[ids[n]] == Stamped(heap[ids[n]], gs);
    } else {
      var id := ids[n];
      assert id in heap && id !in ids[..n];
      assert p.heap[id] == heap[id];
    }
  }

  /** Staleness rule for pruning: an entry is pruned exactly when its step
      is set and `gs - step > stepsToLive`. A horizon that is not negative
      never prunes a step the pass itself stamped; a negative one would, so
      it needs entries with distinct slabs. */
  lemma {:induction false} StalenessPrunes(heap: Heap, keys: seq<Key>, ids: seq<SlabId>,
                                          gs: int, stepsToLive: int)
    requires |keys| == |ids| && forall j :: 0 <= j < |ids| ==> ids[j] in heap
    requires stepsToLive >= 0 || forall j, l :: 0 <= j < l < |ids| ==> ids[j] != ids[l]
    ensures var r := ScanTier(heap, keys, ids, Staleness(gs, stepsToLive));
      forall v :: v in r.victims <==>
        exists j :: 0 <= j < |ids| && v == Victim(keys[j], ids[j]) && Stale(heap[ids[j]], gs, stepsToLive)
  {
    var policy := Staleness(gs, stepsToLive);
    if |keys| > 0 {
      var n := |keys| - 1;
      StalenessPrunes(heap, keys[..n], ids[..n], gs, stepsToLive);
      var p := ScanTier(heap, keys[..n], ids[..n], policy);
      var stale := Stale(heap[ids[n]], gs, stepsToLive);
      StaleBeforeLast(heap, keys, ids, gs, stepsToLive);
      var r := ScanTier(heap, keys, ids, policy);
      assert r.victims == p.victims + if stale then [Victim(keys[n], ids[n])] else [];
      forall v ensures v in r.victims <==>
        exists j :: 0 <= j < |ids| && v == Victim(keys[j], ids[j]) && Stale(heap[ids[j]], gs, stepsToLive)
      {
        if exists j :: 0 <= j < |ids| && v == Victim(keys[j], ids[j]) && Stale(heap[ids[j]], gs, stepsToLive) {
          var j :| 0 <= j < |ids| && v == Victim(keys[j], ids[j]) && Stale(heap[ids[j]], gs, stepsToLive);
          if j < n {
            assert keys[..n][j] == keys[j] && ids[..n][j] == ids[j];
          }
        }
      }
    }
  }

  /** Weight rule: an entry is pruned exactly when its primary slot holds a
      value of low weight; the heap is not touched. */
  lemma {:induction false} WeightRule(heap: Heap, keys: seq<Key>, ids: seq<SlabId>,
                                     primary: nat, lowWeight: Slab -> bool)
    requires |keys| == |ids| && forall j :: 0 <= j < |ids| ==> ids[j] in heap
    ensures var r := ScanTier(heap, keys, ids, Weight(primary, lowWeight));
      && r.heap == heap
      && (forall v :: v in r.victims <==>
            exists j :: 0 <= j < |ids| && v == Victim(keys[j], ids[j]) &&
              primary in heap[ids[j]].slots && lowWeight(heap[ids[j]]))
  {
    var policy := Weight(primary, lowWeight);
    if |keys| > 0 {
      var n := |keys| - 1;
      WeightRule(heap, keys[..n], ids[..n], primary, lowWeight);
      var p := ScanTier(heap, keys[..n], ids[..n], policy);
      var r := ScanTier(heap, keys, ids, policy);
      forall v ensures v in r.victims <==>
        exists j :: 0 <= j < |ids| && v == Victim(keys[j], ids[j]) &&
          primary in heap[ids[j]].slots && lowWeight(heap[ids[j]])
      {
        if v in r.victims && v !in p.victims {
          assert v == Victim(keys[n], ids[n]);
        }
        if exists j :: 0 <= j < |ids| && v == Victim(keys[j], ids[j]) &&
             primary in heap[ids[j]].slots && lowWeight(heap[ids[j]])
        {
          var j :| 0 <= j < |ids| && v == Victim(keys[j], ids[j]) &&
            primary in heap[ids[j]].slots && lowWeight(heap[ids[j]]);
          if j < n {
            assert keys[..n][j] == keys[j] && ids[..n][j] == ids[j];
          }
        }
      }
    }
  }

  /** The slabs `policy` prunes, judged on the slab as the pass found it. */
  predicate Doomed(s: Slab, policy: Policy) {
    match policy
    case Staleness(gs, stepsToLive) => Stale(s, gs, stepsToLive)
    case Weight(primary, lowWeight) => primary in s.slots && lowWeight(s)
  }

  /** A slab once `policy`'s scan has passed it. */
  function Touched(s: Slab, policy: Policy): Slab {
    match policy
    case Staleness(gs, _) => Stamped(s, gs)
    case Weight(_, _) => s
  }

  /** A policy for which the scan's own stamping never decides a prune: a
      weight threshold, or a staleness horizon that is not negative. */
  predicate Steady(policy: Policy) {
    policy.Staleness? ==> policy.stepsToLive >= 0
  }

  /** Under a steady policy a touched slab is doomed exactly when it was
      before, and touching it again changes nothing. */
  lemma TouchedKeepsFate(s: Slab, policy: Policy)
    requires Steady(policy)
    ensures Doomed(Touched(s, policy), policy) == Doomed(s, policy)
    ensures Touched(Touched(s, policy), policy) == Touched(s, policy)
  {
  }

  /** Both policies' rules in one: the scan touches exactly the tier's
      slabs, and picks exactly the entries whose slab is doomed. */
  lemma ScanRule(heap: Heap, keys: seq<Key>, ids: seq<SlabId>, policy: Policy)
    requires |keys| == |ids| && forall j :: 0 <= j < |ids| ==> ids[j] in heap
    requires Steady(policy)
    ensures var r := ScanTier(heap, keys, ids, policy);
      && (forall id :: id in heap ==> r.heap[id] == if id in ids then Touched(heap[id], policy) else heap[id])
      && (forall v :: v in r.victims <==>
            exists j :: 0 <= j < |ids| && v == Victim(keys[j], ids[j]) && Doomed(heap[ids[j]], policy))
  {
    match policy
    case Staleness(gs, stepsToLive) =>
      StalenessStamps(heap, keys, ids, gs, stepsToLive);
      StalenessPrunes(heap, keys, ids, gs, stepsToLive);
      var r := ScanTier(heap, keys, ids, policy);
      forall id | id in heap && id in ids ensures r.heap[id] == Touched(heap[id], policy) {
        var j :| 0 <= j < |ids| && ids[j] == id;
      }
    case Weight(primary, lowWeight) =>
      WeightRule(heap, keys, ids, primary, lowWeight);
  }

  function VictimKeys(vs: seq<Victim>): set<Key> {
    set v | v in vs :: v.key
  }

  function VictimSlabs(vs: seq<Victim>): set<SlabId> {
    set v | v in vs :: v.slab
  }

  /** Removal phase as the source writes it: every victim's slab is
      destroyed and its key removed from tier `i`. */
  function PruneAsWritten(tiers: seq<Tier>, i: nat, heap: Heap, vs: seq<Victim>): (seq<Tier>, Heap)
    requires i < |tiers|
  {
    (tiers[i := tiers[i] - VictimKeys(vs)], heap - VictimSlabs(vs))
  }

  /** Removal phase the manager runs: victims' keys leave tier `i`, and a
      victim's slab is destroyed only when no tier refers to it any more. */
  function Prune(tiers: seq<Tier>, i: nat, heap: Heap, vs: seq<Victim>): (seq<Tier>, Heap)
    requires i < |tiers|
  {
    var t := tiers[i := tiers[i] - VictimKeys(vs)];
    (t, heap - (VictimSlabs(vs) - Referenced(t)))
  }

  /** The removal phase keeps every tier entry pointing at a live slab,
      removes exactly the victims' keys from tier `i`, and destroys exactly
      the victim slabs no tier refers to any more. */
  lemma PruneKeepsLive(tiers: seq<Tier>, i: nat, heap: Heap, vs: seq<Victim>)
    requires i < |tiers| && Live(tiers, heap)
    ensures var r := Prune(tiers, i, heap, vs);
      && Live(r.0, r.1)
      && |r.0| == |tiers|
      && (forall j :: 0 <= j < |tiers| && j != i ==> r.0[j] == tiers[j])
      && (forall k :: k in r.0[i] <==> k in tiers[i] && k !in VictimKeys(vs))
      && (forall id :: id in heap && id !in VictimSlabs(vs) ==> id in r.1 && r.1[id] == heap[id])
      && (forall id :: id in VictimSlabs(vs) ==> (id in r.1 <==> id in heap && id in Referenced(r.0)))
      && r.1.Keys <= heap.Keys
  {
    var r := Prune(tiers, i, heap, vs);
    forall id | id in Referenced(r.0) ensures id in r.1 {
      var j :| 0 <= j < |r.0| && id in r.0[j].Values;
      var k := KeyOf(r.0[j], id);
      assert id in tiers[j].Values;
    }
  }

  /** One tier's pass: scan its enumeration, then prune. */
  function TierPass(tiers: seq<Tier>, heap: Heap, i: nat, snap: Snapshot, policy: Policy): (r: (seq<Tier>, Heap))
    requires i < |tiers| && Live(tiers, heap) && IsEnumeration(snap.keys, snap.ids, tiers[i])
    ensures |r.0| == |tiers| && Live(r.0, r.1)
    ensures forall j :: 0 <= j < |tiers| && j != i ==> r.0[j] == tiers[j]
  {
    assert forall j :: 0 <= j < |snap.ids| ==> snap.ids[j] in tiers[i].Values;
    var s := ScanTier(heap, snap.keys, snap.ids, policy);
    PruneKeepsLive(tiers, i, s.heap, s.victims);
    Prune(tiers, i, s.heap, s.victims)
  }

  /** The scan of a whole tier `m`, read through the tier instead of its
      enumeration: the victims' keys are the keys of doomed slabs, the
      victims' slabs are the doomed slabs of `m`, and the slabs of `m` are
      touched. */
  lemma ScanOfTier(heap: Heap, m: Tier, keys: seq<Key>, ids: seq<SlabId>, policy: Policy)
    requires IsEnumeration(keys, ids, m) && m.Values <= heap.Keys && Steady(policy)
    ensures forall j :: 0 <= j < |ids| ==> ids[j] in heap
    ensures var s := ScanTier(heap, keys, ids, policy);
      && (forall k :: k in VictimKeys(s.victims) <==> k in m && Doomed(heap[m[k]], policy))
      && (forall id :: id in VictimSlabs(s.victims) <==> id in m.Values && Doomed(heap[id], policy))
      && (forall id :: id in heap ==> s.heap[id] == if id in m.Values then Touched(heap[id], policy) else heap[id])
  {
    assert forall j :: 0 <= j < |ids| ==> ids[j] in m.Values;
    var s := ScanTier(heap, keys, ids, policy);
    ScanRule(heap, keys, ids, policy);
    forall id ensures id in ids <==> id in m.Values {
      if id in m.Values {
        var k := KeyOf(m, id);
        var j :| 0 <= j < |keys| && keys[j] == k;
      }
    }
    forall k ensures k in VictimKeys(s.victims) <==> k in m && Doomed(heap[m[k]], policy) {
      if k in m && Doomed(heap[m[k]], policy) {
        var j :| 0 <= j < |keys| && keys[j] == k;
        assert Victim(keys[j], ids[j]) in s.victims;
      }
    }
    forall id ensures id in VictimSlabs(s.victims) <==> id in m.Values && Doomed(heap[id], policy) {
      if id in m.Values && Doomed(heap[id], policy) {
        var k := KeyOf(m, id);
        var j :| 0 <= j < |keys| && keys[j] == k;
        assert Victim(keys[j], ids[j]) in s.victims;
      }
    }
  }

  /** What one tier's pass does under a steady policy: tier `i` loses
      exactly its entries whose slab is doomed, and keeps the others as
      they were; a slab is destroyed exactly when tier `i` referred to it,
      it is doomed, and no tier refers to it any more; the slabs of tier
      `i` that remain are touched, and every other slab is as it was. */
  lemma TierPassEffect(tiers: seq<Tier>, heap: Heap, i: nat, snap: Snapshot, policy: Policy)
    requires i < |tiers| && Live(tiers, heap) && IsEnumeration(snap.keys, snap.ids, tiers[i])
    requires Steady(policy)
    ensures tiers[i].Values <= heap.Keys
    ensures var r := TierPass(tiers, heap, i, snap, policy);
      && (forall k :: k in r.0[i] <==> k in tiers[i] && !Doomed(heap[tiers[i][k]], policy))
      && (forall k :: k in r.0[i] ==> r.0[i][k] == tiers[i][k])
      && (forall id :: id in r.1 <==>
            id in heap && !(id in tiers[i].Values && Doomed(heap[id], policy) && id !in Referenced(r.0)))
      && (forall id :: id in r.1 ==>
            r.1[id] == if id in tiers[i].Values then Touched(heap[id], policy) else heap[id])
  {
    assert tiers[i].Values <= Referenced(tiers);
    ScanOfTier(heap, tiers[i], snap.keys, snap.ids, policy);
    var s := ScanTier(heap, snap.keys, snap.ids, policy);
    PruneKeepsLive(tiers, i, s.heap, s.victims);
    var r := TierPass(tiers, heap, i, snap, policy);
    assert r == Prune(tiers, i, s.heap, s.victims);
    forall k | k in tiers[i] ensures tiers[i][k] in heap {
      assert tiers[i][k] in tiers[i].Values;
    }
  }

  /** The passes over tiers 0 .. |snaps| - 1, each with its enumeration. */
  function ShrinkTiers(tiers: seq<Tier>, heap: Heap, snaps: seq<Snapshot>, policy: Policy): (r: (seq<Tier>, Heap))
    requires |snaps| <= |tiers| && Live(tiers, heap)
    requires forall i :: 0 <= i < |snaps| ==> IsEnumeration(snaps[i].keys, snaps[i].ids, tiers[i])
    ensures |r.0| == |tiers| && Live(r.0, r.1)
    ensures forall j :: |snaps| <= j < |tiers| ==> r.0[j] == tiers[j]
  {
    if |snaps| == 0 then (tiers, heap)
    else
      var n := |snaps| - 1;
      var p := ShrinkTiers(tiers, heap, snaps[..n], policy);
      TierPass(p.0, p.1, n, snaps[n], policy)
  }

  /** The tiers `t` after the passes over tiers 0 .. n - 1 under `policy`,
      starting from `tiers` and `heap`: each swept tier lost exactly its
      entries whose slab is doomed and kept the others as they were, and
      the other tiers are as they were. */
  ghost predicate SweptTiers(tiers: seq<Tier>, heap: Heap, n: nat, policy: Policy, t: seq<Tier>) {
    && n <= |tiers| == |t|
    && Live(tiers, heap)
    && (forall i :: n <= i < |tiers| ==> t[i] == tiers[i])
    && (forall i, k :: 0 <= i < n && k in t[i] ==> k in tiers[i] && t[i][k] == tiers[i][k])
    && (forall i, k :: 0 <= i < n && k in tiers[i] ==> (k in t[i] <==> !Doomed(heap[tiers[i][k]], policy)))
  }

  /** The state `t`, `h` after the passes over tiers 0 .. n - 1: the tiers
      are swept; a slab was destroyed exactly when a swept tier referred to
      it, it is doomed, and no tier refers to it any more; and a remaining
      slab is touched exactly when a swept tier referred to it. */
  ghost predicate Swept(tiers: seq<Tier>, heap: Heap, n: nat, policy: Policy, t: seq<Tier>, h: Heap) {
    && SweptTiers(tiers, heap, n, policy, t)
    && (forall id :: id in h <==>
          id in heap && !(id in Referenced(tiers[..n]) && Doomed(heap[id], policy) && id !in Referenced(t)))
    && (forall id :: id in h ==>
          h[id] == if id in Referenced(tiers[..n]) then Touched(heap[id], policy) else heap[id])
  }

  lemma ReferencedGrows(tiers: seq<Tier>, n: nat)
    requires n < |tiers|
    ensures Referenced(tiers[..n + 1]) == Referenced(tiers[..n]) + tiers[n].Values
  {
    assert tiers[..n + 1][..n] == tiers[..n];
  }

  /** Once tiers 0 .. n - 1 are swept, a doomed slab is referred to only
      through the tiers not swept yet. */
  lemma SweptRefs(tiers: seq<Tier>, heap: Heap, n: nat, policy: Policy, t: seq<Tier>, id: SlabId)
    requires SweptTiers(tiers, heap, n, policy, t) && id in heap && Doomed(heap[id], policy)
    ensures id in Referenced(t) <==> exists j :: n <= j < |tiers| && id in tiers[j].Values
  {
    forall j, k | 0 <= j < n && k in t[j] ensures t[j][k] != id {
      assert t[j][k] == tiers[j][k];
    }
    forall j | 0 <= j < n ensures id !in t[j].Values {
    }
  }

  /** Under a steady policy the slabs a partial pass left are doomed
      exactly when they were at the start. */
  lemma SweptFate(tiers: seq<Tier>, heap: Heap, n: nat, policy: Policy, t: seq<Tier>, h: Heap)
    requires Swept(tiers, heap, n, policy, t, h) && Steady(policy)
    ensures forall id :: id in h ==> id in heap && Doomed(h[id], policy) == Doomed(heap[id], policy)
  {
    forall id | id in h ensures id in heap && Doomed(h[id], policy) == Doomed(heap[id], policy) {
      TouchedKeepsFate(heap[id], policy);
    }
  }

  /** One more tier's pass, given its effect on the state it started from,
      extends the swept tiers by one. */
  lemma SweptTiersStep(tiers: seq<Tier>, heap: Heap, n: nat, policy: Policy,
                       p0: seq<Tier>, p1: Heap, r0: seq<Tier>)
    requires Swept(tiers, heap, n, policy, p0, p1) && n < |tiers| && Live(p0, p1) && Steady(policy)
    requires |r0| == |p0| && forall j :: 0 <= j < |p0| && j != n ==> r0[j] == p0[j]
    requires p0[n].Values <= p1.Keys
    requires forall k :: k in r0[n] <==> k in p0[n] && !Doomed(p1[p0[n][k]], policy)
    requires forall k :: k in r0[n] ==> r0[n][k] == p0[n][k]
    ensures SweptTiers(tiers, heap, n + 1, policy, r0)
  {
    SweptFate(tiers, heap, n, policy, p0, p1);
    assert p0[n] == tiers[n];
    forall k | k in tiers[n] ensures k in r0[n] <==> !Doomed(heap[tiers[n][k]], policy) {
      var id := tiers[n][k];
      assert id in p0[n].Values;
      assert Doomed(p1[id], policy) == Doomed(heap[id], policy);
    }
  }

  /** Which slabs remain after one more tier's pass. */
  lemma SweptSlabsStep(tiers: seq<Tier>, heap: Heap, n: nat, policy: Policy,
                       p0: seq<Tier>, p1: Heap, r0: seq<Tier>, r1: Heap)
    requires Swept(tiers, heap, n, policy, p0, p1) && SweptTiers(tiers, heap, n + 1, policy, r0)
    requires n < |tiers| && Steady(policy)
    requires forall id :: id in r1 <==>
      id in p1 && !(id in tiers[n].Values && Doomed(p1[id], policy) && id !in Referenced(r0))
    ensures forall id :: id in r1 <==>
      id in heap && !(id in Referenced(tiers[..n + 1]) && Doomed(heap[id], policy) && id !in Referenced(r0))
  {
    SweptFate(tiers, heap, n, policy, p0, p1);
    ReferencedGrows(tiers, n);
    forall id | id in heap && Doomed(heap[id], policy)
      ensures id in r1 <==> !(id in Referenced(tiers[..n + 1]) && id !in Referenced(r0))
    {
      SweptRefs(tiers, heap, n, policy, p0, id);
      SweptRefs(tiers, heap, n + 1, policy, r0, id);
    }
  }

  /** What the remaining slabs hold after one more tier's pass. */
  lemma SweptValuesStep(tiers: seq<Tier>, heap: Heap, n: nat, policy: Policy, p0: seq<Tier>, p1: Heap, r1: Heap)
    requires Swept(tiers, heap, n, policy, p0, p1) && n < |tiers| && Steady(policy)
    requires r1.Keys <= p1.Keys
    requires forall id :: id in r1 ==>
      r1[id] == if id in tiers[n].Values then Touched(p1[id], policy) else p1[id]
    ensures forall id :: id in r1 ==>
      r1[id] == if id in Referenced(tiers[..n + 1]) then Touched(heap[id], policy) else heap[id]
  {
    ReferencedGrows(tiers, n);
    forall id | id in r1
      ensures r1[id] == if id in Referenced(tiers[..n + 1]) then Touched(heap[id], policy) else heap[id]
    {
      TouchedKeepsFate(heap[id], policy);
    }
  }

  /** The passes over tiers 0 .. |snaps| - 1 under a steady policy leave
      those tiers swept. */
  lemma {:induction false} ShrinkTiersEffect(tiers: seq<Tier>, heap: Heap, snaps: seq<Snapshot>, policy: Policy)
    requires |snaps| <= |tiers| && Live(tiers, heap)
    requires forall i :: 0 <= i < |snaps| ==> IsEnumeration(snaps[i].keys, snaps[i].ids, tiers[i])
    requires Steady(policy)
    ensures var r := ShrinkTiers(tiers, heap, snaps, policy);
      Swept(tiers, heap, |snaps|, policy, r.0, r.1)
  {
    if |snaps| == 0 {
      assert tiers[..0] == [];
    } else {
      var n := |snaps| - 1;
      ShrinkTiersEffect(tiers, heap, snaps[..n], policy);
      var p := ShrinkTiers(tiers, heap, snaps[..n], policy);
      TierPassEffect(p.0, p.1, n, snaps[n], policy);
      var r := TierPass(p.0, p.1, n, snaps[n], policy);
      assert p.0[n] == tiers[n];
      SweptTiersStep(tiers, heap, n, policy, p.0, p.1, r.0);
      SweptSlabsStep(tiers, heap, n, policy, p.0, p.1, r.0, r.1);
      SweptValuesStep(tiers, heap, n, policy, p.0, p.1, r.1);
    }
  }

  /** After passes over every tier, a slab is destroyed exactly when some
      tier referred to it and it is doomed, and a remaining slab is touched
      exactly when some tier referred to it. */
  lemma SweptAll(tiers: seq<Tier>, heap: Heap, policy: Policy, t: seq<Tier>, h: Heap)
    requires Swept(tiers, heap, |tiers|, policy, t, h)
    ensures forall id :: id in h <==> id in heap && !(id in Referenced(tiers) && Doomed(heap[id], policy))
    ensures forall id :: id in h ==> h[id] == if id in Referenced(tiers) then Touched(heap[id], policy) else heap[id]
  {
    assert tiers[..|tiers|] == tiers;
    forall id | id in heap && Doomed(heap[id], policy) ensures id !in Referenced(t) {
      SweptRefs(tiers, heap, |tiers|, policy, t, id);
    }
  }

  /** The tier-0 scan of the shared-slab example: key 7's slab is stale. */
  lemma SharedSlabScan(heap: Heap)
    requires heap == map[0 := Slab(Layout.EvAllocator, 4, 5, map[])]
    ensures ScanTier(heap, [7], [0], Staleness(100, 10)) == Scan(heap, [Victim(7, 0)])
  {
    var policy := Staleness(100, 10);
    assert [7][..0] == [] && [0][..0] == [];
    assert ScanTier(heap, [], [], policy) == Scan(heap, []);
    assert ScanEntry(heap, 7, 0, policy) == Scan(heap, [Victim(7, 0)]);
  }

  /** Pruning tier 0 of the example as written leaves tier 1 pointing at a
      destroyed slab. */
  lemma SharedSlabPrune(tiers: seq<Tier>, heap: Heap)
    requires tiers == [map[7 := 0], map[7 := 0]]
    requires heap == map[0 := Slab(Layout.EvAllocator, 4, 5, map[])]
    ensures var w := PruneAsWritten(tiers, 0, heap, [Victim(7, 0)]);
      w.0[1] == map[7 := 0] && 0 !in w.1 && !Live(w.0, w.1)
  {
    var vs := [Victim(7, 0)];
    assert VictimKeys(vs) == {7} && VictimSlabs(vs) == {0};
    var w := PruneAsWritten(tiers, 0, heap, vs);
    assert w.1 == map[];
    assert w.0[1] == map[7 := 0];
    assert w.0[1][7] == 0;
    assert 0 in w.0[1].Values;
    assert 0 in Referenced(w.0);
  }

  /** As written, a staleness pass over a slab that tier 0 and tier 1 share
      (a key promoted by GetOrCreate is left in tier 1) destroys the slab in
      the tier-0 pass while tier 1 still refers to it, so the tier-1 pass
      reads a destroyed slab. */
  lemma ShrinkAsWrittenFreesSharedSlab(tiers: seq<Tier>, heap: Heap)
    requires tiers == [map[7 := 0], map[7 := 0]]
    requires heap == map[0 := Slab(Layout.EvAllocator, 4, 5, map[])]
    ensures Live(tiers, heap) && IsEnumeration([7], [0], tiers[0])
    ensures var s := ScanTier(heap, [7], [0], Staleness(100, 10));
      var w := PruneAsWritten(tiers, 0, s.heap, s.victims);
      && s.victims == [Victim(7, 0)]
      && w.0[1] == map[7 := 0] && 0 !in w.1 && !Live(w.0, w.1)
  {
    SharedSlabScan(heap);
    SharedSlabPrune(tiers, heap);
  }
}
