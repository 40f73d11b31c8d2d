/** Tier layout chosen from the storage configuration, the 16-byte alignment
    of per-slot slab lengths, slot offsets and the eviction-cache capacity of
    the StorageManager of a multi-level embedding table. */
module Layout {
  import opened Base

  /** The storage kinds a table can be configured with; `Invalid` is the
      default of an unset configuration and falls to the default branch. */
  datatype StorageType =
    | Invalid
    | Dram
    | PmemMemkind
    | PmemLibpmem
    | LevelDb
    | DramPmem
    | DramLevelDb

  /** Storage kind, backing path and pool size; fixed at construction. */
  datatype StorageConfig = StorageConfig(kind: StorageType, path: string, size: int)

  /** The key-value backend of one tier. */
  datatype Backend = LocklessHashMap | LevelDbKv(path: string)

  /** The allocator slabs of one tier come from. */
  datatype AllocKind =
    | EvAllocator
    | PmemAllocator
    | ExperimentalPmemAllocator(path: string, size: int)

  datatype TierSpec = TierSpec(backend: Backend, alloc: AllocKind)

  /** Hot DRAM tier: a lock-free hash map over the default allocator. */
  const DramTier := TierSpec(LocklessHashMap, EvAllocator)

  /** The tiers Init builds for a configuration, fastest first. */
  function TierLayout(sc: StorageConfig): (layout: seq<TierSpec>)
    ensures 1 <= |layout| <= 2
    ensures |layout| == 2 <==> sc.kind == DramPmem || sc.kind == DramLevelDb
    ensures |layout| == 2 ==> layout[0] == DramTier
    ensures sc.kind !in {PmemMemkind, PmemLibpmem, LevelDb} ==> layout[0] == DramTier
  {
    match sc.kind
    case Dram => [DramTier]
    case PmemMemkind => [TierSpec(LocklessHashMap, PmemAllocator)]
    case PmemLibpmem => [TierSpec(LocklessHashMap, ExperimentalPmemAllocator(sc.path, sc.size))]
    case LevelDb => [TierSpec(LevelDbKv(sc.path), EvAllocator)]
    case DramPmem =>
      [DramTier, TierSpec(LocklessHashMap, ExperimentalPmemAllocator(sc.path, sc.size))]
    case DramLevelDb => [DramTier, TierSpec(LevelDbKv(sc.path), EvAllocator)]
    case Invalid => [DramTier]
  }

  /** The tier whose backend SetAllocLen tells the total slab width: the
      on-disk tier, which needs it for its record size. */
  function DiskTier(sc: StorageConfig): (tier: Option<nat>)
    ensures tier.Some? ==> tier.value < |TierLayout(sc)| && TierLayout(sc)[tier.value].backend.LevelDbKv?
    ensures forall i :: 0 <= i < |TierLayout(sc)| && TierLayout(sc)[i].backend.LevelDbKv? ==> tier == Some(i)
  {
    match sc.kind
    case LevelDb => Some(0)
    case DramLevelDb => Some(1)
    case _ => None
  }

  /** Every slot of a slab starts on a 16-byte boundary. */
  const SlotAlignment := 16

  /** Byte widths of the scalar types a table is instantiated with. */
  predicate ValidScalarSize(s: int) {
    s == 1 || s == 2 || s == 4 || s == 8 || s == 16
  }

  /** Per-slot length, in scalars, for a value of `valueLen` scalars of
      `scalarSize` bytes: padded up so each slot spans whole 16-byte units. */
  function AlignedLen(valueLen: nat, scalarSize: nat): nat
    requires ValidScalarSize(scalarSize)
  {
    if (valueLen * scalarSize) % SlotAlignment == 0 then valueLen
    else valueLen + (SlotAlignment - (scalarSize * valueLen) % SlotAlignment) / scalarSize
  }

  /** The padded length holds the value, spans whole 16-byte units, adds
      less than one unit of padding, and no shorter such length exists
      (stated for one candidate `m`). */
  lemma AlignedLenCases(v: nat, s: nat, m: nat)
    requires ValidScalarSize(s)
    ensures var n := AlignedLen(v, s);
      && v <= n
      && (n * s) % SlotAlignment == 0
      && n - v < SlotAlignment / s
      && (v <= m && (m * s) % SlotAlignment == 0 ==> n <= m)
  {
    if s == 1 {
      AlignedLenWidth1(v, s, m);
    } else if s == 2 {
      AlignedLenWidth2(v, s, m);
    } else if s == 4 {
      AlignedLenWidth4(v, s, m);
    } else if s == 8 {
      AlignedLenWidth8(v, s, m);
    } else {
      AlignedLenWidth16(v, s, m);
    }
  }

  /** AlignedLenCases for one width each: with the width fixed the
      arithmetic is linear, and each width is a proof of its own. */
  lemma AlignedLenWidth1(v: nat, s: nat, m: nat)
    requires s == 1
    ensures var n := AlignedLen(v, s);
      && v <= n
      && (n * s) % SlotAlignment == 0
      && n - v < SlotAlignment / s
      && (v <= m && (m * s) % SlotAlignment == 0 ==> n <= m)
  {
    var n := AlignedLen(v, s);
    assert n == AlignedLen(v, 1) && n * s == n * 1 && m * s == m * 1;
  }

  lemma AlignedLenWidth2(v: nat, s: nat, m: nat)
    requires s == 2
    ensures var n := AlignedLen(v, s);
      && v <= n
      && (n * s) % SlotAlignment == 0
      && n - v < SlotAlignment / s
      && (v <= m && (m * s) % SlotAlignment == 0 ==> n <= m)
  {
    var n := AlignedLen(v, s);
    assert n == AlignedLen(v, 2) && n * s == n * 2 && m * s == m * 2;
  }

  lemma AlignedLenWidth4(v: nat, s: nat, m: nat)
    requires s == 4
    ensures var n := AlignedLen(v, s);
      && v <= n
      && (n * s) % SlotAlignment == 0
      && n - v < SlotAlignment / s
      && (v <= m && (m * s) % SlotAlignment == 0 ==> n <= m)
  {
    var n := AlignedLen(v, s);
    assert n == AlignedLen(v, 4) && n * s == n * 4 && m * s == m * 4;
  }

  lemma AlignedLenWidth8(v: nat, s: nat, m: nat)
    requires s == 8
    ensures var n := AlignedLen(v, s);
      && v <= n
      && (n * s) % SlotAlignment == 0
      && n - v < SlotAlignment / s
      && (v <= m && (m * s) % SlotAlignment == 0 ==> n <= m)
  {
    var n := AlignedLen(v, s);
    assert n == AlignedLen(v, 8) && n * s == n * 8 && m * s == m * 8;
  }

  lemma AlignedLenWidth16(v: nat, s: nat, m: nat)
    requires s == 16
    ensures var n := AlignedLen(v, s);
      && v <= n
      && (n * s) % SlotAlignment == 0
      && n - v < SlotAlignment / s
      && (v <= m && (m * s) % SlotAlignment == 0 ==> n <= m)
  {
    var n := AlignedLen(v, s);
    assert n == AlignedLen(v, 16) && n * s == n * 16 && m * s == m * 16;
  }

  /** SetAllocLen's padding rule: the slot length holds the value, its byte
      length is a multiple of 16, and the padding is less than 16 bytes. */
  lemma AlignedLenIsAligned(valueLen: nat, scalarSize: nat)
    requires ValidScalarSize(scalarSize)
    ensures valueLen <= AlignedLen(valueLen, scalarSize)
    ensures (AlignedLen(valueLen, scalarSize) * scalarSize) % SlotAlignment == 0
    ensures AlignedLen(valueLen, scalarSize) - valueLen < SlotAlignment / scalarSize
  {
    AlignedLenCases(valueLen, scalarSize, 0);
  }

  /** AlignedLen is the least aligned length that holds the value, so an
      already aligned length is kept as it is. */
  lemma AlignedLenIsLeast(valueLen: nat, scalarSize: nat, m: nat)
    requires ValidScalarSize(scalarSize)
    requires valueLen <= m && (m * scalarSize) % SlotAlignment == 0
    ensures AlignedLen(valueLen, scalarSize) <= m
  {
    AlignedLenCases(valueLen, scalarSize, m);
  }

  /** The two worked cases for 4-byte scalars: 3 pads to 4, 4 stays 4. */
  lemma AlignedLenExamples()
    ensures AlignedLen(3, 4) == 4
    ensures AlignedLen(4, 4) == 4
    ensures AlignedLen(5, 8) == 6
  {
  }

  /** Offset, in scalars, of slot `index` inside a slab. */
  function SlotOffset(allocLen: int, index: int): int {
    allocLen * index
  }

  /** With an aligned slot length, every slot starts on a 16-byte boundary,
      holds `valueLen` scalars before the next slot starts, and the last of
      `slotNum` slots ends inside the slab's `allocLen * slotNum` scalars. */
  lemma SlotLayout(valueLen: nat, scalarSize: nat, slotNum: nat, index: nat)
    requires ValidScalarSize(scalarSize)
    requires index < slotNum
    ensures var a := AlignedLen(valueLen, scalarSize);
      && (SlotOffset(a, index) * scalarSize) % SlotAlignment == 0
      && SlotOffset(a, index) + valueLen <= SlotOffset(a, index + 1)
      && SlotOffset(a, index + 1) <= a * slotNum
  {
    var a := AlignedLen(valueLen, scalarSize);
    AlignedLenIsAligned(valueLen, scalarSize);
    AlignedOffset(a, scalarSize, index);
    assert SlotOffset(a, index + 1) == SlotOffset(a, index) + a;
    MulMonotone(a, index + 1, slotNum);
  }

  /** An offset that is a whole number of aligned slots is aligned. */
  lemma AlignedOffset(allocLen: nat, scalarSize: nat, index: nat)
    requires (allocLen * scalarSize) % SlotAlignment == 0
    ensures (SlotOffset(allocLen, index) * scalarSize) % SlotAlignment == 0
  {
    var q := (allocLen * scalarSize) / SlotAlignment;
    assert allocLen * scalarSize == SlotAlignment * q;
    assert SlotOffset(allocLen, index) * scalarSize == SlotAlignment * (q * index) by {
      assert (allocLen * index) * scalarSize == (allocLen * scalarSize) * index;
    }
  }

  lemma MulMonotone(a: nat, x: nat, y: nat)
    requires x <= y
    ensures a * x <= a * y
  {
  }

  /** Byte budget of the hot tier's eviction cache. */
  const CacheBudget := 1024 * 1024 * 1024

  /** Capacity the manager gives the eviction cache once the slab width is
      known: the budget divided by the width, then multiplied by the scalar
      size, with C++ integer division. */
  function CacheCapacity(totalDims: nat, scalarSize: nat): nat
    requires totalDims > 0
  {
    CacheBudget / totalDims * scalarSize
  }

  /** The capacity is `scalarSize` times the number of whole slab widths
      that fit in the budget. */
  lemma CacheCapacityIsFloor(totalDims: nat, scalarSize: nat)
    requires totalDims > 0 && scalarSize > 0
    ensures var c := CacheCapacity(totalDims, scalarSize);
      && c * totalDims <= CacheBudget * scalarSize
      && CacheBudget * scalarSize < c * totalDims + totalDims * scalarSize
  {
    var q := CacheBudget / totalDims;
    var r := CacheBudget % totalDims;
    assert CacheBudget == q * totalDims + r && 0 <= r < totalDims;
    MulSwap(q, scalarSize, totalDims);
    MulAddRight(q * totalDims, r, scalarSize);
    MulStrictRight(r, totalDims, scalarSize);
  }

  lemma MulSwap(a: int, b: int, c: int)
    ensures a * b * c == a * c * b
  {
  }

  lemma MulAddRight(a: int, b: int, c: int)
    ensures (a + b) * c == a * c + b * c
  {
  }

  lemma MulStrictRight(r: int, d: int, s: int)
    requires 0 <= r < d && s > 0
    ensures 0 <= r * s < d * s
  {
  }
}


