/** Value slabs (the source's ValuePtr objects) and the heap that owns them.
    A pointer to a slab is a stable handle into the heap; destroying and
    deleting a slab removes it from the heap. */
module Slabs {
  import opened Layout

  /** Handle of a slab in the heap; stands for a `ValuePtr<V>*`. */
  type SlabId = int

  /** The step a slab carries until a staleness pass stamps it. */
  const UnsetStep := -1

  /** Stands for one scalar of type V. */
  type Scalar = int

  /** One key's storage: the allocator it came from, how many scalars it
      owns, its update step, and the scalars of each embedding slot that
      holds a value (a slot not in `slots` is one whose GetValue returns
      null). */
  datatype Slab = Slab(alloc: AllocKind, len: nat, step: int, slots: map<nat, seq<Scalar>>)

  type Heap = map<SlabId, Slab>

  /** A pointer to the scalars of one slot inside a slab (a `V*`). */
  datatype ValueRef = ValueRef(slab: SlabId, offset: int)

  /** A freshly created slab of `len` scalars: no step, no slot filled. */
  function NewSlab(alloc: AllocKind, len: nat): Slab {
    Slab(alloc, len, UnsetStep, map[])
  }

  /** Every allocated handle is below the next handle to hand out, so that
      handle is fresh. */
  ghost predicate HandlesBelow(heap: Heap, nextId: SlabId) {
    forall id :: id in heap ==> id < nextId
  }
}
