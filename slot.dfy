/** The metadata slot convention: the address of a function's profile node
    is derived from its entry address alone, by arithmetic on `uintptr_t`. */
module Slot {
  import opened Arith

  /** `sizeof(prof_node_t)` on a 64-bit target: `next`, `magic`
      (`size_t`), `cycle_count` (`uint64_t`) and `fn`, 8 bytes each. */
  const NodeSize: int := 32

  /** `node_from_fn`: step one node size back from the entry address (with
      `uintptr_t` wrap-around) and round down to a multiple of the node
      size. */
  function NodeFromFn(fn: int): (slot: int)
    requires IsU64(fn)
    ensures IsU64(slot)
    ensures slot % NodeSize == 0
    ensures fn >= NodeSize ==> fn - 2 * NodeSize < slot <= fn - NodeSize
  {
    var nodeAddr := WrappingSub(fn, NodeSize);
    nodeAddr - nodeAddr % NodeSize
  }

  /** With at least two node sizes of address space below the entry, the
      slot is a non-null address and the whole node lies strictly before
      the entry address. */
  lemma SlotPrecedesEntry(fn: int)
    requires IsU64(fn) && fn >= 2 * NodeSize
    ensures NodeFromFn(fn) >= NodeSize
    ensures NodeFromFn(fn) + NodeSize <= fn
  {
  }

  /** Two entry addresses share a slot exactly when they fall in the same
      node-size-aligned window one node size above the slot. */
  lemma {:induction false} SharedSlotIff(f: int, g: int)
    requires IsU64(f) && IsU64(g) && f >= NodeSize && g >= NodeSize
    ensures NodeFromFn(f) == NodeFromFn(g) <==> (f - NodeSize) / NodeSize == (g - NodeSize) / NodeSize
  {
    var a, b := f - NodeSize, g - NodeSize;
    assert NodeFromFn(f) == a - a % NodeSize;
    assert NodeFromFn(g) == b - b % NodeSize;
    assert a - a % NodeSize == NodeSize * (a / NodeSize);
    assert b - b % NodeSize == NodeSize * (b / NodeSize);
  }

  /** Entry addresses at least one node size apart get disjoint slots, in
      the same order as the entries. */
  lemma DisjointSlots(f: int, g: int)
    requires IsU64(f) && IsU64(g) && f >= NodeSize && f + NodeSize <= g
    ensures NodeFromFn(f) + NodeSize <= NodeFromFn(g)
  {
    var a, b := f - NodeSize, g - NodeSize;
    assert a - a % NodeSize == NodeSize * (a / NodeSize);
    assert b - b % NodeSize == NodeSize * (b / NodeSize);
    assert a / NodeSize < b / NodeSize;
  }
}
