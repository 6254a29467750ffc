/** Which allocator smart_alloc turns to, when it gives nothing, and what it grants first. */
module SmartAllocLaws {
  import opened Machine
  import opened HeapBlocks
  import opened HeapSplits
  import opened SmartAlloc
  import PL = PoolLayout

  /** The pool for objects of `size` bytes. */
  function PoolFor(s: State, size: nat): Store
    requires size <= 256
  {
    if size < 17 then s.small else if size < 65 then s.medium else s.large
  }

  /**
   * Up to 256 bytes, smart_alloc gives nothing exactly when the pool of that size class was never
   * created or has no free block: it does not turn to a larger pool, nor to the heap. What it
   * gives is the block that was freed last.
   */
  lemma PoolOnly(s: State, size: u64)
    requires Ok(s) && size <= 256
    ensures Address(s, size) == 0 <==> PoolFor(s, size).NoPool? || PoolFor(s, size).free == []
    ensures Allocated(s, size).blocks == s.blocks
    ensures Address(s, size) != 0 ==>
              var v := PoolFor(s, size); v.Store? && v.free != [] && Address(s, size) == v.free[|v.free| - 1]
  {
    NoneAtZero(s, s.small, s.smallAt, 16);
    NoneAtZero(s, s.medium, s.mediumAt, 64);
    NoneAtZero(s, s.large, s.largeAt, 256);
  }

  /** A stocked pool gives its last block first. */
  lemma LastFirst(v: Store, start: int, size: int, total: int)
    requires Stocked(v, start, size, total) && total > 0
    ensures Top(v) == start + (total - 1) * size
  {
  }

  /** The first objects of each kind after init_memory_pools. */
  lemma FirstObjects(s: State)
    requires AllStocked(s)
    ensures Address(s, 0) == Address(s, 16) == 0x100_4078
    ensures Address(s, 17) == Address(s, 64) == 0x100_E130
    ensures Address(s, 65) == Address(s, 256) == 0x101_7158
    ensures Address(s, 257) == 0x101_76D8
  {
    LastFirst(s.small, 0x100_0088, 16, 1024);
    LastFirst(s.medium, 0x100_6170, 64, 512);
    LastFirst(s.large, 0x100_F258, 256, 128);
    FirstOfHeap();
  }

  lemma FirstOfHeap()
    ensures AllocResult(PL.POOLED, 257) == 0x101_76D8
  {
    PL.ThirdPool();
    Behind(PL.L3, PL.Rest(0x101_76B8));
  }

  lemma Behind(front: seq<Block>, last: Block)
    requires PL.NoneFree(front) && last.free && last.size >= 1000
    ensures AllocResult(front + [last], 257) == last.addr + 32
  {
    var bs := front + [last];
    assert bs[|front|] == last;
    assert forall j :: 0 <= j < |front| ==> bs[j] == front[j];
    SplitExactly(bs, 257, TotalSize(257), |front|);
  }
}
