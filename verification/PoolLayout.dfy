/** Where the pools come to lie in a heap that holds nothing else behind its last allocated block. */
module PoolLayout {
  import opened Machine
  import opened HeapBlocks
  import opened HeapSplits
  import opened MemoryPool

  /** The free block that reaches from `a` to the end of the heap. */
  function Rest(a: int): Block {
    Block(a, HEAP_TOP - a - 32, true)
  }

  ghost predicate NoneFree(bs: seq<Block>) {
    forall i :: 0 <= i < |bs| ==> !bs[i].free
  }

  /** In a heap whose one free block is its last, an allocation begins there. */
  lemma Bump(bs: seq<Block>, front: seq<Block>, a: int, size: u64, next: seq<Block>, b: int)
    requires b == a + size + 64 && bs == front + [Rest(a)] && NoneFree(front)
    requires next == front + [Block(a, size + 32, false)]
    requires 0 < size < 0x100_0000 && size % 8 == 0 && a + size + 160 <= HEAP_TOP
    ensures AllocResult(bs, size) == a + 32 && NoneFree(next)
    ensures Malloc(bs, size) == next + [Rest(b)]
  {
    var i, need := |front|, size + 32;
    NeedOf(size);
    assert bs[i] == Rest(a);
    assert forall j :: 0 <= j < i ==> bs[j] == front[j];
    SplitExactly(bs, size, need, i);
    assert bs[..i] == front && bs[i + 1..] == [];
  }

  lemma NeedOf(size: u64)
    requires size % 8 == 0 && size < 0x100_0000
    ensures TotalSize(size) == size + 32
  {
    Rounding(size);
  }

  /**
   * pool_create takes 40 bytes for the struct, then the chunk, then the free list, one behind the
   * other, at `a`, `b` and `c`: `f1`, `f2` and `f3` are the blocks in front of the free one after each.
   */
  lemma PoolThere(bs: seq<Block>, front: seq<Block>, a: int, b: int, c: int, d: int, total: u64, listBytes: u64,
                  f1: seq<Block>, f2: seq<Block>, f3: seq<Block>)
    requires bs == front + [Rest(a)] && NoneFree(front) && f1 == front + [Block(a, 72, false)]
    requires f2 == f1 + [Block(b, total + 32, false)] && f3 == f2 + [Block(c, listBytes + 32, false)]
    requires 0 < total < 0x100_0000 && total % 8 == 0 && 0 < listBytes < 0x100_0000 && listBytes % 8 == 0
    requires 0 < a && b == a + 104 && c == b + total + 64 && d == c + listBytes + 64 && d + 1000 <= HEAP_TOP
    ensures NoneFree(f3)
    ensures Taken(bs, f3 + [Rest(d)], total, listBytes, a + 32, b + 32, c + 32)
  {
    var b1, b2, b3 := f1 + [Rest(b)], f2 + [Rest(c)], f3 + [Rest(d)];
    Bump(bs, front, a, 40, f1, b);
    Bump(b1, f1, b, total, f2, c);
    Bump(b2, f2, c, listBytes, f3, d);
    InARow(bs, b1, b2, b3, total, listBytes, a + 32, b + 32, c + 32);
  }

  lemma InARow(b0: seq<Block>, b1: seq<Block>, b2: seq<Block>, b3: seq<Block>, total: u64, listBytes: u64,
               self: u64, start: u64, list: u64)
    requires b1 == Malloc(b0, 40) && b2 == Malloc(b1, total) && b3 == Malloc(b2, listBytes)
    requires AllocResult(b0, 40) == self != 0 && AllocResult(b1, total) == start != 0
    requires AllocResult(b2, listBytes) == list != 0
    ensures Taken(b0, b3, total, listBytes, self, start, list)
  {
  }

  /** The allocated blocks of the three pools, from the start of the heap on. */
  const S1: seq<Block> := [Block(0x100_0000, 72, false)]
  const S2: seq<Block> := S1 + [Block(0x100_0068, 16416, false)]
  const S3: seq<Block> := S2 + [Block(0x100_40A8, 8224, false)]
  const M1: seq<Block> := S3 + [Block(0x100_60E8, 72, false)]
  const M2: seq<Block> := M1 + [Block(0x100_6150, 32800, false)]
  const M3: seq<Block> := M2 + [Block(0x100_E190, 4128, false)]
  const L1: seq<Block> := M3 + [Block(0x100_F1D0, 72, false)]
  const L2: seq<Block> := L1 + [Block(0x100_F238, 32800, false)]
  const L3: seq<Block> := L2 + [Block(0x101_7278, 1056, false)]

  /** The heap with the first pool, with two, and after init_memory_pools, which finds it empty. */
  const SMALL: seq<Block> := S3 + [Rest(0x100_60E8)]
  const MEDIUM: seq<Block> := M3 + [Rest(0x100_F1D0)]
  const POOLED: seq<Block> := L3 + [Rest(0x101_76B8)]

  lemma FirstPool()
    ensures NoneFree(S3)
    ensures Taken(INITIAL, SMALL, 16384, 8192, 0x100_0020, 0x100_0088, 0x100_40C8)
  {
    PoolThere(INITIAL, [], 0x100_0000, 0x100_0068, 0x100_40A8, 0x100_60E8, 16384, 8192, S1, S2, S3);
  }

  lemma SecondPool()
    ensures NoneFree(M3)
    ensures Taken(SMALL, MEDIUM, 32768, 4096, 0x100_6108, 0x100_6170, 0x100_E1B0)
  {
    FirstPool();
    PoolThere(SMALL, S3, 0x100_60E8, 0x100_6150, 0x100_E190, 0x100_F1D0, 32768, 4096, M1, M2, M3);
  }

  lemma ThirdPool()
    ensures NoneFree(L3)
    ensures Taken(MEDIUM, POOLED, 32768, 1024, 0x100_F1F0, 0x100_F258, 0x101_7298)
  {
    SecondPool();
    PoolThere(MEDIUM, M3, 0x100_F1D0, 0x100_F238, 0x101_7278, 0x101_76B8, 32768, 1024, L1, L2, L3);
  }

  /** A heap without allocations is the one of heap_init. */
  lemma EmptyHeap(bs: seq<Block>)
    requires WellFormed(bs) && Live(bs) == {}
    ensures bs == INITIAL
  {
    InitialWellFormed();
    assert INITIAL[0].free && |INITIAL| == 1;
    Determined(bs, INITIAL, HEAP_BASE, HEAP_TOP);
  }
}
