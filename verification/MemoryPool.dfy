/** Fixed-size pools: a chunk of the heap cut into blocks, with a stack of the free ones. */
module MemoryPool {
  import opened Machine
  import opened HeapBlocks
  import opened HeapRuns
  import opened Pigeonhole
  import opened HeapLayout
  import KH = KernelHeap

  /** sizeof(memory_pool_t) */
  const POOL_SIZE := 40
  const POINTER_SIZE := 8

  /** The address of block `k`. */
  function BlockAddress(start: int, size: int, k: int): int {
    start + k * size
  }

  lemma BlockIndex(start: int, size: int, k: int)
    requires size > 0 && k >= 0
    ensures var a := BlockAddress(start, size, k);
            a >= start && (a - start) % size == 0 && (a - start) / size == k
  {
    DivUnique(k * size, size, k, 0);
    MulMonotone(size, k, 0);
  }

  /** Blocks with smaller numbers end before block `k` starts. */
  lemma BlockOrder(start: int, size: int, j: int, k: int)
    requires size > 0 && j < k
    ensures BlockAddress(start, size, j) + size <= BlockAddress(start, size, k)
  {
    MulMonotone(size, k, j + 1);
  }

  /** The stack holds addresses of distinct blocks of the pool. */
  ghost predicate Stack(free: seq<u64>, start: int, size: int, total: nat)
    requires size > 0
  {
    && (forall i :: 0 <= i < |free| ==>
          start <= free[i] < BlockAddress(start, size, total) && (free[i] - start) % size == 0)
    && (forall i, j :: 0 <= i < j < |free| ==> free[i] != free[j])
  }

  /** Pigeonhole: while some block of the pool is not on the stack, the stack is not full. */
  lemma NotFull(free: seq<u64>, start: int, size: int, total: nat, p: u64)
    requires size > 0 && Stack(free, start, size, total) && p !in free
    requires start <= p < BlockAddress(start, size, total) && (p - start) % size == 0
    ensures |free| < total
  {
    var all := free + [p];
    var list := seq(|all|, i requires 0 <= i < |all| => IndexOf(all[i], start, size));
    forall i | 0 <= i < |list|
      ensures list[i] < total
    {
      IndexBelow(all[i], start, size, total);
    }
    forall i, j | 0 <= i < j < |list|
      ensures list[i] != list[j]
    {
      NewIsOther(free, p, i, j);
      DifferentIndex(all[i], all[j], start, size);
    }
    AtMost(list, total);
  }

  lemma NewIsOther(free: seq<u64>, p: u64, i: nat, j: nat)
    requires p !in free && i < j <= |free| && (forall i, j :: 0 <= i < j < |free| ==> free[i] != free[j])
    ensures (free + [p])[i] != (free + [p])[j]
  {
    assert free[i] in free;
  }

  /** Different aligned addresses have different block numbers. */
  lemma DifferentIndex(x: int, y: int, start: int, size: int)
    requires size > 0 && start <= x && start <= y && x != y
    requires (x - start) % size == 0 && (y - start) % size == 0
    ensures IndexOf(x, start, size) != IndexOf(y, start, size)
  {
    assert x - start == size * ((x - start) / size) && y - start == size * ((y - start) / size);
  }

  function IndexOf(p: int, start: int, size: int): nat
    requires size > 0
  {
    if p < start then 0 else
    DivNonNegative(p - start, size);
    (p - start) / size
  }

  lemma IndexBelow(p: int, start: int, size: int, total: nat)
    requires size > 0 && start <= p < BlockAddress(start, size, total)
    ensures IndexOf(p, start, size) < total
  {
    var k := (p - start) / size;
    assert p - start == size * k + (p - start) % size;
    MulMonotone(size, k, total);
  }

  /** The list of all block addresses is a stack. */
  lemma AllOnStack(free: seq<u64>, start: u64, size: u64, total: u64)
    requires size > 0 && |free| == total && forall k :: 0 <= k < total ==> free[k] == BlockAddress(start, size, k)
    ensures Stack(free, start, size, total)
  {
    forall i | 0 <= i < |free|
      ensures start <= free[i] < BlockAddress(start, size, total) && (free[i] - start) % size == 0
    {
      BlockIndex(start, size, i);
      BlockOrder(start, size, i, total);
    }
    forall i, j | 0 <= i < j < |free|
      ensures free[i] != free[j]
    {
      BlockOrder(start, size, i, j);
    }
  }

  class MemoryPool {
    /** Where the struct, its chunk and its free list lie in the heap. */
    const self: u64
    const poolStart: u64
    const listAt: u64
    const blockSize: u64
    const totalBlocks: u64
    var freeBlocks: nat
    const freeList: array<u64>

    ghost predicate Valid()
      reads this, freeList
    {
      && 0 < blockSize && 0 < totalBlocks && 0 < poolStart
      && BlockAddress(poolStart, blockSize, totalBlocks) < TWO_64
      && freeList.Length == totalBlocks && freeBlocks <= totalBlocks
      && Stack(Free(), poolStart, blockSize, totalBlocks)
    }

    ghost function Free(): seq<u64>
      reads this, freeList
    {
      if freeBlocks <= freeList.Length then freeList[..freeBlocks] else []
    }

    /** An address of one of the pool's blocks. */
    predicate IsBlock(p: u64)
      requires blockSize > 0
    {
      poolStart <= p < BlockAddress(poolStart, blockSize, totalBlocks) && (p - poolStart) % blockSize == 0
    }

    /** A block that was handed out and not given back. */
    ghost predicate HandedOut(p: u64)
      requires blockSize > 0
      reads this, freeList
    {
      IsBlock(p) && p !in Free()
    }

    /** The free list is the blocks from the first to the last. */
    ghost predicate Ascending()
      reads freeList
    {
      freeList.Length == totalBlocks
      && forall i :: 0 <= i < totalBlocks ==> freeList[i] == BlockAddress(poolStart, blockSize, i)
    }

    constructor Create(self: u64, start: u64, list: u64, blockSize: u64, numBlocks: u64)
      requires 0 < blockSize && 0 < numBlocks && 0 < start && BlockAddress(start, blockSize, numBlocks) < TWO_64
      ensures Valid() && fresh(freeList)
      ensures this.self == self && this.poolStart == start && this.listAt == list
      ensures this.blockSize == blockSize && this.totalBlocks == numBlocks
      ensures freeBlocks == numBlocks && Ascending()
    {
      this.self, this.poolStart, this.listAt := self, start, list;
      this.blockSize, this.totalBlocks, this.freeBlocks := blockSize, numBlocks, numBlocks;
      freeList := new u64[numBlocks];
      new;
      for i := 0 to numBlocks
        invariant freeBlocks == numBlocks
        invariant forall k :: 0 <= k < i ==> freeList[k] == BlockAddress(start, blockSize, k)
      {
        BlockOrder(start, blockSize, i, numBlocks);
        BlockIndex(start, blockSize, i);
        freeList[i] := start + i * blockSize;
      }
      AllOnStack(freeList[..], start, blockSize, numBlocks);
      assert Free() == freeList[..];
    }

    /** pool_alloc, on a pool that exists: the top of the stack, or 0 when it is empty. */
    method PoolAlloc() returns (p: u64)
      requires Valid()
      modifies this
      ensures Valid()
      ensures p == 0 <==> old(Free()) == []
      ensures p == 0 ==> Free() == old(Free())
      ensures p != 0 ==>
                && Free() + [p] == old(Free()) && IsBlock(p) && !old(HandedOut(p))
                && forall q: u64 :: HandedOut(q) <==> old(HandedOut(q)) || q == p
    {
      if freeBlocks == 0 {
        return 0;
      }
      p := freeList[freeBlocks - 1];
      freeBlocks := freeBlocks - 1;
      assert old(Free()) == Free() + [p];
      assert old(Free())[|old(Free())| - 1] == p;
      assert forall i :: 0 <= i < |Free()| ==> Free()[i] == old(Free())[i];
    }

    /**
     * pool_free: a block that was handed out goes back on the stack; null, foreign, misaligned
     * and already free pointers are ignored. The last test of the C code never rejects a block.
     */
    method PoolFree(p: u64)
      requires Valid()
      modifies this, freeList
      ensures Valid()
      ensures Free() == if old(HandedOut(p)) then old(Free()) + [p] else old(Free())
      ensures forall q: u64 :: HandedOut(q) <==> old(HandedOut(q)) && q != p
    {
      if p == 0 {
        return;
      }
      if p < poolStart || p >= poolStart + totalBlocks * blockSize {
        return;
      }
      if (p - poolStart) % blockSize != 0 {
        return;
      }
      for i := 0 to freeBlocks
        invariant p !in freeList[..i]
      {
        if freeList[i] == p {
          assert p in Free();
          return;
        }
      }
      NotFull(Free(), poolStart, blockSize, totalBlocks, p);
      if freeBlocks < totalBlocks {
        freeList[freeBlocks] := p;
        freeBlocks := freeBlocks + 1;
      }
      assert Free() == old(Free()) + [p];
    }
  }

  /** A pool whose stack is full has handed out nothing. */
  lemma FullPool(pool: MemoryPool)
    requires pool.Valid() && pool.freeBlocks == pool.totalBlocks
    ensures forall p: u64 :: !pool.HandedOut(p)
  {
    forall p: u64
      ensures !pool.HandedOut(p)
    {
      if pool.HandedOut(p) {
        NotFull(pool.Free(), pool.poolStart, pool.blockSize, pool.totalBlocks, p);
      }
    }
  }

  // ---- Pools in the heap ----

  /** The live block of the heap whose payload is at `p`. */
  ghost predicate LiveAt(bs: seq<Block>, p: int, b: Block) {
    b in Live(bs) && b.Payload() == p
  }

  /** The heap blocks of a pool: its struct, its chunk and its free list. */
  datatype Backing = Backing(self: Block, chunk: Block, list: Block) {
    function All(): set<Block> { {self, chunk, list} }
  }

  ghost predicate Backed(bs: seq<Block>, pool: MemoryPool, k: Backing) {
    && LiveAt(bs, pool.self, k.self) && LiveAt(bs, pool.poolStart, k.chunk) && LiveAt(bs, pool.listAt, k.list)
    && k.self != k.chunk && k.chunk != k.list && k.self != k.list
    && k.chunk.size >= pool.totalBlocks * pool.blockSize
  }

  /** The three allocations of pool_create succeed. */
  ghost predicate AllGranted(bs: seq<Block>, total: u64, listBytes: u64) {
    var b1 := Malloc(bs, POOL_SIZE);
    && AllocResult(bs, POOL_SIZE) != 0 && AllocResult(b1, total) != 0
    && AllocResult(Malloc(b1, total), listBytes) != 0
  }

  /** The arguments are not zero, and the struct, the chunk and the free list are granted. */
  ghost predicate Creates(bs: seq<Block>, blockSize: u64, numBlocks: u64) {
    && blockSize != 0 && numBlocks != 0
    && AllGranted(bs, Bytes(numBlocks, blockSize), Bytes(numBlocks, POINTER_SIZE))
  }

  /** The allocations are those of the pool's three parts, in this order. */
  ghost predicate TakenFor(b0: seq<Block>, b3: seq<Block>, pool: MemoryPool) {
    Taken(b0, b3, Bytes(pool.totalBlocks, pool.blockSize), Bytes(pool.totalBlocks, POINTER_SIZE),
          pool.self, pool.poolStart, pool.listAt)
  }

  /** A product in 64 bits. */
  function Bytes(count: u64, size: u64): u64 {
    Nonneg(count, size);
    count * size % TWO_64
  }

  /** If a pool is created, the sizes of its chunk and of its free list did not wrap on the way to kmalloc. */
  ghost predicate Sized(bs: seq<Block>, blockSize: u64, numBlocks: u64) {
    AllGranted(bs, Bytes(numBlocks, blockSize), Bytes(numBlocks, POINTER_SIZE)) ==>
      numBlocks * blockSize + HEADER + 7 < TWO_64 && numBlocks * POINTER_SIZE + HEADER + 7 < TWO_64
  }

  lemma PoolGranted(b0: seq<Block>, b3: seq<Block>, blockSize: u64, numBlocks: u64, self: u64, start: u64, list: u64)
    returns (k: Backing)
    requires WellFormed(b0) && WellFormed(b3) && Sized(b0, blockSize, numBlocks)
    requires Taken(b0, b3, Bytes(numBlocks, blockSize), Bytes(numBlocks, POINTER_SIZE), self, start, list)
    ensures LiveAt(b3, self, k.self) && LiveAt(b3, start, k.chunk) && LiveAt(b3, list, k.list)
    ensures k.self != k.chunk && k.chunk != k.list && k.self != k.list
    ensures k.chunk.size >= numBlocks * blockSize
    ensures Live(b3) == Live(b0) + k.All() && k.All() !! Live(b0)
    ensures BlockAddress(start, blockSize, numBlocks) <= HEAP_TOP && 0 < start
  {
    var total, listBytes := Bytes(numBlocks, blockSize), Bytes(numBlocks, POINTER_SIZE);
    NoneWrapped(numBlocks, blockSize);
    k := ThreeGranted(b0, b3, total, listBytes, self, start, list);
    ChunkFits(b3, k.chunk, start, blockSize, numBlocks);
  }

  lemma NoneWrapped(numBlocks: u64, blockSize: u64)
    ensures numBlocks * blockSize + HEADER + 7 < TWO_64 ==> Bytes(numBlocks, blockSize) == numBlocks * blockSize
    ensures numBlocks * POINTER_SIZE < TWO_64 ==> Bytes(numBlocks, POINTER_SIZE) == numBlocks * POINTER_SIZE
  {
    Nonneg(numBlocks, blockSize);
  }

  /**
   * pool_create. On failure, whichever allocation it was that failed, the heap is exactly what
   * it was before; on success three new heap blocks back the pool and no block is handed out.
   */
  method PoolCreate(h: KH.KernelHeap, blockSize: u64, numBlocks: u64) returns (pool: MemoryPool?, ghost k: Backing)
    requires h.Valid() && Sized(h.blocks, blockSize, numBlocks)
    modifies h, h.mem
    ensures h.Valid()
    ensures pool == null <==> !Creates(old(h.blocks), blockSize, numBlocks)
    ensures pool == null ==> h.blocks == old(h.blocks)
    ensures PayloadsSame(old(h.blocks), old(h.mem[..]), h.mem[..])
    ensures pool != null ==> TakenFor(old(h.blocks), h.blocks, pool) && pool.Ascending()
    ensures pool != null ==>
              && fresh(pool) && fresh(pool.freeList) && pool.Valid()
              && pool.blockSize == blockSize && pool.totalBlocks == numBlocks
              && pool.freeBlocks == numBlocks
              && Backed(h.blocks, pool, k)
              && Live(h.blocks) == old(Live(h.blocks)) + k.All() && k.All() !! old(Live(h.blocks))
  {
    k := Backing(INITIAL[0], INITIAL[0], INITIAL[0]);
    if blockSize == 0 || numBlocks == 0 {
      return null, k;
    }
    ghost var bs := h.blocks;
    var self, start, list := TakeThree(h, Bytes(numBlocks, blockSize), Bytes(numBlocks, POINTER_SIZE));
    if self == 0 {
      return null, k;
    }
    TakenIsGranted(bs, h.blocks, blockSize, numBlocks, self, start, list);
    k := PoolGranted(bs, h.blocks, blockSize, numBlocks, self, start, list);
    pool := new MemoryPool.Create(self, start, list, blockSize, numBlocks);
  }

  lemma TakenIsGranted(b0: seq<Block>, b3: seq<Block>, blockSize: u64, numBlocks: u64, self: u64, start: u64, list: u64)
    requires Taken(b0, b3, Bytes(numBlocks, blockSize), Bytes(numBlocks, POINTER_SIZE), self, start, list)
    requires blockSize != 0 && numBlocks != 0
    ensures Creates(b0, blockSize, numBlocks)
  {
  }

  /** What the blocks of `bs` hold is kept while more blocks are live. */
  lemma PayloadsWithin(bs: seq<Block>, cs: seq<Block>, m: seq<u8>, v: seq<u8>, w: seq<u8>)
    requires PayloadsSame(bs, m, v) && PayloadsSame(cs, v, w) && Live(bs) <= Live(cs)
    requires |m| == |v| == |w|
    ensures PayloadsSame(bs, m, w)
  {
    forall x | x in bs && !x.free
      ensures Same(m, w, At(x.Payload()), At(x.End()))
    {
      assert x in Live(bs);
      assert x in Live(cs);
    }
  }

  /** pool_create's three allocations: all of them, or, when one fails, a heap that is exactly as before. */
  method TakeThree(h: KH.KernelHeap, total: u64, listBytes: u64) returns (self: u64, start: u64, list: u64)
    requires h.Valid()
    modifies h, h.mem
    ensures h.Valid()
    ensures self == 0 ==> h.blocks == old(h.blocks) && !AllGranted(h.blocks, total, listBytes)
    ensures self != 0 ==> Taken(old(h.blocks), h.blocks, total, listBytes, self, start, list)
    ensures PayloadsSame(old(h.blocks), old(h.mem[..]), h.mem[..])
  {
    start, list := 0, 0;
    ghost var b0, m0 := h.blocks, h.mem[..];
    self := h.Kmalloc(POOL_SIZE);
    MallocKeeps(b0, POOL_SIZE);
    if self == 0 {
      return;
    }
    ghost var b1, m1 := h.blocks, h.mem[..];
    start, list := TakeTwo(h, total, listBytes);
    PayloadsWithin(b0, b1, m0, m1, h.mem[..]);
    if start == 0 {
      Release(b0, POOL_SIZE);
      ghost var m2 := h.mem[..];
      h.Kfree(self);
      PayloadsWithin(b0, b0, m0, m2, h.mem[..]);
      return 0, 0, 0;
    }
  }

  /** The last two of them. */
  method TakeTwo(h: KH.KernelHeap, total: u64, listBytes: u64) returns (start: u64, list: u64)
    requires h.Valid()
    modifies h, h.mem
    ensures h.Valid()
    ensures start == 0 ==> h.blocks == old(h.blocks)
    ensures start == 0 ==>
              AllocResult(h.blocks, total) == 0 || AllocResult(Malloc(h.blocks, total), listBytes) == 0
    ensures start != 0 ==>
              var b1 := Malloc(old(h.blocks), total);
              && start == AllocResult(old(h.blocks), total)
              && h.blocks == Malloc(b1, listBytes) && list == AllocResult(b1, listBytes) != 0
    ensures PayloadsSame(old(h.blocks), old(h.mem[..]), h.mem[..])
  {
    list := 0;
    ghost var b1, m1 := h.blocks, h.mem[..];
    start := h.Kmalloc(total);
    MallocKeeps(b1, total);
    if start == 0 {
      return;
    }
    ghost var b2, m2 := h.blocks, h.mem[..];
    list := h.Kmalloc(listBytes);
    MallocKeeps(b2, listBytes);
    PayloadsWithin(b1, b2, m1, m2, h.mem[..]);
    if list == 0 {
      Release(b1, total);
      ghost var m3 := h.mem[..];
      h.Kfree(start);
      PayloadsWithin(b1, b1, m1, m3, h.mem[..]);
      return 0, 0;
    }
  }

  /** Three allocations in a row, all granted. */
  ghost predicate Taken(b0: seq<Block>, b3: seq<Block>, total: u64, listBytes: u64, self: u64, start: u64, list: u64) {
    var b1 := Malloc(b0, POOL_SIZE);
    var b2 := Malloc(b1, total);
    && b3 == Malloc(b2, listBytes) && self == AllocResult(b0, POOL_SIZE) != 0
    && start == AllocResult(b1, total) != 0 && list == AllocResult(b2, listBytes) != 0
  }

  lemma ThreeGranted(b0: seq<Block>, b3: seq<Block>, total: u64, listBytes: u64, self: u64, start: u64, list: u64)
    returns (k: Backing)
    requires WellFormed(b0) && Taken(b0, b3, total, listBytes, self, start, list)
    requires total + HEADER + 7 < TWO_64 && listBytes + HEADER + 7 < TWO_64
    ensures LiveAt(b3, self, k.self) && LiveAt(b3, start, k.chunk) && LiveAt(b3, list, k.list)
    ensures k.self != k.chunk && k.chunk != k.list && k.self != k.list && k.chunk.size >= total
    ensures Live(b3) == Live(b0) + k.All() && k.All() !! Live(b0)
  {
    var b1 := Malloc(b0, POOL_SIZE);
    var b2 := Malloc(b1, total);
    MallocKeeps(b0, POOL_SIZE);
    MallocKeeps(b1, total);
    var x := GrantedNonzero(b0, POOL_SIZE);
    var y := GrantedNonzero(b1, total);
    var z := GrantedNonzero(b2, listBytes);
    k := Backing(x, y, z);
    ThreeAdded(Live(b0), Live(b1), Live(b2), Live(b3), x, y, z);
  }

  lemma ThreeAdded(s0: set<Block>, s1: set<Block>, s2: set<Block>, s3: set<Block>, x: Block, y: Block, z: Block)
    requires s1 == s0 + {x} && s2 == s1 + {y} && s3 == s2 + {z} && x !in s0 && y !in s1 && z !in s2
    ensures s3 == s0 + {x, y, z} && {x, y, z} !! s0 && x != y && y != z && x != z && {x, y, z} <= s3
  {
  }

  lemma GrantedNonzero(bs: seq<Block>, size: u64) returns (b: Block)
    requires WellFormed(bs) && AllocResult(bs, size) != 0
    ensures b in Live(Malloc(bs, size)) && b !in Live(bs) && Live(Malloc(bs, size)) == Live(bs) + {b}
    ensures b.Payload() == AllocResult(bs, size) && (size + HEADER + 7 < TWO_64 ==> b.size >= size)
  {
    b := Granted(bs, size);
  }

  /** What kfree needs, and does, when it takes back the newest allocation. */
  lemma Release(bs: seq<Block>, size: u64)
    requires WellFormed(bs) && AllocResult(bs, size) != 0
    ensures Find(Malloc(bs, size), AllocResult(bs, size)) < |Malloc(bs, size)|
    ensures Free(Malloc(bs, size), AllocResult(bs, size)) == bs
  {
    var b := Granted(bs, size);
    MallocKeeps(bs, size);
    FindUnique(Malloc(bs, size), b);
    FreeUndoesMalloc(bs, size);
  }

  lemma ChunkFits(bs: seq<Block>, b: Block, start: u64, blockSize: u64, numBlocks: u64)
    requires WellFormed(bs) && b in Live(bs) && b.Payload() == start && b.size >= numBlocks * blockSize
    ensures BlockAddress(start, blockSize, numBlocks) <= HEAP_TOP && 0 < start
  {
    TiledBounds(bs, HEAP_BASE, HEAP_TOP);
  }

  /**
   * pool_create's product wraps modulo 2^64, and so may kmalloc's sum: the blocks of a pool lie in
   * the chunk that it was granted exactly when neither does.
   */
  lemma ChunkHolds(bs: seq<Block>, blockSize: u64, numBlocks: u64, chunk: Block)
    requires WellFormed(bs) && AllocResult(bs, numBlocks * blockSize % TWO_64) != 0
    requires var ms := Malloc(bs, numBlocks * blockSize % TWO_64);
             chunk in ms && chunk.Payload() == AllocResult(bs, numBlocks * blockSize % TWO_64)
    ensures BlockAddress(chunk.Payload(), blockSize, numBlocks) <= chunk.End() <==>
            numBlocks * blockSize + HEADER + 7 < TWO_64
  {
    Nonneg(numBlocks, blockSize);
    ProductFits(bs, numBlocks * blockSize, numBlocks * blockSize % TWO_64, chunk);
  }

  lemma ProductFits(bs: seq<Block>, product: nat, size: u64, chunk: Block)
    requires WellFormed(bs) && size == product % TWO_64 && AllocResult(bs, size) != 0
    requires chunk in Malloc(bs, size) && chunk.Payload() == AllocResult(bs, size)
    ensures product <= chunk.size <==> product + HEADER + 7 < TWO_64
  {
    LargeEnough(bs, size, chunk);
    MallocKeeps(bs, size);
    TiledBounds(Malloc(bs, size), HEAP_BASE, HEAP_TOP);
    assert product >= TWO_64 || product == size;
  }

  /** pool_destroy on a pool that exists: its three heap blocks are free again, nothing else changes owner. */
  method PoolDestroy(h: KH.KernelHeap, pool: MemoryPool, ghost k: Backing)
    requires h.Valid() && Backed(h.blocks, pool, k) && 0 < pool.poolStart && 0 < pool.listAt
    modifies h, h.mem
    ensures h.Valid() && Live(h.blocks) == old(Live(h.blocks)) - k.All()
    ensures PayloadsSame(h.blocks, old(h.mem[..]), h.mem[..])
  {
    FreeThree(h, pool.poolStart, pool.listAt, pool.self, k);
  }

  method FreeThree(h: KH.KernelHeap, start: u64, list: u64, self: u64, ghost k: Backing)
    requires h.Valid()
    requires LiveAt(h.blocks, start, k.chunk) && LiveAt(h.blocks, list, k.list) && LiveAt(h.blocks, self, k.self)
    requires k.self != k.chunk && k.chunk != k.list && k.self != k.list
    modifies h, h.mem
    ensures h.Valid() && Live(h.blocks) == old(Live(h.blocks)) - k.All()
    ensures PayloadsSame(h.blocks, old(h.mem[..]), h.mem[..])
  {
    ghost var b0, m0 := h.blocks, h.mem[..];
    FreeLive(h, start, k.chunk);
    ghost var b1, m1 := h.blocks, h.mem[..];
    OthersLive(b0, b1, start, list, self, k);
    FreeTwo(h, list, self, k);
    ThreeGone(Live(b0), Live(b1), Live(h.blocks), k);
    PayloadsLeft(b1, h.blocks, m0, m1, h.mem[..]);
  }

  lemma OthersLive(b0: seq<Block>, b1: seq<Block>, start: u64, list: u64, self: u64, k: Backing)
    requires LiveAt(b0, start, k.chunk) && LiveAt(b0, list, k.list) && LiveAt(b0, self, k.self)
    requires k.self != k.chunk && k.chunk != k.list && Live(b1) == Live(b0) - {k.chunk}
    ensures LiveAt(b1, list, k.list) && LiveAt(b1, self, k.self)
  {
  }

  lemma ThreeGone(s0: set<Block>, s1: set<Block>, s2: set<Block>, k: Backing)
    requires s1 == s0 - {k.chunk} && s2 == s1 - {k.list} - {k.self}
    ensures s2 == s0 - k.All() && s2 <= s1
  {
  }

  /** What the blocks that are still live hold was kept, also while more blocks were live. */
  lemma PayloadsLeft(bs: seq<Block>, cs: seq<Block>, m: seq<u8>, v: seq<u8>, w: seq<u8>)
    requires PayloadsSame(bs, m, v) && PayloadsSame(cs, v, w) && Live(cs) <= Live(bs)
    requires |m| == |v| == |w|
    ensures PayloadsSame(cs, m, w)
  {
    forall x | x in cs && !x.free
      ensures Same(m, w, At(x.Payload()), At(x.End()))
    {
      assert x in Live(cs);
      assert x in Live(bs);
    }
  }

  method FreeTwo(h: KH.KernelHeap, list: u64, self: u64, ghost k: Backing)
    requires h.Valid() && LiveAt(h.blocks, list, k.list) && LiveAt(h.blocks, self, k.self) && k.self != k.list
    modifies h, h.mem
    ensures h.Valid() && Live(h.blocks) == old(Live(h.blocks)) - {k.list} - {k.self}
    ensures PayloadsSame(h.blocks, old(h.mem[..]), h.mem[..])
  {
    ghost var m0 := h.mem[..];
    FreeLive(h, list, k.list);
    ghost var bs, m1 := h.blocks, h.mem[..];
    FreeLive(h, self, k.self);
    PayloadsLeft(bs, h.blocks, m0, m1, h.mem[..]);
  }

  /** kfree on a live object. */
  method FreeLive(h: KH.KernelHeap, p: u64, ghost b: Block)
    requires h.Valid() && LiveAt(h.blocks, p, b)
    modifies h, h.mem
    ensures h.Valid() && Live(h.blocks) == old(Live(h.blocks)) - {b}
    ensures h.blocks == HeapBlocks.Free(old(h.blocks), p)
    ensures PayloadsSame(h.blocks, old(h.mem[..]), h.mem[..])
  {
    FindUnique(h.blocks, b);
    FreeKeeps(h.blocks, p);
    h.Kfree(p);
  }

  /** Creating a pool and destroying it leaves the heap exactly as it was. */
  method CreateAndDestroy(h: KH.KernelHeap, blockSize: u64, numBlocks: u64)
    requires h.Valid() && Sized(h.blocks, blockSize, numBlocks)
    modifies h, h.mem
    ensures h.Valid() && h.blocks == old(h.blocks)
  {
    ghost var bs := h.blocks;
    var pool, k := PoolCreate(h, blockSize, numBlocks);
    if pool != null {
      TiledBounds(h.blocks, HEAP_BASE, HEAP_TOP);
      PoolDestroy(h, pool, k);
      Determined(h.blocks, bs, HEAP_BASE, HEAP_TOP);
    }
  }
}
