/** Exactly which block kmalloc grants, how large it is, and what krealloc does, in terms of the blocks alone. */
module HeapSplits {
  import opened Machine
  import opened HeapBlocks
  import opened HeapRuns
  import opened HeapLayout

  /** Block `i` is the first free one of at least `need` bytes. */
  ghost predicate FirstFree(bs: seq<Block>, need: int, i: nat) {
    && i < |bs| && bs[i].free && bs[i].size >= need
    && forall j :: 0 <= j < i ==> !(bs[j].free && bs[j].size >= need)
  }

  /** The size looked for: the header's 32 bytes are added once more, and the sum is rounded up to a multiple of 8. */
  lemma Rounding(size: u64)
    requires size + 39 < TWO_64
    ensures size + 32 <= TotalSize(size) < size + 40 && TotalSize(size) % 8 == 0
  {
  }

  /**
   * kmalloc cuts the block it takes to size exactly when at least 96 bytes would remain, the
   * header of the remainder included; otherwise it grants the block whole. No other block changes.
   */
  lemma SplitExactly(bs: seq<Block>, size: u64, need: int, i: nat)
    requires size != 0 && need == TotalSize(size) && FirstFree(bs, need, i)
    ensures var x := bs[i];
            && AllocResult(bs, size) == x.addr + 32
            && Malloc(bs, size) ==
               if x.size - need >= 96
               then
                 bs[..i]
                 + [Block(x.addr, need, false), Block(x.addr + 32 + need, x.size - need - 32, true)]
                 + bs[i + 1..]
               else bs[..i] + [Block(x.addr, x.size, false)] + bs[i + 1..]
  {
    var L, R := bs[..i], bs[i + 1..];
    assert bs == L + [bs[i]] + R;
    assert forall j :: 0 <= j < i ==> L[j] == bs[j];
    MallocAt(L, bs[i], R, size);
  }

  /** No granted block exceeds what was asked for by more than 127 bytes. */
  lemma GrantedAtMost(bs: seq<Block>, size: u64) returns (b: Block)
    requires WellFormed(bs) && AllocResult(bs, size) != 0 && size + 39 < TWO_64
    ensures b in Malloc(bs, size) && !b.free && b.Payload() == AllocResult(bs, size)
    ensures size + 32 <= b.size <= size + 127
  {
    var need := TotalSize(size);
    var i := FirstFit(bs, need);
    Rounding(size);
    SplitExactly(bs, size, need, i);
    TiledBounds(bs, HEAP_BASE, HEAP_TOP);
    assert bs[i] in bs;
    b := Malloc(bs, size)[i];
  }

  /** What krealloc does with the object of the live block `b`. */
  lemma ReallocCases(bs: seq<Block>, b: Block, size: u64)
    requires WellFormed(bs) && b in Live(bs)
    ensures var p := b.Payload();
            var r, cs := ReallocResult(bs, p, size), Realloc(bs, p, size);
            if size == 0 then r == 0 && Live(cs) == Live(bs) - {b}
            else if size <= b.size then r == p && cs == bs
            else if AllocResult(bs, size) == 0 then r == 0 && cs == bs
            else r == AllocResult(bs, size) && r != p && b !in Live(cs)
                 && exists c :: c in Live(cs) && c.Payload() == r && Live(cs) == Live(bs) - {b} + {c}
  {
    var p := b.Payload();
    FindUnique(bs, b);
    TiledBounds(bs, HEAP_BASE, HEAP_TOP);
    if size == 0 {
      FreeKeeps(bs, p);
    } else if size > b.size && AllocResult(bs, size) != 0 {
      var c := Moved(bs, b, size);
    }
  }

  /** The object moves: a block is granted, and then the old one is freed. */
  lemma Moved(bs: seq<Block>, b: Block, size: u64) returns (c: Block)
    requires WellFormed(bs) && b in Live(bs) && AllocResult(bs, size) != 0
    ensures c.Payload() == AllocResult(bs, size) != b.Payload()
    ensures var cs := Free(Malloc(bs, size), b.Payload());
            b !in Live(cs) && c in Live(cs) && Live(cs) == Live(bs) - {b} + {c}
  {
    var ms := Malloc(bs, size);
    c := Granted(bs, size);
    MallocKeeps(bs, size);
    assert b in Live(ms) && c in Live(ms);
    FindUnique(ms, b);
    FindUnique(ms, c);
    FreeKeeps(ms, b.Payload());
  }

  // ---- One run in numbers ----

  const TWO_LIVE := [Block(HEAP_BASE, 1032, false), Block(HEAP_BASE + 1064, 48, false),
                     Block(HEAP_BASE + 1144, HEAP_SIZE - 1176, true)]
  const ONE_HOLE := [Block(HEAP_BASE, 1032, true), Block(HEAP_BASE + 1064, 48, false),
                     Block(HEAP_BASE + 1144, HEAP_SIZE - 1176, true)]
  const HALF_HOLE := [Block(HEAP_BASE, 136, false), Block(HEAP_BASE + 168, 864, true),
                      Block(HEAP_BASE + 1064, 48, false), Block(HEAP_BASE + 1144, HEAP_SIZE - 1176, true)]
  const NO_HOLE := [Block(HEAP_BASE, 136, false), Block(HEAP_BASE + 168, 136, false), Block(HEAP_BASE + 336, 696, true),
                    Block(HEAP_BASE + 1064, 48, false), Block(HEAP_BASE + 1144, HEAP_SIZE - 1176, true)]

  lemma TwoAllocations()
    ensures AllocResult(INITIAL, 1000) == HEAP_BASE + 32
    ensures AllocResult(Malloc(INITIAL, 1000), 16) == HEAP_BASE + 1096
    ensures Malloc(Malloc(INITIAL, 1000), 16) == TWO_LIVE
  {
    SplitExactly(INITIAL, 1000, 1032, 0);
    var b1 := [Block(HEAP_BASE, 1032, false), Block(HEAP_BASE + 1064, HEAP_SIZE - 1096, true)];
    assert Malloc(INITIAL, 1000) == b1;
    SplitExactly(b1, 16, 48, 1);
    assert Malloc(b1, 16) == TWO_LIVE;
  }

  lemma FirstFreed()
    ensures Free(TWO_LIVE, HEAP_BASE + 32) == ONE_HOLE
  {
    assert Find(TWO_LIVE, HEAP_BASE + 32) == 0;
  }

  lemma HoleSplit()
    ensures AllocResult(ONE_HOLE, 100) == HEAP_BASE + 32 && Malloc(ONE_HOLE, 100) == HALF_HOLE
  {
    SplitExactly(ONE_HOLE, 100, 136, 0);
    assert Malloc(ONE_HOLE, 100) == HALF_HOLE;
  }

  lemma HoleSplitAgain()
    ensures AllocResult(HALF_HOLE, 100) == HEAP_BASE + 200 && Malloc(HALF_HOLE, 100) == NO_HOLE
  {
    SplitExactly(HALF_HOLE, 100, 136, 1);
    assert Malloc(HALF_HOLE, 100) == NO_HOLE;
  }

  /**
   * kmalloc(1000), kmalloc(16), kfree of the first, and then twice kmalloc(100): both find room in
   * the hole, one behind the other.
   */
  lemma HoleIsShared(b1: seq<Block>, b2: seq<Block>, b3: seq<Block>, b4: seq<Block>)
    requires b1 == Malloc(INITIAL, 1000) && b2 == Malloc(b1, 16) && b3 == Free(b2, AllocResult(INITIAL, 1000))
    requires b4 == Malloc(b3, 100)
    ensures AllocResult(INITIAL, 1000) == AllocResult(b3, 100) == HEAP_BASE + 32
    ensures AllocResult(b1, 16) == HEAP_BASE + 1096 && AllocResult(b4, 100) == HEAP_BASE + 200
    ensures Malloc(b4, 100) == NO_HOLE
  {
    TwoAllocations();
    FirstFreed();
    HoleSplit();
    HoleSplitAgain();
  }

  /** The fields of a header in memory: the size, one byte for the flag, and the two links, 32 bytes in all. */
  lemma HeaderBytes(m: seq<u8>, a: int, h: Header)
    requires HeaderFits(m, a) && h == HeaderAt(m, a)
    ensures var i := a - 0x100_0000;
            && 0 <= i && i + 32 <= |m| == 0x400_0000
            && h.size == Decode(m[i..i + 8]) && h.flag == m[i + 8]
            && h.next == Decode(m[i + 16..i + 24]) && h.prev == Decode(m[i + 24..i + 32])
  {
  }
}
