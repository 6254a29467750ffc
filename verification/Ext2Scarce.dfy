/** A heap and a file on which ext2_read delivers zeros in place of the file's bytes. */
module Ext2Scarce {
  import opened Machine
  import opened HeapBlocks
  import opened HeapRuns
  import opened Ext2Layout
  import opened Ext2Blocks
  import opened Ext2Files

  /** After heap_init, an allocation that leaves room for one block buffer of 1024 bytes, and not for two. */
  const SCARCE: u64 := 67_107_712

  lemma ScarceHeap(bs: seq<Block>)
    requires bs == Run(INITIAL, [Kmalloc(SCARCE)])
    ensures AllocResult(bs, 1024) != 0 && !RoomForTwo(bs, 1024)
  {
    var need := TotalSize(SCARCE);
    RunOne(INITIAL, Kmalloc(SCARCE));
    MallocAt([], INITIAL[0], [], SCARCE);
    assert INITIAL == [] + [INITIAL[0]] + [];
    var a, b := Carve(INITIAL[0], need)[0], Carve(INITIAL[0], need)[1];
    assert bs == [a] + [b] + [] && b.size == TotalSize(1024);
    MallocAt([a], b, [], 1024);
    var c := Carve(b, TotalSize(1024))[0];
    assert Malloc(bs, 1024) == [a] + [c] + [];
    NoFit([a] + [c] + [], TotalSize(1024));
  }

  /** A volume of three blocks: block 1 points to block 2, which begins with a 7. */
  function TinyVolume(): (v: Volume)
    ensures Sound(v) && v.blockSize == 1024
  {
    Volume(seq(3072, i => if i == 1024 then 2 else if i == 2048 then 7 else 0), 0, 1024, 1, 128, _ => 0)
  }

  /** A file of 12289 bytes: a hole but for its last byte, which is the first of block 2. */
  function TinyFile(): Inode {
    seq(128, i => if i == 4 || i == 88 then 1 else if i == 5 then 48 else 0)
  }

  lemma TinyPointers(v: Volume, n: Inode)
    requires v == TinyVolume() && n == TinyFile()
    ensures BlockPointer(n, 12) == 1 && Pointer(v, 1, 0) == 2 && Size(n) == 12289
  {
    assert n[88] == 1 && n[89] == n[90] == n[91] == 0;
    assert n[4] == 1 && n[5] == 48 && n[6] == n[7] == 0 && n[108] == n[109] == n[110] == n[111] == 0;
    var b := BlockBytes(v, 1);
    assert FirstSector(v, 1) == 2;
    assert b == v.image[1024..2048];
    assert b[0] == 2 && b[1] == b[2] == b[3] == 0;
  }

  /** Block 12 of a file is the first its single indirect block points to. */
  lemma FirstIndirect(v: Volume, n: Inode, p: u32, q: u32)
    requires Sound(v) && p == BlockPointer(n, 12) && p != 0 && q == Pointer(v, p, 0)
    ensures FileBlock(v, n, 12) == q
  {
    FirstLeaf(v, p, q, 0, 0);
    SingleBlock(v, n, 12, q);
  }

  lemma FirstLeaf(v: Volume, p: u32, q: u32, d: nat, i: nat)
    requires Sound(v) && p != 0 && d == i == 0 && q == Pointer(v, p, i)
    ensures LeafIs(v, p, d + 1, i, q)
  {
    LeafStep(v, p, d, Span(v, d), i, i, i, q, q);
  }

  lemma TinyByte(v: Volume)
    requires v == TinyVolume()
    ensures DataBlock(v, 2)[0] == 7
  {
    assert FirstSector(v, 2) == 4;
    assert BlockBytes(v, 2) == v.image[2048..3072];
  }

  lemma ThirteenBlocks(v: Volume)
    requires Sound(v) && v.blockSize == 1024
    ensures 12289 <= Limit(v) == MaxBlocks(v) * 1024
  {
    var rest := MaxBlocks(v) - 13;
    assert rest >= 0;
    assert MaxBlocks(v) * 1024 == 13 * 1024 + rest * 1024;
  }

  lemma TinyContents(v: Volume, n: Inode)
    requires v == TinyVolume() && n == TinyFile()
    ensures |Contents(v, n)| == Limit(v) >= 12289 && Contents(v, n)[12288] == 7
  {
    ThirteenBlocks(v);
    ContentsLimit(v, n);
    TinyPointers(v, n);
    FirstIndirect(v, n, 1, 2);
    TinyByte(v);
    ContentsAt(v, n, 12288);
    assert 12288 / v.blockSize == 12 && 12288 % v.blockSize == 0;
  }

  /** On that heap a read of the last byte of that file succeeds, and delivers 0 for 7. */
  lemma ZeroForSeven(bs: seq<Block>, v: Volume, n: Inode, was: seq<u8>, now: seq<u8>, pos: u64, r: int)
    requires bs == Run(INITIAL, [Kmalloc(SCARCE)]) && v == TinyVolume() && n == TinyFile()
    requires ReadDone(v, n, Visible(bs, v.blockSize, n), 12288, 1, was, now, pos, r, true)
    ensures r == 1 && pos == 12289 && now != [] && now[0] == 0
    ensures 12288 < |Contents(v, n)| && Contents(v, n)[12288] == 7
  {
    ScarceHeap(bs);
    TinyPointers(v, n);
    TinyContents(v, n);
    SightLength(v, n, DirectOnly(n));
    DirectContents(v, n, 12288);
    LastByte(SightOf(v, n, DirectOnly(n)), was, now, pos, r);
  }

  lemma LastByte(x: Sight, was: seq<u8>, now: seq<u8>, pos: u64, r: int)
    requires |x.file| == |x.seen| > 12288 && Delivered(x, 12289, 12288, 1, was, now, pos, r, true)
    ensures r == 1 && pos == 12289 && now != [] && now[0] == x.seen[12288]
  {
    assert now[..1][0] == x.seen[12288..12289][0];
  }
}
