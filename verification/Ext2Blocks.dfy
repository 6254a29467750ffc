/** The block and inode reads of the ext2 driver, through buffers taken from the kernel heap. */
module Ext2Blocks {
  import opened Machine
  import opened HeapBlocks
  import opened HeapRuns
  import opened HeapLayout
  import opened MemoryPool
  import opened Ext2Layout
  import HH = HeapHeaders
  import KH = KernelHeap
  import BD = BlockDevice

  /** The payloads of all live blocks but `b` hold the same bytes in `m` and `w`. */
  ghost predicate OthersSame(bs: seq<Block>, b: Block, m: seq<u8>, w: seq<u8>) {
    forall x :: x in bs && !x.free && x != b ==> Same(m, w, At(x.Payload()), At(x.End()))
  }

  /** What kmalloc grants for a temporary buffer, and that kfree will take it back without a trace. */
  lemma Buffer(bs: seq<Block>, size: u64) returns (b: Block)
    requires WellFormed(bs) && AllocResult(bs, size) != 0 && size + HEADER + 7 < TWO_64
    ensures LiveAt(Malloc(bs, size), AllocResult(bs, size), b) && b.size >= size && b !in Live(bs)
    ensures Live(Malloc(bs, size)) == Live(bs) + {b}
    ensures Find(Malloc(bs, size), AllocResult(bs, size)) < |Malloc(bs, size)|
    ensures Free(Malloc(bs, size), AllocResult(bs, size)) == bs
    ensures HEAP_BASE <= b.Payload() && b.End() <= HEAP_TOP
  {
    b := GrantedNonzero(bs, size);
    Release(bs, size);
    MallocKeeps(bs, size);
    TiledBounds(Malloc(bs, size), HEAP_BASE, HEAP_TOP);
  }

  /** Taking a buffer, filling it and freeing it leaves every other payload as it was. */
  lemma BufferPayloads(bs: seq<Block>, ms: seq<Block>, b: Block, m0: seq<u8>, m1: seq<u8>, m2: seq<u8>, m3: seq<u8>)
    requires Live(ms) == Live(bs) + {b} && b !in Live(bs)
    requires PayloadsSame(bs, m0, m1) && OthersSame(ms, b, m1, m2) && PayloadsSame(bs, m2, m3)
    ensures PayloadsSame(bs, m0, m3)
  {
    forall x | x in bs && !x.free
      ensures Same(m0, m3, At(x.Payload()), At(x.End()))
    {
      assert x in Live(bs);
      assert x in Live(ms);
    }
  }

  /** A word of a block that lies in memory. */
  lemma WordInside(m: seq<u8>, at: nat, blk: seq<u8>, i: nat)
    requires at + |blk| <= |m| && m[at..at + |blk|] == blk && i + 4 <= |blk|
    ensures Load32(m, at + i) == Load32(blk, i)
  {
    var w, x := m[at..at + |blk|], m[at + i..at + i + 4];
    assert |x| == 4 && forall k :: 0 <= k < 4 ==> x[k] == w[i + k];
    assert w[i..i + 4] == x;
  }

  /** An ext2_inode_t in memory, which kread_inode fills. */
  class InodeRecord {
    var bytes: Inode

    constructor (bytes: Inode)
      ensures this.bytes == bytes
    {
      this.bytes := bytes;
    }
  }

  /** The first `k` bytes of `n`, and behind them what was there. */
  function Torn(n: Inode, was: Inode, k: nat): Inode
    requires k <= 128
  {
    n[..k] + was[k..]
  }

  /** How far the block that an inode starts in reaches from there. */
  function HeadOf(v: Volume, ino: u32): int
    requires Sound(v) && ino != 0
  {
    v.blockSize - InodeOffset(v, ino) % v.blockSize
  }

  /**
   * What kread_inode made of the record that held `was`, after `served` reads that did not fail:
   * the inode, or nothing, or the part of it in the first of its two blocks.
   */
  ghost predicate Copied(ok: bool, served: int, n: Inode, head: int, was: Inode, now: Inode) {
    if ok then now == n
    else if served == 0 then now == was
    else 0 < head < 128 && now == Torn(n, was, head)
  }

  class Reader {
    const device: BD.BlockDevice
    const heap: KH.KernelHeap
    const baseLba: u64
    const blockSize: u32
    const inodesPerGroup: u32
    const inodeSize: u16
    /** inode_table of a group's descriptor, as ext2_mount left it in memory. */
    const tables: u32 -> u32

    constructor (device: BD.BlockDevice, heap: KH.KernelHeap, baseLba: u64, blockSize: u32,
                 inodesPerGroup: u32, inodeSize: u16, tables: u32 -> u32)
      requires (blockSize == 1024 || blockSize == 2048 || blockSize == 4096) && inodesPerGroup > 0 && heap.Valid()
      ensures this.device == device && this.heap == heap && Ready()
      ensures Vol() == Volume(device.image, baseLba, blockSize, inodesPerGroup, inodeSize, tables)
    {
      this.device, this.heap, this.baseLba, this.blockSize := device, heap, baseLba, blockSize;
      this.inodesPerGroup, this.inodeSize, this.tables := inodesPerGroup, inodeSize, tables;
    }

    ghost function Vol(): Volume {
      Volume(device.image, baseLba, blockSize, inodesPerGroup, inodeSize, tables)
    }

    ghost predicate Ready()
      reads heap, heap.mem
    {
      heap.Valid() && Sound(Vol())
    }

    /** kmalloc can grant a block buffer. */
    ghost predicate Room()
      reads heap
    {
      AllocResult(heap.blocks, blockSize) != 0
    }

    /** kread_block into the live heap block `b`. */
    method KreadBlock(id: u32, p: u64, ghost b: Block) returns (r: int)
      requires Ready() && LiveAt(heap.blocks, p, b) && b.size >= blockSize
      modifies device, heap.mem
      ensures Ready() && device.faults >= old(device.faults) && (r == 0 <==> device.faults == old(device.faults))
      ensures device.served == old(device.served) + if r == 0 then 1 else 0
      ensures HEAP_BASE <= p && p + blockSize <= HEAP_TOP
      ensures r == 0 ==> heap.mem[At(p)..At(p) + blockSize] == BlockBytes(Vol(), id)
      ensures OthersSame(heap.blocks, b, old(heap.mem[..]), heap.mem[..])
    {
      ghost var m := heap.mem[..];
      TiledBounds(heap.blocks, HEAP_BASE, HEAP_TOP);
      r := KreadSectors(id, heap.mem, At(p));
      HH.OwnerStore(m, heap.mem[..], heap.headers, heap.blocks, b);
    }

    /** kread_block and kread_sectors, on a memory whose bytes from index `at` on take the block. */
    method KreadSectors(id: u32, mem: array<u8>, at: nat) returns (r: int)
      requires Sound(Vol()) && at + blockSize <= mem.Length
      modifies device, mem
      ensures device.faults >= old(device.faults) && (r == 0 <==> device.faults == old(device.faults))
      ensures device.served == old(device.served) + if r == 0 then 1 else 0
      ensures Same(old(mem[..]), mem[..], 0, at) && Same(old(mem[..]), mem[..], at + blockSize, mem.Length)
      ensures r == 0 ==> mem[at..at + blockSize] == BlockBytes(Vol(), id)
    {
      var first := (baseLba + id * blockSize / 512) % TWO_64;
      var count := blockSize / 512;
      assert count * 512 == blockSize;
      r := device.ReadSectors(first, count, mem, at);
    }

    /** The reader's repeated step: take a buffer, read an indirect block, pick one pointer, free the buffer. */
    method Fetch(id: u32, index: nat) returns (ok: bool, v: u32)
      requires Ready() && index < Fanout(Vol())
      modifies device, heap, heap.mem
      ensures Ready() && heap.blocks == old(heap.blocks)
      ensures PayloadsSame(heap.blocks, old(heap.mem[..]), heap.mem[..])
      ensures device.faults >= old(device.faults)
      ensures ok <==> Room() && device.faults == old(device.faults)
      ensures ok ==> v == Pointer(Vol(), id, index)
    {
      ghost var bs, m0 := heap.blocks, heap.mem[..];
      v := 0;
      var buf := heap.Kmalloc(blockSize);
      if buf == 0 {
        MallocKeeps(bs, blockSize);
        return false, 0;
      }
      ghost var b := Buffer(bs, blockSize);
      ghost var ms, m1 := heap.blocks, heap.mem[..];
      ok, v := ReadPointer(id, index, buf, b);
      ghost var m2 := heap.mem[..];
      heap.Kfree(buf);
      BufferPayloads(bs, ms, b, m0, m1, m2, heap.mem[..]);
    }

    /** Reads block `id` into the buffer and takes the pointer at `index` from it. */
    method ReadPointer(id: u32, index: nat, buf: u64, ghost b: Block) returns (ok: bool, v: u32)
      requires Ready() && index < Fanout(Vol()) && LiveAt(heap.blocks, buf, b) && b.size >= blockSize
      modifies device, heap.mem
      ensures Ready() && device.faults >= old(device.faults) && (ok <==> device.faults == old(device.faults))
      ensures ok ==> v == Pointer(Vol(), id, index)
      ensures OthersSame(heap.blocks, b, old(heap.mem[..]), heap.mem[..])
    {
      var r := KreadBlock(id, buf, b);
      if r != 0 {
        return false, 0;
      }
      ok, v := true, Load32(heap.mem[..], At(buf) + 4 * index);
      WordInside(heap.mem[..], At(buf), BlockBytes(Vol(), id), 4 * index);
    }

    // ---- kget_file_block ----

    /** Below a single indirect pointer. */
    method FollowSingle(p: u32, l: nat) returns (r: u32)
      requires Ready() && l < Fanout(Vol())
      modifies device, heap, heap.mem
      ensures Ready() && heap.blocks == old(heap.blocks)
      ensures PayloadsSame(heap.blocks, old(heap.mem[..]), heap.mem[..])
      ensures device.faults >= old(device.faults)
      ensures Room() && device.faults == old(device.faults) ==> LeafIs(Vol(), p, 1, l, r)
      ensures !Room() || device.faults > old(device.faults) ==> r == 0
    {
      if p == 0 {
        NoLeaf(Vol(), 1, l, Fanout(Vol()));
        return 0;
      }
      var ok, q := Fetch(p, l);
      if !ok {
        return 0;
      }
      LeafStep(Vol(), p, 0, 1, l, 0, l, q, q);
      return q;
    }

    /** Below a double indirect pointer. */
    method FollowDouble(p: u32, j: nat, l: nat) returns (r: u32)
      requires Ready() && j < Fanout(Vol()) && l < Fanout(Vol())
      modifies device, heap, heap.mem
      ensures Ready() && heap.blocks == old(heap.blocks)
      ensures PayloadsSame(heap.blocks, old(heap.mem[..]), heap.mem[..])
      ensures device.faults >= old(device.faults)
      ensures Room() && device.faults == old(device.faults) ==> LeafIs(Vol(), p, 2, Number2(Vol(), j, l), r)
      ensures !Room() || device.faults > old(device.faults) ==> r == 0
    {
      if p == 0 {
        NoDouble(Vol(), j, l);
        return 0;
      }
      ghost var m0 := heap.mem[..];
      var ok, q := Fetch(p, j);
      if !ok {
        return 0;
      }
      ghost var m1 := heap.mem[..];
      r := FollowSingle(q, l);
      PayloadsChain(heap.blocks, m0, m1, heap.mem[..]);
      if Room() && device.faults == old(device.faults) {
        DoubleStep(Vol(), p, j, l, q, r);
      }
    }

    /** Below a triple indirect pointer. */
    method FollowTriple(p: u32, i: nat, j: nat, l: nat) returns (r: u32)
      requires Ready() && i < Fanout(Vol()) && j < Fanout(Vol()) && l < Fanout(Vol())
      modifies device, heap, heap.mem
      ensures Ready() && heap.blocks == old(heap.blocks)
      ensures PayloadsSame(heap.blocks, old(heap.mem[..]), heap.mem[..])
      ensures device.faults >= old(device.faults)
      ensures Room() && device.faults == old(device.faults) ==> LeafIs(Vol(), p, 3, Number3(Vol(), i, j, l), r)
      ensures !Room() || device.faults > old(device.faults) ==> r == 0
    {
      if p == 0 {
        NoTriple(Vol(), i, j, l);
        return 0;
      }
      ghost var m0 := heap.mem[..];
      var ok, q := Fetch(p, i);
      if !ok {
        return 0;
      }
      ghost var m1 := heap.mem[..];
      r := FollowDouble(q, j, l);
      PayloadsChain(heap.blocks, m0, m1, heap.mem[..]);
      if Room() && device.faults == old(device.faults) {
        TripleStep(Vol(), p, i, j, l, q, r);
      }
    }

    /**
     * kget_file_block: leaf `k` of the file's block tree, or 0 beyond its last leaf. 0 also
     * stands for a read or an allocation that failed on the way; a direct block needs neither.
     */
    method KgetFileBlock(inode: Inode, k: u64) returns (r: u32)
      requires Ready()
      modifies device, heap, heap.mem
      ensures Ready() && heap.blocks == old(heap.blocks)
      ensures PayloadsSame(heap.blocks, old(heap.mem[..]), heap.mem[..])
      ensures device.faults >= old(device.faults)
      ensures k < 12 ==> device.faults == old(device.faults)
      ensures r == if k < 12 || (Room() && device.faults == old(device.faults)) then FileBlock(Vol(), inode, k) else 0
    {
      var b := blockSize / 4;
      if k < 12 {
        DirectBlock(Vol(), inode, k);
        return BlockPointer(inode, k);
      }
      if k < 12 + b {
        r := FollowSingle(BlockPointer(inode, 12), k - 12);
        SingleBlock(Vol(), inode, k, r);
        return;
      }
      var doubleStart, bb := 12 + b, Square(b);
      if k < doubleStart + bb {
        r := InDouble(inode, k, k - doubleStart, b, bb);
        return;
      }
      var tripleStart, bbb := doubleStart + bb, bb * b;
      if k < tripleStart + bbb {
        r := InTriple(inode, k, k - tripleStart, b, bb);
        return;
      }
      BeyondBlocks(Vol(), inode, k, b, bb);
      return 0;
    }

    /** The range of the double indirect block, `bb` blocks from block 12 + b on. */
    method InDouble(inode: Inode, k: nat, off: nat, b: nat, bb: nat) returns (r: u32)
      requires Ready() && b == Fanout(Vol()) && bb == Square(b) && off < bb && k == 12 + b + off
      modifies device, heap, heap.mem
      ensures Ready() && heap.blocks == old(heap.blocks)
      ensures PayloadsSame(heap.blocks, old(heap.mem[..]), heap.mem[..])
      ensures device.faults >= old(device.faults)
      ensures Room() && device.faults == old(device.faults) ==> r == FileBlock(Vol(), inode, k)
      ensures !Room() || device.faults > old(device.faults) ==> r == 0
    {
      var j, l := off / b, off % b;
      Split2(Vol(), off, b, j, l);
      r := FollowDouble(BlockPointer(inode, 13), j, l);
      DoubleBlock(Vol(), inode, k, off, j, l, r);
    }

    /** The range of the triple indirect block, behind the double one's. */
    method InTriple(inode: Inode, k: nat, off: nat, b: nat, bb: nat) returns (r: u32)
      requires Ready() && b == Fanout(Vol()) && bb == Square(b) && off < bb * b && k == 12 + b + bb + off
      modifies device, heap, heap.mem
      ensures Ready() && heap.blocks == old(heap.blocks)
      ensures PayloadsSame(heap.blocks, old(heap.mem[..]), heap.mem[..])
      ensures device.faults >= old(device.faults)
      ensures Room() && device.faults == old(device.faults) ==> r == FileBlock(Vol(), inode, k)
      ensures !Room() || device.faults > old(device.faults) ==> r == 0
    {
      var i, j, l := off / bb, off % bb / b, off % b;
      Split3(Vol(), off, b, bb, i, j, l);
      r := FollowTriple(BlockPointer(inode, 14), i, j, l);
      TripleBlock(Vol(), inode, k, off, i, j, l, r);
    }

    // ---- kread_inode ----

    /**
     * kread_inode: inode `ino` of the inode tables into the record `out`, also when it straddles
     * two blocks. If the read of the second block fails, `out` keeps what came from the first.
     */
    method KreadInode(ino: u32, out: InodeRecord) returns (r: int)
      requires Ready()
      modifies out, device, heap, heap.mem
      ensures Ready() && heap.blocks == old(heap.blocks)
      ensures PayloadsSame(heap.blocks, old(heap.mem[..]), heap.mem[..])
      ensures device.faults >= old(device.faults)
      ensures r == if ino == 0 then ERR_INVALID else if Room() && device.faults == old(device.faults) then 0 else ERR_IO
      ensures if ino == 0 then out.bytes == old(out.bytes)
              else Copied(r == 0, device.served - old(device.served), InodeOf(Vol(), ino), HeadOf(Vol(), ino),
                          old(out.bytes), out.bytes)
    {
      if ino == 0 {
        return ERR_INVALID;
      }
      var group, index := (ino - 1) / inodesPerGroup, (ino - 1) % inodesPerGroup;
      var stride := if inodeSize != 0 then inodeSize else 128;
      var offset := Multiply(index, stride);
      Located(Vol(), ino, group, offset);
      r := ReadTable(group, offset, out);
    }

    /** The rest of kread_inode: 128 bytes of the group's inode table, through a block buffer. */
    method ReadTable(group: u32, offset: nat, out: InodeRecord) returns (r: int)
      requires Ready()
      modifies out, device, heap, heap.mem
      ensures Ready() && heap.blocks == old(heap.blocks)
      ensures PayloadsSame(heap.blocks, old(heap.mem[..]), heap.mem[..])
      ensures device.faults >= old(device.faults)
      ensures r == if Room() && device.faults == old(device.faults) then 0 else ERR_IO
      ensures Copied(r == 0, device.served - old(device.served), TableBytes(Vol(), group, offset, 128),
                     blockSize - offset % blockSize, old(out.bytes), out.bytes)
    {
      ghost var bs, m0 := heap.blocks, heap.mem[..];
      var tmp := heap.Kmalloc(blockSize);
      if tmp == 0 {
        MallocKeeps(bs, blockSize);
        return ERR_IO;
      }
      ghost var b := Buffer(bs, blockSize);
      ghost var ms, m1 := heap.blocks, heap.mem[..];
      var ok := InodeBytes(group, offset, tmp, b, out);
      ghost var m2 := heap.mem[..];
      heap.Kfree(tmp);
      BufferPayloads(bs, ms, b, m0, m1, m2, heap.mem[..]);
      r := if ok then 0 else ERR_IO;
    }

    method InodeBytes(group: u32, offset: nat, p: u64, ghost b: Block, out: InodeRecord) returns (ok: bool)
      requires Ready() && LiveAt(heap.blocks, p, b) && b.size >= blockSize
      modifies out, device, heap.mem
      ensures Ready() && device.faults >= old(device.faults) && (ok <==> device.faults == old(device.faults))
      ensures Copied(ok, device.served - old(device.served), TableBytes(Vol(), group, offset, 128),
                     blockSize - offset % blockSize, old(out.bytes), out.bytes)
      ensures OthersSame(heap.blocks, b, old(heap.mem[..]), heap.mem[..])
    {
      var table, blkOffset, off := tables(group), offset / blockSize % TWO_32, offset % blockSize;
      var one, two := (table + blkOffset) % TWO_32, (table + blkOffset + 1) % TWO_32;
      InodeSpot(Vol(), group, offset, one, two, off);
      ok := Straddle(one, two, off, p, b, out);
    }

    /** The one or two block reads of kread_inode, and the copies out of the buffer. */
    method Straddle(one: u32, two: u32, off: nat, p: u64, ghost b: Block, out: InodeRecord) returns (ok: bool)
      requires Ready() && LiveAt(heap.blocks, p, b) && b.size >= blockSize && off < blockSize
      modifies out, device, heap.mem
      ensures Ready() && device.faults >= old(device.faults) && (ok <==> device.faults == old(device.faults))
      ensures Copied(ok, device.served - old(device.served),
                     (BlockBytes(Vol(), one) + BlockBytes(Vol(), two))[off..off + 128], blockSize - off,
                     old(out.bytes), out.bytes)
      ensures OthersSame(heap.blocks, b, old(heap.mem[..]), heap.mem[..])
    {
      var first := blockSize - off;
      ghost var was, m0 := out.bytes, heap.mem[..];
      TwoPieces(BlockBytes(Vol(), one), BlockBytes(Vol(), two), off, was);
      if first >= 128 {
        ok := ReadPart(one, p, b, off, 128, out, 0);
        return;
      }
      ok := ReadPart(one, p, b, off, first, out, 0);
      if !ok {
        return;
      }
      ghost var m1 := heap.mem[..];
      ok := ReadPart(two, p, b, 0, 128 - first, out, first);
      OthersChain(heap.blocks, b, m0, m1, heap.mem[..]);
    }

    /** kread_block into the buffer at `p`, and a copy of `count` bytes at offset `i` to byte `at` of `out`. */
    method ReadPart(id: u32, p: u64, ghost b: Block, i: nat, count: nat, out: InodeRecord, at: nat) returns (ok: bool)
      requires Ready() && LiveAt(heap.blocks, p, b) && b.size >= blockSize && i + count <= blockSize
      requires at + count <= 128
      modifies out, device, heap.mem
      ensures Ready() && device.faults >= old(device.faults) && (ok <==> device.faults == old(device.faults))
      ensures device.served == old(device.served) + if ok then 1 else 0
      ensures out.bytes == if ok then Put(old(out.bytes), at, BlockBytes(Vol(), id)[i..i + count]) else old(out.bytes)
      ensures OthersSame(heap.blocks, b, old(heap.mem[..]), heap.mem[..])
    {
      var r := KreadBlock(id, p, b);
      if r != 0 {
        return false;
      }
      ok := true;
      var s := CopyOut(p, i, i + count, BlockBytes(Vol(), id));
      out.bytes := Put(out.bytes, at, s);
    }

    /** A copy out of the buffer at `p`, which holds the block `blk`. */
    method CopyOut(p: u64, i: nat, j: nat, ghost blk: seq<u8>) returns (s: seq<u8>)
      requires HEAP_BASE <= p && At(p) + |blk| <= heap.mem.Length && heap.mem[At(p)..At(p) + |blk|] == blk
      requires i <= j <= |blk|
      ensures s == blk[i..j]
    {
      s := heap.mem[At(p) + i..At(p) + j];
      SliceOfSlice(heap.mem[..], At(p), |blk|, i, j);
    }
  }

  lemma OthersChain(bs: seq<Block>, b: Block, m: seq<u8>, v: seq<u8>, w: seq<u8>)
    requires OthersSame(bs, b, m, v) && OthersSame(bs, b, v, w)
    ensures OthersSame(bs, b, m, w)
  {
    forall x | x in bs && !x.free && x != b
      ensures Same(m, w, At(x.Payload()), At(x.End()))
    {
      assert Same(m, v, At(x.Payload()), At(x.End())) && Same(v, w, At(x.Payload()), At(x.End()));
    }
  }

  lemma SliceOfSlice(m: seq<u8>, at: nat, n: nat, i: nat, j: nat)
    requires at + n <= |m| && i <= j <= n
    ensures m[at..at + n][i..j] == m[at + i..at + j]
  {
    var x, y := m[at..at + n][i..j], m[at + i..at + j];
    assert |x| == |y| && forall k :: 0 <= k < |x| ==> x[k] == y[k];
  }

  /** Where kread_inode looks for an inode. */
  lemma Located(v: Volume, ino: u32, group: u32, offset: nat)
    requires Sound(v) && ino != 0 && group == (ino - 1) / v.inodesPerGroup
    requires offset == Multiply((ino - 1) % v.inodesPerGroup, Stride(v))
    ensures InodeOf(v, ino) == TableBytes(v, group, offset, 128)
    ensures HeadOf(v, ino) == v.blockSize - offset % v.blockSize
  {
  }

  /** Two consecutive blocks of an inode table. */
  ghost function TwoBlocks(v: Volume, table: u32, q: nat): seq<u8>
    requires Sound(v)
    ensures |TwoBlocks(v, table, q)| == 2 * v.blockSize
  {
    BlockBytes(v, (table + q) % TWO_32) + BlockBytes(v, (table + q + 1) % TWO_32)
  }

  /** How the pieces copied out of the blocks make up the inode `w`, in place of `was`. */
  lemma TwoPieces(one: seq<u8>, two: seq<u8>, off: nat, was: Inode)
    requires 128 <= |one| == |two| && off < |one|
    ensures var w, first := (one + two)[off..off + 128], |one| - off;
            if first >= 128 then Put(was, 0, one[off..off + 128]) == w
            else Put(was, 0, one[off..off + first]) == Torn(w, was, first)
                 && Put(Torn(w, was, first), first, two[0..128 - first]) == w
  {
  }

  lemma SameModulo(table: u32, q: nat)
    ensures (table + q % TWO_32) % TWO_32 == (table + q) % TWO_32
    ensures (table + q % TWO_32 + 1) % TWO_32 == (table + q + 1) % TWO_32
  {
  }

  /** An inode's bytes in the table are its bytes in the two blocks from the one it starts in. */
  lemma TableStraddles(v: Volume, group: u32, o: nat, q: nat, off: nat)
    requires Sound(v) && q == o / v.blockSize && off == o % v.blockSize
    ensures TableBytes(v, group, o, 128) == TwoBlocks(v, v.tables(group), q)[off..off + 128]
  {
    var s, t := TableBytes(v, group, o, 128), TwoBlocks(v, v.tables(group), q)[off..off + 128];
    forall j | 0 <= j < 128
      ensures s[j] == t[j]
    {
      StraddleByte(v, group, o, q, off, j);
    }
  }

  /** Where kread_inode looks is where the inode is: its block numbers wrap at 2^32 as the table's do. */
  lemma InodeSpot(v: Volume, group: u32, o: nat, one: u32, two: u32, off: nat)
    requires Sound(v) && off == o % v.blockSize
    requires one == (v.tables(group) + o / v.blockSize % TWO_32) % TWO_32
    requires two == (v.tables(group) + o / v.blockSize % TWO_32 + 1) % TWO_32
    ensures off < v.blockSize
    ensures TableBytes(v, group, o, 128) == (BlockBytes(v, one) + BlockBytes(v, two))[off..off + 128]
  {
    var t, q := v.tables(group), o / v.blockSize;
    TableStraddles(v, group, o, q, off);
    SamePair(v, t, q, one, two);
  }

  lemma SamePair(v: Volume, t: u32, q: nat, one: u32, two: u32)
    requires Sound(v) && one == (t + q % TWO_32) % TWO_32 && two == (t + q % TWO_32 + 1) % TWO_32
    ensures TwoBlocks(v, t, q) == BlockBytes(v, one) + BlockBytes(v, two)
  {
    SameModulo(t, q);
  }

  lemma StraddleByte(v: Volume, group: u32, o: nat, q: nat, off: nat, j: nat)
    requires Sound(v) && q == o / v.blockSize && off == o % v.blockSize && j < 128
    ensures TableByte(v, group, o + j) == TwoBlocks(v, v.tables(group), q)[off + j]
  {
    OffsetIn(v, o, j);
  }

  lemma OffsetIn(v: Volume, o: nat, j: nat)
    requires Sound(v) && j < 128
    ensures var n := v.blockSize; var off := o % n + j;
            if off < n then (o + j) / n == o / n && (o + j) % n == off
            else (o + j) / n == o / n + 1 && (o + j) % n == off - n
  {
    var n := v.blockSize;
    var q, off := o / n, o % n + j;
    assert o == n * q + o % n;
    if off < n {
      DivUnique(o + j, n, q, off);
    } else {
      DivUnique(o + j, n, q + 1, off - n);
    }
  }

  /** The number of the leaf with these indices, below a pointer of depth 2 and 3. */
  function Number2(v: Volume, j: nat, l: nat): nat { Positional(Fanout(v), j, l) }

  function Number3(v: Volume, i: nat, j: nat, l: nat): nat { Positional(Square(Fanout(v)), i, Number2(v, j, l)) }

  function Square(b: nat): nat { b * b }

  lemma Indices(v: Volume, i: nat, j: nat, l: nat)
    requires Sound(v) && i < Fanout(v) && j < Fanout(v) && l < Fanout(v)
    ensures Number2(v, j, l) < Span(v, 2) && Number3(v, i, j, l) < Span(v, 3)
  {
    SpanSquares(v);
    var b := Fanout(v);
    InPiece(j, l, b, b);
    InPiece(i, j * b + l, b * b, b);
  }

  lemma Split2(v: Volume, off: nat, b: nat, j: int, l: int)
    requires Sound(v) && b == Fanout(v) && off < Square(b) && j == off / b && l == off % b
    ensures 0 <= j < b && 0 <= l < b && Number2(v, j, l) == off
  {
    TwoDigits(off, b);
  }

  lemma Split3(v: Volume, off: nat, b: nat, bb: nat, i: int, j: int, l: int)
    requires Sound(v) && b == Fanout(v) && bb == Square(b) && off < bb * b
    requires i == off / bb && j == off % bb / b && l == off % b
    ensures 0 <= i < b && 0 <= j < b && 0 <= l < b && Number3(v, i, j, l) == off
  {
    ThreeDigits(off, b, bb);
  }

  lemma NoDouble(v: Volume, j: nat, l: nat)
    requires Sound(v) && j < Fanout(v) && l < Fanout(v)
    ensures LeafIs(v, 0, 2, Number2(v, j, l), 0)
  {
    Indices(v, 0, j, l);
    NoLeaf(v, 2, Number2(v, j, l), Span(v, 2));
  }

  lemma NoTriple(v: Volume, i: nat, j: nat, l: nat)
    requires Sound(v) && i < Fanout(v) && j < Fanout(v) && l < Fanout(v)
    ensures LeafIs(v, 0, 3, Number3(v, i, j, l), 0)
  {
    Indices(v, i, j, l);
    NoLeaf(v, 3, Number3(v, i, j, l), Span(v, 3));
  }

  lemma DoubleStep(v: Volume, p: u32, j: nat, l: nat, q: u32, r: u32)
    requires Sound(v) && p != 0 && j < Fanout(v) && l < Fanout(v)
    requires q == Pointer(v, p, j) && LeafIs(v, q, 1, l, r)
    ensures LeafIs(v, p, 2, Number2(v, j, l), r)
  {
    SpanSquares(v);
    LeafStep(v, p, 1, Fanout(v), j, l, Number2(v, j, l), q, r);
  }

  lemma TripleStep(v: Volume, p: u32, i: nat, j: nat, l: nat, q: u32, r: u32)
    requires Sound(v) && p != 0 && i < Fanout(v) && j < Fanout(v) && l < Fanout(v)
    requires q == Pointer(v, p, i) && LeafIs(v, q, 2, Number2(v, j, l), r)
    ensures LeafIs(v, p, 3, Number3(v, i, j, l), r)
  {
    SpanSquares(v);
    Indices(v, i, j, l);
    LeafStep(v, p, 2, Square(Fanout(v)), i, Number2(v, j, l), Number3(v, i, j, l), q, r);
  }

  lemma DirectBlock(v: Volume, n: Inode, k: nat)
    requires Sound(v) && k < 12
    ensures FileBlock(v, n, k) == BlockPointer(n, k)
  {
    FileLeafAt(v, n, k);
  }

  lemma SingleBlock(v: Volume, n: Inode, k: nat, r: u32)
    requires Sound(v) && 12 <= k < 12 + Fanout(v)
    ensures LeafIs(v, BlockPointer(n, 12), 1, k - 12, r) ==> r == FileBlock(v, n, k)
  {
    SpanSquares(v);
    FileLeafAt(v, n, k);
  }

  lemma DoubleBlock(v: Volume, n: Inode, k: nat, off: nat, j: nat, l: nat, r: u32)
    requires Sound(v) && j < Fanout(v) && l < Fanout(v) && off == Number2(v, j, l) && k == 12 + Fanout(v) + off
    ensures LeafIs(v, BlockPointer(n, 13), 2, off, r) ==> r == FileBlock(v, n, k)
  {
    SpanSquares(v);
    Indices(v, 0, j, l);
    FileLeafAt(v, n, k);
  }

  lemma TripleBlock(v: Volume, n: Inode, k: nat, off: nat, i: nat, j: nat, l: nat, r: u32)
    requires Sound(v) && i < Fanout(v) && j < Fanout(v) && l < Fanout(v)
    requires off == Number3(v, i, j, l) && k == 12 + Fanout(v) + Square(Fanout(v)) + off
    ensures LeafIs(v, BlockPointer(n, 14), 3, off, r) ==> r == FileBlock(v, n, k)
  {
    SpanSquares(v);
    Indices(v, i, j, l);
    FileLeafAt(v, n, k);
  }

  lemma BeyondBlocks(v: Volume, n: Inode, k: nat, b: nat, bb: nat)
    requires Sound(v) && b == Fanout(v) && bb == Square(b) && k >= 12 + b + bb + bb * b
    ensures FileBlock(v, n, k) == 0
  {
    SpanSquares(v);
    FileLeafAt(v, n, k);
  }

  /** `r` is leaf `k` below the pointer `p` of depth `d`. */
  ghost predicate LeafIs(v: Volume, p: u32, d: nat, k: nat, r: u32)
    requires Sound(v)
  {
    k < |Leaves(v, p, d)| && Leaves(v, p, d)[k] == r
  }

  lemma NoLeaf(v: Volume, d: nat, k: nat, n: nat)
    requires Sound(v) && k < n == Span(v, d)
    ensures LeafIs(v, 0, d, k, 0)
  {
  }

  lemma LeafStep(v: Volume, p: u32, d: nat, n: nat, i: nat, j: nat, at: nat, q: u32, r: u32)
    requires Sound(v) && p != 0 && i < Fanout(v) && n == Span(v, d) && j < n && at == Positional(n, i, j)
    requires q == Pointer(v, p, i) && (if d == 0 then r == q else LeafIs(v, q, d, j, r))
    ensures LeafIs(v, p, d + 1, at, r)
  {
    LeafBelow(v, p, d, n, i, j, at);
  }

  lemma SpanSquares(v: Volume)
    requires Sound(v)
    ensures Span(v, 0) == 1 && Span(v, 1) == Fanout(v)
    ensures Span(v, 2) == Fanout(v) * Fanout(v)
    ensures Span(v, 3) == Fanout(v) * (Fanout(v) * Fanout(v)) == Fanout(v) * Fanout(v) * Fanout(v)
  {
  }

  /** Two indices below `b` for every number below `b * b`. */
  lemma TwoDigits(k: nat, b: nat)
    requires 0 < b && k < b * b
    ensures 0 <= k / b < b && k % b < b && k == Positional(b, k / b, k % b)
  {
    PieceOf(k, b, b);
  }

  /** Three indices below `b` for every number below `b * b * b`. */
  lemma ThreeDigits(k: nat, b: nat, s: nat)
    requires 0 < b && s == Square(b) && k < s * b
    ensures 0 <= k / s < b && 0 <= k % s / b < b && k % b < b
    ensures k == Positional(s, k / s, Positional(b, k % s / b, k % b))
  {
    MulMonotone(b, b, 1);
    PieceOf(k, s, b);
    Commute(s, b);
    TwoDigits(k % s, b);
    LastDigit(k, b, s);
  }

  lemma Commute(x: int, y: int)
    ensures x * y == y * x
  {
  }

  lemma LastDigit(k: nat, b: nat, s: nat)
    requires 0 < b && s == b * b
    ensures k % s % b == k % b
  {
    var q := k / s;
    assert k == s * q + k % s;
    Assoc(b, b, q);
    DivUnique(k, b, b * q + k % s / b, k % s % b);
  }
}
