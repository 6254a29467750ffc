/** What an ext2 image says: its blocks, inodes, files and directories, as values. */
module Ext2Layout {
  import opened Machine
  import opened Tokens

  // ---- Pieces of one length ----

  function Flatten<T>(pieces: seq<seq<T>>): seq<T> {
    if pieces == [] then [] else pieces[0] + Flatten(pieces[1..])
  }

  ghost predicate AllLong<T>(pieces: seq<seq<T>>, n: nat) {
    forall i :: 0 <= i < |pieces| ==> |pieces[i]| == n
  }

  lemma {:induction false} FlattenAt<T>(pieces: seq<seq<T>>, n: nat, i: nat, j: nat)
    requires AllLong(pieces, n) && i < |pieces| && j < n
    ensures |Flatten(pieces)| == |pieces| * n
    ensures i * n + j < |pieces| * n && Flatten(pieces)[i * n + j] == pieces[i][j]
    decreases |pieces|
  {
    FlattenLength(pieces, n);
    InPiece(i, j, n, |pieces|);
    if i > 0 {
      assert pieces[1..][i - 1] == pieces[i];
      FlattenAt(pieces[1..], n, i - 1, j);
      assert i * n + j == n + ((i - 1) * n + j);
    }
  }

  lemma {:induction false} FlattenLength<T>(pieces: seq<seq<T>>, n: nat)
    requires AllLong(pieces, n)
    ensures |Flatten(pieces)| == |pieces| * n
    decreases |pieces|
  {
    if pieces != [] {
      FlattenLength(pieces[1..], n);
      assert |pieces| * n == n + (|pieces| - 1) * n;
    }
  }

  lemma InPiece(i: nat, j: nat, n: nat, count: nat)
    requires i < count && j < n
    ensures i * n + j < count * n
  {
    MulMonotone(n, count, i + 1);
  }

  /** Position `k` lies in piece `k / n`, at offset `k % n`: the two determine each other. */
  lemma PieceOf(k: nat, n: nat, count: nat)
    requires n > 0
    ensures k == k / n * n + k % n
    ensures k < count * n <==> k / n < count
  {
    assert k == n * (k / n) + k % n;
    MulMonotone(n, k / n, count);
    MulMonotone(n, count, k / n + 1);
  }

  /** A stretch inside piece `i` of what the pieces spell together. */
  lemma {:induction false} FlattenSlice<T>(pieces: seq<seq<T>>, n: nat, i: nat, at: nat, off: nat, len: nat)
    requires AllLong(pieces, n) && i < |pieces| && off + len <= n && at == Positional(n, i, off)
    ensures at + len <= |Flatten(pieces)| && Flatten(pieces)[at..at + len] == pieces[i][off..off + len]
    decreases i
  {
    var rest := Flatten(pieces[1..]);
    if i == 0 {
      assert (pieces[0] + rest)[off..off + len] == pieces[0][off..off + len];
    } else {
      Previous(i, n, at, off);
      FlattenSlice(pieces[1..], n, i - 1, at - n, off, len);
      assert (pieces[0] + rest)[at..at + len] == rest[at - n..at - n + len];
    }
  }

  lemma Previous(i: nat, n: nat, at: nat, off: nat)
    requires i > 0 && at == Positional(n, i, off)
    ensures at >= n && at - n == Positional(n, i - 1, off)
  {
    MulMonotone(i, n, 0);
    assert i * n == (i - 1) * n + n;
    Nonneg(i - 1, n);
  }

  /** The number `i * s + rest`. */
  function Positional(s: nat, i: nat, rest: nat): (k: nat)
    ensures k == i * s + rest
  {
    Nonneg(i, s);
    i * s + rest
  }

  function Multiply(a: nat, b: nat): nat {
    Nonneg(a, b);
    a * b
  }

  // ---- Blocks ----

  /** A mounted volume: the device's bytes and what ext2_mount read from them. */
  datatype Volume = Volume(image: seq<u8>, baseLba: u64, blockSize: u32, inodesPerGroup: u32, inodeSize: u16,
                           tables: u32 -> u32)

  ghost predicate Sound(v: Volume) {
    (v.blockSize == 1024 || v.blockSize == 2048 || v.blockSize == 4096) && v.inodesPerGroup > 0
  }

  /** The first sector of block `id`. */
  function FirstSector(v: Volume, id: u32): u64 {
    (v.baseLba + id * v.blockSize / 512) % TWO_64
  }

  /** The bytes of block `id`. */
  ghost function BlockBytes(v: Volume, id: u32): (s: seq<u8>)
    requires Sound(v)
    ensures |s| == v.blockSize
  {
    var at := FirstSector(v, id) * 512;
    if at + v.blockSize <= |v.image| then v.image[at..at + v.blockSize] else Repeat(0, v.blockSize)
  }

  // ---- Inodes ----

  type Inode = s: seq<u8> | |s| == 128 witness seq(128, i => 0)

  function Mode(n: Inode): u16 { Load16(n, 0) }

  /** `mode & 0x4000` */
  predicate IsDir(n: Inode) { Mode(n) / 0x4000 % 2 == 1 }

  function Size(n: Inode): u64 { Load32(n, 4) + Load32(n, 108) * TWO_32 }

  function BlockPointer(n: Inode, i: nat): u32
    requires i < 15
  {
    Load32(n, 40 + 4 * i)
  }

  const ROOT := 2

  /** Byte `o` of the inode table of a group: the table's blocks follow one another. */
  ghost function TableByte(v: Volume, group: u32, o: nat): u8
    requires Sound(v)
  {
    BlockBytes(v, (v.tables(group) + o / v.blockSize) % TWO_32)[o % v.blockSize]
  }

  ghost function TableBytes(v: Volume, group: u32, o: nat, count: nat): (s: seq<u8>)
    requires Sound(v)
    ensures |s| == count && forall j :: 0 <= j < count ==> s[j] == TableByte(v, group, o + j)
  {
    if count == 0 then [] else TableBytes(v, group, o, count - 1) + [TableByte(v, group, o + count - 1)]
  }

  /** The length of an inode on disk. */
  function Stride(v: Volume): nat { if v.inodeSize != 0 then v.inodeSize else 128 }

  /** Where in its group's inode table the inode numbered `ino` lies. */
  function InodeOffset(v: Volume, ino: u32): nat
    requires v.inodesPerGroup > 0 && ino != 0
  {
    Multiply((ino - 1) % v.inodesPerGroup, Stride(v))
  }

  /** The inode numbered `ino`. */
  ghost function InodeOf(v: Volume, ino: u32): Inode
    requires Sound(v) && ino != 0
  {
    TableBytes(v, (ino - 1) / v.inodesPerGroup, InodeOffset(v, ino), 128)
  }

  // ---- The block tree of a file ----

  /** Pointers in one indirect block. */
  function Fanout(v: Volume): int { v.blockSize / 4 }

  /** The leaves below a pointer of depth `d`. */
  function Span(v: Volume, d: nat): (n: nat)
    requires v.blockSize > 4
    ensures n > 0
  {
    if d == 0 then 1 else Multiples(Fanout(v), Span(v, d - 1))
  }

  function Multiples(a: nat, b: nat): (n: nat)
    requires a > 0 && b > 0
    ensures n == a * b && n > 0
  {
    MulMonotone(a, b, 1);
    a * b
  }

  ghost function Pointer(v: Volume, id: u32, i: nat): u32
    requires Sound(v) && i < Fanout(v)
  {
    Load32(BlockBytes(v, id), 4 * i)
  }

  /** The data blocks below the pointer `p` of depth `d`, in file order; 0 marks a hole. */
  ghost function Leaves(v: Volume, p: u32, d: nat): seq<u32>
    requires Sound(v)
    decreases d
  {
    if p == 0 then seq(Span(v, d), i => 0)
    else if d == 0 then [p]
    else Flatten(Below(v, p, d))
  }

  ghost function Below(v: Volume, p: u32, d: nat): seq<seq<u32>>
    requires Sound(v) && d > 0
    decreases d, 0
  {
    seq(Fanout(v), i requires 0 <= i < Fanout(v) => Leaves(v, Pointer(v, p, i), d - 1))
  }

  lemma {:induction false} LeavesCount(v: Volume, p: u32, d: nat)
    requires Sound(v)
    ensures |Leaves(v, p, d)| == Span(v, d)
    decreases d
  {
    if p != 0 && d != 0 {
      BelowLong(v, p, d);
      FlattenLength(Below(v, p, d), Span(v, d - 1));
    }
  }

  lemma BelowLong(v: Volume, p: u32, d: nat)
    requires Sound(v) && d > 0
    ensures AllLong(Below(v, p, d), Span(v, d - 1)) && |Below(v, p, d)| == Fanout(v)
    decreases d, 0
  {
    forall i | 0 <= i < Fanout(v)
      ensures |Below(v, p, d)[i]| == Span(v, d - 1)
    {
      LeavesCount(v, Pointer(v, p, i), d - 1);
    }
  }

  /** One step down the tree, with `n` leaves below each entry: leaf `i * n + j` is leaf `j` of entry `i`. */
  lemma LeafBelow(v: Volume, p: u32, d: nat, n: nat, i: nat, j: nat, at: nat)
    requires Sound(v) && p != 0 && i < Fanout(v) && n == Span(v, d) && j < n && at == Positional(n, i, j)
    ensures |Leaves(v, Pointer(v, p, i), d)| == n
    ensures at < |Leaves(v, p, d + 1)|
    ensures Leaves(v, p, d + 1)[at] == Leaves(v, Pointer(v, p, i), d)[j]
  {
    var pieces, leaves := Unfolded(v, p, d, n);
    FlattenAt(pieces, n, i, j);
    assert pieces[i] == Leaves(v, Pointer(v, p, i), d);
  }

  lemma Unfolded(v: Volume, p: u32, d: nat, n: nat) returns (pieces: seq<seq<u32>>, leaves: seq<u32>)
    requires Sound(v) && p != 0 && n == Span(v, d)
    ensures leaves == Leaves(v, p, d + 1) == Flatten(pieces) && |pieces| == Fanout(v) && AllLong(pieces, n)
    ensures forall i :: 0 <= i < Fanout(v) ==> pieces[i] == Leaves(v, Pointer(v, p, i), d)
  {
    pieces, leaves := Below(v, p, d + 1), Leaves(v, p, d + 1);
    BelowLong(v, p, d + 1);
  }

  /** All data blocks of a file, in order: twelve direct ones, then three trees of growing depth. */
  ghost function FileLeaves(v: Volume, n: Inode): seq<u32>
    requires Sound(v)
  {
    seq(12, i requires 0 <= i < 12 => BlockPointer(n, i))
    + Leaves(v, BlockPointer(n, 12), 1) + Leaves(v, BlockPointer(n, 13), 2) + Leaves(v, BlockPointer(n, 14), 3)
  }

  /** The number of blocks a file can have. */
  function MaxBlocks(v: Volume): nat
    requires v.blockSize > 4
  {
    12 + Span(v, 1) + Span(v, 2) + Span(v, 3)
  }

  /** The four ranges partition the block numbers, each tree seeing its own from 0 on. */
  lemma FileLeafAt(v: Volume, n: Inode, k: nat)
    requires Sound(v)
    ensures |FileLeaves(v, n)| == MaxBlocks(v)
    ensures |Leaves(v, BlockPointer(n, 12), 1)| == Span(v, 1)
    ensures |Leaves(v, BlockPointer(n, 13), 2)| == Span(v, 2)
    ensures |Leaves(v, BlockPointer(n, 14), 3)| == Span(v, 3)
    ensures k < MaxBlocks(v) ==>
              FileLeaves(v, n)[k] ==
              if k < 12 then BlockPointer(n, k)
              else if k < 12 + Span(v, 1) then Leaves(v, BlockPointer(n, 12), 1)[k - 12]
              else if k < 12 + Span(v, 1) + Span(v, 2) then Leaves(v, BlockPointer(n, 13), 2)[k - 12 - Span(v, 1)]
              else Leaves(v, BlockPointer(n, 14), 3)[k - 12 - Span(v, 1) - Span(v, 2)]
  {
    LeavesCount(v, BlockPointer(n, 12), 1);
    LeavesCount(v, BlockPointer(n, 13), 2);
    LeavesCount(v, BlockPointer(n, 14), 3);
  }

  /** The data block numbered `k` of a file; 0 for a hole and beyond the last. */
  ghost function FileBlock(v: Volume, n: Inode, k: nat): u32
    requires Sound(v)
  {
    if k < |FileLeaves(v, n)| then FileLeaves(v, n)[k] else 0
  }

  // ---- The contents of a file ----

  ghost function DataBlock(v: Volume, id: u32): (s: seq<u8>)
    requires Sound(v)
    ensures |s| == v.blockSize
  {
    if id == 0 then Repeat(0, v.blockSize) else BlockBytes(v, id)
  }

  ghost function Pieces(v: Volume, n: Inode): (s: seq<seq<u8>>)
    requires Sound(v)
    ensures AllLong(s, v.blockSize) && |s| == MaxBlocks(v)
  {
    FileLeafAt(v, n, 0);
    seq(MaxBlocks(v), i requires 0 <= i < MaxBlocks(v) => DataBlock(v, FileLeaves(v, n)[i]))
  }

  /** Every byte the block tree of the file can hold, holes as zeros. */
  ghost function Contents(v: Volume, n: Inode): seq<u8>
    requires Sound(v)
  {
    Flatten(Pieces(v, n))
  }

  lemma ContentsLength(v: Volume, n: Inode)
    requires Sound(v)
    ensures |Contents(v, n)| == MaxBlocks(v) * v.blockSize
  {
    FlattenLength(Pieces(v, n), v.blockSize);
  }

  /** A stretch of the file inside block `k` is that stretch of the block. */
  lemma ContentsSlice(v: Volume, n: Inode, k: nat, at: nat, off: nat, len: nat)
    requires Sound(v) && k < MaxBlocks(v) && off + len <= v.blockSize && at == Positional(v.blockSize, k, off)
    ensures at + len <= |Contents(v, n)|
    ensures Contents(v, n)[at..at + len] == DataBlock(v, FileBlock(v, n, k))[off..off + len]
  {
    FileLeafAt(v, n, k);
    FlattenSlice(Pieces(v, n), v.blockSize, k, at, off, len);
  }

  /** The inode without its single, double and triple indirect pointers. */
  function DirectOnly(n: Inode): Inode {
    Put(n, 88, Repeat(0, 12))
  }

  lemma DirectPointers(n: Inode, i: nat)
    requires i < 15
    ensures BlockPointer(DirectOnly(n), i) == if i < 12 then BlockPointer(n, i) else 0
  {
    var m, at := DirectOnly(n), 40 + 4 * i;
    if i < 12 {
      assert m[at..at + 4] == n[at..at + 4];
    } else {
      ZeroWord(m, at);
    }
  }

  lemma ZeroWord(m: seq<u8>, at: nat)
    requires at + 4 <= |m| && forall k :: at <= k < at + 4 ==> m[k] == 0
    ensures Load32(m, at) == 0
  {
    assert m[at..at + 4] == [0, 0, 0, 0];
  }

  /** Its blocks are the direct ones, and holes behind them. */
  lemma DirectBlocks(v: Volume, n: Inode, k: nat)
    requires Sound(v)
    ensures FileBlock(v, DirectOnly(n), k) == if k < 12 then FileBlock(v, n, k) else 0
  {
    var m := DirectOnly(n);
    FileLeafAt(v, n, k);
    FileLeafAt(v, m, k);
    DirectPointers(n, if k < 12 then k else 0);
    DirectPointers(n, 12);
    DirectPointers(n, 13);
    DirectPointers(n, 14);
  }

  /** Byte `j` of a file lies in its block `j / blockSize`. */
  lemma ContentsAt(v: Volume, n: Inode, j: nat)
    requires Sound(v) && j < MaxBlocks(v) * v.blockSize
    ensures 0 <= j / v.blockSize < MaxBlocks(v)
    ensures j < |Contents(v, n)|
    ensures Contents(v, n)[j] == DataBlock(v, FileBlock(v, n, j / v.blockSize))[j % v.blockSize]
  {
    var k, off := j / v.blockSize, j % v.blockSize;
    PieceOf(j, v.blockSize, MaxBlocks(v));
    ContentsSlice(v, n, k, j, off, 1);
    var c, d := Contents(v, n), DataBlock(v, FileBlock(v, n, k));
    assert c[j..j + 1][0] == d[off..off + 1][0];
  }

  /** Without the indirect pointers the contents are the same in the direct blocks, and zeros behind. */
  lemma DirectContents(v: Volume, n: Inode, j: nat)
    requires Sound(v) && j < MaxBlocks(v) * v.blockSize
    ensures |Contents(v, n)| == |Contents(v, DirectOnly(n))| == MaxBlocks(v) * v.blockSize
    ensures Contents(v, DirectOnly(n))[j] == if j < 12 * v.blockSize then Contents(v, n)[j] else 0
  {
    ContentsLength(v, n);
    ContentsLength(v, DirectOnly(n));
    ContentsAt(v, n, j);
    ContentsAt(v, DirectOnly(n), j);
    DirectBlocks(v, n, j / v.blockSize);
    PieceOf(j, v.blockSize, 12);
  }

  // ---- Reading ----

  /** The bytes a read asks for, after ext2_read cut the length to the end of the file. */
  function Wanted(pos: u64, size: u64, len: u64): (n: nat)
    ensures n <= len
  {
    if pos >= size then 0 else if (pos + len) % TWO_64 > size then ClampedTo(size - pos, len, pos) else len
  }

  function ClampedTo(left: nat, len: u64, pos: u64): (n: nat)
    requires 0 < left && left + pos < TWO_64 && (pos + len) % TWO_64 > left + pos
    ensures n == left && n <= len
  {
    left
  }

  /** The cut is right, and gives the smaller of the two lengths, exactly when the end position does not wrap. */
  lemma WantedIsMin(pos: u64, size: u64, len: u64)
    requires pos < size
    ensures Wanted(pos, size, len) == (if len <= size - pos then len else size - pos) <==> pos + len < TWO_64
  {
    if pos + len >= TWO_64 {
      DivUnique(pos + len, TWO_64, 1, pos + len - TWO_64);
    }
  }

  /** What a read from `pos` takes out of the file, and where it leaves the position. */
  function ReadOf(c: seq<u8>, size: u64, pos: u64, len: u64): (seq<u8>, u64)
    requires size <= |c|
  {
    var n := Wanted(pos, size, len);
    if pos + n <= size then (c[pos..pos + n], pos + n) else ([], pos)
  }

  /** A row of reads, one after the other. */
  function ReadsOf(c: seq<u8>, size: u64, pos: u64, lens: seq<u64>): (seq<u8>, u64)
    requires size <= |c|
    decreases |lens|
  {
    if lens == [] then ([], pos) else
    var (head, next) := ReadOf(c, size, pos, lens[0]);
    var (tail, end) := ReadsOf(c, size, next, lens[1..]);
    (head + tail, end)
  }

  function Sum(lens: seq<u64>): nat {
    if lens == [] then 0 else lens[0] + Sum(lens[1..])
  }

  /** However a read is cut into chunks, the bytes and the final position are those of one read. */
  lemma {:induction false} ChunksCompose(c: seq<u8>, size: u64, pos: u64, lens: seq<u64>, total: u64)
    requires size <= |c| && pos + Sum(lens) < TWO_64 && total == Sum(lens)
    ensures ReadsOf(c, size, pos, lens) == ReadOf(c, size, pos, total)
    decreases |lens|
  {
    if lens == [] {
      assert pos <= size ==> c[pos..pos] == [];
      NoWrap(pos, size, 0);
    } else {
      NoWrap(pos, size, lens[0]);
      var next := ReadOf(c, size, pos, lens[0]).1;
      ChunksCompose(c, size, next, lens[1..], total - lens[0]);
      TwoReads(c, size, pos, lens[0], total - lens[0]);
    }
  }

  /** Where a read that does not wrap ends. */
  function EndOf(pos: nat, size: nat, len: nat): nat {
    if pos >= size then pos else if pos + len > size then size else pos + len
  }

  lemma ReadOfIs(c: seq<u8>, size: u64, pos: u64, len: u64)
    requires size <= |c| && pos + len < TWO_64
    ensures var end := EndOf(pos, size, len);
            pos <= end < TWO_64 && ReadOf(c, size, pos, len) == (if pos < size then c[pos..end] else [], end)
  {
    NoWrap(pos, size, len);
    assert pos == size ==> c[pos..pos] == [];
  }

  /** Two reads in a row are one read of both lengths. */
  lemma TwoReads(c: seq<u8>, size: u64, pos: u64, m: u64, n: u64)
    requires size <= |c| && pos + m + n < TWO_64
    ensures var (head, next) := ReadOf(c, size, pos, m);
            && next + n < TWO_64
            && var (tail, end) := ReadOf(c, size, next, n);
               (head + tail, end) == ReadOf(c, size, pos, m + n)
  {
    var next, end := EndOf(pos, size, m), EndOf(pos, size, m + n);
    ReadOfIs(c, size, pos, m);
    ReadOfIs(c, size, pos, m + n);
    ReadOfIs(c, size, next, n);
    assert EndOf(next, size, n) == end;
    var head, tail := ReadOf(c, size, pos, m).0, ReadOf(c, size, next, n).0;
    if pos < size {
      SlicesMeet(c, pos, next, end);
      assert tail == if next < size then c[next..end] else [];
      assert head + tail == c[pos..end];
    } else {
      assert head + tail == [];
    }
  }

  lemma SlicesMeet(c: seq<u8>, i: nat, j: nat, k: nat)
    ensures i <= j <= k <= |c| ==> c[i..j] + c[j..k] == c[i..k]
    ensures i <= j <= |c| ==> c[i..j] + [] == c[i..j]
  {
  }

  lemma NoWrap(pos: u64, size: u64, len: u64)
    requires pos + len < TWO_64
    ensures Wanted(pos, size, len) == if pos >= size then 0 else if pos + len > size then size - pos else len
  {
  }

  // ---- Directories ----

  datatype Entry = Entry(inode: u32, name: seq<u8>, kind: u8)

  function RecLen(blk: seq<u8>, off: nat): u16
    requires off + 8 <= |blk|
  {
    Load16(blk, off + 4)
  }

  /** The record at `off` is one the listing accepts. */
  predicate Accepted(blk: seq<u8>, off: nat) {
    && off + 8 <= |blk|
    && 8 <= RecLen(blk, off) <= |blk| - off
    && (Load32(blk, off) != 0 ==> blk[off + 6] != 0)
    && (8 + blk[off + 6] + 3) / 4 * 4 <= RecLen(blk, off)
  }

  /** What an accepted record reports: nothing if it is unused. */
  function Report(blk: seq<u8>, off: nat): seq<Entry>
    requires Accepted(blk, off)
  {
    if Load32(blk, off) == 0 then []
    else [Entry(Load32(blk, off), blk[off + 8..off + 8 + blk[off + 6]], blk[off + 7])]
  }

  /** The entries of a directory block from `off` on, up to the first record that is not accepted. */
  function Reported(blk: seq<u8>, off: nat): seq<Entry>
    decreases |blk| - off
  {
    if Accepted(blk, off) then Report(blk, off) + Reported(blk, off + RecLen(blk, off)) else []
  }

  /** The records fill the block to its end. */
  predicate Clean(blk: seq<u8>, off: nat)
    decreases |blk| - off
  {
    off == |blk| || (Accepted(blk, off) && Clean(blk, off + RecLen(blk, off)))
  }

  /** The entry of a used record whose name lies inside the block. */
  function EntryAt(blk: seq<u8>, off: nat): Entry
    requires off + 8 <= |blk| && off + 8 + blk[off + 6] <= |blk|
  {
    Entry(Load32(blk, off), blk[off + 8..off + 8 + blk[off + 6]], blk[off + 7])
  }

  /**
   * The entries from `off` on as the search sees them. It follows the record lengths alone, and
   * stops at a length of 0 and at the end of the block.
   */
  function Raw(blk: seq<u8>, off: nat): seq<Entry>
    decreases |blk| - off
  {
    if off + 8 > |blk| || RecLen(blk, off) == 0 then []
    else
      (if Load32(blk, off) != 0 && off + 8 + blk[off + 6] <= |blk| then [EntryAt(blk, off)] else [])
      + Raw(blk, off + RecLen(blk, off))
  }

  /** What the search reads from `off` on lies inside the block. */
  predicate Inside(blk: seq<u8>, off: nat)
    decreases |blk| - off
  {
    || off >= |blk|
    || (&& off + 8 <= |blk|
        && (RecLen(blk, off) != 0 ==>
              && (Load32(blk, off) != 0 ==> off + 8 + blk[off + 6] <= |blk|)
              && Inside(blk, off + RecLen(blk, off))))
  }

  /** On a block whose records fill it, the search sees what the listing reports. */
  lemma {:induction false} CleanRaw(blk: seq<u8>, off: nat)
    requires Clean(blk, off)
    ensures Inside(blk, off) && Raw(blk, off) == Reported(blk, off)
    decreases |blk| - off
  {
    if off < |blk| {
      NameInside(blk, off);
      CleanRaw(blk, off + RecLen(blk, off));
    }
  }

  lemma NameInside(blk: seq<u8>, off: nat)
    requires Accepted(blk, off)
    ensures off + 8 + blk[off + 6] <= |blk|
  {
  }

  /** Otherwise the listing may stop before the search does. */
  lemma {:induction false} ReportedRaw(blk: seq<u8>, off: nat)
    ensures Reported(blk, off) <= Raw(blk, off)
    decreases |blk| - off
  {
    if Accepted(blk, off) {
      NameInside(blk, off);
      ReportedRaw(blk, off + RecLen(blk, off));
    }
  }

  lemma {:induction false} RawUsed(blk: seq<u8>, off: nat)
    ensures forall e :: e in Raw(blk, off) ==> e.inode != 0
    decreases |blk| - off
  {
    if off + 8 <= |blk| && RecLen(blk, off) != 0 {
      RawUsed(blk, off + RecLen(blk, off));
    }
  }

  /** The inode of the first entry of that name, or 0. */
  function FirstNamed(es: seq<Entry>, name: seq<u8>): u32 {
    if es == [] then 0 else if es[0].name == name then es[0].inode else FirstNamed(es[1..], name)
  }

  lemma {:induction false} FirstNamedConcat(xs: seq<Entry>, ys: seq<Entry>, name: seq<u8>)
    requires forall x :: x in xs ==> x.inode != 0
    ensures FirstNamed(xs + ys, name) ==
            if FirstNamed(xs, name) != 0 then FirstNamed(xs, name) else FirstNamed(ys, name)
    decreases |xs|
  {
    if xs == [] {
      assert xs + ys == ys;
    } else {
      assert (xs + ys)[1..] == xs[1..] + ys;
      FirstNamedConcat(xs[1..], ys, name);
    }
  }

  /** A search finds an entry exactly when one of that name is reported, and then it is the first of them. */
  lemma {:induction false} FirstNamedMeaning(es: seq<Entry>, name: seq<u8>)
    requires forall e :: e in es ==> e.inode != 0
    ensures FirstNamed(es, name) == 0 <==> forall e :: e in es ==> e.name != name
    ensures FirstNamed(es, name) != 0 ==>
              exists i :: 0 <= i < |es| && es[i].name == name && es[i].inode == FirstNamed(es, name)
                       && forall j :: 0 <= j < i ==> es[j].name != name
    decreases |es|
  {
    if es != [] && es[0].name != name {
      FirstNamedMeaning(es[1..], name);
      if FirstNamed(es, name) != 0 {
        var i :| 0 <= i < |es[1..]| && es[1..][i].name == name && es[1..][i].inode == FirstNamed(es[1..], name)
              && forall j :: 0 <= j < i ==> es[1..][j].name != name;
        assert es[i + 1].name == name;
        forall j | 0 <= j < i + 1
          ensures es[j].name != name
        {
          if j > 0 {
            assert es[1..][j - 1] == es[j];
          }
        }
      }
    }
  }

  /** What direct block `i` of a directory reports to the listing. */
  ghost function BlockEntries(v: Volume, n: Inode, i: nat): seq<Entry>
    requires Sound(v) && i < 12
  {
    if BlockPointer(n, i) == 0 then [] else Reported(BlockBytes(v, BlockPointer(n, i)), 0)
  }

  /** The entries a directory's direct blocks report, from block pointer `i` on. */
  ghost function EntriesFrom(v: Volume, n: Inode, i: nat): seq<Entry>
    requires Sound(v) && i <= 12
    decreases 12 - i
  {
    if i == 12 then [] else BlockEntries(v, n, i) + EntriesFrom(v, n, i + 1)
  }

  ghost function Entries(v: Volume, n: Inode): seq<Entry>
    requires Sound(v)
  {
    EntriesFrom(v, n, 0)
  }

  /** What the search sees in direct block `i`. */
  ghost function BlockScanned(v: Volume, n: Inode, i: nat): seq<Entry>
    requires Sound(v) && i < 12
  {
    if BlockPointer(n, i) == 0 then [] else Raw(BlockBytes(v, BlockPointer(n, i)), 0)
  }

  ghost function ScannedFrom(v: Volume, n: Inode, i: nat): seq<Entry>
    requires Sound(v) && i <= 12
    decreases 12 - i
  {
    if i == 12 then [] else BlockScanned(v, n, i) + ScannedFrom(v, n, i + 1)
  }

  /** The entries of a directory as the search sees them. */
  ghost function Scanned(v: Volume, n: Inode): seq<Entry>
    requires Sound(v)
  {
    ScannedFrom(v, n, 0)
  }

  /** The search stays inside every direct block of the directory. */
  ghost predicate InsideDir(v: Volume, n: Inode)
    requires Sound(v)
  {
    forall i :: 0 <= i < 12 && BlockPointer(n, i) != 0 ==> Inside(BlockBytes(v, BlockPointer(n, i)), 0)
  }

  /** Every direct block of the directory scans cleanly to its end. */
  ghost predicate CleanDir(v: Volume, n: Inode)
    requires Sound(v)
  {
    forall i :: 0 <= i < 12 && BlockPointer(n, i) != 0 ==> Clean(BlockBytes(v, BlockPointer(n, i)), 0)
  }

  /** In such a directory the search stays inside, and sees exactly what the listing reports. */
  lemma CleanScanned(v: Volume, n: Inode)
    requires Sound(v) && CleanDir(v, n)
    ensures InsideDir(v, n) && Scanned(v, n) == Entries(v, n)
  {
    forall i | 0 <= i < 12 && BlockPointer(n, i) != 0
      ensures Inside(BlockBytes(v, BlockPointer(n, i)), 0)
    {
      CleanRaw(BlockBytes(v, BlockPointer(n, i)), 0);
    }
    CleanScannedFrom(v, n, 0);
  }

  lemma {:induction false} CleanScannedFrom(v: Volume, n: Inode, i: nat)
    requires Sound(v) && CleanDir(v, n) && i <= 12
    ensures ScannedFrom(v, n, i) == EntriesFrom(v, n, i)
    decreases 12 - i
  {
    if i < 12 {
      if BlockPointer(n, i) != 0 {
        CleanRaw(BlockBytes(v, BlockPointer(n, i)), 0);
      }
      CleanScannedFrom(v, n, i + 1);
    }
  }

  // ---- Paths ----

  const ERR_IO := -1
  const ERR_UNSUPPORTED := -3
  const ERR_PATH_NOT_FOUND := -4
  const ERR_INVALID := -5

  datatype Outcome = Found(inode: Inode) | Failed(code: int)

  /** The fold of the name search over the components, from the directory `dir` on. */
  ghost function Walk(v: Volume, dir: Inode, names: seq<seq<u8>>): Outcome
    requires Sound(v)
    decreases |names|
  {
    if names == [] then Failed(ERR_INVALID) else
    var ino := FirstNamed(Scanned(v, dir), names[0]);
    if ino == 0 then Failed(ERR_PATH_NOT_FOUND)
    else if |names| == 1 then Found(InodeOf(v, ino))
    else if !IsDir(InodeOf(v, ino)) then Failed(ERR_INVALID)
    else Walk(v, InodeOf(v, ino), names[1..])
  }

  /** The search stays inside the blocks of every directory on the walk. */
  ghost predicate InsideWalk(v: Volume, dir: Inode, names: seq<seq<u8>>)
    requires Sound(v)
    decreases |names|
  {
    names != [] ==>
      && InsideDir(v, dir)
      && var ino := FirstNamed(Scanned(v, dir), names[0]);
         ino != 0 && |names| > 1 && IsDir(InodeOf(v, ino)) ==> InsideWalk(v, InodeOf(v, ino), names[1..])
  }

  /** What opening `path` means. */
  ghost function Opened(v: Volume, path: seq<u8>): Outcome
    requires Sound(v)
  {
    if path == [SLASH] then Found(InodeOf(v, ROOT))
    else if |path| >= 256 then Failed(ERR_INVALID)
    else Walk(v, InodeOf(v, ROOT), Components(path, [SLASH]))
  }

  datatype Listing = Listed(entries: seq<Entry>) | Refused(code: int)

  /** An empty path stands for the root. */
  function OrRoot(path: seq<u8>): seq<u8> {
    if path == [] then [SLASH] else path
  }

  ghost function ListingIn(v: Volume, o: Outcome): Listing
    requires Sound(v)
  {
    match o
    case Found(n) => if IsDir(n) then Listed(Entries(v, n)) else Refused(ERR_INVALID)
    case Failed(code) => Refused(code)
  }

  /** What listing `path` means: the entries of the directory that opening it finds. */
  ghost function ListingOf(v: Volume, path: seq<u8>): Listing
    requires Sound(v)
  {
    ListingIn(v, Opened(v, OrRoot(path)))
  }
}
