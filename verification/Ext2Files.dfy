/** ext2_read. */
module Ext2Files {
  import opened Machine
  import opened HeapBlocks
  import opened HeapRuns
  import opened HeapLayout
  import opened MemoryPool
  import opened Ext2Layout
  import opened Ext2Blocks
  import KString

  class File {
    const inode: InodeRecord
    var pos: u64

    constructor (inode: Inode)
      ensures fresh(this.inode) && this.inode.bytes == inode && pos == 0
    {
      this.inode := new InodeRecord(inode);
      this.pos := 0;
    }
  }

  /** The length of the longest file the block tree can hold. */
  function Limit(v: Volume): nat
    requires v.blockSize > 4
  {
    MaxBlocks(v) * v.blockSize
  }

  /** max_blocks, for `b` pointers to a block. */
  function BlockCount(b: nat): nat { 12 + b + b * b + b * b * b }

  lemma BlockCountIs(v: Volume)
    requires Sound(v)
    ensures BlockCount(v.blockSize / 4) == MaxBlocks(v)
  {
    SpanSquares(v);
  }

  lemma LimitBound(v: Volume)
    requires Sound(v)
    ensures Limit(v) < TWO_64
  {
    BlockCountIs(v);
    if v.blockSize == 1024 {
      assert BlockCount(256) < 0x200_0000;
    } else if v.blockSize == 2048 {
      assert BlockCount(512) < 0x1000_0000;
    } else {
      assert BlockCount(1024) < 0x8000_0000;
    }
  }

  /** The block of a position, its offset there, and how many blocks the code allows. */
  lemma BlockSplit(v: Volume, pos: u64)
    requires Sound(v)
    ensures 0 <= pos / v.blockSize <= pos && pos % v.blockSize < v.blockSize
    ensures pos == Positional(v.blockSize, pos / v.blockSize, pos % v.blockSize)
    ensures BlockCount(v.blockSize / 4) == MaxBlocks(v)
  {
    QuotientBound(pos, v.blockSize);
    BlockCountIs(v);
    PieceOf(pos, v.blockSize, 0);
  }

  /** A chunk ends inside the block it starts in. */
  lemma ChunkEnds(v: Volume, pos: nat, chunk: nat)
    requires Sound(v) && pos / v.blockSize < MaxBlocks(v) && pos % v.blockSize + chunk <= v.blockSize
    ensures pos + chunk <= Limit(v) < TWO_64
  {
    LimitBound(v);
    var n := v.blockSize;
    assert pos == n * (pos / n) + pos % n;
    MulMonotone(n, MaxBlocks(v), pos / n + 1);
  }

  lemma QuotientBound(x: nat, n: nat)
    requires n > 0
    ensures 0 <= x / n <= x && x % n < n
  {
    var q := x / n;
    assert x == n * q + x % n;
    MulMonotone(n, -1, q);
    AtLeast(n, q);
  }

  lemma AtLeast(n: int, q: int)
    requires n > 0
    ensures q >= 0 ==> n * q >= q
  {
    if q >= 0 {
      MulMonotone(q + 1, n, 1);
      assert (q + 1) * n == q * n + n;
    }
  }

  lemma PastLimit(v: Volume, pos: nat)
    requires Sound(v)
    ensures pos / v.blockSize >= MaxBlocks(v) ==> pos >= Limit(v)
  {
    var n := v.blockSize;
    assert pos == n * (pos / n) + pos % n;
    MulMonotone(n, pos / n, MaxBlocks(v));
  }

  // ---- What a read can deliver ----

  /** The inode as a read sees it: without room for a second buffer it loses its indirect blocks. */
  function Seen(two: bool, n: Inode): Inode {
    if two then n else DirectOnly(n)
  }

  /** What a file holds, what of it a read sees, and how much of that lies in the direct blocks. */
  datatype Sight = Sight(file: seq<u8>, seen: seq<u8>, direct: nat)

  ghost function SightOf(v: Volume, n: Inode, m: Inode): Sight
    requires Sound(v)
  {
    Sight(Contents(v, n), Contents(v, m), 12 * v.blockSize)
  }

  /** `piece` is what `c` holds from `pos` on. */
  ghost predicate Exact(c: seq<u8>, pos: nat, piece: seq<u8>) {
    pos + |piece| <= |c| && c[pos..pos + |piece|] == piece
  }

  /** Each byte of `piece` is that of `c`, from `pos` on; behind the first `direct` bytes it may be zero instead. */
  ghost predicate Drawn(c: seq<u8>, direct: nat, pos: nat, piece: seq<u8>) {
    && pos + |piece| <= |c|
    && forall j :: 0 <= j < |piece| ==> piece[j] == c[pos + j] || (piece[j] == 0 && direct <= pos + j)
  }

  /** Bytes of the file, or zeros behind its direct blocks; if nothing failed, exactly what is seen. */
  ghost predicate Fetched(x: Sight, pos: nat, piece: seq<u8>, trusted: bool) {
    Drawn(x.file, x.direct, pos, piece) && (trusted ==> Exact(x.seen, pos, piece))
  }

  lemma DrawnSlice(c: seq<u8>, direct: nat, pos: nat, src: seq<u8>, piece: seq<u8>)
    requires Exact(c, pos, src) && (piece == src || (piece == Repeat(0, |src|) && direct <= pos))
    ensures Drawn(c, direct, pos, piece)
  {
    forall j | 0 <= j < |piece|
      ensures piece[j] == c[pos + j] || (piece[j] == 0 && direct <= pos + j)
    {
      assert c[pos..pos + |src|][j] == c[pos + j];
    }
  }

  /** In the direct blocks there is no choice. */
  lemma DrawnExact(c: seq<u8>, direct: nat, pos: nat, piece: seq<u8>)
    requires Drawn(c, direct, pos, piece) && pos + |piece| <= direct
    ensures Exact(c, pos, piece)
  {
  }

  /** What kget_file_block gives: the file's block, or 0 for an indirect one; without a failure what a read sees. */
  ghost predicate Found(v: Volume, n: Inode, two: bool, idx: nat, id: u32, calm: bool)
    requires Sound(v)
  {
    && (id == FileBlock(v, n, idx) || (id == 0 && idx >= 12))
    && (calm ==> id == FileBlock(v, Seen(two, n), idx))
  }

  lemma LookedUp(v: Volume, n: Inode, two: bool, idx: nat, id: u32, calm: bool)
    requires Sound(v) && id == if idx < 12 || (two && calm) then FileBlock(v, n, idx) else 0
    ensures Found(v, n, two, idx, id, calm)
  {
    DirectBlocks(v, n, idx);
  }

  lemma HoleSlice(v: Volume, off: nat, count: nat)
    requires Sound(v) && off + count <= v.blockSize
    ensures DataBlock(v, 0)[off..off + count] == Repeat(0, count)
  {
  }

  /** A chunk's bytes, when block `idx` was looked up as `id`. */
  lemma PieceRead(v: Volume, n: Inode, two: bool, pos: nat, idx: nat, off: nat, id: u32, piece: seq<u8>, calm: bool)
    requires Sound(v) && idx < MaxBlocks(v) && pos == Positional(v.blockSize, idx, off)
    requires off + |piece| <= v.blockSize && piece == DataBlock(v, id)[off..off + |piece|]
    requires Found(v, n, two, idx, id, calm)
    ensures Fetched(SightOf(v, n, Seen(two, n)), pos, piece, calm)
  {
    FileBytes(v, n, pos, idx, off, id, piece);
    if calm {
      BlockSlice(v, Seen(two, n), idx, id, pos, off, |piece|);
    }
  }

  lemma FileBytes(v: Volume, n: Inode, pos: nat, idx: nat, off: nat, id: u32, piece: seq<u8>)
    requires Sound(v) && idx < MaxBlocks(v) && pos == Positional(v.blockSize, idx, off)
    requires off + |piece| <= v.blockSize && piece == DataBlock(v, id)[off..off + |piece|]
    requires id == FileBlock(v, n, idx) || (id == 0 && idx >= 12)
    ensures Drawn(Contents(v, n), 12 * v.blockSize, pos, piece)
  {
    var own := FileBlock(v, n, idx);
    BlockSlice(v, n, idx, own, pos, off, |piece|);
    OwnOrHole(v, id, own, off, piece);
    BehindDirect(v, idx, off, pos);
    DrawnSlice(Contents(v, n), 12 * v.blockSize, pos, DataBlock(v, own)[off..off + |piece|], piece);
  }

  lemma OwnOrHole(v: Volume, id: u32, own: u32, off: nat, piece: seq<u8>)
    requires Sound(v) && off + |piece| <= v.blockSize && piece == DataBlock(v, id)[off..off + |piece|]
    ensures id == own ==> piece == DataBlock(v, own)[off..off + |piece|]
    ensures id == 0 ==> piece == Repeat(0, |piece|)
  {
    HoleSlice(v, off, |piece|);
  }

  lemma BehindDirect(v: Volume, idx: nat, off: nat, pos: nat)
    requires Sound(v) && pos == Positional(v.blockSize, idx, off)
    ensures idx >= 12 ==> 12 * v.blockSize <= pos
  {
    MulMonotone(v.blockSize, idx, 12);
  }

  lemma BlockSlice(v: Volume, n: Inode, idx: nat, id: u32, pos: nat, off: nat, count: nat)
    requires Sound(v) && idx < MaxBlocks(v) && pos == Positional(v.blockSize, idx, off) && off + count <= v.blockSize
    requires id == FileBlock(v, n, idx)
    ensures Exact(Contents(v, n), pos, DataBlock(v, id)[off..off + count])
  {
    ContentsSlice(v, n, idx, pos, off, count);
  }

  lemma FetchedMore(x: Sight, pos: nat, got: seq<u8>, piece: seq<u8>, trusted: bool, still: bool)
    requires Fetched(x, pos, got, trusted) && Fetched(x, pos + |got|, piece, still) && (still ==> trusted)
    ensures Fetched(x, pos, got + piece, still)
  {
    DrawnMore(x.file, x.direct, pos, got, piece);
    if still {
      SliceJoin(x.seen, pos, got, piece);
    }
  }

  lemma DrawnMore(c: seq<u8>, direct: nat, pos: nat, got: seq<u8>, piece: seq<u8>)
    requires Drawn(c, direct, pos, got) && Drawn(c, direct, pos + |got|, piece)
    ensures Drawn(c, direct, pos, got + piece)
  {
    var all := got + piece;
    forall j | 0 <= j < |all|
      ensures all[j] == c[pos + j] || (all[j] == 0 && direct <= pos + j)
    {
      if j >= |got| {
        assert all[j] == piece[j - |got|];
        assert pos + |got| + (j - |got|) == pos + j;
      }
    }
  }

  lemma SliceJoin(c: seq<u8>, pos: nat, got: seq<u8>, piece: seq<u8>)
    requires pos + |got| + |piece| <= |c| && c[pos..pos + |got|] == got
    requires c[pos + |got|..pos + |got| + |piece|] == piece
    ensures c[pos..pos + |got + piece|] == got + piece
  {
    var mid, end := pos + |got|, pos + |got| + |piece|;
    assert c[pos..end] == c[pos..mid] + c[mid..end];
  }

  // ---- One chunk ----

  /** The body of ext2_read's loop. `piece` are the bytes it puts at index `done` of `buf`. */
  method Chunk(rd: Reader, file: File, buf: array<u8>, done: nat, remaining: nat, p: u64, ghost b: Block)
    returns (r: int, chunk: nat, ghost piece: seq<u8>)
    requires rd.Ready() && LiveAt(rd.heap.blocks, p, b) && b.size >= rd.blockSize
    requires buf != rd.heap.mem && done + remaining <= buf.Length && 0 < remaining
    modifies file`pos, buf, rd.device, rd.heap, rd.heap.mem
    ensures rd.Ready() && rd.heap.blocks == old(rd.heap.blocks) && rd.device.faults >= old(rd.device.faults)
    ensures OthersSame(rd.heap.blocks, b, old(rd.heap.mem[..]), rd.heap.mem[..])
    ensures r != 0 ==> buf[..] == old(buf[..]) && file.pos == old(file.pos) && piece == []
    ensures r == ERR_UNSUPPORTED <==> old(file.pos) / rd.blockSize >= MaxBlocks(rd.Vol())
    ensures r == ERR_UNSUPPORTED ==> rd.device.faults == old(rd.device.faults)
    ensures r != 0 && r != ERR_UNSUPPORTED ==> r == ERR_IO && rd.device.faults > old(rd.device.faults)
    ensures r == 0 ==>
              && 0 < chunk == |piece| <= remaining && buf[..] == Put(old(buf[..]), done, piece)
              && file.pos == old(file.pos) + |piece| <= Limit(rd.Vol())
    ensures r == 0 ==> Fetched(InSight(rd, file), old(file.pos), piece, rd.device.faults == old(rd.device.faults))
  {
    BlockSplit(rd.Vol(), file.pos);
    var idx, off := file.pos / rd.blockSize, file.pos % rd.blockSize;
    if idx >= BlockCount(rd.blockSize / 4) {
      return ERR_UNSUPPORTED, 0, [];
    }
    chunk := if rd.blockSize - off > remaining then remaining else rd.blockSize - off;
    ChunkEnds(rd.Vol(), file.pos, chunk);
    r, piece := ChunkAt(rd, file, buf, done, idx, off, chunk, p, b);
    if r == 0 {
      file.pos := file.pos + chunk;
    }
  }

  /** `chunk` bytes from the position on, which is offset `off` of block `idx`. */
  method ChunkAt(rd: Reader, file: File, buf: array<u8>, done: nat, idx: u64, off: nat, chunk: nat, p: u64,
      ghost b: Block)
    returns (r: int, ghost piece: seq<u8>)
    requires rd.Ready() && LiveAt(rd.heap.blocks, p, b) && b.size >= rd.blockSize
    requires buf != rd.heap.mem && done + chunk <= buf.Length && off + chunk <= rd.blockSize
    requires idx < MaxBlocks(rd.Vol()) && file.pos == Positional(rd.blockSize, idx, off)
    modifies buf, rd.device, rd.heap, rd.heap.mem
    ensures rd.Ready() && rd.heap.blocks == old(rd.heap.blocks) && rd.device.faults >= old(rd.device.faults)
    ensures OthersSame(rd.heap.blocks, b, old(rd.heap.mem[..]), rd.heap.mem[..])
    ensures r != 0 ==> r == ERR_IO && rd.device.faults > old(rd.device.faults) && buf[..] == old(buf[..]) && piece == []
    ensures r == 0 ==> |piece| == chunk && buf[..] == Put(old(buf[..]), done, piece)
    ensures r == 0 ==> Fetched(InSight(rd, file), file.pos, piece, rd.device.faults == old(rd.device.faults))
  {
    ghost var id;
    r, piece, id := BlockChunk(rd, file, buf, done, idx, off, chunk, p, b);
    if r == 0 {
      PieceRead(rd.Vol(), file.inode.bytes, rd.Room(), file.pos, idx, off, id, piece,
                rd.device.faults == old(rd.device.faults));
    }
  }

  ghost function InSight(rd: Reader, file: File): Sight
    requires rd.Ready()
    reads file.inode, rd.heap, rd.heap.mem
  {
    SightOf(rd.Vol(), file.inode.bytes, Seen(rd.Room(), file.inode.bytes))
  }

  /** The chunk's block is looked up, as `id`, and its bytes are put into `buf`. */
  method BlockChunk(rd: Reader, file: File, buf: array<u8>, done: nat, idx: u64, off: nat, chunk: nat,
      p: u64, ghost b: Block)
    returns (r: int, ghost piece: seq<u8>, ghost id: u32)
    requires rd.Ready() && LiveAt(rd.heap.blocks, p, b) && b.size >= rd.blockSize
    requires buf != rd.heap.mem && done + chunk <= buf.Length && off + chunk <= rd.blockSize
    modifies buf, rd.device, rd.heap, rd.heap.mem
    ensures rd.Ready() && rd.heap.blocks == old(rd.heap.blocks) && rd.device.faults >= old(rd.device.faults)
    ensures OthersSame(rd.heap.blocks, b, old(rd.heap.mem[..]), rd.heap.mem[..])
    ensures r != 0 ==> r == ERR_IO && rd.device.faults > old(rd.device.faults) && buf[..] == old(buf[..]) && piece == []
    ensures r == 0 ==> |piece| == chunk && buf[..] == Put(old(buf[..]), done, piece)
    ensures r == 0 ==> piece == DataBlock(rd.Vol(), id)[off..off + chunk]
    ensures Found(rd.Vol(), file.inode.bytes, rd.Room(), idx, id, rd.device.faults == old(rd.device.faults))
  {
    ghost var m0 := rd.heap.mem[..];
    var blkId := rd.KgetFileBlock(file.inode.bytes, idx);
    ghost var m1 := rd.heap.mem[..];
    LookedUp(rd.Vol(), file.inode.bytes, rd.Room(), idx, blkId, rd.device.faults == old(rd.device.faults));
    r, piece := Deliver(rd, blkId, buf, done, off, chunk, p, b);
    ThroughBuffer(rd.heap.blocks, b, m0, m1, rd.heap.mem[..]);
    id := blkId;
  }

  lemma ThroughBuffer(bs: seq<Block>, b: Block, m: seq<u8>, v: seq<u8>, w: seq<u8>)
    requires PayloadsSame(bs, m, v) && OthersSame(bs, b, v, w)
    ensures OthersSame(bs, b, m, w)
  {
    OthersChain(bs, b, m, v, w);
  }

  /** The two ways a chunk reaches `buf`: zeros for a hole, a copy out of the block otherwise. */
  method Deliver(rd: Reader, id: u32, buf: array<u8>, done: nat, off: nat, chunk: nat, p: u64, ghost b: Block)
    returns (r: int, ghost piece: seq<u8>)
    requires rd.Ready() && LiveAt(rd.heap.blocks, p, b) && b.size >= rd.blockSize
    requires buf != rd.heap.mem && done + chunk <= buf.Length && off + chunk <= rd.blockSize
    modifies buf, rd.device, rd.heap.mem
    ensures rd.Ready() && rd.device.faults >= old(rd.device.faults)
    ensures OthersSame(rd.heap.blocks, b, old(rd.heap.mem[..]), rd.heap.mem[..])
    ensures r == 0 ==> |piece| == chunk && piece == DataBlock(rd.Vol(), id)[off..off + chunk]
                       && buf[..] == Put(old(buf[..]), done, piece)
    ensures r != 0 ==> r == ERR_IO && rd.device.faults > old(rd.device.faults) && buf[..] == old(buf[..]) && piece == []
  {
    if id == 0 {
      piece := Repeat(0, chunk);
      KString.Kmemset(buf, 0, done, 0, chunk);
      HoleSlice(rd.Vol(), off, chunk);
      return 0, piece;
    }
    r := rd.KreadBlock(id, p, b);
    if r != 0 {
      return ERR_IO, [];
    }
    var src := rd.CopyOut(p, off, off + chunk, BlockBytes(rd.Vol(), id));
    KString.PutBytes(buf, done, src);
    piece := src;
  }

  // ---- The loop ----

  /** The destination after `|got|` bytes: they are in front, the rest is untouched. */
  ghost predicate Filled(was: seq<u8>, now: seq<u8>, got: seq<u8>) {
    |got| <= |was| == |now| && now[..|got|] == got && Same(was, now, |got|, |was|)
  }

  lemma FilledMore(was: seq<u8>, w: seq<u8>, now: seq<u8>, got: seq<u8>, piece: seq<u8>)
    requires Filled(was, w, got) && |got| + |piece| <= |was| && now == Put(w, |got|, piece)
    ensures Filled(was, now, got + piece)
  {
    assert now[..|got| + |piece|] == w[..|got|] + piece;
  }

  /** How far a read has come: the bytes `got` are in front of `now`, and the rest of it is what it was. */
  ghost predicate Reached(x: Sight, pos0: nat, was: seq<u8>, now: seq<u8>, pos: nat, got: seq<u8>, trusted: bool) {
    && Filled(was, now, got) && pos == pos0 + |got|
    && (got != [] ==> pos <= |x.file|)
    && (pos0 <= |x.file| ==> Fetched(x, pos0, got, trusted))
  }

  lemma NothingReached(x: Sight, pos: nat, was: seq<u8>)
    requires |x.file| == |x.seen|
    ensures Reached(x, pos, was, was, pos, [], true)
  {
  }

  lemma ReachedMore(x: Sight, pos0: nat, was: seq<u8>, w: seq<u8>, now: seq<u8>, pos: nat, got: seq<u8>,
                    piece: seq<u8>, trusted: bool, still: bool)
    requires Reached(x, pos0, was, w, pos, got, trusted) && Fetched(x, pos, piece, still)
    requires |got| + |piece| <= |was| && now == Put(w, |got|, piece) && (still ==> trusted)
    requires piece != []
    ensures Reached(x, pos0, was, now, pos + |piece|, got + piece, still)
  {
    FilledMore(was, w, now, got, piece);
    FetchedMore(x, pos0, got, piece, trusted, still);
  }

  /** ext2_read's loop, with a block buffer at `p`. `got` are the bytes it puts at the front of `buf`. */
  method Loop(rd: Reader, file: File, buf: array<u8>, len: nat, p: u64, ghost b: Block)
    returns (r: int, ghost got: seq<u8>)
    requires rd.Ready() && LiveAt(rd.heap.blocks, p, b) && b.size >= rd.blockSize
    requires buf != rd.heap.mem && len <= buf.Length
    modifies file`pos, buf, rd.device, rd.heap, rd.heap.mem
    ensures rd.Ready() && rd.heap.blocks == old(rd.heap.blocks) && rd.device.faults >= old(rd.device.faults)
    ensures OthersSame(rd.heap.blocks, b, old(rd.heap.mem[..]), rd.heap.mem[..])
    ensures Reached(InSight(rd, file), old(file.pos), old(buf[..]), buf[..], file.pos, got,
                    rd.device.faults == old(rd.device.faults))
    ensures Ended(Limit(rd.Vol()), len, got, file.pos, r)
    ensures r == ERR_IO ==> rd.device.faults > old(rd.device.faults)
  {
    ghost var m0, was, pos0, ms, faults := rd.heap.mem[..], buf[..], file.pos, rd.heap.blocks, rd.device.faults;
    ghost var x := InSight(rd, file);
    SightLength(rd.Vol(), file.inode.bytes, Seen(rd.Room(), file.inode.bytes));
    var done, remaining := 0, len;
    got := [];
    NothingReached(x, pos0, was);
    while remaining > 0
      invariant done + remaining == len && |got| == done <= len
      invariant rd.Ready() && rd.heap.blocks == ms && rd.device.faults >= faults
      invariant OthersSame(ms, b, m0, rd.heap.mem[..])
      invariant InSight(rd, file) == x
      invariant Reached(x, pos0, was, buf[..], file.pos, got, rd.device.faults == faults)
    {
      ghost var m1, w, before, clean := rd.heap.mem[..], buf[..], file.pos, rd.device.faults == faults;
      var chunk;
      ghost var piece;
      r, chunk, piece := Chunk(rd, file, buf, done, remaining, p, b);
      OthersChain(ms, b, m0, m1, rd.heap.mem[..]);
      if r != 0 {
        PastLimit(rd.Vol(), file.pos);
        return;
      }
      ReachedMore(x, pos0, was, w, buf[..], before, got, piece, clean, rd.device.faults == faults);
      got := got + piece;
      done, remaining := done + chunk, remaining - chunk;
    }
    r := 0;
  }

  /** How the loop ends: with all `len` bytes, at the end of the block tree, or with a failed read. */
  ghost predicate Ended(limit: nat, len: nat, got: seq<u8>, pos: nat, r: int) {
    && |got| <= len
    && (r == 0 || r == ERR_UNSUPPORTED || r == ERR_IO)
    && (r == 0 ==> |got| == len)
    && (r == ERR_UNSUPPORTED ==> |got| < len && pos >= limit)
  }

  // ---- The whole read ----

  /** ext2_read can have its own buffer and kget_file_block's at the same time. */
  ghost predicate RoomForTwo(bs: seq<Block>, size: u64) {
    AllocResult(bs, size) != 0 && AllocResult(Malloc(bs, size), size) != 0
  }

  /**
   * What a read of `len` bytes did that moved the position from `pos0` to `pos`: it filled the
   * front of the destination and nothing else, with bytes of the file, or zeros behind its direct
   * blocks, and returned how many bytes it was asked for, that the block tree has no more, or
   * that a read or an allocation failed. If nothing failed on the way it delivered exactly what
   * is seen, up to the size of the file or to the end of the block tree.
   */
  ghost predicate Delivered(x: Sight, size: u64, pos0: u64, len: u64, was: seq<u8>, now: seq<u8>, pos: u64, r: int,
                            trusted: bool) {
    var k, want := pos - pos0, Wanted(pos0, size, len);
    && 0 <= k <= want && k <= |now| && Filled(was, now, now[..k])
    && (pos0 <= |x.file| ==> Fetched(x, pos0, now[..k], trusted))
    && (if pos0 >= size then r == 0 else Code(|x.file|, k, want, pos, r))
    && (trusted && pos0 < size ==>
          && r == (if k == want then AsInt(want) else ERR_UNSUPPORTED)
          && k == (if pos0 <= |x.file| then Least(want, |x.file| - pos0) else 0))
  }

  /** The result code after `k` of `want` bytes. */
  ghost predicate Code(limit: nat, k: nat, want: nat, pos: nat, r: int) {
    || (k == want && r == AsInt(want))
    || (k < want && pos >= limit && r == ERR_UNSUPPORTED)
    || r == ERR_IO
  }

  /** The read of a file with inode `n` that a read sees as `m`. */
  ghost predicate ReadDone(v: Volume, n: Inode, m: Inode, pos0: u64, len: u64, was: seq<u8>, now: seq<u8>, pos: u64,
                           r: int, trusted: bool)
    requires Sound(v)
  {
    Delivered(SightOf(v, n, m), Size(n), pos0, len, was, now, pos, r, trusted)
  }

  lemma ReadFinished(v: Volume, n: Inode, m: Inode, pos0: u64, len: u64, was: seq<u8>, now: seq<u8>, pos: u64,
                     got: seq<u8>, r: int, trusted: bool)
    requires Sound(v) && pos0 < Size(n) && Reached(SightOf(v, n, m), pos0, was, now, pos, got, trusted)
    requires Ended(Limit(v), Wanted(pos0, Size(n), len), got, pos, r) && (trusted ==> r != ERR_IO)
    ensures var code := if r == 0 then AsInt(Wanted(pos0, Size(n), len)) else r;
            ReadDone(v, n, m, pos0, len, was, now, pos, code, trusted)
  {
    assert now[..pos - pos0] == got;
    ContentsLimit(v, n);
  }

  lemma NothingRead(v: Volume, n: Inode, m: Inode, pos: u64, len: u64, was: seq<u8>, r: int)
    requires Sound(v) && r == if pos >= Size(n) then 0 else ERR_IO
    ensures ReadDone(v, n, m, pos, len, was, was, pos, r, pos >= Size(n))
  {
    assert was[..0] == [];
    SightLength(v, n, m);
  }

  /** What the volume's inode `n` looks like to a read on the heap `bs`: a second buffer may not fit. */
  ghost function Visible(bs: seq<Block>, size: u64, n: Inode): Inode {
    Seen(RoomForTwo(bs, size), n)
  }

  /**
   * ext2_read. Whatever fails on the way, the heap ends as it was, the bytes other owners keep
   * in it included. When no device read fails the content is exact, but with room for one buffer
   * only it is that of the direct blocks, and zeros behind.
   */
  method Ext2Read(rd: Reader, file: File, buf: array<u8>, len: u64) returns (r: int)
    requires rd.Ready() && buf != rd.heap.mem && len <= buf.Length
    modifies file`pos, buf, rd.device, rd.heap, rd.heap.mem
    ensures rd.Ready() && rd.heap.blocks == old(rd.heap.blocks) && rd.device.faults >= old(rd.device.faults)
    ensures PayloadsSame(rd.heap.blocks, old(rd.heap.mem[..]), rd.heap.mem[..])
    ensures ReadDone(rd.Vol(), file.inode.bytes, Visible(rd.heap.blocks, rd.blockSize, file.inode.bytes),
                     old(file.pos), len, old(buf[..]), buf[..], file.pos, r,
                     rd.device.faults == old(rd.device.faults) && rd.Room())
    ensures !rd.Room() && old(file.pos) < Size(file.inode.bytes) ==> r == ERR_IO && file.pos == old(file.pos)
  {
    var size := Size(file.inode.bytes);
    if file.pos >= size {
      NothingRead(rd.Vol(), file.inode.bytes, Visible(rd.heap.blocks, rd.blockSize, file.inode.bytes), file.pos, len,
                  buf[..], 0);
      return 0;
    }
    var n := if (file.pos + len) % TWO_64 > size then size - file.pos else len;
    assert n == Wanted(file.pos, size, len);
    r := Buffered(rd, file, buf, len, n);
  }

  /** The rest of ext2_read, from its kmalloc to its kfree. */
  method Buffered(rd: Reader, file: File, buf: array<u8>, ghost len: u64, n: nat) returns (r: int)
    requires rd.Ready() && buf != rd.heap.mem && n <= buf.Length && file.pos < Size(file.inode.bytes)
    requires n == Wanted(file.pos, Size(file.inode.bytes), len)
    modifies file`pos, buf, rd.device, rd.heap, rd.heap.mem
    ensures rd.Ready() && rd.heap.blocks == old(rd.heap.blocks) && rd.device.faults >= old(rd.device.faults)
    ensures PayloadsSame(rd.heap.blocks, old(rd.heap.mem[..]), rd.heap.mem[..])
    ensures ReadDone(rd.Vol(), file.inode.bytes, Visible(rd.heap.blocks, rd.blockSize, file.inode.bytes),
                     old(file.pos), len, old(buf[..]), buf[..], file.pos, r,
                     rd.device.faults == old(rd.device.faults) && rd.Room())
    ensures !rd.Room() ==> r == ERR_IO && file.pos == old(file.pos)
  {
    ghost var bs, m0, pos0, was, faults := rd.heap.blocks, rd.heap.mem[..], file.pos, buf[..], rd.device.faults;
    ghost var n0, m := file.inode.bytes, Visible(bs, rd.blockSize, file.inode.bytes);
    var block := rd.heap.Kmalloc(rd.blockSize);
    if block == 0 {
      MallocKeeps(bs, rd.blockSize);
      NothingRead(rd.Vol(), n0, m, file.pos, len, was, ERR_IO);
      return ERR_IO;
    }
    ghost var b := Buffer(bs, rd.blockSize);
    ghost var ms, m1, got := rd.heap.blocks, rd.heap.mem[..], [];
    r, got := Loop(rd, file, buf, n, block, b);
    ghost var m2 := rd.heap.mem[..];
    ReadFinished(rd.Vol(), n0, m, pos0, len, was, buf[..], file.pos, got, r, rd.device.faults == faults);
    rd.heap.Kfree(block);
    BufferPayloads(bs, ms, b, m0, m1, m2, rd.heap.mem[..]);
    r := if r == 0 then AsInt(n) else r;
  }

  // ---- When the delivered bytes are the file's ----

  /** Whatever fails, what is delivered out of the direct blocks is what the file holds there. */
  lemma DirectAlwaysExact(v: Volume, n: Inode, m: Inode, pos0: u64, len: u64, was: seq<u8>, now: seq<u8>, pos: u64,
                          r: int, trusted: bool)
    requires Sound(v) && ReadDone(v, n, m, pos0, len, was, now, pos, r, trusted) && pos <= 12 * v.blockSize
    ensures pos0 <= pos && pos - pos0 <= |now| && Exact(Contents(v, n), pos0, now[..pos - pos0])
  {
    DirectInside(v, n);
    DrawnExact(Contents(v, n), 12 * v.blockSize, pos0, now[..pos - pos0]);
  }

  lemma DirectInside(v: Volume, n: Inode)
    requires Sound(v)
    ensures 12 * v.blockSize <= |Contents(v, n)|
  {
    ContentsLength(v, n);
    AtLeastTwelve(MaxBlocks(v), v.blockSize);
  }

  lemma AtLeastTwelve(count: nat, size: nat)
    requires count >= 12
    ensures 12 * size <= count * size
  {
  }

  /** The bytes of `c` from `lo` to `hi` that lie at `direct` or behind are zeros. */
  ghost predicate ZerosBehind(c: seq<u8>, direct: nat, lo: nat, hi: nat) {
    forall j :: lo <= j < hi && direct <= j < |c| ==> c[j] == 0
  }

  /**
   * With room for one buffer only, a read that nothing disturbs delivers the file's bytes exactly
   * when those behind the direct blocks are zeros.
   */
  lemma OneBuffer(v: Volume, n: Inode, pos0: u64, len: u64, was: seq<u8>, now: seq<u8>, pos: u64, r: int)
    requires Sound(v) && ReadDone(v, n, DirectOnly(n), pos0, len, was, now, pos, r, true)
    requires pos0 < Size(n) && pos0 <= Limit(v)
    ensures pos0 <= pos && pos - pos0 <= |now|
    ensures Exact(Contents(v, n), pos0, now[..pos - pos0]) <==> ZerosBehind(Contents(v, n), 12 * v.blockSize, pos0, pos)
  {
    var x := SightOf(v, n, DirectOnly(n));
    CutSight(v, n, x);
    ContentsLimit(v, n);
    CutContents(x, Size(n), pos0, len, was, now, pos, r);
  }

  /** What is seen without the indirect pointers: the direct blocks, and zeros behind. */
  ghost predicate Cut(x: Sight) {
    |x.file| == |x.seen| && forall j :: 0 <= j < |x.file| ==> x.seen[j] == if j < x.direct then x.file[j] else 0
  }

  lemma CutSight(v: Volume, n: Inode, x: Sight)
    requires Sound(v) && x == SightOf(v, n, DirectOnly(n))
    ensures Cut(x)
  {
    SightLength(v, n, DirectOnly(n));
    forall j | 0 <= j < |x.file|
      ensures x.seen[j] == if j < x.direct then x.file[j] else 0
    {
      ContentsLength(v, n);
      DirectContents(v, n, j);
    }
  }

  lemma CutContents(x: Sight, size: u64, pos0: u64, len: u64, was: seq<u8>, now: seq<u8>, pos: u64, r: int)
    requires Cut(x) && Delivered(x, size, pos0, len, was, now, pos, r, true) && pos0 <= |x.file|
    ensures pos0 <= pos && pos - pos0 <= |now|
    ensures Exact(x.file, pos0, now[..pos - pos0]) <==> ZerosBehind(x.file, x.direct, pos0, pos)
  {
    CutSlice(x.file, x.seen, x.direct, pos0, pos, now[..pos - pos0]);
  }

  lemma CutSlice(c: seq<u8>, d: seq<u8>, direct: nat, lo: nat, hi: nat, got: seq<u8>)
    requires |c| == |d| && forall j :: 0 <= j < |c| ==> d[j] == if j < direct then c[j] else 0
    requires lo <= hi <= |d| && got == d[lo..hi]
    ensures Exact(c, lo, got) <==> ZerosBehind(c, direct, lo, hi)
  {
    if Exact(c, lo, got) {
      forall j | lo <= j < hi && direct <= j < |c|
        ensures c[j] == 0
      {
        assert c[lo..hi][j - lo] == d[lo..hi][j - lo];
      }
    }
  }

  /** A read that nothing disturbs is the abstract read of the file's bytes, so chunks of reads compose. */
  lemma ReadIsAbstract(v: Volume, n: Inode, pos0: u64, len: u64, was: seq<u8>, now: seq<u8>, pos: u64, r: int)
    requires Sound(v) && ReadDone(v, n, n, pos0, len, was, now, pos, r, true)
    requires Size(n) <= Limit(v) && pos0 + len < TWO_64
    ensures Size(n) <= |Contents(v, n)|
    ensures pos >= pos0 && pos - pos0 <= |now| && (now[..pos - pos0], pos) == ReadOf(Contents(v, n), Size(n), pos0, len)
    ensures r == AsInt(pos - pos0)
  {
    ContentsLimit(v, n);
    ReadWhole(SightOf(v, n, n), Size(n), pos0, len, was, now, pos, r);
    ExactRead(Contents(v, n), Size(n), pos0, len, now, pos);
  }

  /** In a file that its block tree can hold, an undisturbed read gets all it wants. */
  lemma ReadWhole(x: Sight, size: u64, pos0: u64, len: u64, was: seq<u8>, now: seq<u8>, pos: u64, r: int)
    requires Delivered(x, size, pos0, len, was, now, pos, r, true)
    requires size <= |x.file| == |x.seen| && pos0 + len < TWO_64
    ensures pos - pos0 == Wanted(pos0, size, len) <= |now| && r == AsInt(pos - pos0)
    ensures pos0 < size ==> pos <= |x.seen| && x.seen[pos0..pos] == now[..pos - pos0]
  {
    NoWrap(pos0, size, len);
  }

  lemma SightLength(v: Volume, n: Inode, m: Inode)
    requires Sound(v)
    ensures |SightOf(v, n, m).file| == |SightOf(v, n, m).seen| == Limit(v)
  {
    ContentsLimit(v, n);
    ContentsLimit(v, m);
  }

  lemma ContentsLimit(v: Volume, n: Inode)
    requires Sound(v)
    ensures |Contents(v, n)| == Limit(v)
  {
    ContentsLength(v, n);
  }

  lemma ExactRead(c: seq<u8>, size: u64, pos0: u64, len: u64, now: seq<u8>, pos: u64)
    requires size <= |c| && pos0 + len < TWO_64 && pos - pos0 == Wanted(pos0, size, len) <= |now|
    requires pos0 < size ==> pos <= |c| && c[pos0..pos] == now[..pos - pos0]
    ensures (now[..pos - pos0], pos) == ReadOf(c, size, pos0, len)
  {
    NoWrap(pos0, size, len);
    assert now[..0] == [];
    assert pos0 == size ==> c[pos0..pos0] == [];
  }
}
