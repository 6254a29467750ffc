/** Directory blocks: the listing of the ext2 driver and its search for a name. */
module Ext2Dirs {
  import opened Machine
  import opened HeapBlocks
  import opened HeapRuns
  import opened HeapLayout
  import opened MemoryPool
  import opened Ext2Layout
  import opened Ext2Blocks

  // ---- One directory block ----

  /** The block `blk` lies in the heap at address `p`. */
  ghost predicate Lies(rd: Reader, p: u64, blk: seq<u8>)
    reads rd.heap, rd.heap.mem
  {
    && HEAP_BASE <= p && At(p) + |blk| <= rd.heap.mem.Length && |blk| == rd.blockSize
    && rd.heap.mem[At(p)..At(p) + |blk|] == blk
  }

  /** `count` bytes at offset `off` of the buffer at `p`; what lies behind the buffer can be anything. */
  method Bytes(rd: Reader, p: u64, off: nat, count: nat, ghost blk: seq<u8>) returns (s: seq<u8>)
    requires Lies(rd, p, blk)
    ensures |s| == count && (off + count <= |blk| ==> s == blk[off..off + count])
  {
    if off + count <= rd.blockSize {
      s := rd.CopyOut(p, off, off + count, blk);
      return;
    }
    s := [];
    while |s| < count
      invariant |s| <= count
    {
      var any: u8 := *;
      s := s + [any];
    }
  }

  /** The fixed part of the record at `off`: inode, rec_len, name_len, file_type. */
  method Header(rd: Reader, p: u64, off: nat, ghost blk: seq<u8>) returns (ino: u32, rec: u16, nlen: u8, kind: u8)
    requires Lies(rd, p, blk)
    ensures off + 8 <= |blk| ==>
              ino == Load32(blk, off) && rec == RecLen(blk, off) && nlen == blk[off + 6] && kind == blk[off + 7]
  {
    var s := Bytes(rd, p, off, 8, blk);
    ino, rec, nlen, kind := Load32(s, 0), Load16(s, 4), s[6], s[7];
    if off + 8 <= |blk| {
      SliceOfSlice(blk, off, 8, 0, 4);
      SliceOfSlice(blk, off, 8, 4, 6);
    }
  }

  /** The checks of kprocess_dir_block on the record at `off`, and the callback it is worth. */
  method Accept(rd: Reader, p: u64, off: nat, ghost blk: seq<u8>) returns (ok: bool, rec: u16, more: seq<Entry>)
    requires Lies(rd, p, blk) && off < |blk|
    ensures ok <==> Accepted(blk, off)
    ensures ok ==> rec == RecLen(blk, off) && more == Report(blk, off)
  {
    var ino, nlen, kind;
    ino, rec, nlen, kind := Header(rd, p, off, blk);
    more := [];
    var n: int := nlen;
    var minLen := (8 + n + 3) / 4 * 4;
    if rec < 8 || rec > rd.blockSize - off {
      return false, rec, [];
    }
    if ino != 0 && nlen == 0 {
      return false, rec, [];
    }
    if rec < minLen {
      return false, rec, [];
    }
    if ino != 0 && nlen > 0 {
      var name := Bytes(rd, p, off + 8, nlen, blk);
      more := [Entry(ino, name, kind)];
    }
    ok := true;
  }

  /** kprocess_dir_block: one callback for every used record, up to the first that is not accepted. */
  method KprocessDirBlock(rd: Reader, p: u64, ghost blk: seq<u8>) returns (calls: seq<Entry>)
    requires Lies(rd, p, blk)
    ensures calls == Reported(blk, 0)
  {
    calls := [];
    var off := 0;
    Unlisted(blk);
    while off < rd.blockSize
      invariant off <= |blk| && Listing(blk, off, calls)
    {
      var ok, rec;
      ok, rec, calls := ListRecord(rd, p, off, calls, blk);
      if !ok {
        return;
      }
      off := off + rec;
    }
    ReportEnd(blk, off, calls);
  }

  /** One round of the listing: another callback, if the record is worth one, or the end. */
  method ListRecord(rd: Reader, p: u64, off: nat, calls: seq<Entry>, ghost blk: seq<u8>)
    returns (ok: bool, rec: u16, after: seq<Entry>)
    requires Lies(rd, p, blk) && off < |blk| && Listing(blk, off, calls)
    ensures if ok then 0 < rec && off + rec <= |blk| && Listing(blk, off + rec, after) else after == Reported(blk, 0)
  {
    var more;
    ok, rec, more := Accept(rd, p, off, blk);
    after := calls;
    if ok {
      ReportStep(blk, off, off + rec, calls, more);
      after := calls + more;
    } else {
      ReportEnd(blk, off, calls);
    }
  }

  /** The listing has come to offset `off` with these callbacks made. */
  ghost predicate Listing(blk: seq<u8>, off: nat, calls: seq<Entry>) {
    Reported(blk, 0) == calls + Reported(blk, off)
  }

  lemma Unlisted(blk: seq<u8>)
    ensures Listing(blk, 0, [])
  {
  }

  lemma ReportEnd(blk: seq<u8>, off: nat, calls: seq<Entry>)
    requires Listing(blk, off, calls) && !Accepted(blk, off)
    ensures calls == Reported(blk, 0)
  {
  }

  lemma ReportStep(blk: seq<u8>, off: nat, next: nat, calls: seq<Entry>, more: seq<Entry>)
    requires Listing(blk, off, calls) && Accepted(blk, off)
    requires more == Report(blk, off) && next == off + RecLen(blk, off)
    ensures Listing(blk, next, calls + more)
  {
  }

  /** The record at `off`: how long it is, and its inode if it is used and has the name. */
  method Compare(rd: Reader, p: u64, off: nat, name: seq<u8>, ghost blk: seq<u8>) returns (rec: u16, found: u32)
    requires Lies(rd, p, blk) && 0 < |name| < 256
    ensures Whole(blk, off) ==>
              rec == RecLen(blk, off) && found == if rec != 0 && Named(blk, off, name) then Load32(blk, off) else 0
    ensures rec == 0 ==> found == 0
  {
    var ino, nlen, kind;
    ino, rec, nlen, kind := Header(rd, p, off, blk);
    if rec != 0 && ino != 0 && nlen == |name| % 256 {
      var entry := Bytes(rd, p, off + 8, nlen, blk);
      if entry == name {
        return rec, ino;
      }
    }
    found := 0;
  }

  /** What the search reads of the record at `off` lies inside the block. */
  predicate Whole(blk: seq<u8>, off: nat) {
    && off + 8 <= |blk|
    && (RecLen(blk, off) != 0 && Load32(blk, off) != 0 ==> off + 8 + blk[off + 6] <= |blk|)
  }

  predicate Named(blk: seq<u8>, off: nat, name: seq<u8>)
    requires Whole(blk, off) && RecLen(blk, off) != 0
  {
    Load32(blk, off) != 0 && blk[off + 8..off + 8 + blk[off + 6]] == name
  }

  /** One round of the scan: the name is found, or the search goes on behind the record. */
  method Match(rd: Reader, p: u64, off: nat, name: seq<u8>, ghost blk: seq<u8>) returns (rec: u16, found: u32)
    requires Lies(rd, p, blk) && 0 < |name| < 256 && off < |blk| && Searching(blk, off, name)
    ensures found != 0 ==> FoundIn(blk, name, found)
    ensures found == 0 && rec != 0 ==> Searching(blk, off + rec, name)
    ensures rec == 0 ==> found == 0 && FoundIn(blk, name, 0)
  {
    rec, found := Compare(rd, p, off, name, blk);
    SearchStep(blk, off, off + rec, name, rec, found);
  }

  lemma SearchStep(blk: seq<u8>, off: nat, next: nat, name: seq<u8>, rec: u16, found: u32)
    requires off < |blk| && next == off + rec && name != [] && Searching(blk, off, name) && (rec == 0 ==> found == 0)
    requires Whole(blk, off) ==>
               rec == RecLen(blk, off) && found == if rec != 0 && Named(blk, off, name) then Load32(blk, off) else 0
    ensures found != 0 ==> FoundIn(blk, name, found)
    ensures found == 0 && rec != 0 ==> Searching(blk, next, name)
    ensures rec == 0 ==> FoundIn(blk, name, 0)
  {
    RecordFacts(blk, off, next, name, rec, found);
    SearchOn(blk, off, next, name, rec, found);
  }

  /** What the record at `off`, with the next one at `next`, means for a search. */
  ghost predicate Decides(blk: seq<u8>, off: nat, next: nat, name: seq<u8>, rec: int, found: u32) {
    Inside(blk, off) ==>
      if rec == 0 then FirstNamed(Raw(blk, off), name) == 0
      else if found != 0 then FirstNamed(Raw(blk, off), name) == found
      else Inside(blk, next) && FirstNamed(Raw(blk, off), name) == FirstNamed(Raw(blk, next), name)
  }

  lemma SearchOn(blk: seq<u8>, off: nat, next: nat, name: seq<u8>, rec: int, found: u32)
    requires Searching(blk, off, name) && Decides(blk, off, next, name, rec, found) && (rec == 0 ==> found == 0)
    ensures found != 0 ==> FoundIn(blk, name, found)
    ensures found == 0 && rec != 0 ==> Searching(blk, next, name)
    ensures rec == 0 ==> FoundIn(blk, name, 0)
  {
  }

  lemma RecordFacts(blk: seq<u8>, off: nat, next: nat, name: seq<u8>, rec: u16, found: u32)
    requires off < |blk| && next == off + rec && name != []
    requires Whole(blk, off) ==>
               rec == RecLen(blk, off) && found == if rec != 0 && Named(blk, off, name) then Load32(blk, off) else 0
    ensures Decides(blk, off, next, name, rec, found)
  {
    if Inside(blk, off) && rec != 0 {
      SkipRecord(blk, off, next, name);
    }
  }

  /** The scan of ext2_open and ext2_list over one block, for the component `name`. */
  method SearchBlock(rd: Reader, p: u64, name: seq<u8>, ghost blk: seq<u8>) returns (found: u32)
    requires Lies(rd, p, blk) && 0 < |name| < 256
    ensures FoundIn(blk, name, found)
  {
    var off := 0;
    while off < rd.blockSize
      invariant Searching(blk, off, name)
    {
      var rec;
      rec, found := Match(rd, p, off, name, blk);
      if rec == 0 {
        return 0;
      }
      if found != 0 {
        return;
      }
      off := off + rec;
    }
    EndOfBlock(blk, off, name);
    return 0;
  }

  /** What the search of a block finds: the first entry of that name, if it stays inside the block. */
  ghost predicate FoundIn(blk: seq<u8>, name: seq<u8>, found: u32) {
    Inside(blk, 0) ==> found == FirstNamed(Raw(blk, 0), name)
  }

  /** The search has come to offset `off` without finding the name. */
  ghost predicate Searching(blk: seq<u8>, off: nat, name: seq<u8>) {
    Inside(blk, 0) ==> Inside(blk, off) && FirstNamed(Raw(blk, 0), name) == FirstNamed(Raw(blk, off), name)
  }

  lemma EndOfBlock(blk: seq<u8>, off: nat, name: seq<u8>)
    requires Searching(blk, off, name) && off >= |blk|
    ensures FoundIn(blk, name, 0)
  {
  }

  lemma SkipRecord(blk: seq<u8>, off: nat, next: nat, name: seq<u8>)
    requires Whole(blk, off) && RecLen(blk, off) != 0 && next == off + RecLen(blk, off)
    ensures FirstNamed(Raw(blk, off), name) ==
            if Named(blk, off, name) then Load32(blk, off) else FirstNamed(Raw(blk, next), name)
  {
    var rest := Raw(blk, next);
    if Load32(blk, off) == 0 {
      assert Raw(blk, off) == rest;
    } else {
      assert Raw(blk, off) == [EntryAt(blk, off)] + rest;
      FirstOfMore(EntryAt(blk, off), rest, name);
    }
  }

  lemma FirstOfMore(e: Entry, rest: seq<Entry>, name: seq<u8>)
    ensures FirstNamed([e] + rest, name) == if e.name == name then e.inode else FirstNamed(rest, name)
  {
    assert ([e] + rest)[1..] == rest;
  }

  // ---- Directories ----

  /** The search through the direct blocks of a directory, with a block buffer at `p`. */
  method ScanDir(rd: Reader, dir: Inode, name: seq<u8>, p: u64, ghost b: Block) returns (ok: bool, found: u32)
    requires rd.Ready() && LiveAt(rd.heap.blocks, p, b) && b.size >= rd.blockSize && 0 < |name| < 256
    modifies rd.device, rd.heap.mem
    ensures rd.Ready() && rd.device.faults >= old(rd.device.faults)
    ensures ok <==> rd.device.faults == old(rd.device.faults)
    ensures OthersSame(rd.heap.blocks, b, old(rd.heap.mem[..]), rd.heap.mem[..])
    ensures ok ==> LookedFor(rd.Vol(), dir, name, found)
  {
    found := 0;
    ghost var v, m0 := rd.Vol(), rd.heap.mem[..];
    var i := 0;
    LookFirst(v, dir, name);
    while i < 12 && found == 0
      invariant 0 <= i <= 12
      invariant rd.Ready() && rd.Vol() == v && rd.device.faults == old(rd.device.faults)
      invariant OthersSame(rd.heap.blocks, b, m0, rd.heap.mem[..])
      invariant Looking(v, dir, name, i, found)
    {
      ghost var m1 := rd.heap.mem[..];
      ok, found := ScanBlock(rd, dir, name, i, p, b);
      OthersChain(rd.heap.blocks, b, m0, m1, rd.heap.mem[..]);
      if !ok {
        return false, 0;
      }
      i := i + 1;
    }
    LookedThrough(v, dir, name, i, found);
    ok := true;
  }

  /** The search through direct block `i`, if the directory has one. */
  method ScanBlock(rd: Reader, dir: Inode, name: seq<u8>, i: nat, p: u64, ghost b: Block) returns (ok: bool, found: u32)
    requires rd.Ready() && LiveAt(rd.heap.blocks, p, b) && b.size >= rd.blockSize && 0 < |name| < 256
    requires i < 12 && Looking(rd.Vol(), dir, name, i, 0)
    modifies rd.device, rd.heap.mem
    ensures rd.Ready() && rd.device.faults >= old(rd.device.faults)
    ensures ok <==> rd.device.faults == old(rd.device.faults)
    ensures OthersSame(rd.heap.blocks, b, old(rd.heap.mem[..]), rd.heap.mem[..])
    ensures ok ==> Looking(rd.Vol(), dir, name, i + 1, found)
  {
    found := 0;
    var id := BlockPointer(dir, i);
    if id != 0 {
      var r := rd.KreadBlock(id, p, b);
      if r != 0 {
        return false, 0;
      }
      found := SearchBlock(rd, p, name, BlockBytes(rd.Vol(), id));
    }
    LookOn(rd.Vol(), dir, name, i, found);
    ok := true;
  }

  /** The blocks before `i` have been searched; `found` is what they gave. */
  ghost predicate Looking(v: Volume, dir: Inode, name: seq<u8>, i: nat, found: u32)
    requires Sound(v) && i <= 12
  {
    InsideDir(v, dir) ==>
      FirstNamed(Scanned(v, dir), name) == if found != 0 then found else FirstNamed(ScannedFrom(v, dir, i), name)
  }

  lemma LookOn(v: Volume, dir: Inode, name: seq<u8>, i: nat, found: u32)
    requires Sound(v) && i < 12 && Looking(v, dir, name, i, 0)
    requires var id := BlockPointer(dir, i);
             if id == 0 then found == 0
             else FoundIn(BlockBytes(v, id), name, found)
    ensures Looking(v, dir, name, i + 1, found)
  {
    if InsideDir(v, dir) {
      BlockFound(v, dir, name, i, found);
      BlockUsed(v, dir, i);
      FirstNamedConcat(BlockScanned(v, dir, i), ScannedFrom(v, dir, i + 1), name);
    }
  }

  lemma BlockFound(v: Volume, dir: Inode, name: seq<u8>, i: nat, found: u32)
    requires Sound(v) && i < 12 && InsideDir(v, dir)
    requires var id := BlockPointer(dir, i);
             if id == 0 then found == 0
             else FoundIn(BlockBytes(v, id), name, found)
    ensures found == FirstNamed(BlockScanned(v, dir, i), name)
  {
  }

  lemma BlockUsed(v: Volume, dir: Inode, i: nat)
    requires Sound(v) && i < 12
    ensures forall e :: e in BlockScanned(v, dir, i) ==> e.inode != 0
  {
    if BlockPointer(dir, i) != 0 {
      RawUsed(BlockBytes(v, BlockPointer(dir, i)), 0);
    }
  }

  lemma LookFirst(v: Volume, dir: Inode, name: seq<u8>)
    requires Sound(v)
    ensures Looking(v, dir, name, 0, 0)
  {
  }

  /** What the search of a directory finds, if it stays inside the blocks. */
  ghost predicate LookedFor(v: Volume, dir: Inode, name: seq<u8>, found: u32)
    requires Sound(v)
  {
    InsideDir(v, dir) ==> found == FirstNamed(Scanned(v, dir), name)
  }

  lemma LookedThrough(v: Volume, dir: Inode, name: seq<u8>, i: nat, found: u32)
    requires Sound(v) && i <= 12 && (i == 12 || found != 0) && Looking(v, dir, name, i, found)
    ensures LookedFor(v, dir, name, found)
  {
  }

  /** The search of one component: a buffer is taken, the blocks are scanned, the buffer is freed. */
  method Lookup(rd: Reader, dir: Inode, name: seq<u8>) returns (r: int, found: u32)
    requires rd.Ready() && 0 < |name| < 256
    modifies rd.device, rd.heap, rd.heap.mem
    ensures rd.Ready() && rd.heap.blocks == old(rd.heap.blocks) && rd.device.faults >= old(rd.device.faults)
    ensures PayloadsSame(rd.heap.blocks, old(rd.heap.mem[..]), rd.heap.mem[..])
    ensures r == if rd.Room() && rd.device.faults == old(rd.device.faults) then 0 else ERR_IO
    ensures r == 0 && InsideDir(rd.Vol(), dir) ==> found == FirstNamed(Scanned(rd.Vol(), dir), name)
  {
    ghost var bs, m0 := rd.heap.blocks, rd.heap.mem[..];
    var buf := rd.heap.Kmalloc(rd.blockSize);
    if buf == 0 {
      MallocKeeps(bs, rd.blockSize);
      return ERR_IO, 0;
    }
    ghost var b := Buffer(bs, rd.blockSize);
    ghost var ms, m1 := rd.heap.blocks, rd.heap.mem[..];
    var ok;
    ok, found := ScanDir(rd, dir, name, buf, b);
    ghost var m2 := rd.heap.mem[..];
    rd.heap.Kfree(buf);
    BufferPayloads(bs, ms, b, m0, m1, m2, rd.heap.mem[..]);
    r := if ok then 0 else ERR_IO;
  }

  /**
   * klist_dir_entries: the callbacks are the entries of the direct blocks, in order; when a read
   * fails, those of the blocks in front of the one that could not be read, number `last`.
   */
  method KlistDirEntries(rd: Reader, dir: Inode) returns (r: int, calls: seq<Entry>, ghost last: nat)
    requires rd.Ready()
    modifies rd.device, rd.heap, rd.heap.mem
    ensures rd.Ready() && rd.heap.blocks == old(rd.heap.blocks) && rd.device.faults >= old(rd.device.faults)
    ensures PayloadsSame(rd.heap.blocks, old(rd.heap.mem[..]), rd.heap.mem[..])
    ensures r == if !IsDir(dir) then ERR_INVALID
                 else if rd.Room() && rd.device.faults == old(rd.device.faults) then 0 else ERR_IO
    ensures r == 0 ==> calls == Entries(rd.Vol(), dir)
    ensures calls <= Entries(rd.Vol(), dir)
    ensures last <= 12 && Told(rd.Vol(), dir, last, calls)
    ensures rd.device.served - old(rd.device.served) == Used(Direct(dir)[..last])
    ensures r == ERR_IO && rd.Room() ==> last < 12 && BlockPointer(dir, last) != 0
  {
    if !IsDir(dir) {
      NothingTold(rd.Vol(), dir);
      return ERR_INVALID, [], 0;
    }
    r, calls, last := ListBuffered(rd, dir);
    ToldEntries(rd.Vol(), dir, last, calls);
  }

  /** The rest of it, from its kmalloc to its kfree. */
  method ListBuffered(rd: Reader, dir: Inode) returns (r: int, calls: seq<Entry>, ghost last: nat)
    requires rd.Ready()
    modifies rd.device, rd.heap, rd.heap.mem
    ensures rd.Ready() && rd.heap.blocks == old(rd.heap.blocks) && rd.device.faults >= old(rd.device.faults)
    ensures PayloadsSame(rd.heap.blocks, old(rd.heap.mem[..]), rd.heap.mem[..])
    ensures r == if rd.Room() && rd.device.faults == old(rd.device.faults) then 0 else ERR_IO
    ensures last <= 12 && Told(rd.Vol(), dir, last, calls)
    ensures rd.device.served - old(rd.device.served) == Used(Direct(dir)[..last])
    ensures if r == 0 then last == 12 else rd.Room() ==> last < 12 && BlockPointer(dir, last) != 0
  {
    ghost var bs, m0 := rd.heap.blocks, rd.heap.mem[..];
    var buf := rd.heap.Kmalloc(rd.blockSize);
    if buf == 0 {
      MallocKeeps(bs, rd.blockSize);
      NothingTold(rd.Vol(), dir);
      return ERR_IO, [], 0;
    }
    ghost var b := Buffer(bs, rd.blockSize);
    ghost var ms, m1 := rd.heap.blocks, rd.heap.mem[..];
    var ok;
    ok, calls, last := ListBlocks(rd, dir, buf, b);
    ghost var m2 := rd.heap.mem[..];
    rd.heap.Kfree(buf);
    BufferPayloads(bs, ms, b, m0, m1, m2, rd.heap.mem[..]);
    r := if ok then 0 else ERR_IO;
  }

  /** The pointers to the direct blocks. */
  function Direct(dir: Inode): (ps: seq<u32>)
    ensures |ps| == 12
  {
    seq(12, i requires 0 <= i < 12 => BlockPointer(dir, i))
  }

  /** How many of the pointers lead to blocks. */
  function Used(ps: seq<u32>): nat {
    if ps == [] then 0 else Used(ps[..|ps| - 1]) + if ps[|ps| - 1] == 0 then 0 else 1
  }

  lemma UsedStep(ps: seq<u32>, i: nat)
    requires i < |ps|
    ensures Used(ps[..i + 1]) == Used(ps[..i]) + if ps[i] == 0 then 0 else 1
  {
    assert ps[..i + 1][..i] == ps[..i];
  }

  method ListBlocks(rd: Reader, dir: Inode, p: u64, ghost b: Block)
    returns (ok: bool, calls: seq<Entry>, ghost last: nat)
    requires rd.Ready() && LiveAt(rd.heap.blocks, p, b) && b.size >= rd.blockSize
    modifies rd.device, rd.heap.mem
    ensures rd.Ready() && rd.device.faults >= old(rd.device.faults)
    ensures ok <==> rd.device.faults == old(rd.device.faults)
    ensures OthersSame(rd.heap.blocks, b, old(rd.heap.mem[..]), rd.heap.mem[..])
    ensures last <= 12 && Told(rd.Vol(), dir, last, calls)
    ensures rd.device.served - old(rd.device.served) == Used(Direct(dir)[..last])
    ensures if ok then last == 12 else last < 12 && BlockPointer(dir, last) != 0
  {
    calls, last := [], 0;
    NothingTold(rd.Vol(), dir);
    ghost var v, m0, ps, served := rd.Vol(), rd.heap.mem[..], Direct(dir), rd.device.served;
    for i := 0 to 12
      invariant rd.Ready() && rd.Vol() == v && rd.device.faults == old(rd.device.faults)
      invariant OthersSame(rd.heap.blocks, b, m0, rd.heap.mem[..])
      invariant last == i && Told(v, dir, i, calls)
      invariant rd.device.served - served == Used(ps[..i])
    {
      ghost var m1 := rd.heap.mem[..];
      var more;
      ok, more := ListBlock(rd, dir, i, p, b);
      OthersChain(rd.heap.blocks, b, m0, m1, rd.heap.mem[..]);
      if !ok {
        return;
      }
      EntriesStep(v, dir, i, calls, more);
      UsedStep(ps, i);
      calls, last := calls + more, i + 1;
    }
    ok := true;
  }

  /** The callbacks so far are the entries of the blocks before `i`. */
  ghost predicate Told(v: Volume, dir: Inode, i: nat, calls: seq<Entry>)
    requires Sound(v) && i <= 12
  {
    Entries(v, dir) == calls + EntriesFrom(v, dir, i)
  }

  lemma NothingTold(v: Volume, dir: Inode)
    requires Sound(v)
    ensures Told(v, dir, 0, []) && Used(Direct(dir)[..0]) == 0
  {
  }

  lemma ToldEntries(v: Volume, dir: Inode, i: nat, calls: seq<Entry>)
    requires Sound(v) && i <= 12 && Told(v, dir, i, calls)
    ensures calls <= Entries(v, dir) && (i == 12 ==> calls == Entries(v, dir))
  {
  }

  method ListBlock(rd: Reader, dir: Inode, i: nat, p: u64, ghost b: Block) returns (ok: bool, more: seq<Entry>)
    requires rd.Ready() && LiveAt(rd.heap.blocks, p, b) && b.size >= rd.blockSize && i < 12
    modifies rd.device, rd.heap.mem
    ensures rd.Ready() && rd.device.faults >= old(rd.device.faults)
    ensures ok <==> rd.device.faults == old(rd.device.faults)
    ensures OthersSame(rd.heap.blocks, b, old(rd.heap.mem[..]), rd.heap.mem[..])
    ensures if ok then more == BlockEntries(rd.Vol(), dir, i) else BlockPointer(dir, i) != 0
    ensures rd.device.served == old(rd.device.served) + if !ok || BlockPointer(dir, i) == 0 then 0 else 1
  {
    var id := BlockPointer(dir, i);
    ok, more := true, [];
    if id != 0 {
      var r := rd.KreadBlock(id, p, b);
      if r != 0 {
        return false, [];
      }
      more := KprocessDirBlock(rd, p, BlockBytes(rd.Vol(), id));
    }
  }

  lemma EntriesStep(v: Volume, dir: Inode, i: nat, calls: seq<Entry>, more: seq<Entry>)
    requires Sound(v) && i < 12 && Told(v, dir, i, calls) && more == BlockEntries(v, dir, i)
    ensures Told(v, dir, i + 1, calls + more)
  {
    assert EntriesFrom(v, dir, i) == more + EntriesFrom(v, dir, i + 1);
  }
}
