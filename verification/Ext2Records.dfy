/** The records of an ext2 image as their fields are encoded on disk, and that the model reads back each field. */
module Ext2Records {
  import opened Machine
  import opened Ext2Layout

  // ---- Words ----

  lemma Words(m: seq<u8>, i: nat)
    requires i + 4 <= |m|
    ensures Load32(m, i) == Decode(m[i..i + 4]) && Load16(m, i) == Decode(m[i..i + 2])
  {
    DecodeTwo(m[i..i + 2]);
    DecodeFour(m[i..i + 4]);
  }

  lemma DecodeTwo(s: seq<u8>)
    requires |s| == 2
    ensures var a: int, b: int := s[0], s[1]; Decode(s) == a + 0x100 * b
  {
    assert s[1..][1..] == [];
    assert Decode(s[1..]) == s[1];
  }

  lemma DecodeFour(s: seq<u8>)
    requires |s| == 4
    ensures var a: int, b: int, c: int, d: int := s[0], s[1], s[2], s[3];
            Decode(s) == a + 0x100 * b + 0x1_0000 * c + 0x100_0000 * d
  {
    DecodeTwo(s[2..]);
    assert s[1..][1..] == s[2..];
    assert Decode(s[1..]) == s[1] + 256 * Decode(s[2..]);
  }

  /** The least significant byte comes first. */
  lemma LowByteFirst()
    ensures Load32([0x78, 0x56, 0x34, 0x12], 0) == 0x1234_5678 && Load16([0x34, 0x12], 0) == 0x1234
    ensures Encode(0x1234_5678, 4) == [0x78, 0x56, 0x34, 0x12]
  {
  }

  /** A word that was encoded between other bytes is read back. */
  lemma WordBack(p: seq<u8>, q: seq<u8>, v: u32)
    ensures Load32(p + Encode(v, 4) + q, |p|) == v
  {
    var m := p + Encode(v, 4) + q;
    assert m[|p|..|p| + 4] == Encode(v, 4);
    Words(m, |p|);
    Pow256Values();
    DecodeEncode(v, 4);
  }

  lemma HalfBack(p: seq<u8>, q: seq<u8>, v: u16)
    ensures Load16(p + Encode(v, 2) + q, |p|) == v
  {
    var m := p + Encode(v, 2) + q;
    assert m[|p|..|p| + 2] == Encode(v, 2);
    DecodeTwo(m[|p|..|p| + 2]);
    Pow256Values();
    DecodeEncode(v, 2);
  }

  // ---- Inodes ----

  /** ext2_inode_t, field by field. */
  datatype Fields = Fields(mode: u16, uid: u16, sizeLow: u32, atime: u32, ctime: u32, mtime: u32, dtime: u32,
                           gid: u16, linksCount: u16, blocks: u32, flags: u32, osd1: u32, block: seq<u32>,
                           generation: u32, fileAcl: u32, sizeHigh: u32, faddr: u32, osd2: seq<u8>)

  function EncodeAll(ws: seq<u32>): (s: seq<u8>)
    ensures |s| == 4 * |ws|
  {
    if ws == [] then [] else Encode(ws[0], 4) + EncodeAll(ws[1..])
  }

  /** What precedes the block pointers, and what follows them. */
  function Front(f: Fields): (s: seq<u8>)
    ensures |s| == 40
  {
    Encode(f.mode, 2) + Encode(f.uid, 2) + EncodeAll([f.sizeLow, f.atime, f.ctime, f.mtime, f.dtime])
    + Encode(f.gid, 2) + Encode(f.linksCount, 2) + EncodeAll([f.blocks, f.flags, f.osd1])
  }

  function Back(f: Fields): (s: seq<u8>)
    ensures |s| == 16 + |f.osd2|
  {
    EncodeAll([f.generation, f.fileAcl, f.sizeHigh, f.faddr]) + f.osd2
  }

  /** The inode on disk. */
  function EncodeInode(f: Fields): Inode
    requires |f.block| == 15 && |f.osd2| == 12
  {
    Front(f) + EncodeAll(f.block) + Back(f)
  }

  lemma {:induction false} WordOfAll(p: seq<u8>, ws: seq<u32>, q: seq<u8>, i: nat)
    requires i < |ws|
    ensures Load32(p + EncodeAll(ws) + q, |p| + 4 * i) == ws[i]
    decreases i
  {
    var rest := EncodeAll(ws[1..]);
    if i == 0 {
      assert p + EncodeAll(ws) + q == p + Encode(ws[0], 4) + (rest + q);
      WordBack(p, rest + q, ws[0]);
    } else {
      assert p + EncodeAll(ws) + q == (p + Encode(ws[0], 4)) + rest + q;
      WordOfAll(p + Encode(ws[0], 4), ws[1..], q, i - 1);
    }
  }

  /** The mode, the size with its high half, and all fifteen block pointers are read where they are. */
  lemma FieldsBack(f: Fields)
    requires |f.block| == 15 && |f.osd2| == 12
    ensures Mode(EncodeInode(f)) == f.mode
    ensures Size(EncodeInode(f)) == f.sizeLow + f.sizeHigh * TWO_32
    ensures forall i :: 0 <= i < 15 ==> BlockPointer(EncodeInode(f), i) == f.block[i]
  {
    var n := EncodeInode(f);
    ModeBack(f, n);
    SizeBack(f, n);
    forall i | 0 <= i < 15
      ensures BlockPointer(n, i) == f.block[i]
    {
      WordOfAll(Front(f), f.block, Back(f), i);
    }
  }

  lemma ModeBack(f: Fields, n: Inode)
    requires |f.block| == 15 && |f.osd2| == 12 && n == EncodeInode(f)
    ensures Mode(n) == f.mode
  {
    var q := n[2..];
    assert n == [] + Encode(f.mode, 2) + q;
    HalfBack([], q, f.mode);
  }

  lemma SizeBack(f: Fields, n: Inode)
    requires |f.block| == 15 && |f.osd2| == 12 && n == EncodeInode(f)
    ensures Load32(n, 4) == f.sizeLow && Load32(n, 108) == f.sizeHigh
  {
    var p, ws := Encode(f.mode, 2) + Encode(f.uid, 2), [f.sizeLow, f.atime, f.ctime, f.mtime, f.dtime];
    var q := n[24..];
    assert n == p + EncodeAll(ws) + q;
    WordOfAll(p, ws, q, 0);
    var front, vs := Front(f) + EncodeAll(f.block), [f.generation, f.fileAcl, f.sizeHigh, f.faddr];
    assert n == front + EncodeAll(vs) + f.osd2;
    WordOfAll(front, vs, f.osd2, 2);
  }

  // ---- Places ----

  /** Block `id` begins `id` times the block size behind the first byte of the partition. */
  lemma BlockPlace(v: Volume, id: u32, at: nat)
    requires Sound(v) && at == 512 * v.baseLba + id * v.blockSize
    requires at + v.blockSize <= |v.image| < TWO_64
    ensures BlockBytes(v, id) == v.image[at..at + v.blockSize]
  {
    WholeSectors(id, v.blockSize);
  }

  lemma WholeSectors(id: nat, bs: nat)
    requires bs == 1024 || bs == 2048 || bs == 4096
    ensures id * bs >= 0 && id * bs / 512 * 512 == id * bs
  {
    if bs == 1024 {
      assert id * bs == 512 * (2 * id);
    } else if bs == 2048 {
      assert id * bs == 512 * (4 * id);
    } else {
      assert id * bs == 512 * (8 * id);
    }
  }

  /** Inode numbers count from 1 through the groups, and an inode is one stride behind the one before it. */
  lemma InodePlace(v: Volume, ino: u32, group: nat, i: nat)
    requires Sound(v) && ino == Positional(v.inodesPerGroup, group, i) + 1 && i < v.inodesPerGroup
    requires group < TWO_32
    ensures InodeOf(v, ino) == TableBytes(v, group, Multiply(i, if v.inodeSize == 0 then 128 else v.inodeSize), 128)
  {
    Numbered(ino - 1, v.inodesPerGroup, group, i);
    InodeFrom(v, ino, (ino - 1) / v.inodesPerGroup, (ino - 1) % v.inodesPerGroup);
  }

  lemma Numbered(k: int, count: nat, group: nat, i: nat)
    requires i < count && k == Positional(count, group, i)
    ensures k / count == group && k % count == i
  {
    Divided(k, count, group, i);
  }

  lemma InodeFrom(v: Volume, ino: u32, group: u32, i: nat)
    requires Sound(v) && ino != 0 && group == (ino - 1) / v.inodesPerGroup && i == (ino - 1) % v.inodesPerGroup
    ensures InodeOf(v, ino) == TableBytes(v, group, Multiply(i, if v.inodeSize == 0 then 128 else v.inodeSize), 128)
  {
  }

  /** The data blocks below the single, double and triple indirect pointers. */
  lemma TreeSizes(v: Volume)
    requires Sound(v)
    ensures v.blockSize == 1024 ==> Span(v, 1) == 256 && Span(v, 2) == 65_536 && Span(v, 3) == 16_777_216
    ensures v.blockSize == 2048 ==> Span(v, 1) == 512 && Span(v, 2) == 262_144 && Span(v, 3) == 134_217_728
    ensures v.blockSize == 4096 ==> Span(v, 1) == 1024 && Span(v, 2) == 1_048_576 && Span(v, 3) == 1_073_741_824
    ensures MaxBlocks(v) == 12 + Span(v, 1) + Span(v, 2) + Span(v, 3)
  {
    assert Span(v, 1) == Fanout(v) * Span(v, 0);
    assert Span(v, 2) == Fanout(v) * Span(v, 1);
    assert Span(v, 3) == Fanout(v) * Span(v, 2);
  }

  /** A directory's entries are those of its twelve direct blocks, one block after the other. */
  lemma {:induction false} TwelveBlocks(v: Volume, n: Inode, i: nat, reported: seq<seq<Entry>>, seen: seq<seq<Entry>>)
    requires Sound(v) && i <= 12 && |reported| == |seen| == 12 - i
    requires forall k :: 0 <= k < 12 - i ==> reported[k] == BlockEntries(v, n, i + k)
    requires forall k :: 0 <= k < 12 - i ==> seen[k] == BlockScanned(v, n, i + k)
    ensures EntriesFrom(v, n, i) == Flatten(reported) && ScannedFrom(v, n, i) == Flatten(seen)
    ensures i == 0 ==> Entries(v, n) == Flatten(reported) && Scanned(v, n) == Flatten(seen)
    decreases 12 - i
  {
    if i < 12 {
      TwelveBlocks(v, n, i + 1, reported[1..], seen[1..]);
    }
  }

  /** Directories are the inodes with bit 14 of the mode set; the bits for permissions do not matter. */
  lemma DirectoryModes(n: Inode, p: nat)
    requires p < 0x1000
    ensures Mode(n) == 0x4000 + p ==> IsDir(n)
    ensures Mode(n) == 0x8000 + p ==> !IsDir(n)
    ensures IsDir(n) <==> Mode(n) % 0x8000 >= 0x4000
  {
  }

  // ---- Directory entries ----

  /** A record of a directory block: an entry, and the length up to the next one. */
  datatype Record = Record(entry: Entry, length: u16)

  /** The record fits: its header, its name, and the rounding to four bytes. */
  predicate Fits(r: Record) {
    |r.entry.name| < 256 && (8 + |r.entry.name| + 3) / 4 * 4 <= r.length
  }

  function EncodeRecord(r: Record): (s: seq<u8>)
    requires Fits(r)
    ensures |s| == r.length
  {
    Encode(r.entry.inode, 4) + Encode(r.length, 2) + [|r.entry.name|, r.entry.kind] + r.entry.name
    + Repeat(0, r.length - 8 - |r.entry.name|)
  }

  function EncodeRecords(rs: seq<Record>): seq<u8>
    requires forall i :: 0 <= i < |rs| ==> Fits(rs[i])
  {
    if rs == [] then [] else EncodeRecord(rs[0]) + EncodeRecords(rs[1..])
  }

  /** The entries of the used records. */
  function EntriesOf(rs: seq<Record>): seq<Entry> {
    if rs == [] then [] else (if rs[0].entry.inode == 0 then [] else [rs[0].entry]) + EntriesOf(rs[1..])
  }

  lemma RecordBack(p: seq<u8>, r: Record, q: seq<u8>, blk: seq<u8>)
    requires Fits(r) && blk == p + EncodeRecord(r) + q
    ensures Load32(blk, |p|) == r.entry.inode && RecLen(blk, |p|) == r.length
    ensures blk[|p| + 6] == |r.entry.name| && blk[|p| + 7] == r.entry.kind
    ensures blk[|p| + 8..|p| + 8 + |r.entry.name|] == r.entry.name
  {
    var e, n := r.entry, |r.entry.name|;
    var pad := Repeat(0, r.length - 8 - n);
    var ino, len := Encode(e.inode, 4), Encode(r.length, 2);
    assert blk == p + ino + (len + [n, e.kind] + e.name + pad + q);
    WordBack(p, len + [n, e.kind] + e.name + pad + q, e.inode);
    assert blk == (p + ino) + len + ([n, e.kind] + e.name + pad + q);
    HalfBack(p + ino, [n, e.kind] + e.name + pad + q, r.length);
    assert blk == (p + ino + len + [n, e.kind]) + e.name + (pad + q);
  }

  /** A block that is filled with records scans cleanly, and what is listed are the used entries, in order. */
  lemma {:induction false} RecordsBack(p: seq<u8>, rs: seq<Record>, blk: seq<u8>)
    requires forall i :: 0 <= i < |rs| ==> Fits(rs[i]) && (rs[i].entry.inode != 0 ==> rs[i].entry.name != [])
    requires blk == p + EncodeRecords(rs)
    ensures Clean(blk, |p|) && Reported(blk, |p|) == EntriesOf(rs)
    decreases |rs|
  {
    if rs == [] {
      assert blk == p;
    } else {
      var e, q := EncodeRecord(rs[0]), EncodeRecords(rs[1..]);
      Apart(p, e, q, blk);
      RecordsBack(p + e, rs[1..], blk);
      InFront(p, e, q, rs, blk);
    }
  }

  lemma Apart(p: seq<u8>, e: seq<u8>, q: seq<u8>, blk: seq<u8>)
    requires blk == p + (e + q)
    ensures blk == p + e + q
  {
  }

  lemma InFront(p: seq<u8>, e: seq<u8>, q: seq<u8>, rs: seq<Record>, blk: seq<u8>)
    requires rs != [] && Fits(rs[0]) && (rs[0].entry.inode != 0 ==> rs[0].entry.name != [])
    requires e == EncodeRecord(rs[0]) && blk == p + e + q
    requires Clean(blk, |p + e|) && Reported(blk, |p + e|) == EntriesOf(rs[1..])
    ensures Clean(blk, |p|) && Reported(blk, |p|) == EntriesOf(rs)
  {
    RecordBack(p, rs[0], q, blk);
    Onward(blk, |p|, |p + e|, rs);
  }

  lemma Onward(blk: seq<u8>, off: nat, next: nat, rs: seq<Record>)
    requires rs != [] && Fits(rs[0]) && (rs[0].entry.inode != 0 ==> rs[0].entry.name != [])
    requires next == off + rs[0].length <= |blk|
    requires Load32(blk, off) == rs[0].entry.inode && RecLen(blk, off) == rs[0].length
    requires blk[off + 6] == |rs[0].entry.name| && blk[off + 7] == rs[0].entry.kind
    requires blk[off + 8..off + 8 + |rs[0].entry.name|] == rs[0].entry.name
    requires Clean(blk, next) && Reported(blk, next) == EntriesOf(rs[1..])
    ensures Clean(blk, off) && Reported(blk, off) == EntriesOf(rs)
  {
    OneRecord(blk, off, rs[0]);
    NextRecord(blk, off, next);
  }

  lemma NextRecord(blk: seq<u8>, off: nat, next: nat)
    requires Accepted(blk, off) && next == off + RecLen(blk, off) && Clean(blk, next)
    ensures Clean(blk, off) && Reported(blk, off) == Report(blk, off) + Reported(blk, next)
  {
  }

  lemma OneRecord(blk: seq<u8>, off: nat, r: Record)
    requires Fits(r) && (r.entry.inode != 0 ==> r.entry.name != []) && off + r.length <= |blk|
    requires Load32(blk, off) == r.entry.inode && RecLen(blk, off) == r.length
    requires blk[off + 6] == |r.entry.name| && blk[off + 7] == r.entry.kind
    requires blk[off + 8..off + 8 + |r.entry.name|] == r.entry.name
    ensures Accepted(blk, off) && Report(blk, off) == if r.entry.inode == 0 then [] else [r.entry]
  {
  }

  /**
   * A record is refused exactly when its length is below eight or leads out of the block, when it
   * is used and has no name, or when its name, filled up to a multiple of four, does not fit.
   */
  lemma RefusedExactly(blk: seq<u8>, off: nat)
    requires off + 8 <= |blk|
    ensures var len, name: int := Decode(blk[off + 4..off + 6]), blk[off + 6];
            var end := 8 + name;
            !Accepted(blk, off) <==>
            || len < 8 || off + len > |blk|
            || (Decode(blk[off..off + 4]) != 0 && end == 8)
            || len < if end % 4 == 0 then end else end + 4 - end % 4
  {
    Words(blk, off);
    DecodeTwo(blk[off + 4..off + 6]);
  }

  /** A used record that the listing refuses is found by the search all the same, if its name is in the block. */
  lemma FoundNotListed(blk: seq<u8>, off: nat)
    requires off + 8 <= |blk| && off + 8 + blk[off + 6] <= |blk| && !Accepted(blk, off)
    requires Decode(blk[off..off + 4]) != 0 && Decode(blk[off + 4..off + 6]) != 0
    ensures Reported(blk, off) == []
    ensures FirstNamed(Raw(blk, off), blk[off + 8..off + 8 + blk[off + 6]]) == Decode(blk[off..off + 4])
  {
    Words(blk, off);
    DecodeTwo(blk[off + 4..off + 6]);
  }
}
