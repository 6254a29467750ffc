/**
 * A small image, byte by byte: the root holds the directory "etc" and the file "f", and "etc"
 * holds the file "passwd". What opening and listing paths on it give.
 */
module Ext2Example {
  import opened Machine
  import opened Tokens
  import opened Ext2Layout
  import opened Ext2Records
  import EP = Ext2Paths

  /** Block 1 is the inode table, blocks 2 and 3 are the two directories. */
  function ImageByte(i: int): u8 {
    if i < 1280 then
      if i == 1152 then 237 else if i == 1153 then 65 else if i == 1192 then 2 else 0
    else if i < 1408 then
      if i == 1280 then 237 else if i == 1281 then 65 else if i == 1320 then 3 else 0
    else if i < 2048 then
      if i == 1408 || i == 1536 then 164 else if i == 1409 || i == 1537 then 129 else 0
    else if i < 2069 then
      [3, 0, 0, 0, 12, 0, 3, 2, 101, 116, 99, 0, 4, 0, 0, 0, 244, 3, 1, 1, 102][i - 2048]
    else if 3072 <= i < 3086 then
      [5, 0, 0, 0, 0, 4, 6, 1, 112, 97, 115, 115, 119, 100][i - 3072]
    else 0
  }

  function Disk(): (v: Volume)
    ensures Laid(v)
  {
    Volume(seq(4096, i requires 0 <= i < 4096 => ImageByte(i)), 0, 1024, 8, 128, _ => 1)
  }

  /** Four blocks of 1024 bytes, with eight inodes in block 1. */
  ghost predicate Laid(v: Volume) {
    && |v.image| == 4096 && v.baseLba == 0 && v.blockSize == 1024
    && v.inodesPerGroup == 8 && v.inodeSize == 128 && v.tables(0) == 1
  }

  const ETC: seq<u8> := [101, 116, 99]
  const F: seq<u8> := [102]
  const PASSWD: seq<u8> := [112, 97, 115, 115, 119, 100]

  // ---- Where blocks and inodes lie ----

  lemma BlockIs(v: Volume, id: u32)
    requires Laid(v) && id < 4
    ensures BlockBytes(v, id) == v.image[1024 * id..1024 * id + 1024]
  {
    assert FirstSector(v, id) == 2 * id;
  }

  lemma TableByteIs(v: Volume, o: nat)
    requires Laid(v) && o < 1024
    ensures TableByte(v, 0, o) == v.image[1024 + o]
  {
    BlockIs(v, 1);
    assert o / 1024 == 0 && o % 1024 == o;
  }

  /** The inode numbered `ino` is 128 bytes of the second block. */
  function InodeBytes(v: Volume, ino: u32): Inode
    requires |v.image| == 4096 && 1 <= ino <= 8
  {
    v.image[896 + 128 * ino..1024 + 128 * ino]
  }

  lemma InodeIs(v: Volume, ino: u32)
    requires Laid(v) && 1 <= ino <= 8
    ensures InodeOf(v, ino) == InodeBytes(v, ino)
  {
    InodeAt(v, ino, 128 * (ino - 1));
  }

  lemma InodeAt(v: Volume, ino: u32, o: nat)
    requires Laid(v) && 1 <= ino <= 8 && o == 128 * (ino - 1)
    ensures InodeOf(v, ino) == InodeBytes(v, ino)
  {
    assert (ino - 1) / 8 == 0 && InodeOffset(v, ino) == o;
    var s, t := TableBytes(v, 0, o, 128), InodeBytes(v, ino);
    forall j | 0 <= j < 128
      ensures s[j] == t[j]
    {
      TableByteIs(v, o + j);
    }
  }

  // ---- What the bytes are ----

  lemma ByteIs(i: nat)
    requires i < 4096
    ensures Disk().image[i] == ImageByte(i)
  {
  }

  lemma InodeByte(ino: u32, j: nat)
    requires 1 <= ino <= 8 && j < 128
    ensures InodeBytes(Disk(), ino)[j] == ImageByte(896 + 128 * ino + j)
  {
    ByteIs(896 + 128 * ino + j);
  }

  lemma BlockByte(id: u32, j: nat)
    requires id < 4 && j < 1024
    ensures BlockBytes(Disk(), id)[j] == ImageByte(1024 * id + j)
  {
    BlockIs(Disk(), id);
    ByteIs(1024 * id + j);
  }

  lemma ModeIs(n: Inode)
    ensures var a: int, b: int := n[0], n[1]; Mode(n) == a + 256 * b
  {
  }

  /** Inodes 2 and 3 are directories of one block each; inodes 4 and 5 are regular files. */
  lemma Directory(ino: u32)
    requires ino == 2 || ino == 3
    ensures Mode(InodeBytes(Disk(), ino)) == 0x41ED && IsDir(InodeBytes(Disk(), ino))
    ensures forall i :: 0 <= i < 12 ==> BlockPointer(InodeBytes(Disk(), ino), i) == if i == 0 then ino else 0
  {
    InodeByte(ino, 0);
    InodeByte(ino, 1);
    ModeIs(InodeBytes(Disk(), ino));
    forall i | 0 <= i < 12
      ensures BlockPointer(InodeBytes(Disk(), ino), i) == if i == 0 then ino else 0
    {
      PointerBytes(ino, i);
    }
  }

  lemma PointerBytes(ino: u32, i: nat)
    requires (ino == 2 || ino == 3) && i < 12
    ensures BlockPointer(InodeBytes(Disk(), ino), i) == if i == 0 then ino else 0
  {
    InodeByte(ino, 40 + 4 * i);
    InodeByte(ino, 41 + 4 * i);
    InodeByte(ino, 42 + 4 * i);
    InodeByte(ino, 43 + 4 * i);
  }

  lemma RegularFile(ino: u32)
    requires ino == 4 || ino == 5
    ensures Mode(InodeBytes(Disk(), ino)) == 0x81A4 && !IsDir(InodeBytes(Disk(), ino))
  {
    InodeByte(ino, 0);
    InodeByte(ino, 1);
    ModeIs(InodeBytes(Disk(), ino));
  }

  // ---- What the directories hold ----

  /** The bytes of blocks 2 and 3 up to their last name. */
  const ROOT_BYTES: seq<u8> := [3, 0, 0, 0, 12, 0, 3, 2, 101, 116, 99, 0, 4, 0, 0, 0, 244, 3, 1, 1, 102]
  const ETC_BYTES: seq<u8> := [5, 0, 0, 0, 0, 4, 6, 1, 112, 97, 115, 115, 119, 100]

  lemma DirectoryBytes(id: u32, blk: seq<u8>)
    requires (id == 2 || id == 3) && blk == BlockBytes(Disk(), id)
    ensures |blk| == 1024 && (if id == 2 then ROOT_BYTES else ETC_BYTES) <= blk
  {
    var t := if id == 2 then ROOT_BYTES else ETC_BYTES;
    forall j | 0 <= j < |t|
      ensures blk[j] == t[j]
    {
      BlockByte(id, j);
    }
  }

  /** The record at `off`, whose bytes are written out, is `r`. */
  lemma RecordIs(blk: seq<u8>, off: nat, r: Record, bytes: seq<u8>)
    requires Fits(r) && r.entry.name != [] && 0 < r.entry.inode < 256 && off + r.length <= |blk|
    requires |bytes| == 8 + |r.entry.name| && blk[off..off + |bytes|] == bytes && bytes[8..] == r.entry.name
    requires var low: int, high: int := bytes[4], bytes[5]; low + 256 * high == r.length
    requires bytes[0] == r.entry.inode && bytes[1] == bytes[2] == bytes[3] == 0
    requires bytes[6] == |r.entry.name| && bytes[7] == r.entry.kind
    ensures Accepted(blk, off) && Report(blk, off) == [r.entry] && RecLen(blk, off) == r.length
  {
    var s := blk[off..off + |bytes|];
    HeaderIs(blk, off, r, s);
    assert blk[off + 8..off + 8 + |r.entry.name|] == s[8..];
    OneRecord(blk, off, r);
  }

  lemma HeaderIs(blk: seq<u8>, off: nat, r: Record, s: seq<u8>)
    requires off + |s| <= |blk| && |s| >= 8 && s == blk[off..off + |s|] && s[0] == r.entry.inode
    requires s[1] == 0 && s[2] == 0 && s[3] == 0
    requires var low: int, high: int := s[4], s[5]; low + 256 * high == r.length
    ensures Load32(blk, off) == r.entry.inode && RecLen(blk, off) == r.length
    ensures blk[off + 6] == s[6] && blk[off + 7] == s[7]
  {
  }

  /** Block 2: "etc" is a directory with inode 3, and "f" a regular file with inode 4. */
  lemma RootBlock(blk: seq<u8>)
    requires blk == BlockBytes(Disk(), 2)
    ensures Clean(blk, 0) && Reported(blk, 0) == [Entry(3, ETC, 2), Entry(4, F, 1)]
  {
    DirectoryBytes(2, blk);
    FirstOfRoot(blk);
    SecondOfRoot(blk);
    LastRecord(blk, 12);
    NextRecord(blk, 0, 12);
  }

  lemma FirstOfRoot(blk: seq<u8>)
    requires |blk| == 1024 && ROOT_BYTES <= blk
    ensures Accepted(blk, 0) && Report(blk, 0) == [Entry(3, ETC, 2)] && RecLen(blk, 0) == 12
  {
    var s := [3, 0, 0, 0, 12, 0, 3, 2, 101, 116, 99];
    assert blk[0..11] == s && s[8..] == ETC;
    RecordIs(blk, 0, Record(Entry(3, ETC, 2), 12), s);
  }

  lemma SecondOfRoot(blk: seq<u8>)
    requires |blk| == 1024 && ROOT_BYTES <= blk
    ensures Accepted(blk, 12) && Report(blk, 12) == [Entry(4, F, 1)] && RecLen(blk, 12) == 1012
  {
    var s := [4, 0, 0, 0, 244, 3, 1, 1, 102];
    assert blk[12..21] == s && s[8..] == F;
    RecordIs(blk, 12, Record(Entry(4, F, 1), 1012), s);
  }

  lemma LastRecord(blk: seq<u8>, off: nat)
    requires Accepted(blk, off) && off + RecLen(blk, off) == |blk|
    ensures Clean(blk, off) && Reported(blk, off) == Report(blk, off)
  {
    var end := off + RecLen(blk, off);
    assert Reported(blk, end) == [];
  }

  /** Block 3: "passwd" is a regular file with inode 5. */
  lemma EtcBlock(blk: seq<u8>)
    requires blk == BlockBytes(Disk(), 3)
    ensures Clean(blk, 0) && Reported(blk, 0) == [Entry(5, PASSWD, 1)]
  {
    DirectoryBytes(3, blk);
    RecordIs(blk, 0, Record(Entry(5, PASSWD, 1), 1024), ETC_BYTES);
    LastRecord(blk, 0);
  }

  lemma DirectoryIs(ino: u32, dir: Inode, es: seq<Entry>)
    requires (ino == 2 || ino == 3) && dir == InodeBytes(Disk(), ino)
    requires var blk := BlockBytes(Disk(), ino); Clean(blk, 0) && Reported(blk, 0) == es
    ensures InsideDir(Disk(), dir) && Scanned(Disk(), dir) == Entries(Disk(), dir) == es
  {
    Directory(ino);
    NoMore(dir, 1);
    assert EntriesFrom(Disk(), dir, 0) == es + EntriesFrom(Disk(), dir, 1) == es;
    CleanScanned(Disk(), dir);
  }

  lemma {:induction false} NoMore(dir: Inode, i: nat)
    requires i <= 12 && forall k :: i <= k < 12 ==> BlockPointer(dir, k) == 0
    ensures EntriesFrom(Disk(), dir, i) == []
    decreases 12 - i
  {
    if i < 12 {
      NoMore(dir, i + 1);
    }
  }

  /** The root and "/etc", and what they hold. */
  lemma Tree()
    ensures InodeOf(Disk(), 2) == InodeBytes(Disk(), 2) && InodeOf(Disk(), 3) == InodeBytes(Disk(), 3)
    ensures IsDir(InodeOf(Disk(), 2)) && IsDir(InodeOf(Disk(), 3))
    ensures InsideDir(Disk(), InodeOf(Disk(), 2)) && InsideDir(Disk(), InodeOf(Disk(), 3))
    ensures var root := InodeOf(Disk(), 2);
            Scanned(Disk(), root) == Entries(Disk(), root) == [Entry(3, ETC, 2), Entry(4, F, 1)]
    ensures var etc := InodeOf(Disk(), 3); Scanned(Disk(), etc) == Entries(Disk(), etc) == [Entry(5, PASSWD, 1)]
  {
    InodeIs(Disk(), 2);
    InodeIs(Disk(), 3);
    Directory(2);
    Directory(3);
    RootBlock(BlockBytes(Disk(), 2));
    EtcBlock(BlockBytes(Disk(), 3));
    DirectoryIs(2, InodeOf(Disk(), 2), [Entry(3, ETC, 2), Entry(4, F, 1)]);
    DirectoryIs(3, InodeOf(Disk(), 3), [Entry(5, PASSWD, 1)]);
  }

  /** "f" and "/etc/passwd" are no directories. */
  lemma Files()
    ensures InodeOf(Disk(), 4) == InodeBytes(Disk(), 4) && !IsDir(InodeOf(Disk(), 4))
    ensures InodeOf(Disk(), 5) == InodeBytes(Disk(), 5) && !IsDir(InodeOf(Disk(), 5))
  {
    InodeIs(Disk(), 4);
    InodeIs(Disk(), 5);
    RegularFile(4);
    RegularFile(5);
  }

  // ---- Paths ----

  /** A name behind a slash is the first component. */
  lemma Slashed(name: seq<u8>, rest: seq<u8>)
    requires name != [] && SLASH !in name && (rest == [] || rest[0] == SLASH)
    ensures Components([SLASH] + name + rest, [SLASH]) == [name] + Components(rest, [SLASH])
  {
    var s, t := [SLASH] + name + rest, name + rest;
    assert s[1..] == t;
    ExtentIs(t, [SLASH], |name|);
    assert t[..|name|] == name && t[|name|..] == rest;
  }

  lemma TwoNames(a: seq<u8>, b: seq<u8>)
    requires a != [] && b != [] && SLASH !in a && SLASH !in b
    ensures Components([SLASH] + a + [SLASH] + b, [SLASH]) == [a, b]
  {
    Slashed(b, []);
    assert [SLASH] + b + [] == [SLASH] + b;
    Slashed(a, [SLASH] + b);
    assert [SLASH] + a + ([SLASH] + b) == [SLASH] + a + [SLASH] + b;
  }

  lemma OneName(a: seq<u8>)
    requires a != [] && SLASH !in a
    ensures Components([SLASH] + a, [SLASH]) == [a]
  {
    Slashed(a, []);
    assert [SLASH] + a + [] == [SLASH] + a;
  }

  // ---- Opening and listing ----

  /** What the walk sees: "etc" and "f" below the root, and "passwd" in "etc". */
  ghost predicate Shaped(v: Volume) {
    && Sound(v)
    && IsDir(InodeOf(v, 2)) && IsDir(InodeOf(v, 3)) && !IsDir(InodeOf(v, 4)) && !IsDir(InodeOf(v, 5))
    && InsideDir(v, InodeOf(v, 2)) && InsideDir(v, InodeOf(v, 3))
    && Scanned(v, InodeOf(v, 2)) == Entries(v, InodeOf(v, 2)) == [Entry(3, ETC, 2), Entry(4, F, 1)]
    && Scanned(v, InodeOf(v, 3)) == Entries(v, InodeOf(v, 3)) == [Entry(5, PASSWD, 1)]
  }

  lemma DiskShaped()
    ensures Shaped(Disk()) && InodeOf(Disk(), 5) == Disk().image[1536..1664]
  {
    Tree();
    Files();
  }

  lemma Lookups(v: Volume)
    requires Shaped(v)
    ensures var root := Scanned(v, InodeOf(v, ROOT)); FirstNamed(root, ETC) == 3 && FirstNamed(root, F) == 4
    ensures var etc := Scanned(v, InodeOf(v, 3)); FirstNamed(etc, PASSWD) == 5 && FirstNamed(etc, F) == 0
  {
    InRoot([Entry(3, ETC, 2), Entry(4, F, 1)]);
    InEtc([Entry(5, PASSWD, 1)]);
  }

  lemma InRoot(es: seq<Entry>)
    requires es == [Entry(3, ETC, 2), Entry(4, F, 1)]
    ensures FirstNamed(es, ETC) == 3 && FirstNamed(es, F) == 4
  {
    assert ETC[0] == 101 && F[0] == 102;
    assert es[1..] == [Entry(4, F, 1)];
  }

  lemma InEtc(es: seq<Entry>)
    requires es == [Entry(5, PASSWD, 1)]
    ensures FirstNamed(es, PASSWD) == 5 && FirstNamed(es, F) == 0
  {
    assert PASSWD[0] == 112 && F[0] == 102;
    assert es[1..] == [];
  }

  /** The walk along one name. */
  lemma WalkOne(v: Volume, dir: Inode, name: seq<u8>, ino: u32)
    requires Sound(v) && InsideDir(v, dir) && ino == FirstNamed(Scanned(v, dir), name)
    ensures Walk(v, dir, [name]) == if ino == 0 then Failed(ERR_PATH_NOT_FOUND) else Found(InodeOf(v, ino))
    ensures InsideWalk(v, dir, [name])
  {
  }

  lemma WalkTwo(v: Volume, dir: Inode, a: seq<u8>, b: seq<u8>, ino: u32)
    requires Sound(v) && InsideDir(v, dir) && ino == FirstNamed(Scanned(v, dir), a) != 0
    ensures Walk(v, dir, [a, b]) ==
            if IsDir(InodeOf(v, ino)) then Walk(v, InodeOf(v, ino), [b]) else Failed(ERR_INVALID)
    ensures (IsDir(InodeOf(v, ino)) ==> InsideWalk(v, InodeOf(v, ino), [b])) ==> InsideWalk(v, dir, [a, b])
  {
    assert [a, b][1..] == [b];
  }

  /** "/etc/passwd" is found, "/f/etc" leads through a regular file, and "/etc/f" is not there. */
  lemma Walks(v: Volume, root: Inode)
    requires Shaped(v) && root == InodeOf(v, ROOT)
    ensures Walk(v, root, [ETC, PASSWD]) == Found(InodeOf(v, 5)) && InsideWalk(v, root, [ETC, PASSWD])
    ensures Walk(v, root, [F, ETC]) == Failed(ERR_INVALID) && InsideWalk(v, root, [F, ETC])
    ensures Walk(v, root, [ETC, F]) == Failed(ERR_PATH_NOT_FOUND) && InsideWalk(v, root, [ETC, F])
    ensures Walk(v, root, [ETC]) == Found(InodeOf(v, 3)) && InsideWalk(v, root, [ETC])
    ensures Walk(v, root, [F]) == Found(InodeOf(v, 4)) && InsideWalk(v, root, [F])
  {
    Lookups(v);
    WalkOne(v, InodeOf(v, 3), PASSWD, 5);
    WalkOne(v, InodeOf(v, 3), F, 0);
    WalkTwo(v, root, ETC, PASSWD, 3);
    WalkTwo(v, root, ETC, F, 3);
    WalkTwo(v, root, F, ETC, 4);
    WalkOne(v, root, ETC, 3);
    WalkOne(v, root, F, 4);
  }

  const ETC_PATH: seq<u8> := [SLASH] + ETC
  const F_PATH: seq<u8> := [SLASH] + F
  const ETC_PASSWD: seq<u8> := [SLASH] + ETC + [SLASH] + PASSWD
  const F_ETC: seq<u8> := [SLASH] + F + [SLASH] + ETC
  const ETC_F: seq<u8> := [SLASH] + ETC + [SLASH] + F

  lemma Spelled()
    ensures Components(ETC_PASSWD, [SLASH]) == [ETC, PASSWD] && Components(F_ETC, [SLASH]) == [F, ETC]
    ensures Components(ETC_F, [SLASH]) == [ETC, F]
    ensures Components(ETC_PATH, [SLASH]) == [ETC] && Components(F_PATH, [SLASH]) == [F]
  {
    TwoNames(ETC, PASSWD);
    TwoNames(F, ETC);
    TwoNames(ETC, F);
    OneName(ETC);
    OneName(F);
  }

  lemma OpenedShaped(v: Volume)
    requires Shaped(v)
    ensures Opened(v, ETC_PASSWD) == Found(InodeOf(v, 5)) && EP.InsidePath(v, ETC_PASSWD)
    ensures Opened(v, F_ETC) == Failed(-5) && EP.InsidePath(v, F_ETC)
    ensures Opened(v, ETC_F) == Failed(-4) && EP.InsidePath(v, ETC_F)
  {
    Spelled();
    Walks(v, InodeOf(v, ROOT));
  }

  lemma ListedShaped(v: Volume)
    requires Shaped(v)
    ensures ListingOf(v, [SLASH]) == ListingOf(v, []) == Listed([Entry(3, ETC, 2), Entry(4, F, 1)])
    ensures ListingOf(v, ETC_PATH) == Listed([Entry(5, PASSWD, 1)]) && EP.InsidePath(v, ETC_PATH)
    ensures ListingOf(v, F_PATH) == Refused(-5) && EP.InsidePath(v, F_PATH)
  {
    Spelled();
    Walks(v, InodeOf(v, ROOT));
  }

  /** Opening: "/etc/passwd" is the inode at byte 1536, and the other two paths fail as they should. */
  lemma Openings()
    ensures Opened(Disk(), ETC_PASSWD) == Found(Disk().image[1536..1664]) && EP.InsidePath(Disk(), ETC_PASSWD)
    ensures Opened(Disk(), F_ETC) == Failed(-5) && EP.InsidePath(Disk(), F_ETC)
    ensures Opened(Disk(), ETC_F) == Failed(-4) && EP.InsidePath(Disk(), ETC_F)
  {
    DiskShaped();
    OpenedShaped(Disk());
  }

  /** Listing: "/" and the empty path show the root, "/etc" shows its one file, and "/f" is refused. */
  lemma Listings()
    ensures ListingOf(Disk(), [SLASH]) == ListingOf(Disk(), []) == Listed([Entry(3, ETC, 2), Entry(4, F, 1)])
    ensures ListingOf(Disk(), ETC_PATH) == Listed([Entry(5, PASSWD, 1)]) && EP.InsidePath(Disk(), ETC_PATH)
    ensures ListingOf(Disk(), F_PATH) == Refused(-5) && EP.InsidePath(Disk(), F_PATH)
  {
    DiskShaped();
    ListedShaped(Disk());
  }

  /** The root needs no walk, longer paths than 255 characters are refused, and so they are when reads fail. */
  lemma RootAndLongPaths(v: Volume, path: seq<u8>)
    requires Sound(v)
    ensures path == [47] ==> Opened(v, path) == Found(InodeOf(v, 2))
    ensures path != [47] && |path| >= 256 ==> Opened(v, path) == Failed(-5)
    ensures EP.Disturbed(path) == if path == [47] || |path| <= 255 then -1 else -5
  {
  }
}
