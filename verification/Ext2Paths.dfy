/** ext2_open and ext2_list: the walk along a path. */
module Ext2Paths {
  import opened Machine
  import opened HeapLayout
  import opened Tokens
  import opened Ext2Layout
  import opened Ext2Blocks
  import opened Ext2Dirs
  import EF = Ext2Files

  ghost predicate Undisturbed(rd: Reader, faults: nat)
    reads rd.device, rd.heap
  {
    rd.Room() && rd.device.faults == faults
  }

  /** One component: the entry of that name, its inode, and the check that a directory follows. */
  ghost function StepOf(v: Volume, dir: Inode, name: seq<u8>, last: bool): Outcome
    requires Sound(v)
  {
    var ino := FirstNamed(Scanned(v, dir), name);
    if ino == 0 then Failed(ERR_PATH_NOT_FOUND)
    else if !last && !IsDir(InodeOf(v, ino)) then Failed(ERR_INVALID)
    else Found(InodeOf(v, ino))
  }

  /** The result code and the inode say what the outcome says. */
  ghost predicate Agrees(o: Outcome, r: int, inode: Inode) {
    match o
    case Found(n) => r == 0 && inode == n
    case Failed(code) => r == code != 0
  }

  /** The body of the walk's loop, from the directory in `cur` to the inode of that name in it. */
  method Component(rd: Reader, cur: InodeRecord, name: seq<u8>, last: bool) returns (r: int)
    requires rd.Ready() && 0 < |name| < 256
    modifies cur, rd.device, rd.heap, rd.heap.mem
    ensures rd.Ready() && rd.heap.blocks == old(rd.heap.blocks) && rd.device.faults >= old(rd.device.faults)
    ensures PayloadsSame(rd.heap.blocks, old(rd.heap.mem[..]), rd.heap.mem[..])
    ensures !Undisturbed(rd, old(rd.device.faults)) ==> r == ERR_IO
    ensures Undisturbed(rd, old(rd.device.faults)) && InsideDir(rd.Vol(), old(cur.bytes)) ==>
              Agrees(StepOf(rd.Vol(), old(cur.bytes), name, last), r, cur.bytes)
    ensures r == 0 && !last ==> IsDir(cur.bytes)
  {
    ghost var m0 := rd.heap.mem[..];
    var found;
    r, found := Lookup(rd, cur.bytes, name);
    if r != 0 {
      return;
    }
    if found == 0 {
      return ERR_PATH_NOT_FOUND;
    }
    ghost var m1 := rd.heap.mem[..];
    r := rd.KreadInode(found, cur);
    PayloadsChain(rd.heap.blocks, m0, m1, rd.heap.mem[..]);
    if r == 0 && !last && !IsDir(cur.bytes) {
      r := ERR_INVALID;
    }
  }

  /** The copy that the tokenizer cuts up: a path that fits, without a leading slash. */
  method CopyPath(path: seq<u8>) returns (tmp: array<u8>)
    requires 0 !in path && |path| < BUFFER
    ensures fresh(tmp) && tmp.Length == BUFFER && Terminated(tmp[..], 0)
    ensures CString(tmp[..], 0) == Stripped(path)
  {
    tmp := new u8[BUFFER];
    var src := Stripped(path);
    for i := 0 to |src|
      invariant tmp[..i] == src[..i]
    {
      tmp[i] := src[i];
      assert tmp[..i + 1] == tmp[..i] + [src[i]] && src[..i + 1] == src[..i] + [src[i]];
    }
    tmp[|src|] := 0;
    assert tmp[..|src|] == src[..|src|] == src;
    forall k | 0 <= k < |src|
      ensures tmp[k] != 0
    {
      assert tmp[k] == tmp[..|src|][k] && src[k] in path;
    }
    CStringIs(tmp[..], 0, |src|);
  }

  /** A path without its leading slash. */
  function Stripped(path: seq<u8>): seq<u8> {
    if path != [] && path[0] == SLASH then path[1..] else path
  }

  /** The names still to be walked: the current token and what kstrtok has not cut yet. */
  ghost function Names(t: Tokenizer, a: seq<u8>, tok: int): seq<seq<u8>>
    reads t, t.text
  {
    if tok < 0 || tok >= |a| then [] else [CString(a, tok)] + Components(t.Rest(), [SLASH])
  }

  /** The walk from `dir` along `names` gives what the whole walk gives. */
  ghost predicate Going(v: Volume, root: Inode, all: seq<seq<u8>>, dir: Inode, names: seq<seq<u8>>)
    requires Sound(v)
  {
    Walk(v, root, all) == Walk(v, dir, names) && (InsideWalk(v, root, all) ==> InsideWalk(v, dir, names))
  }

  /** One component further. */
  lemma GoOn(v: Volume, root: Inode, all: seq<seq<u8>>, dir: Inode, names: seq<seq<u8>>)
    requires Sound(v) && names != [] && Going(v, root, all, dir, names)
    ensures InsideWalk(v, root, all) ==> InsideDir(v, dir)
    ensures var o := StepOf(v, dir, names[0], |names| == 1);
            if o.Failed? || |names| == 1 then Walk(v, root, all) == o else Going(v, root, all, o.inode, names[1..])
  {
  }

  lemma StrippedComponents(path: seq<u8>)
    ensures Components(Stripped(path), [SLASH]) == Components(path, [SLASH])
  {
  }

  /** `tok` is a token in `tmp` that the next call of kstrtok will not disturb. */
  ghost predicate Scanning(t: Tokenizer, tmp: array<u8>, tok: int)
    reads t, t.text, tmp
  {
    && t.Ready() && (t.text == null || t.text == tmp) && tmp.Length == BUFFER
    && (tok >= 0 ==> Terminated(tmp[..], tok) && CString(tmp[..], tok) != []
                     && (t.text != null ==> tok + |CString(tmp[..], tok)| < t.save))
  }

  /** What a call of kstrtok leaves of the token before it, and of the names to come. */
  lemma TokenKept(a: seq<u8>, b: seq<u8>, tok: nat, s: seq<u8>, next: int, rest: seq<u8>, open: bool)
    requires Terminated(a, tok) && |a| == |b|
    requires forall k :: tok <= k <= tok + |CString(a, tok)| && k < |a| ==> b[k] == a[k]
    requires if open then Cut(s, [SLASH], a, b, next, rest) else s == [] && next == -1
    ensures Terminated(b, tok) && CString(b, tok) == CString(a, tok)
    ensures Components(s, [SLASH]) == if next < 0 then [] else [CString(b, next)] + Components(rest, [SLASH])
  {
    CStringKept(a, b, tok);
  }

  /** Looks ahead for the next token, and takes the name at `tok`, which is still there afterwards. */
  method CutNext(t: Tokenizer, tmp: array<u8>, tok: int) returns (name: seq<u8>, next: int)
    requires Scanning(t, tmp, tok) && tok >= 0
    modifies t, tmp
    ensures Scanning(t, tmp, next)
    ensures 0 < |name| < BUFFER && old(Names(t, tmp[..], tok)) == [name] + Names(t, tmp[..], next)
    ensures next < 0 <==> old(Names(t, tmp[..], tok)) == [name]
  {
    ghost var a, s, open := tmp[..], t.Rest(), t.text != null;
    ghost var _ := CStringEnd(a, tok);
    FirstComponent(s, [SLASH]);
    next := t.Next([SLASH]);
    TokenKept(a, tmp[..], tok, s, next, t.Rest(), open);
    name := CString(tmp[..], tok);
  }

  /** One round of the walk's loop. */
  method Round(rd: Reader, t: Tokenizer, tmp: array<u8>, tok: int, cur: InodeRecord, ghost root: Inode,
      ghost all: seq<seq<u8>>)
    returns (r: int, next: int)
    requires rd.Ready() && tmp != rd.heap.mem && Scanning(t, tmp, tok) && tok >= 0
    requires InsideWalk(rd.Vol(), root, all) ==> Going(rd.Vol(), root, all, cur.bytes, Names(t, tmp[..], tok))
    modifies cur, rd.device, rd.heap, rd.heap.mem, t, tmp
    ensures rd.Ready() && rd.heap.blocks == old(rd.heap.blocks) && rd.device.faults >= old(rd.device.faults)
    ensures PayloadsSame(rd.heap.blocks, old(rd.heap.mem[..]), rd.heap.mem[..])
    ensures Scanning(t, tmp, next) && |Names(t, tmp[..], next)| < |old(Names(t, tmp[..], tok))|
    ensures !Undisturbed(rd, old(rd.device.faults)) ==> r == ERR_IO
    ensures Undisturbed(rd, old(rd.device.faults)) && InsideWalk(rd.Vol(), root, all) ==>
              if r != 0 || next < 0 then Agrees(Walk(rd.Vol(), root, all), r, cur.bytes)
              else Going(rd.Vol(), root, all, cur.bytes, Names(t, tmp[..], next))
  {
    ghost var names := Names(t, tmp[..], tok);
    var name;
    name, next := CutNext(t, tmp, tok);
    if InsideWalk(rd.Vol(), root, all) {
      GoOn(rd.Vol(), root, all, cur.bytes, names);
    }
    ghost var rest := Names(t, tmp[..], next);
    assert names[1..] == rest;
    r := Component(rd, cur, name, next < 0);
  }

  /** The walk of ext2_open and ext2_list from the root along the components of `path`, in the record `cur`. */
  method KWalk(rd: Reader, path: seq<u8>, cur: InodeRecord) returns (r: int)
    requires rd.Ready() && 0 !in path && |path| < BUFFER
    modifies cur, rd.device, rd.heap, rd.heap.mem
    ensures rd.Ready() && rd.heap.blocks == old(rd.heap.blocks) && rd.device.faults >= old(rd.device.faults)
    ensures PayloadsSame(rd.heap.blocks, old(rd.heap.mem[..]), rd.heap.mem[..])
    ensures !Undisturbed(rd, old(rd.device.faults)) ==> r == ERR_IO
    ensures var v := rd.Vol(); var names := Components(path, [SLASH]);
            Undisturbed(rd, old(rd.device.faults)) && InsideWalk(v, InodeOf(v, ROOT), names) ==>
              Agrees(Walk(v, InodeOf(v, ROOT), names), r, cur.bytes)
  {
    ghost var m0 := rd.heap.mem[..];
    ghost var root, all := InodeOf(rd.Vol(), ROOT), Components(path, [SLASH]);
    var t, tmp, tok := StartWalk(path);
    r := rd.KreadInode(ROOT, cur);
    if r != 0 {
      return ERR_IO;
    }
    while tok >= 0
      invariant rd.Ready() && rd.heap.blocks == old(rd.heap.blocks) && Undisturbed(rd, old(rd.device.faults))
      invariant PayloadsSame(rd.heap.blocks, m0, rd.heap.mem[..])
      invariant Scanning(t, tmp, tok)
      invariant InsideWalk(rd.Vol(), root, all) ==> Going(rd.Vol(), root, all, cur.bytes, Names(t, tmp[..], tok))
      decreases |Names(t, tmp[..], tok)|
    {
      ghost var m1 := rd.heap.mem[..];
      r, tok := Round(rd, t, tmp, tok, cur, root, all);
      PayloadsChain(rd.heap.blocks, m0, m1, rd.heap.mem[..]);
      if r != 0 || tok < 0 {
        return;
      }
    }
    r := ERR_INVALID;
  }

  /** The local buffer and the first call of kstrtok. */
  method StartWalk(path: seq<u8>) returns (t: Tokenizer, tmp: array<u8>, tok: int)
    requires 0 !in path && |path| < BUFFER
    ensures fresh(t) && fresh(tmp) && Scanning(t, tmp, tok)
    ensures Names(t, tmp[..], tok) == Components(path, [SLASH])
  {
    tmp := CopyPath(path);
    StrippedComponents(path);
    FirstComponent(Stripped(path), [SLASH]);
    t := new Tokenizer();
    tok := t.Start(tmp, [SLASH]);
  }

  /** The search stays inside the blocks of the directories on the way. */
  ghost predicate InsidePath(v: Volume, path: seq<u8>)
    requires Sound(v)
  {
    path != [SLASH] && |path| < BUFFER ==> InsideWalk(v, InodeOf(v, ROOT), Components(path, [SLASH]))
  }

  /** The code when a read or an allocation failed. */
  function Disturbed(path: seq<u8>): int {
    if path != [SLASH] && |path| >= BUFFER then ERR_INVALID else ERR_IO
  }

  /** The way to any path but "/", which both functions take with a record of their own. */
  method Resolve(rd: Reader, path: seq<u8>) returns (r: int, inode: Inode)
    requires rd.Ready() && 0 !in path && path != [SLASH]
    modifies rd.device, rd.heap, rd.heap.mem
    ensures rd.Ready() && rd.heap.blocks == old(rd.heap.blocks) && rd.device.faults >= old(rd.device.faults)
    ensures PayloadsSame(rd.heap.blocks, old(rd.heap.mem[..]), rd.heap.mem[..])
    ensures !Undisturbed(rd, old(rd.device.faults)) ==> r == Disturbed(path)
    ensures Undisturbed(rd, old(rd.device.faults)) && InsidePath(rd.Vol(), path) ==>
              Agrees(Opened(rd.Vol(), path), r, inode)
  {
    inode := *;
    if |path| >= BUFFER {
      return ERR_INVALID, inode;
    }
    var cur := new InodeRecord(inode);
    r := KWalk(rd, path, cur);
    inode := cur.bytes;
  }

  /** What a failed open leaves of the inode in the handle. */
  ghost function Remains(v: Volume, path: seq<u8>, served: int, was: Inode): Inode
    requires Sound(v) && (path == [SLASH] && served != 0 ==> 0 <= HeadOf(v, ROOT) <= 128)
  {
    if path == [SLASH] && served != 0 then Torn(InodeOf(v, ROOT), was, HeadOf(v, ROOT)) else was
  }

  /**
   * ext2_open. On every path the heap ends as it was. When nothing fails the file handle is at
   * the start of what the path leads to, or the error says why there is none. The root is read
   * straight into the handle, which then holds its first part if only the second read failed.
   */
  method Ext2Open(rd: Reader, path: seq<u8>, file: EF.File) returns (r: int)
    requires rd.Ready() && 0 !in path
    modifies file, file.inode, rd.device, rd.heap, rd.heap.mem
    ensures rd.Ready() && rd.heap.blocks == old(rd.heap.blocks) && rd.device.faults >= old(rd.device.faults)
    ensures PayloadsSame(rd.heap.blocks, old(rd.heap.mem[..]), rd.heap.mem[..])
    ensures file.pos == if r == 0 then 0 else old(file.pos)
    ensures r != 0 && path == [SLASH] && rd.device.served != old(rd.device.served) ==> 0 < HeadOf(rd.Vol(), ROOT) < 128
    ensures r != 0 ==>
              var served := rd.device.served - old(rd.device.served);
              file.inode.bytes == Remains(rd.Vol(), path, served, old(file.inode.bytes))
    ensures !Undisturbed(rd, old(rd.device.faults)) ==> r == Disturbed(path)
    ensures Undisturbed(rd, old(rd.device.faults)) && InsidePath(rd.Vol(), path) ==>
              Agrees(Opened(rd.Vol(), path), r, file.inode.bytes)
  {
    if path == [SLASH] {
      r := rd.KreadInode(ROOT, file.inode);
    } else {
      var inode;
      r, inode := Resolve(rd, path);
      if r == 0 {
        file.inode.bytes := inode;
      }
    }
    if r == 0 {
      file.pos := 0;
    }
  }

  /**
   * A failed open leaves the handle's inode alone exactly when the path is not the root, or the
   * root's inode does not straddle two blocks, or its first block was not read, or the handle
   * held the same bytes already.
   */
  lemma HandleUntouched(v: Volume, path: seq<u8>, served: int, was: Inode)
    requires Sound(v) && (path == [SLASH] && served != 0 ==> 0 < HeadOf(v, ROOT) < 128)
    ensures Remains(v, path, served, was) == was <==>
            || path != [SLASH]
            || HeadOf(v, ROOT) >= 128
            || served == 0
            || was[..HeadOf(v, ROOT)] == InodeOf(v, ROOT)[..HeadOf(v, ROOT)]
  {
    if path == [SLASH] && served != 0 {
      var k, n := HeadOf(v, ROOT), InodeOf(v, ROOT);
      assert Torn(n, was, k)[..k] == n[..k];
      assert was == was[..k] + was[k..];
    }
  }

  /** Volumes whose root inode straddles two blocks can be mounted. */
  lemma RootCanStraddle(v: Volume)
    requires v.blockSize == 1024 && v.inodesPerGroup == 100 && v.inodeSize == 1000
    ensures Sound(v) && HeadOf(v, ROOT) == 24
  {
  }

  /** The result code and the callbacks say what the listing says. */
  ghost predicate Shows(l: Listing, r: int, calls: seq<Entry>) {
    match l
    case Listed(es) => r == 0 && calls == es
    case Refused(code) => r == code && calls == []
  }

  /** The callbacks of a listing that nothing disturbs. */
  function Callbacks(l: Listing): seq<Entry> {
    match l
    case Listed(es) => es
    case Refused(_) => []
  }

  lemma ListingFollows(v: Volume, o: Outcome, r: int, inode: Inode, s: int, calls: seq<Entry>)
    requires Sound(v) && Agrees(o, r, inode)
    requires r == 0 && IsDir(inode) ==> calls <= Entries(v, inode)
    requires !(r == 0 && IsDir(inode)) ==> calls == []
    ensures calls <= Callbacks(ListingIn(v, o))
    ensures r == 0 && IsDir(inode) && s == 0 && calls == Entries(v, inode) ==> Shows(ListingIn(v, o), s, calls)
    ensures r == 0 && !IsDir(inode) && s == ERR_INVALID ==> Shows(ListingIn(v, o), s, calls)
    ensures r != 0 && s == r ==> Shows(ListingIn(v, o), s, calls)
  {
  }

  /** The inode that ext2_list lists: the root's for "/", what the walk finds otherwise. */
  method Target(rd: Reader, path: seq<u8>) returns (r: int, inode: Inode)
    requires rd.Ready() && 0 !in path
    modifies rd.device, rd.heap, rd.heap.mem
    ensures rd.Ready() && rd.heap.blocks == old(rd.heap.blocks) && rd.device.faults >= old(rd.device.faults)
    ensures PayloadsSame(rd.heap.blocks, old(rd.heap.mem[..]), rd.heap.mem[..])
    ensures !Undisturbed(rd, old(rd.device.faults)) ==> r == Disturbed(path)
    ensures Undisturbed(rd, old(rd.device.faults)) && InsidePath(rd.Vol(), path) ==>
              Agrees(Opened(rd.Vol(), path), r, inode)
  {
    if path == [SLASH] {
      inode := *;
      var root := new InodeRecord(inode);
      r := rd.KreadInode(ROOT, root);
      inode := root.bytes;
    } else {
      r, inode := Resolve(rd, path);
    }
  }

  /**
   * ext2_list: exactly the entries of the inode ext2_open yields for the same path, if that has
   * its directory bit set; the empty path stands for the root. When a read or an allocation
   * fails, the callbacks are the first of these entries, and the code says so.
   */
  method Ext2List(rd: Reader, path: seq<u8>) returns (r: int, calls: seq<Entry>)
    requires rd.Ready() && 0 !in path
    modifies rd.device, rd.heap, rd.heap.mem
    ensures rd.Ready() && rd.heap.blocks == old(rd.heap.blocks) && rd.device.faults >= old(rd.device.faults)
    ensures PayloadsSame(rd.heap.blocks, old(rd.heap.mem[..]), rd.heap.mem[..])
    ensures !Undisturbed(rd, old(rd.device.faults)) ==> r == Disturbed(OrRoot(path))
    ensures InsidePath(rd.Vol(), OrRoot(path)) ==>
              && calls <= Callbacks(ListingOf(rd.Vol(), path))
              && (Undisturbed(rd, old(rd.device.faults)) ==> Shows(ListingOf(rd.Vol(), path), r, calls))
  {
    ghost var m0 := rd.heap.mem[..];
    var found, inode := Target(rd, OrRoot(path));
    ghost var calm := Undisturbed(rd, old(rd.device.faults));
    r, calls := found, [];
    if found == 0 {
      r := ERR_INVALID;
      if IsDir(inode) {
        ghost var m1 := rd.heap.mem[..];
        ghost var last;
        r, calls, last := KlistDirEntries(rd, inode);
        PayloadsChain(rd.heap.blocks, m0, m1, rd.heap.mem[..]);
      }
    }
    if calm && InsidePath(rd.Vol(), OrRoot(path)) {
      ListingFollows(rd.Vol(), Opened(rd.Vol(), OrRoot(path)), found, inode, r, calls);
    }
  }
}
