/**
 * The kernel heap as a sequence of blocks in address order: what first fit with splitting
 * and freeing with coalescing do to it, and what holds in every run.
 */
module HeapBlocks {
  import opened Machine

  const HEAP_BASE := 0x0100_0000
  const HEAP_SIZE := 64 * 1024 * 1024
  const HEAP_TOP := HEAP_BASE + HEAP_SIZE
  /** sizeof(heap_block_t) */
  const HEADER := 32

  /** A header at address `addr`, followed by `size` payload bytes. */
  datatype Block = Block(addr: int, size: int, free: bool) {
    function Payload(): int { addr + HEADER }
    function End(): int { addr + HEADER + size }
  }

  /** `bs` covers the addresses from `lo` to `hi` with neither gap nor overlap, in 8-byte units. */
  ghost predicate Tiled(bs: seq<Block>, lo: int, hi: int)
    decreases |bs|
  {
    if bs == [] then lo == hi
    else bs[0].addr == lo && bs[0].size >= 0 && bs[0].size % 8 == 0 && Tiled(bs[1..], bs[0].End(), hi)
  }

  /** No two neighbours are both free. */
  ghost predicate Settled(bs: seq<Block>) {
    forall i, j :: 0 <= i && j == i + 1 && j < |bs| ==> !(bs[i].free && bs[j].free)
  }

  ghost predicate WellFormed(bs: seq<Block>) {
    Tiled(bs, HEAP_BASE, HEAP_TOP) && Settled(bs)
  }

  /** The allocated blocks: what the callers of the allocator own. */
  ghost function Live(bs: seq<Block>): set<Block> {
    set b | b in bs && !b.free
  }

  function Used(bs: seq<Block>): int {
    if bs == [] then 0 else (if bs[0].free then 0 else bs[0].size) + Used(bs[1..])
  }

  function Unused(bs: seq<Block>): int {
    if bs == [] then 0 else (if bs[0].free then bs[0].size else 0) + Unused(bs[1..])
  }

  const INITIAL := [Block(HEAP_BASE, HEAP_SIZE - HEADER, true)]

  /** heap_init's single free block. */
  lemma InitialWellFormed()
    ensures WellFormed(INITIAL) && Live(INITIAL) == {} && Used(INITIAL) == 0
  {
    assert INITIAL[1..] == [];
  }

  // ---- Segments ----

  lemma {:induction false} TiledConcat(xs: seq<Block>, ys: seq<Block>, lo: int, mid: int, hi: int)
    requires Tiled(xs, lo, mid) && Tiled(ys, mid, hi)
    ensures Tiled(xs + ys, lo, hi)
    decreases |xs|
  {
    if xs == [] {
      assert xs + ys == ys;
    } else {
      assert (xs + ys)[1..] == xs[1..] + ys;
      TiledConcat(xs[1..], ys, xs[0].End(), mid, hi);
    }
  }

  /** A tiling may be cut before any of its blocks. */
  lemma {:induction false} TiledSplit(xs: seq<Block>, ys: seq<Block>, lo: int, hi: int) returns (mid: int)
    requires Tiled(xs + ys, lo, hi)
    ensures Tiled(xs, lo, mid) && Tiled(ys, mid, hi)
    ensures ys != [] ==> mid == ys[0].addr
    ensures ys == [] ==> mid == hi
    decreases |xs|
  {
    if xs == [] {
      assert xs + ys == ys;
      mid := lo;
    } else {
      assert (xs + ys)[1..] == xs[1..] + ys;
      mid := TiledSplit(xs[1..], ys, xs[0].End(), hi);
    }
  }

  lemma {:induction false} TiledBounds(bs: seq<Block>, lo: int, hi: int)
    requires Tiled(bs, lo, hi)
    ensures lo <= hi && lo % 8 == hi % 8
    ensures forall b :: b in bs ==>
              lo <= b.addr && b.End() <= hi && b.size >= 0 && b.size % 8 == 0 && b.addr % 8 == lo % 8
    decreases |bs|
  {
    if bs != [] {
      TiledBounds(bs[1..], bs[0].End(), hi);
      assert bs == [bs[0]] + bs[1..];
    }
  }

  /** Blocks further on lie wholly behind: headers and payloads of different blocks are disjoint. */
  lemma TiledOrder(bs: seq<Block>, lo: int, hi: int, i: int, j: int)
    requires Tiled(bs, lo, hi) && 0 <= i < j < |bs|
    ensures bs[i].End() <= bs[j].addr
  {
    assert bs == bs[..j] + bs[j..];
    var mid := TiledSplit(bs[..j], bs[j..], lo, hi);
    TiledBounds(bs[..j], lo, mid);
    assert bs[i] == bs[..j][i];
  }

  lemma {:induction false} UsedConcat(xs: seq<Block>, ys: seq<Block>)
    ensures Used(xs + ys) == Used(xs) + Used(ys)
    ensures Unused(xs + ys) == Unused(xs) + Unused(ys)
    decreases |xs|
  {
    if xs == [] {
      assert xs + ys == ys;
    } else {
      assert (xs + ys)[1..] == xs[1..] + ys;
      UsedConcat(xs[1..], ys);
    }
  }

  // ---- kmalloc ----

  /** The payload size kmalloc looks for, computed modulo 2^64 and cut to a multiple of 8. */
  function TotalSize(size: u64): (need: u64)
    ensures need % 8 == 0
  {
    (size + HEADER + 7) % TWO_64 / 8 * 8
  }

  function FirstFit(bs: seq<Block>, need: int): (i: nat)
    ensures i <= |bs|
    ensures i < |bs| ==> bs[i].free && bs[i].size >= need
    ensures forall j :: 0 <= j < i ==> !(bs[j].free && bs[j].size >= need)
  {
    if bs == [] then 0
    else if bs[0].free && bs[0].size >= need then 0
    else 1 + FirstFit(bs[1..], need)
  }

  lemma {:induction false} FirstFitAt(L: seq<Block>, b: Block, R: seq<Block>, need: int)
    requires forall x :: x in L ==> !(x.free && x.size >= need)
    requires b.free && b.size >= need
    ensures FirstFit(L + [b] + R, need) == |L|
    ensures AllocBlocks(L + [b] + R, need) == L + Carve(b, need) + R
  {
    var bs := L + [b] + R;
    assert bs[|L|] == b;
    assert forall j :: 0 <= j < |L| ==> bs[j] in L;
    assert FirstFit(bs, need) == |L|;
    assert bs[..|L|] == L && bs[|L| + 1..] == R;
  }

  /** The allocated block cut from the free block `b`, and the remainder when it is worth keeping. */
  function Carve(b: Block, need: int): seq<Block> {
    if b.size >= need + HEADER + 64
    then [Block(b.addr, need, false), Block(b.addr + HEADER + need, b.size - need - HEADER, true)]
    else [Block(b.addr, b.size, false)]
  }

  lemma NoFit(bs: seq<Block>, need: int)
    requires forall x :: x in bs ==> !(x.free && x.size >= need)
    ensures FirstFit(bs, need) == |bs|
  {
  }

  function AllocBlocks(bs: seq<Block>, need: int): seq<Block> {
    var i := FirstFit(bs, need);
    if i == |bs| then bs else bs[..i] + Carve(bs[i], need) + bs[i + 1..]
  }

  /** The address kmalloc returns: 0 when nothing fits. */
  function AllocResult(bs: seq<Block>, size: u64): int {
    var i := FirstFit(bs, TotalSize(size));
    if size == 0 || i == |bs| then 0 else bs[i].Payload()
  }

  function Malloc(bs: seq<Block>, size: u64): seq<Block> {
    if size == 0 then bs else AllocBlocks(bs, TotalSize(size))
  }

  /** kmalloc, told where the first fitting block is. */
  lemma MallocAt(L: seq<Block>, b: Block, R: seq<Block>, size: u64)
    requires size != 0 && b.free && b.size >= TotalSize(size)
    requires forall x :: x in L ==> !(x.free && x.size >= TotalSize(size))
    ensures Malloc(L + [b] + R, size) == L + Carve(b, TotalSize(size)) + R
    ensures AllocResult(L + [b] + R, size) == b.Payload()
  {
    FirstFitAt(L, b, R, TotalSize(size));
    assert (L + [b] + R)[|L|] == b;
  }

  // ---- kfree ----

  /** The position of the block whose payload starts at `ptr`, or |bs|. */
  function Find(bs: seq<Block>, ptr: int): (i: nat)
    ensures i <= |bs|
    ensures i < |bs| ==> bs[i].Payload() == ptr
    ensures forall j :: 0 <= j < i ==> bs[j].Payload() != ptr
  {
    if bs == [] || bs[0].Payload() == ptr then 0 else 1 + Find(bs[1..], ptr)
  }

  function Join(a: Block, b: Block): Block {
    Block(a.addr, a.size + HEADER + b.size, true)
  }

  /** `b` marked free in front of `rest`, and merged with its successor if that is free. */
  function MergeNext(b: Block, rest: seq<Block>): (r: seq<Block>)
    ensures r != []
  {
    if rest != [] && rest[0].free then [Join(b, rest[0])] + rest[1..] else [b.(free := true)] + rest
  }

  /** `bs` behind `front`, whose last block is merged with the first of `bs` if it is free. */
  function MergePrev(front: seq<Block>, bs: seq<Block>): seq<Block>
    requires bs != []
  {
    if front != [] && front[|front| - 1].free
    then front[..|front| - 1] + [Join(front[|front| - 1], bs[0])] + bs[1..]
    else front + bs
  }

  function Free(bs: seq<Block>, ptr: int): seq<Block> {
    var i := Find(bs, ptr);
    if i == |bs| || bs[i].free then bs
    else MergePrev(bs[..i], MergeNext(bs[i], bs[i + 1..]))
  }

  // ---- What every step keeps ----

  lemma CarveTiled(b: Block, need: int)
    requires b.free && b.size >= need >= 0 && need % 8 == 0 && b.size % 8 == 0
    ensures Tiled(Carve(b, need), b.addr, b.End())
    ensures Carve(b, need)[0].size >= need
  {
    if b.size >= need + HEADER + 64 {
      var c := Carve(b, need);
      assert c[1..] == [c[1]] && c[1..][1..] == [];
    } else {
      assert Carve(b, need)[1..] == [];
    }
  }

  /** Replacing the free block `b` between `L` and `R` by the pieces cut from it. */
  lemma CarveKeeps(L: seq<Block>, b: Block, R: seq<Block>, need: int)
    requires WellFormed(L + [b] + R)
    requires b.free && b.size >= need >= 0 && need % 8 == 0
    ensures WellFormed(L + Carve(b, need) + R)
  {
    var c := Carve(b, need);
    assert L + [b] + R == L + ([b] + R);
    var mid := TiledSplit(L, [b] + R, HEAP_BASE, HEAP_TOP);
    assert ([b] + R)[1..] == R;
    CarveTiled(b, need);
    TiledConcat(c, R, b.addr, b.End(), HEAP_TOP);
    TiledConcat(L, c + R, HEAP_BASE, mid, HEAP_TOP);
    assert L + c + R == L + (c + R);
    CarveSettled(L, b, R, need);
  }

  lemma CarveUsed(L: seq<Block>, b: Block, R: seq<Block>, need: int)
    requires b.free && b.size >= need
    ensures Used(L + Carve(b, need) + R) == Used(L + [b] + R) + Carve(b, need)[0].size
  {
    var c := Carve(b, need);
    UsedConcat(L + c, R);
    UsedConcat(L, c);
    UsedConcat(L + [b], R);
    UsedConcat(L, [b]);
    if |c| == 2 {
      assert c[1..] == [c[1]];
      assert Used(c[1..]) == 0;
    }
  }

  /** What allocating does: exactly one block, cut from the first free one that fits, becomes live. */
  lemma AllocKeeps(bs: seq<Block>, need: int)
    requires WellFormed(bs) && need >= 0 && need % 8 == 0
    ensures WellFormed(AllocBlocks(bs, need))
    ensures var i := FirstFit(bs, need);
            if i == |bs| then AllocBlocks(bs, need) == bs
            else
              var b := Carve(bs[i], need)[0];
              && Live(AllocBlocks(bs, need)) == Live(bs) + {b}
              && b !in Live(bs) && b.addr == bs[i].addr && b.size >= need
              && Used(AllocBlocks(bs, need)) == Used(bs) + b.size
  {
    var i := FirstFit(bs, need);
    if i < |bs| {
      var L, b, R := bs[..i], bs[i], bs[i + 1..];
      assert bs == L + [b] + R;
      CarveKeeps(L, b, R, need);
      CarveUsed(L, b, R, need);
      CarveLive(L, b, R, need);
      NotLive(bs, i, Carve(b, need)[0]);
    }
  }

  lemma CarveSettled(L: seq<Block>, b: Block, R: seq<Block>, need: int)
    requires b.free && Settled(L + [b] + R)
    ensures Settled(L + Carve(b, need) + R)
  {
    var old_, new_ := L + [b] + R, L + Carve(b, need) + R;
    var d := |Carve(b, need)| - 1;
    forall i, j | 0 <= i && j == i + 1 && j < |new_|
      ensures !(new_[i].free && new_[j].free)
    {
      if j < |L| {
        assert old_[i] == new_[i] && old_[j] == new_[j];
      } else if i > |L| + d {
        assert old_[i - d] == new_[i] && old_[j - d] == new_[j];
      } else if d == 1 && i == |L| + 1 {
        assert old_[|L|] == b && old_[|L| + 1] == new_[j];
      }
    }
  }

  lemma CarveLive(L: seq<Block>, b: Block, R: seq<Block>, need: int)
    requires b.free
    ensures Live(L + Carve(b, need) + R) == Live(L + [b] + R) + {Carve(b, need)[0]}
  {
    var c := Carve(b, need);
    forall x | x in L + c + R && !x.free
      ensures x in Live(L + [b] + R) + {c[0]}
    {
      if x in L || x in R {
        assert x in L + [b] + R;
      }
    }
    forall x | x in Live(L + [b] + R) + {c[0]}
      ensures x in L + c + R
    {
      if x == c[0] {
        assert (L + c + R)[|L|] == c[0];
      } else {
        assert x in L || x in R;
      }
    }
  }

  /** No other block starts where the free block `bs[i]` does. */
  lemma NotLive(bs: seq<Block>, i: int, x: Block)
    requires WellFormed(bs) && 0 <= i < |bs| && bs[i].free && x.addr == bs[i].addr
    ensures x !in Live(bs)
  {
    if x in Live(bs) {
      var j :| 0 <= j < |bs| && bs[j] == x;
      TiledBounds(bs, HEAP_BASE, HEAP_TOP);
      if j < i {
        TiledOrder(bs, HEAP_BASE, HEAP_TOP, j, i);
      } else if i < j {
        TiledOrder(bs, HEAP_BASE, HEAP_TOP, i, j);
      }
    }
  }

  lemma LiveConcat(xs: seq<Block>, ys: seq<Block>)
    ensures Live(xs + ys) == Live(xs) + Live(ys)
  {
    assert forall b :: b in xs + ys <==> b in xs || b in ys;
  }

  lemma MergeNextKeeps(b: Block, R: seq<Block>, lo: int, hi: int)
    requires Tiled([b] + R, lo, hi) && Settled([b] + R) && !b.free
    ensures var M := MergeNext(b, R);
            && Tiled(M, lo, hi) && Settled(M) && M[0].free && M[0].addr == b.addr
            && Live(M) == Live([b] + R) - {b}
            && Used(M) == Used([b] + R) - b.size
  {
    var M := MergeNext(b, R);
    assert ([b] + R)[1..] == R;
    TiledBounds(R, b.End(), hi);
    if R != [] && R[0].free {
      assert M[1..] == R[1..];
      assert R == [R[0]] + R[1..];
      assert forall i :: 0 < i < |M| ==> M[i] == ([b] + R)[i + 1];
      LiveConcat([M[0]], R[1..]);
      LiveConcat([b], R);
      LiveConcat([R[0]], R[1..]);
    } else {
      assert M[1..] == R;
      LiveConcat([M[0]], R);
      LiveConcat([b], R);
    }
    assert b !in R;
    assert Live([b]) == {b} && Live([M[0]]) == {};
  }

  lemma MergePrevKeeps(L: seq<Block>, M: seq<Block>, lo: int, mid: int, hi: int)
    requires M != [] && Tiled(L, lo, mid) && Tiled(M, mid, hi) && Settled(L) && Settled(M) && M[0].free
    ensures var r := MergePrev(L, M);
            && Tiled(r, lo, hi) && Settled(r)
            && Live(r) == Live(L) + Live(M)
            && Used(r) == Used(L) + Used(M)
  {
    if L != [] && L[|L| - 1].free {
      var K, a := L[..|L| - 1], L[|L| - 1];
      assert L == K + [a];
      assert MergePrev(L, M) == K + ([Join(a, M[0])] + M[1..]);
      JoinTiled(K, a, M, lo, mid, hi);
      JoinCounts(K, a, M);
      JoinSettled(K, a, M);
    } else {
      TiledConcat(L, M, lo, mid, hi);
      UsedConcat(L, M);
      LiveConcat(L, M);
      AppendSettled(L, M);
      assert L == [] ==> L + M == M;
    }
  }

  /** Joining a free last block `a` with the free block after it keeps the tiling. */
  lemma JoinTiled(K: seq<Block>, a: Block, M: seq<Block>, lo: int, mid: int, hi: int)
    requires M != [] && Tiled(K + [a], lo, mid) && Tiled(M, mid, hi) && a.free && M[0].free
    ensures Tiled(K + ([Join(a, M[0])] + M[1..]), lo, hi)
  {
    var j := Join(a, M[0]);
    var m := TiledSplit(K, [a], lo, mid);
    assert [a][1..] == [] && ([j] + M[1..])[1..] == M[1..];
    TiledConcat(K, [j] + M[1..], lo, m, hi);
  }

  /** No allocated block comes or goes when two free ones are joined. */
  lemma JoinCounts(K: seq<Block>, a: Block, M: seq<Block>)
    requires M != [] && a.free && M[0].free
    ensures var r := K + ([Join(a, M[0])] + M[1..]);
            Live(r) == Live(K + [a]) + Live(M) && Used(r) == Used(K + [a]) + Used(M)
  {
    var j := Join(a, M[0]);
    assert ([j] + M[1..])[1..] == M[1..] && [a][1..] == [];
    UsedConcat(K, [a]);
    UsedConcat(K, [j] + M[1..]);
    assert M == [M[0]] + M[1..];
    LiveConcat(K, [a]);
    LiveConcat(K, [j] + M[1..]);
    LiveConcat([j], M[1..]);
    LiveConcat([M[0]], M[1..]);
  }

  lemma AppendSettled(L: seq<Block>, M: seq<Block>)
    requires Settled(L) && Settled(M) && (L != [] ==> !L[|L| - 1].free)
    ensures Settled(L + M)
  {
    var r := L + M;
    forall i, k | 0 <= i && k == i + 1 && k < |r|
      ensures !(r[i].free && r[k].free)
    {
      if k < |L| {
        assert L[i] == r[i] && L[k] == r[k];
      } else if i >= |L| {
        assert M[i - |L|] == r[i] && M[k - |L|] == r[k];
      }
    }
  }

  lemma JoinSettled(K: seq<Block>, a: Block, M: seq<Block>)
    requires Settled(K + [a]) && M != [] && Settled(M) && a.free && M[0].free
    ensures Settled(K + ([Join(a, M[0])] + M[1..]))
  {
    var r := K + ([Join(a, M[0])] + M[1..]);
    forall i, k | 0 <= i && k == i + 1 && k < |r|
      ensures !(r[i].free && r[k].free)
    {
      if k <= |K| {
        assert (K + [a])[i] == r[i] && (K + [a])[k] == if k < |K| then r[k] else a;
      } else {
        assert M[k - |K|] == r[k] && M[i - |K|] == if i == |K| then M[0] else r[i];
      }
    }
  }

  lemma FreeAt(L: seq<Block>, b: Block, R: seq<Block>)
    requires WellFormed(L + ([b] + R)) && !b.free
    ensures var r := MergePrev(L, MergeNext(b, R));
            && WellFormed(r)
            && Live(r) == Live(L + ([b] + R)) - {b}
            && Used(r) == Used(L + ([b] + R)) - b.size
  {
    var bR := [b] + R;
    var mid := TiledSplit(L, bR, HEAP_BASE, HEAP_TOP);
    TiledBounds(L, HEAP_BASE, mid);
    assert b !in L;
    SettledParts(L, bR);
    MergeNextKeeps(b, R, mid, HEAP_TOP);
    MergePrevKeeps(L, MergeNext(b, R), HEAP_BASE, mid, HEAP_TOP);
    LiveConcat(L, bR);
    UsedConcat(L, bR);
  }

  lemma SettledParts(xs: seq<Block>, ys: seq<Block>)
    requires Settled(xs + ys)
    ensures Settled(xs) && Settled(ys)
  {
    forall i, j | 0 <= i && j == i + 1 && j < |xs|
      ensures !(xs[i].free && xs[j].free)
    {
      assert (xs + ys)[i] == xs[i] && (xs + ys)[j] == xs[j];
    }
    forall i, j | 0 <= i && j == i + 1 && j < |ys|
      ensures !(ys[i].free && ys[j].free)
    {
      assert (xs + ys)[|xs| + i] == ys[i] && (xs + ys)[|xs| + j] == ys[j];
    }
  }

  /** What freeing does: exactly the named block stops being live. */
  lemma FreeKeeps(bs: seq<Block>, ptr: int)
    requires WellFormed(bs)
    ensures WellFormed(Free(bs, ptr))
    ensures var i := Find(bs, ptr);
            if i == |bs| || bs[i].free then Free(bs, ptr) == bs
            else Live(Free(bs, ptr)) == Live(bs) - {bs[i]} && Used(Free(bs, ptr)) == Used(bs) - bs[i].size
  {
    var i := Find(bs, ptr);
    if i < |bs| && !bs[i].free {
      assert bs == bs[..i] + ([bs[i]] + bs[i + 1..]);
      FreeAt(bs[..i], bs[i], bs[i + 1..]);
    }
  }

  // ---- A heap is determined by its live blocks ----

  lemma LiveTail(bs: seq<Block>, lo: int, hi: int)
    requires bs != [] && Tiled(bs, lo, hi)
    ensures Live(bs[1..]) == Live(bs) - {bs[0]}
  {
    TiledBounds(bs[1..], bs[0].End(), hi);
    assert bs == [bs[0]] + bs[1..];
    assert bs[0] !in bs[1..];
  }

  lemma SettledTail(bs: seq<Block>)
    requires bs != [] && Settled(bs)
    ensures Settled(bs[1..])
  {
    var t := bs[1..];
    forall i, j | 0 <= i && j == i + 1 && j < |t|
      ensures !(t[i].free && t[j].free)
    {
      assert t[i] == bs[i + 1] && t[j] == bs[j + 1];
    }
  }

  /** A live block of one list at the start of the other is the other's first block. */
  lemma HeadIsLive(xs: seq<Block>, ys: seq<Block>, lo: int, hi: int)
    requires xs != [] && Tiled(xs, lo, hi) && Tiled(ys, lo, hi) && Live(xs) == Live(ys) && !xs[0].free
    ensures ys != [] && ys[0] == xs[0]
  {
    assert xs[0] in Live(xs);
    TiledBounds(ys[1..], ys[0].End(), hi);
    assert ys == [ys[0]] + ys[1..];
  }

  /** Of two free first blocks neither ends before the other: a live block would start inside. */
  lemma HeadEnds(xs: seq<Block>, ys: seq<Block>, lo: int, hi: int)
    requires xs != [] && ys != [] && Tiled(xs, lo, hi) && Tiled(ys, lo, hi) && Settled(xs)
    requires Live(xs) == Live(ys) && xs[0].free && ys[0].free
    ensures xs[0].End() >= ys[0].End()
  {
    TiledBounds(ys[1..], ys[0].End(), hi);
    if xs[1..] != [] {
      assert xs[1..][0] == xs[1];
      assert !xs[1].free;
      assert xs[1] in Live(ys);
      assert ys == [ys[0]] + ys[1..];
    }
  }

  /** Two well-formed block lists with the same live blocks are the same list. */
  lemma {:induction false} Determined(xs: seq<Block>, ys: seq<Block>, lo: int, hi: int)
    requires Tiled(xs, lo, hi) && Tiled(ys, lo, hi) && Settled(xs) && Settled(ys) && Live(xs) == Live(ys)
    ensures xs == ys
    decreases |xs|
  {
    if xs == [] {
      if ys != [] {
        TiledBounds(ys[1..], ys[0].End(), hi);
        assert false;
      }
    } else if ys == [] {
      TiledBounds(xs[1..], xs[0].End(), hi);
      assert false;
    } else {
      if !xs[0].free {
        HeadIsLive(xs, ys, lo, hi);
      } else if !ys[0].free {
        HeadIsLive(ys, xs, lo, hi);
      } else {
        HeadEnds(xs, ys, lo, hi);
        HeadEnds(ys, xs, lo, hi);
      }
      assert xs[0] == ys[0];
      LiveTail(xs, lo, hi);
      LiveTail(ys, lo, hi);
      SettledTail(xs);
      SettledTail(ys);
      Determined(xs[1..], ys[1..], xs[0].End(), hi);
      assert xs == [xs[0]] + xs[1..] && ys == [ys[0]] + ys[1..];
    }
  }
}
