/** Theorems about the heap over whole runs of requests on pointers the callers own. */
module HeapRuns {
  import opened Machine
  import opened HeapBlocks

  datatype Request =
    | Kmalloc(size: u64)
    | Kcalloc(count: u64, size: u64)
    | Krealloc(ptr: int, size: u64)
    | Kfree(ptr: int)

  /** A pointer the callers may pass back: null, or the payload of some block. */
  ghost predicate Known(bs: seq<Block>, ptr: int) {
    ptr == 0 || Find(bs, ptr) < |bs|
  }

  /** The size of the block that kmalloc grants. */
  function GrantedSize(bs: seq<Block>, size: u64): int {
    var i := FirstFit(bs, TotalSize(size));
    if i < |bs| then Carve(bs[i], TotalSize(size))[0].size else 0
  }

  /**
   * The requests a caller may make: with its own pointers, and no size whose sum wraps when the
   * fill or the copy that follows would then run over the end of the granted block.
   */
  ghost predicate Permitted(bs: seq<Block>, r: Request) {
    match r
    case Kmalloc(_) => true
    case Kcalloc(count, size) =>
      var total := count * size % TWO_64;
      AllocResult(bs, total) == 0 || total + HEADER + 7 < TWO_64
    case Krealloc(ptr, size) =>
      ptr == 0 || (Known(bs, ptr) && !bs[Find(bs, ptr)].free && CopyFits(bs, bs[Find(bs, ptr)].size, size))
    case Kfree(ptr) => Known(bs, ptr)
  }

  /** If a block of `n` bytes has to move to get `size` bytes, its bytes fit where it goes. */
  predicate CopyFits(bs: seq<Block>, n: int, size: u64) {
    size == 0 || n >= size || AllocResult(bs, size) == 0 || n <= GrantedSize(bs, size)
  }

  /** They always do unless the size is within 39 of 2^64. */
  lemma CopyFitsPlainly(bs: seq<Block>, n: int, size: u64)
    requires WellFormed(bs) && size + HEADER + 7 < TWO_64
    ensures CopyFits(bs, n, size)
  {
    if AllocResult(bs, size) != 0 {
      var _ := Granted(bs, size);
    }
  }

  function Realloc(bs: seq<Block>, ptr: int, size: u64): seq<Block> {
    var i := Find(bs, ptr);
    if ptr == 0 then Malloc(bs, size)
    else if size == 0 then Free(bs, ptr)
    else if i == |bs| || bs[i].size >= size || AllocResult(bs, size) == 0 then bs
    else Free(Malloc(bs, size), ptr)
  }

  /** The pointer krealloc returns. */
  function ReallocResult(bs: seq<Block>, ptr: int, size: u64): int {
    var i := Find(bs, ptr);
    if ptr == 0 then AllocResult(bs, size)
    else if size == 0 || i == |bs| then 0
    else if bs[i].size >= size then ptr
    else AllocResult(bs, size)
  }

  function Step(bs: seq<Block>, r: Request): seq<Block> {
    match r
    case Kmalloc(size) => Malloc(bs, size)
    case Kcalloc(count, size) => Malloc(bs, count * size % TWO_64)
    case Krealloc(ptr, size) => Realloc(bs, ptr, size)
    case Kfree(ptr) => Free(bs, ptr)
  }

  function Run(bs: seq<Block>, rs: seq<Request>): seq<Block>
    decreases |rs|
  {
    if rs == [] then bs else Run(Step(bs, rs[0]), rs[1..])
  }

  ghost predicate PermittedRun(bs: seq<Block>, rs: seq<Request>)
    decreases |rs|
  {
    rs != [] ==> Permitted(bs, rs[0]) && PermittedRun(Step(bs, rs[0]), rs[1..])
  }

  lemma MallocKeeps(bs: seq<Block>, size: u64)
    requires WellFormed(bs)
    ensures WellFormed(Malloc(bs, size))
    ensures AllocResult(bs, size) == 0 ==> Malloc(bs, size) == bs
    ensures AllocResult(bs, size) != 0 ==>
              exists b :: Live(Malloc(bs, size)) == Live(bs) + {b} && b !in Live(bs)
                       && b.Payload() == AllocResult(bs, size) && b.size >= TotalSize(size)
  {
    if size != 0 {
      AllocKeeps(bs, TotalSize(size));
      InitialFacts(bs);
    }
  }

  lemma InitialFacts(bs: seq<Block>)
    requires WellFormed(bs)
    ensures forall b :: b in bs ==> b.addr >= HEAP_BASE && b.Payload() != 0
  {
    TiledBounds(bs, HEAP_BASE, HEAP_TOP);
  }

  /** The block list holds no two blocks with one payload address. */
  lemma FindUnique(bs: seq<Block>, b: Block)
    requires WellFormed(bs) && b in bs
    ensures Find(bs, b.Payload()) < |bs| && bs[Find(bs, b.Payload())] == b
  {
    var i := Find(bs, b.Payload());
    var j :| 0 <= j < |bs| && bs[j] == b;
    TiledBounds(bs, HEAP_BASE, HEAP_TOP);
    if i < j {
      TiledOrder(bs, HEAP_BASE, HEAP_TOP, i, j);
    }
  }

  lemma StepKeeps(bs: seq<Block>, r: Request)
    requires WellFormed(bs)
    ensures WellFormed(Step(bs, r))
  {
    match r
    case Kmalloc(size) => MallocKeeps(bs, size);
    case Kcalloc(count, size) => MallocKeeps(bs, count * size % TWO_64);
    case Kfree(ptr) => FreeKeeps(bs, ptr);
    case Krealloc(ptr, size) =>
      MallocKeeps(bs, size);
      FreeKeeps(bs, ptr);
      FreeKeeps(Malloc(bs, size), ptr);
  }

  /** Bytes are conserved: payload in use, payload free and headers add up to the region tiled. */
  lemma {:induction false} Accounting(bs: seq<Block>, lo: int, hi: int)
    requires Tiled(bs, lo, hi)
    ensures Used(bs) + Unused(bs) + HEADER * |bs| == hi - lo
    decreases |bs|
  {
    if bs != [] {
      Accounting(bs[1..], bs[0].End(), hi);
    }
  }

  /**
   * Every run from heap_init: the list tiles the heap without two free neighbours, and
   * used + free + headers is the heap size.
   */
  lemma {:induction false} EveryRun(bs: seq<Block>, rs: seq<Request>)
    requires WellFormed(bs) && PermittedRun(bs, rs)
    ensures WellFormed(Run(bs, rs))
    ensures Used(Run(bs, rs)) + Unused(Run(bs, rs)) + HEADER * |Run(bs, rs)| == HEAP_SIZE
    decreases |rs|
  {
    if rs == [] {
      Accounting(bs, HEAP_BASE, HEAP_TOP);
    } else {
      StepKeeps(bs, rs[0]);
      EveryRun(Step(bs, rs[0]), rs[1..]);
    }
  }

  /** Two runs that leave the same objects live leave the same heap, whatever happened between. */
  lemma RunsAgree(rs: seq<Request>, ss: seq<Request>)
    requires PermittedRun(INITIAL, rs) && PermittedRun(INITIAL, ss)
    requires Live(Run(INITIAL, rs)) == Live(Run(INITIAL, ss))
    ensures Run(INITIAL, rs) == Run(INITIAL, ss)
  {
    InitialWellFormed();
    EveryRun(INITIAL, rs);
    EveryRun(INITIAL, ss);
    Determined(Run(INITIAL, rs), Run(INITIAL, ss), HEAP_BASE, HEAP_TOP);
  }

  /** Once everything is freed the heap is the single block of heap_init again. */
  lemma Drained(rs: seq<Request>)
    requires PermittedRun(INITIAL, rs) && Live(Run(INITIAL, rs)) == {}
    ensures Run(INITIAL, rs) == INITIAL
  {
    InitialWellFormed();
    assert Run(INITIAL, []) == INITIAL;
    RunsAgree(rs, []);
  }

  /** Freeing what kmalloc just returned undoes it: blocks, sizes, order and flags. */
  lemma FreeUndoesMalloc(bs: seq<Block>, size: u64)
    requires WellFormed(bs) && AllocResult(bs, size) != 0
    ensures Free(Malloc(bs, size), AllocResult(bs, size)) == bs
  {
    MallocKeeps(bs, size);
    var ms := Malloc(bs, size);
    var b :| Live(ms) == Live(bs) + {b} && b !in Live(bs) && b.Payload() == AllocResult(bs, size);
    assert b in Live(ms);
    FindUnique(ms, b);
    FreeKeeps(ms, b.Payload());
    Determined(Free(ms, b.Payload()), bs, HEAP_BASE, HEAP_TOP);
  }

  /**
   * Scoped use: a buffer taken before and released after a stretch of requests that itself
   * leaves the heap as it found it leaves no trace either.
   */
  lemma ScopedBuffer(bs: seq<Block>, size: u64, inner: seq<Request>)
    requires WellFormed(bs) && AllocResult(bs, size) != 0
    requires PermittedRun(Malloc(bs, size), inner) && Run(Malloc(bs, size), inner) == Malloc(bs, size)
    ensures Run(bs, [Kmalloc(size)] + inner + [Kfree(AllocResult(bs, size))]) == bs
  {
    FreeUndoesMalloc(bs, size);
    var last := [Kfree(AllocResult(bs, size))];
    RunConcat(bs, [Kmalloc(size)] + inner, last);
    RunConcat(bs, [Kmalloc(size)], inner);
    RunOne(bs, Kmalloc(size));
    RunOne(Malloc(bs, size), last[0]);
  }

  lemma RunOne(bs: seq<Block>, r: Request)
    ensures Run(bs, [r]) == Step(bs, r)
  {
    assert [r][1..] == [];
  }

  lemma {:induction false} RunConcat(bs: seq<Block>, xs: seq<Request>, ys: seq<Request>)
    ensures Run(bs, xs + ys) == Run(Run(bs, xs), ys)
    decreases |xs|
  {
    if xs == [] {
      assert xs + ys == ys;
    } else {
      assert (xs + ys)[1..] == xs[1..] + ys;
      RunConcat(Step(bs, xs[0]), xs[1..], ys);
    }
  }

  /** Live objects never overlap each other's payload or header. */
  lemma LiveApart(bs: seq<Block>, a: Block, b: Block)
    requires WellFormed(bs) && a in bs && b in bs && a != b
    ensures a.End() <= b.addr || b.End() <= a.addr
  {
    var i :| 0 <= i < |bs| && bs[i] == a;
    var j :| 0 <= j < |bs| && bs[j] == b;
    if i < j {
      TiledOrder(bs, HEAP_BASE, HEAP_TOP, i, j);
    } else {
      TiledOrder(bs, HEAP_BASE, HEAP_TOP, j, i);
    }
  }

  /** A request disturbs no live object but the one it names: nothing is moved, resized or reused. */
  lemma OthersStay(bs: seq<Block>, r: Request, b: Block)
    requires WellFormed(bs) && b in Live(bs)
    requires r.Kfree? || r.Krealloc? ==> b.Payload() != r.ptr
    ensures b in Live(Step(bs, r))
  {
    match r
    case Kmalloc(size) => MallocKeeps(bs, size);
    case Kcalloc(count, size) => MallocKeeps(bs, count * size % TWO_64);
    case Kfree(ptr) => FreeKeeps(bs, ptr);
    case Krealloc(ptr, size) =>
      MallocKeeps(bs, size);
      FreeKeeps(bs, ptr);
      FreeKeeps(Malloc(bs, size), ptr);
  }

  /** Over a run: an object that no request names survives untouched. */
  lemma {:induction false} OthersSurvive(bs: seq<Block>, rs: seq<Request>, b: Block)
    requires WellFormed(bs) && PermittedRun(bs, rs) && b in Live(bs)
    requires forall r :: r in rs && (r.Kfree? || r.Krealloc?) ==> b.Payload() != r.ptr
    ensures b in Live(Run(bs, rs))
    decreases |rs|
  {
    if rs != [] {
      OthersStay(bs, rs[0], b);
      StepKeeps(bs, rs[0]);
      OthersSurvive(Step(bs, rs[0]), rs[1..], b);
    }
  }

  /**
   * kmalloc's sum wraps for sizes within 39 of 2^64. A block it returns is as large as asked,
   * and 32 bytes larger, exactly when it does not wrap.
   */
  lemma LargeEnough(bs: seq<Block>, size: u64, b: Block)
    requires WellFormed(bs) && AllocResult(bs, size) != 0
    requires b in Malloc(bs, size) && b.Payload() == AllocResult(bs, size)
    ensures !b.free
    ensures b.size >= size <==> size + HEADER + 7 < TWO_64
    ensures size + HEADER + 7 < TWO_64 ==> b.size >= size + HEADER
  {
    MallocKeeps(bs, size);
    var ms := Malloc(bs, size);
    var x :| Live(ms) == Live(bs) + {x} && x.Payload() == AllocResult(bs, size) && x.size >= TotalSize(size);
    assert x in Live(ms);
    FindUnique(ms, x);
    FindUnique(ms, b);
    TiledBounds(ms, HEAP_BASE, HEAP_TOP);
  }

  /** kmalloc fails exactly when the size is 0 or no free block has the rounded size. */
  lemma FailsOnlyWhenFull(bs: seq<Block>, size: u64)
    requires WellFormed(bs)
    ensures AllocResult(bs, size) == 0 <==>
            size == 0 || forall b :: b in bs && b.free ==> b.size < TotalSize(size)
  {
    InitialFacts(bs);
    var i := FirstFit(bs, TotalSize(size));
    if i < |bs| {
      assert bs[i] in bs;
    }
  }

  /** The block a successful kmalloc grants: new, live, and larger than asked unless the sum wraps. */
  lemma Granted(bs: seq<Block>, size: u64) returns (b: Block)
    requires WellFormed(bs) && AllocResult(bs, size) != 0
    ensures b in Malloc(bs, size) && !b.free && b !in Live(bs)
    ensures Live(Malloc(bs, size)) == Live(bs) + {b}
    ensures b.Payload() == AllocResult(bs, size) && b.size == GrantedSize(bs, size)
    ensures size + HEADER + 7 < TWO_64 ==> b.size >= size + HEADER
    ensures forall x :: x in bs && !x.free ==> x in Malloc(bs, size) && x != b
  {
    MallocKeeps(bs, size);
    var ms := Malloc(bs, size);
    b :| Live(ms) == Live(bs) + {b} && b !in Live(bs)
         && b.Payload() == AllocResult(bs, size) && b.size >= TotalSize(size);
    assert b in Live(ms);
    CarvedFirst(bs, size, b);
    forall x | x in bs && !x.free
      ensures x in ms && x != b
    {
      assert x in Live(bs);
      assert x in Live(ms);
    }
  }

  lemma CarvedFirst(bs: seq<Block>, size: u64, b: Block)
    requires WellFormed(bs) && AllocResult(bs, size) != 0
    requires b in Malloc(bs, size) && b.Payload() == AllocResult(bs, size)
    ensures b.size == GrantedSize(bs, size)
  {
    var need, ms := TotalSize(size), Malloc(bs, size);
    var i := FirstFit(bs, need);
    var c := Carve(bs[i], need)[0];
    assert ms[i] == c;
    MallocKeeps(bs, size);
    FindUnique(ms, b);
    FindUnique(ms, c);
  }
}
