/** smart_alloc and smart_free: three pools and the heap behind one interface. */
module SmartAlloc {
  import opened Machine
  import opened HeapBlocks
  import opened HeapRuns
  import opened MemoryPool
  import opened HeapLayout
  import PoolLayout
  import KH = KernelHeap

  // ---- The state of the four allocators, as a value ----

  /** A pool by its contents; NoPool for one that was never created. */
  datatype Store = NoPool | Store(self: u64, start: u64, list: u64, size: u64, total: u64, free: seq<u64>)

  datatype State = State(blocks: seq<Block>, small: Store, medium: Store, large: Store,
                         smallAt: Backing, mediumAt: Backing, largeAt: Backing)

  /** The bytes from `addr` to `addr + len - 1` that a caller owns. */
  datatype Extent = Extent(addr: int, len: int)

  ghost predicate Apart(e: Extent, f: Extent) {
    e.addr + e.len <= f.addr || f.addr + f.len <= e.addr
  }

  predicate HandedOut(v: Store, p: int) {
    && v.Store? && 0 < v.size && p < TWO_64 && v.start <= p < BlockAddress(v.start, v.size, v.total)
    && (p - v.start) % v.size == 0 && p !in v.free
  }

  ghost predicate Pooled(v: Store, e: Extent) {
    HandedOut(v, e.addr) && e.len == v.size
  }

  /** The heap blocks a pool occupies. */
  ghost function Space(v: Store, k: Backing): set<Block> {
    if v.NoPool? then {} else k.All()
  }

  ghost predicate StoreOk(bs: seq<Block>, v: Store, k: Backing, size: u64) {
    v.Store? ==>
      && 0 < size == v.size && 0 < v.total && |v.free| <= v.total
      && Stack(v.free, v.start, v.size, v.total)
      && LiveAt(bs, v.self, k.self) && LiveAt(bs, v.start, k.chunk) && LiveAt(bs, v.list, k.list)
      && k.chunk.size >= v.total * v.size
  }

  ghost function Owned(s: State): set<Block> {
    Space(s.small, s.smallAt) + Space(s.medium, s.mediumAt) + Space(s.large, s.largeAt)
  }

  ghost predicate Ok(s: State) {
    && WellFormed(s.blocks)
    && StoreOk(s.blocks, s.small, s.smallAt, 16)
    && StoreOk(s.blocks, s.medium, s.mediumAt, 64)
    && StoreOk(s.blocks, s.large, s.largeAt, 256)
    && Space(s.small, s.smallAt) !! Space(s.medium, s.mediumAt)
    && Space(s.small, s.smallAt) + Space(s.medium, s.mediumAt) !! Space(s.large, s.largeAt)
  }

  /** A live heap block that no pool uses. */
  ghost predicate Direct(bs: seq<Block>, owned: set<Block>, e: Extent) {
    exists b :: b in Live(bs) && b !in owned && e == Extent(b.Payload(), b.size)
  }

  /** Everything the callers own. */
  ghost predicate Object(s: State, e: Extent) {
    Direct(s.blocks, Owned(s), e) || Pooled(s.small, e) || Pooled(s.medium, e) || Pooled(s.large, e)
  }

  // ---- What the operations do ----

  function Pop(v: Store): Store {
    if v.NoPool? || v.free == [] then v else v.(free := v.free[..|v.free| - 1])
  }

  function Top(v: Store): u64 {
    if v.NoPool? || v.free == [] then 0 else v.free[|v.free| - 1]
  }

  function Push(v: Store, p: int): Store {
    if HandedOut(v, p) then v.(free := v.free + [p]) else v
  }

  function Allocated(s: State, size: u64): State {
    if size <= 16 then s.(small := Pop(s.small))
    else if size <= 64 then s.(medium := Pop(s.medium))
    else if size <= 256 then s.(large := Pop(s.large))
    else s.(blocks := Malloc(s.blocks, size))
  }

  function Address(s: State, size: u64): int {
    if size <= 16 then Top(s.small)
    else if size <= 64 then Top(s.medium)
    else if size <= 256 then Top(s.large)
    else AllocResult(s.blocks, size)
  }

  function Released(s: State, p: int, size: u64): State {
    if size <= 16 then s.(small := Push(s.small, p))
    else if size <= 64 then s.(medium := Push(s.medium, p))
    else if size <= 256 then s.(large := Push(s.large, p))
    else s.(blocks := Free(s.blocks, p))
  }

  /** The live block at `p` that no pool uses. */
  ghost predicate DirectAt(s: State, p: int) {
    exists b :: LiveAt(s.blocks, p, b) && b !in Owned(s)
  }

  /** A pointer smart_free may be given: null, or for large sizes a heap object of a caller. */
  ghost predicate Releasable(s: State, p: int, size: int) {
    size > 256 && p != 0 ==> DirectAt(s, p)
  }

  // ---- Objects never overlap ----

  /** A handed-out block lies in its pool's chunk. */
  lemma InChunk(bs: seq<Block>, v: Store, k: Backing, size: u64, e: Extent)
    requires StoreOk(bs, v, k, size) && Pooled(v, e)
    ensures k.chunk.Payload() <= e.addr && e.addr + e.len <= k.chunk.End()
  {
    var n := (e.addr - v.start) / v.size;
    assert e.addr == BlockAddress(v.start, v.size, n);
    IndexBelow(e.addr, v.start, v.size, v.total);
    BlockOrder(v.start, v.size, n, v.total);
  }

  lemma PooledApart(v: Store, e: Extent, f: Extent)
    requires Pooled(v, e) && Pooled(v, f) && e != f
    ensures Apart(e, f)
  {
    var i, j := (e.addr - v.start) / v.size, (f.addr - v.start) / v.size;
    assert e.addr == BlockAddress(v.start, v.size, i) && f.addr == BlockAddress(v.start, v.size, j);
    if i < j {
      BlockOrder(v.start, v.size, i, j);
    } else {
      BlockOrder(v.start, v.size, j, i);
    }
  }

  /** The live heap block an object lies in: its own, or its pool's chunk. */
  lemma Home(s: State, e: Extent) returns (b: Block)
    requires Ok(s) && Object(s, e)
    ensures b in Live(s.blocks) && b.Payload() <= e.addr && e.addr + e.len <= b.End()
    ensures Pooled(s.small, e) ==> s.small.Store? && b == s.smallAt.chunk
    ensures Pooled(s.medium, e) ==> s.medium.Store? && b == s.mediumAt.chunk
    ensures Pooled(s.large, e) ==> s.large.Store? && b == s.largeAt.chunk
    ensures b in Owned(s) <==> Pooled(s.small, e) || Pooled(s.medium, e) || Pooled(s.large, e)
    ensures b !in Owned(s) ==> e == Extent(b.Payload(), b.size)
  {
    if Pooled(s.small, e) {
      InChunk(s.blocks, s.small, s.smallAt, 16, e);
      b := s.smallAt.chunk;
    } else if Pooled(s.medium, e) {
      InChunk(s.blocks, s.medium, s.mediumAt, 64, e);
      b := s.mediumAt.chunk;
    } else if Pooled(s.large, e) {
      InChunk(s.blocks, s.large, s.largeAt, 256, e);
      b := s.largeAt.chunk;
    } else {
      b :| b in Live(s.blocks) && b !in Owned(s) && e == Extent(b.Payload(), b.size);
    }
  }

  /** Live objects never overlap, whichever of the four allocators they came from. */
  lemma ObjectsApart(s: State, e: Extent, f: Extent)
    requires Ok(s) && Object(s, e) && Object(s, f) && e != f
    ensures Apart(e, f)
  {
    if Pooled(s.small, e) && Pooled(s.small, f) {
      PooledApart(s.small, e, f);
    } else if Pooled(s.medium, e) && Pooled(s.medium, f) {
      PooledApart(s.medium, e, f);
    } else if Pooled(s.large, e) && Pooled(s.large, f) {
      PooledApart(s.large, e, f);
    } else {
      var a := Home(s, e);
      var b := Home(s, f);
      LiveApart(s.blocks, a, b);
    }
  }

  /** A handed-out pool block is not also a heap object. */
  lemma OneHome(s: State, e: Extent)
    requires Ok(s) && (Pooled(s.small, e) || Pooled(s.medium, e) || Pooled(s.large, e))
    ensures !Direct(s.blocks, Owned(s), e)
  {
    if Direct(s.blocks, Owned(s), e) {
      var a := Home(s, e);
      var b :| b in Live(s.blocks) && b !in Owned(s) && e == Extent(b.Payload(), b.size);
      LiveApart(s.blocks, a, b);
      assert false;
    }
  }

  // ---- One step ----

  /** A pop hands out exactly one block more; a push takes exactly that one back. */
  lemma Popped(bs: seq<Block>, v: Store, k: Backing, size: u64)
    requires StoreOk(bs, v, k, size) && v.Store? && v.free != []
    ensures StoreOk(bs, Pop(v), k, size)
    ensures Top(v) != 0 ==> Push(Pop(v), Top(v)) == v
    ensures !HandedOut(v, Top(v)) && forall p: int :: HandedOut(Pop(v), p) <==> HandedOut(v, p) || p == Top(v)
  {
    assert v.free == Pop(v).free + [Top(v)];
    assert v.free[|v.free| - 1] == Top(v) && Top(v) in v.free;
  }

  lemma Pushed(bs: seq<Block>, v: Store, k: Backing, size: u64, p: int)
    requires StoreOk(bs, v, k, size)
    ensures StoreOk(bs, Push(v, p), k, size)
    ensures forall q: int :: HandedOut(Push(v, p), q) <==> HandedOut(v, q) && q != p
  {
    if HandedOut(v, p) {
      NotFull(v.free, v.start, v.size, v.total, p);
    }
  }

  /** The start of every pool is the address of a heap payload, so no block of it is at address 0. */
  lemma NoneAtZero(s: State, v: Store, k: Backing, size: u64)
    requires WellFormed(s.blocks) && StoreOk(s.blocks, v, k, size)
    ensures v.Store? && v.free != [] ==> Top(v) != 0
  {
    TiledBounds(s.blocks, HEAP_BASE, HEAP_TOP);
  }

  lemma StoresKept(bs: seq<Block>, cs: seq<Block>, v: Store, k: Backing, size: u64)
    requires StoreOk(bs, v, k, size) && Space(v, k) * Live(bs) <= Live(cs)
    ensures StoreOk(cs, v, k, size)
  {
  }

  lemma DirectGrows(bs: seq<Block>, cs: seq<Block>, owned: set<Block>, b: Block)
    requires Live(cs) == Live(bs) + {b} && b !in owned
    ensures forall e :: Direct(cs, owned, e) <==> Direct(bs, owned, e) || e == Extent(b.Payload(), b.size)
  {
    forall e | e == Extent(b.Payload(), b.size)
      ensures Direct(cs, owned, e)
    {
      assert b in Live(cs);
    }
  }

  lemma OwnedLive(s: State)
    requires Ok(s)
    ensures Owned(s) <= Live(s.blocks)
  {
  }

  /** The object that an allocation grants is new, and the only one that is. */
  ghost predicate Gains(s: State, t: State, e: Extent) {
    && Ok(t) && Owned(t) == Owned(s) && !Object(s, e)
    && forall x :: Object(t, x) <==> Object(s, x) || x == e
  }

  /**
   * smart_alloc grants one object, overlapping no other, and changes no other object; when it
   * returns null it changes none. The object is as large as asked, unless kmalloc's sum wraps.
   */
  lemma SmartAllocGrants(s: State, size: u64) returns (len: int)
    requires Ok(s)
    ensures Address(s, size) == 0 ==> Allocated(s, size) == s
    ensures Address(s, size) != 0 ==>
              && Gains(s, Allocated(s, size), Extent(Address(s, size), len))
              && (size + HEADER + 7 < TWO_64 ==> len >= size)
              && (size <= 256 ==> len == if size <= 16 then 16 else if size <= 64 then 64 else 256)
              && forall e :: Object(s, e) ==> Apart(e, Extent(Address(s, size), len))
  {
    var t, p := Allocated(s, size), Address(s, size);
    if size <= 256 {
      len := PoolGrants(s, size);
    } else {
      len := HeapGrants(s, size);
    }
    if p != 0 {
      GainApart(s, t, Extent(p, len));
    }
  }

  lemma GainApart(s: State, t: State, e: Extent)
    requires Gains(s, t, e)
    ensures forall x :: Object(s, x) ==> Apart(x, e)
  {
    forall x | Object(s, x)
      ensures Apart(x, e)
    {
      ObjectsApart(t, x, e);
    }
  }

  /** kmalloc beside the pools, whatever the size. */
  lemma HeapGrants(s: State, size: u64) returns (len: int)
    requires Ok(s)
    ensures AllocResult(s.blocks, size) == 0 ==> Malloc(s.blocks, size) == s.blocks
    ensures AllocResult(s.blocks, size) != 0 ==>
              && Gains(s, s.(blocks := Malloc(s.blocks, size)), Extent(AllocResult(s.blocks, size), len))
              && (size + HEADER + 7 < TWO_64 ==> len >= size)
  {
    len := 0;
    MallocKeeps(s.blocks, size);
    if AllocResult(s.blocks, size) != 0 {
      var b := GrantedNonzero(s.blocks, size);
      len := b.size;
      OwnedLive(s);
      StoresKept(s.blocks, Malloc(s.blocks, size), s.small, s.smallAt, 16);
      StoresKept(s.blocks, Malloc(s.blocks, size), s.medium, s.mediumAt, 64);
      StoresKept(s.blocks, Malloc(s.blocks, size), s.large, s.largeAt, 256);
      DirectGrows(s.blocks, Malloc(s.blocks, size), Owned(s), b);
      NotBefore(s, s.(blocks := Malloc(s.blocks, size)), b);
    }
  }

  lemma NotBefore(s: State, t: State, b: Block)
    requires Ok(s) && Ok(t) && t == s.(blocks := t.blocks) && b in Live(t.blocks) && b !in Live(s.blocks)
    requires Live(s.blocks) <= Live(t.blocks)
    ensures !Object(s, Extent(b.Payload(), b.size))
  {
    if Object(s, Extent(b.Payload(), b.size)) {
      var a := Home(s, Extent(b.Payload(), b.size));
      LiveApart(t.blocks, a, b);
      TiledBounds(t.blocks, HEAP_BASE, HEAP_TOP);
      assert false;
    }
  }

  lemma SmallGrants(s: State)
    requires Ok(s) && s.small.Store? && s.small.free != []
    ensures Gains(s, s.(small := Pop(s.small)), Extent(Top(s.small), 16))
  {
    var t, e := s.(small := Pop(s.small)), Extent(Top(s.small), 16);
    Popped(s.blocks, s.small, s.smallAt, 16);
    assert Pooled(t.small, e);
    OneHome(t, e);
  }

  lemma MediumGrants(s: State)
    requires Ok(s) && s.medium.Store? && s.medium.free != []
    ensures Gains(s, s.(medium := Pop(s.medium)), Extent(Top(s.medium), 64))
  {
    var t, e := s.(medium := Pop(s.medium)), Extent(Top(s.medium), 64);
    Popped(s.blocks, s.medium, s.mediumAt, 64);
    assert Pooled(t.medium, e);
    OneHome(t, e);
  }

  lemma LargeGrants(s: State)
    requires Ok(s) && s.large.Store? && s.large.free != []
    ensures Gains(s, s.(large := Pop(s.large)), Extent(Top(s.large), 256))
  {
    var t, e := s.(large := Pop(s.large)), Extent(Top(s.large), 256);
    Popped(s.blocks, s.large, s.largeAt, 256);
    assert Pooled(t.large, e);
    OneHome(t, e);
  }

  lemma PoolGrants(s: State, size: u64) returns (len: int)
    requires Ok(s) && size <= 256
    ensures Address(s, size) == 0 ==> Allocated(s, size) == s
    ensures Address(s, size) != 0 ==> len >= size && Gains(s, Allocated(s, size), Extent(Address(s, size), len))
    ensures len == if size <= 16 then 16 else if size <= 64 then 64 else 256
  {
    len := if size <= 16 then 16 else if size <= 64 then 64 else 256;
    if Address(s, size) != 0 {
      if size <= 16 {
        SmallGrants(s);
      } else if size <= 64 {
        MediumGrants(s);
      } else {
        LargeGrants(s);
      }
    } else {
      NoneAtZero(s, s.small, s.smallAt, 16);
      NoneAtZero(s, s.medium, s.mediumAt, 64);
      NoneAtZero(s, s.large, s.largeAt, 256);
    }
  }

  /** The objects a call of smart_free gives up: the one of that size class at that address, if any. */
  ghost predicate GivenUp(s: State, p: int, size: int, e: Extent) {
    && e.addr == p
    && if size <= 16 then Pooled(s.small, e)
       else if size <= 64 then Pooled(s.medium, e)
       else if size <= 256 then Pooled(s.large, e)
       else Direct(s.blocks, Owned(s), e)
  }

  /** smart_free gives up that object and changes no other. */
  lemma SmartFreeReleases(s: State, p: int, size: u64)
    requires Ok(s) && Releasable(s, p, size)
    ensures Ok(Released(s, p, size)) && Owned(Released(s, p, size)) == Owned(s)
    ensures forall e :: Object(Released(s, p, size), e) <==> Object(s, e) && !GivenUp(s, p, size, e)
  {
    if size <= 256 {
      PoolReleases(s, p, size);
    } else {
      HeapReleases(s, p);
    }
  }

  lemma SmallReleases(s: State, p: int)
    requires Ok(s)
    ensures var t := s.(small := Push(s.small, p));
            && Ok(t) && Owned(t) == Owned(s)
            && forall e :: Object(t, e) <==> Object(s, e) && !(e.addr == p && Pooled(s.small, e))
  {
    var t := s.(small := Push(s.small, p));
    Pushed(s.blocks, s.small, s.smallAt, 16, p);
    forall e: Extent | e.addr == p && Pooled(s.small, e)
      ensures !Object(t, e)
    {
      OneHome(s, e);
    }
  }

  lemma MediumReleases(s: State, p: int)
    requires Ok(s)
    ensures var t := s.(medium := Push(s.medium, p));
            && Ok(t) && Owned(t) == Owned(s)
            && forall e :: Object(t, e) <==> Object(s, e) && !(e.addr == p && Pooled(s.medium, e))
  {
    var t := s.(medium := Push(s.medium, p));
    Pushed(s.blocks, s.medium, s.mediumAt, 64, p);
    forall e: Extent | e.addr == p && Pooled(s.medium, e)
      ensures !Object(t, e)
    {
      OneHome(s, e);
    }
  }

  lemma LargeReleases(s: State, p: int)
    requires Ok(s)
    ensures var t := s.(large := Push(s.large, p));
            && Ok(t) && Owned(t) == Owned(s)
            && forall e :: Object(t, e) <==> Object(s, e) && !(e.addr == p && Pooled(s.large, e))
  {
    var t := s.(large := Push(s.large, p));
    Pushed(s.blocks, s.large, s.largeAt, 256, p);
    forall e: Extent | e.addr == p && Pooled(s.large, e)
      ensures !Object(t, e)
    {
      OneHome(s, e);
    }
  }

  lemma PoolReleases(s: State, p: int, size: u64)
    requires Ok(s) && size <= 256
    ensures Ok(Released(s, p, size)) && Owned(Released(s, p, size)) == Owned(s)
    ensures forall e :: Object(Released(s, p, size), e) <==> Object(s, e) && !GivenUp(s, p, size, e)
  {
    if size <= 16 {
      SmallReleases(s, p);
    } else if size <= 64 {
      MediumReleases(s, p);
    } else {
      LargeReleases(s, p);
    }
  }

  /** kfree beside the pools, on null or on a heap object of a caller. */
  lemma HeapReleases(s: State, p: int)
    requires Ok(s) && (p != 0 ==> DirectAt(s, p))
    ensures var t := s.(blocks := Free(s.blocks, p));
            && Ok(t) && Owned(t) == Owned(s)
            && forall e :: Object(t, e) <==> Object(s, e) && !(e.addr == p && Direct(s.blocks, Owned(s), e))
  {
    OwnedLive(s);
    TiledBounds(s.blocks, HEAP_BASE, HEAP_TOP);
    FreeKeeps(s.blocks, p);
    var t := s.(blocks := Free(s.blocks, p));
    if p != 0 {
      var b :| LiveAt(s.blocks, p, b) && b !in Owned(s);
      FindUnique(s.blocks, b);
      assert Live(t.blocks) == Live(s.blocks) - {b};
      StoresKept(s.blocks, t.blocks, s.small, s.smallAt, 16);
      StoresKept(s.blocks, t.blocks, s.medium, s.mediumAt, 64);
      StoresKept(s.blocks, t.blocks, s.large, s.largeAt, 256);
      forall e
        ensures Object(t, e) <==> Object(s, e) && !(e.addr == p && Direct(s.blocks, Owned(s), e))
      {
        DirectShrinks(s.blocks, t.blocks, Owned(s), b, e);
        if Pooled(s.small, e) || Pooled(s.medium, e) || Pooled(s.large, e) {
          OneHome(s, e);
        }
      }
    } else {
      forall e: Extent
        ensures !(e.addr == p && Direct(s.blocks, Owned(s), e))
      {
      }
    }
  }

  lemma DirectShrinks(bs: seq<Block>, cs: seq<Block>, owned: set<Block>, b: Block, e: Extent)
    requires WellFormed(bs) && b in Live(bs) && Live(cs) == Live(bs) - {b} && b !in owned
    ensures Direct(cs, owned, e) <==> Direct(bs, owned, e) && e.addr != b.Payload()
  {
    if Direct(bs, owned, e) {
      var a :| a in Live(bs) && a !in owned && e == Extent(a.Payload(), a.size);
      FindUnique(bs, a);
      FindUnique(bs, b);
    }
  }

  /** smart_free right after smart_alloc, with the same size, restores pools and heap exactly. */
  lemma SmartFreeUndoesSmartAlloc(s: State, size: u64)
    requires Ok(s) && Address(s, size) != 0
    ensures Released(Allocated(s, size), Address(s, size), size) == s
  {
    if size <= 16 {
      Popped(s.blocks, s.small, s.smallAt, 16);
    } else if size <= 64 {
      Popped(s.blocks, s.medium, s.mediumAt, 64);
    } else if size <= 256 {
      Popped(s.blocks, s.large, s.largeAt, 256);
    } else {
      FreeUndoesMalloc(s.blocks, size);
    }
  }

  // ---- Whole runs ----

  /** Calls of the pools' interface, and requests made to the heap directly. */
  datatype Call = SmartAlloc(size: u64) | SmartFree(ptr: u64, size: u64) | Heap(request: Request)

  function After(s: State, c: Call): State {
    match c
    case SmartAlloc(size) => Allocated(s, size)
    case SmartFree(ptr, size) => Released(s, ptr, size)
    case Heap(r) => s.(blocks := Step(s.blocks, r))
  }

  /** The pointer that a call returns. */
  function Result(s: State, c: Call): int {
    match c
    case SmartAlloc(size) => Address(s, size)
    case SmartFree(_, _) => 0
    case Heap(r) =>
      match r
      case Kmalloc(size) => AllocResult(s.blocks, size)
      case Kcalloc(count, size) => AllocResult(s.blocks, count * size % TWO_64)
      case Krealloc(ptr, size) => ReallocResult(s.blocks, ptr, size)
      case Kfree(_) => 0
  }

  /** How many bytes a call asks for. */
  function Asked(c: Call): int {
    match c
    case SmartAlloc(size) => size
    case SmartFree(_, _) => 0
    case Heap(r) =>
      match r
      case Kmalloc(size) => size
      case Kcalloc(count, size) => count * size % TWO_64
      case Krealloc(_, size) => size
      case Kfree(_) => 0
  }

  /** A caller gives back its own pointers, each to the allocator it came from. */
  ghost predicate Allowed(s: State, c: Call) {
    match c
    case SmartAlloc(_) => true
    case SmartFree(ptr, size) => Releasable(s, ptr, size)
    case Heap(r) => Permitted(s.blocks, r) && (Named(r) != 0 ==> DirectAt(s, Named(r)))
  }

  /** The pointer that a request names, 0 for none. */
  function Named(r: Request): int {
    match r
    case Kmalloc(_) => 0
    case Kcalloc(_, _) => 0
    case Krealloc(ptr, _) => ptr
    case Kfree(ptr) => ptr
  }

  /** krealloc leaves the object where it is: it is large enough, or there is no room for a larger one. */
  predicate Kept(bs: seq<Block>, ptr: int, size: u64) {
    size != 0 && (ReallocResult(bs, ptr, size) == ptr || ReallocResult(bs, ptr, size) == 0)
  }

  /** The objects that a call gives up. */
  ghost predicate Loses(s: State, c: Call, e: Extent) {
    match c
    case SmartAlloc(_) => false
    case SmartFree(ptr, size) => GivenUp(s, ptr, size, e)
    case Heap(r) =>
      && e.addr == Named(r) && Direct(s.blocks, Owned(s), e)
      && (r.Krealloc? ==> !Kept(s.blocks, r.ptr, r.size))
  }

  /** The pointer that a call returns is to a new object, not to one that krealloc left in place. */
  predicate Grants(s: State, c: Call) {
    Result(s, c) != 0 && !(c.Heap? && c.request.Krealloc? && Result(s, c) == c.request.ptr)
  }

  /** What every call does to the objects: it takes those away that it gives up, and adds the one it grants. */
  ghost predicate Exchanges(s: State, c: Call, len: int) {
    var t, new_ := After(s, c), Extent(Result(s, c), len);
    && Ok(t) && Owned(t) == Owned(s)
    && (Grants(s, c) ==> !Object(s, new_) && (Asked(c) + HEADER + 7 < TWO_64 ==> len >= Asked(c)))
    && forall e :: Object(t, e) <==> (Object(s, e) && !Loses(s, c, e)) || (Grants(s, c) && e == new_)
  }

  lemma CallExchanges(s: State, c: Call) returns (len: int)
    requires Ok(s) && Allowed(s, c)
    ensures Exchanges(s, c, len)
  {
    len := 0;
    match c
    case SmartAlloc(size) =>
      len := SmartAllocGrants(s, size);
    case SmartFree(ptr, size) =>
      SmartFreeReleases(s, ptr, size);
    case Heap(r) =>
      len := RequestExchanges(s, r);
  }

  lemma RequestExchanges(s: State, r: Request) returns (len: int)
    requires Ok(s) && Allowed(s, Heap(r))
    ensures Exchanges(s, Heap(r), len)
  {
    len := 0;
    NullIsNone(s);
    match r
    case Kmalloc(size) =>
      len := HeapGrants(s, size);
    case Kcalloc(count, size) =>
      len := HeapGrants(s, count * size % TWO_64);
    case Kfree(ptr) =>
      HeapReleases(s, ptr);
    case Krealloc(ptr, size) =>
      if ptr == 0 {
        len := HeapGrants(s, size);
      } else {
        len := ReallocExchanges(s, ptr, size);
      }
  }

  /** No heap object is at address 0. */
  lemma NullIsNone(s: State)
    requires Ok(s)
    ensures forall e :: Direct(s.blocks, Owned(s), e) ==> e.addr != 0
  {
    TiledBounds(s.blocks, HEAP_BASE, HEAP_TOP);
  }

  /** krealloc of an object: nothing, a release, or an allocation followed by a release. */
  lemma ReallocExchanges(s: State, ptr: int, size: u64) returns (len: int)
    requires Ok(s) && Allowed(s, Heap(Krealloc(ptr, size))) && ptr != 0
    ensures Exchanges(s, Heap(Krealloc(ptr, size)), len)
  {
    len := 0;
    var r := ReallocResult(s.blocks, ptr, size);
    if size == 0 {
      HeapReleases(s, ptr);
    } else if r != ptr && r != 0 {
      len := MoveExchanges(s, ptr, size);
    } else {
      NotReturned(s, ptr, size);
    }
  }

  lemma MoveExchanges(s: State, ptr: int, size: u64) returns (len: int)
    requires Ok(s) && DirectAt(s, ptr) && ptr != 0
    requires AllocResult(s.blocks, size) != 0 && AllocResult(s.blocks, size) != ptr
    ensures var t, new_ := s.(blocks := Free(Malloc(s.blocks, size), ptr)), Extent(AllocResult(s.blocks, size), len);
            && Ok(t) && Owned(t) == Owned(s) && !Object(s, new_) && (size + HEADER + 7 < TWO_64 ==> len >= size)
            && forall e :: Object(t, e) <==>
                 (Object(s, e) && !(e.addr == ptr && Direct(s.blocks, Owned(s), e))) || e == new_
  {
    len := HeapGrants(s, size);
    var m := s.(blocks := Malloc(s.blocks, size));
    SameThere(s, m, ptr, size);
    HeapReleases(m, ptr);
  }

  /** The object at `ptr` is still there after a block was granted elsewhere. */
  lemma SameThere(s: State, m: State, ptr: int, size: u64)
    requires Ok(s) && DirectAt(s, ptr) && m == s.(blocks := Malloc(s.blocks, size))
    requires AllocResult(s.blocks, size) != 0 && AllocResult(s.blocks, size) != ptr
    ensures DirectAt(m, ptr)
    ensures forall e: Extent :: e.addr == ptr ==> (Direct(m.blocks, Owned(m), e) <==> Direct(s.blocks, Owned(s), e))
  {
    var b :| LiveAt(s.blocks, ptr, b) && b !in Owned(s);
    var g := GrantedNonzero(s.blocks, size);
    assert LiveAt(m.blocks, ptr, b) && b !in Owned(m);
    OwnedLive(s);
    DirectGrows(s.blocks, m.blocks, Owned(s), g);
  }

  /** kmalloc never returns the address of an object. */
  lemma NotReturned(s: State, ptr: int, size: u64)
    requires Ok(s) && DirectAt(s, ptr)
    ensures AllocResult(s.blocks, size) != 0 ==> AllocResult(s.blocks, size) != ptr
  {
    if AllocResult(s.blocks, size) != 0 {
      var b :| LiveAt(s.blocks, ptr, b) && b !in Owned(s);
      var g := GrantedNonzero(s.blocks, size);
      MallocKeeps(s.blocks, size);
      assert b in Live(Malloc(s.blocks, size));
      if AllocResult(s.blocks, size) == ptr {
        FindUnique(Malloc(s.blocks, size), b);
        FindUnique(Malloc(s.blocks, size), g);
      }
    }
  }

  /** The states along a run. */
  ghost predicate Trace(ss: seq<State>, cs: seq<Call>) {
    |ss| == |cs| + 1 && forall i :: 0 <= i < |cs| ==> Allowed(ss[i], cs[i]) && ss[i + 1] == After(ss[i], cs[i])
  }

  lemma ObjectStays(ss: seq<State>, cs: seq<Call>, n: nat, e: Extent)
    requires Trace(ss, cs) && n < |cs| && Ok(ss[n])
    ensures Ok(ss[n + 1]) && (Object(ss[n], e) && !Loses(ss[n], cs[n], e) ==> Object(ss[n + 1], e))
  {
    var s, c := ss[n], cs[n];
    assert Allowed(s, c) && ss[n + 1] == After(s, c);
    var _ := CallExchanges(s, c);
  }

  /** None of the first `n` calls gives up the object. */
  ghost predicate Spared(ss: seq<State>, cs: seq<Call>, n: nat, e: Extent)
    requires Trace(ss, cs) && n <= |cs|
  {
    forall i :: 0 <= i < n ==> !Loses(ss[i], cs[i], e)
  }

  lemma {:induction false} ObjectSurvives(ss: seq<State>, cs: seq<Call>, n: nat, e: Extent)
    requires Trace(ss, cs) && n <= |cs| && Ok(ss[0])
    ensures Ok(ss[n]) && (Object(ss[0], e) && Spared(ss, cs, n, e) ==> Object(ss[n], e))
    decreases n
  {
    if n > 0 {
      ObjectSurvives(ss, cs, n - 1, e);
      ObjectStays(ss, cs, n - 1, e);
    }
  }

  /**
   * In every run of smart_alloc, smart_free, kmalloc, kcalloc, krealloc and kfree, in any order,
   * no two live objects ever overlap, and an object stays live, unmoved, through any calls that
   * do not give it up.
   */
  lemma EverySmartRun(ss: seq<State>, cs: seq<Call>, n: nat, e: Extent, f: Extent)
    requires Trace(ss, cs) && n <= |cs| && Ok(ss[0])
    ensures Ok(ss[n])
    ensures Object(ss[n], e) && Object(ss[n], f) && e != f ==> Apart(e, f)
    ensures Object(ss[0], e) && Spared(ss, cs, n, e) ==> Object(ss[n], e)
  {
    ObjectSurvives(ss, cs, n, e);
    if Object(ss[n], e) && Object(ss[n], f) && e != f {
      ObjectsApart(ss[n], e, f);
    }
  }

  // ---- The globals of memory_pool.c ----

  /** The Dafny objects a pool consists of. */
  ghost function Parts(pool: MemoryPool?): set<object> {
    if pool == null then {} else {pool, pool.freeList}
  }

  ghost function View(pool: MemoryPool?): Store
    reads Parts(pool)
  {
    if pool == null then NoPool
    else Store(pool.self, pool.poolStart, pool.listAt, pool.blockSize, pool.totalBlocks, pool.Free())
  }

  ghost predicate PoolOk(pool: MemoryPool?)
    reads Parts(pool)
  {
    pool != null ==> pool.Valid()
  }

  /** Two pools that are not one object and keep their free lists in different arrays. */
  ghost predicate Unshared(p: MemoryPool?, q: MemoryPool?) {
    p != null && q != null ==> p != q && p.freeList != q.freeList
  }

  class SmartAllocator {
    const heap: KH.KernelHeap
    var small: MemoryPool?
    var medium: MemoryPool?
    var large: MemoryPool?
    ghost var smallAt: Backing
    ghost var mediumAt: Backing
    ghost var largeAt: Backing

    ghost function PoolFrame(): set<object>
      reads this
    {
      Parts(small) + Parts(medium) + Parts(large)
    }

    ghost function Contents(): State
      reads this, heap, PoolFrame()
    {
      State(heap.blocks, View(small), View(medium), View(large), smallAt, mediumAt, largeAt)
    }

    /** The objects are in good order and share nothing. */
    ghost predicate Framed()
      reads this, heap, heap.mem, PoolFrame()
    {
      && heap.Valid()
      && Unshared(small, medium) && Unshared(small, large) && Unshared(medium, large)
      && PoolOk(small) && PoolOk(medium) && PoolOk(large)
    }

    ghost predicate Valid()
      reads this, heap, heap.mem, PoolFrame()
    {
      Framed() && Ok(Contents())
    }

    /** The heap of heap_init, before the pools exist. */
    constructor ()
      ensures Valid() && fresh(heap) && fresh(heap.mem)
      ensures small == null && medium == null && large == null && heap.blocks == INITIAL
    {
      heap := new KH.KernelHeap();
      small, medium, large := null, null, null;
      new;
      InitialWellFormed();
    }

    /**
     * init_memory_pools, on a heap without allocations: all three pools exist and are full, one
     * behind the other from the start of the heap on. The callers own nothing, and what the heap
     * has allocated are the pools.
     */
    method InitMemoryPools()
      requires Valid() && small == null && medium == null && large == null && Live(heap.blocks) == {}
      modifies this, heap, heap.mem
      ensures Valid() && Live(heap.blocks) == Owned(Contents())
      ensures (forall e :: !Object(Contents(), e)) && AllStocked(Contents())
    {
      var s, m, l, c := CreatePools(heap);
      Install(s, m, l, c);
    }

    method Install(s: MemoryPool?, m: MemoryPool?, l: MemoryPool?, ghost c: State)
      requires heap.Valid() && PoolOk(s) && PoolOk(m) && PoolOk(l)
      requires Unshared(s, m) && Unshared(s, l) && Unshared(m, l)
      requires c == State(heap.blocks, View(s), View(m), View(l), c.smallAt, c.mediumAt, c.largeAt)
      modifies this
      ensures Framed() && Contents() == c
    {
      small, smallAt := s, c.smallAt;
      medium, mediumAt := m, c.mediumAt;
      large, largeAt := l, c.largeAt;
    }

    /** smart_alloc */
    method SmartAlloc(size: u64) returns (p: u64)
      requires Valid()
      modifies this, heap, heap.mem, PoolFrame()
      ensures Valid()
      ensures p == Address(old(Contents()), size) && Contents() == Allocated(old(Contents()), size)
      ensures PayloadsSame(old(heap.blocks), old(heap.mem[..]), heap.mem[..])
    {
      ghost var _ := SmartAllocGrants(Contents(), size);
      p := Dispatch(size);
    }

    /** pool_alloc_small */
    method PoolAllocSmall() returns (p: u64)
      requires Framed()
      modifies small
      ensures Framed()
      ensures p == Top(old(View(small))) && Contents() == old(Contents()).(small := Pop(old(View(small))))
    {
      p := PoolTake(small);
    }

    /** pool_alloc_medium */
    method PoolAllocMedium() returns (p: u64)
      requires Framed()
      modifies medium
      ensures Framed()
      ensures p == Top(old(View(medium))) && Contents() == old(Contents()).(medium := Pop(old(View(medium))))
    {
      p := PoolTake(medium);
    }

    /** pool_alloc_large */
    method PoolAllocLarge() returns (p: u64)
      requires Framed()
      modifies large
      ensures Framed()
      ensures p == Top(old(View(large))) && Contents() == old(Contents()).(large := Pop(old(View(large))))
    {
      p := PoolTake(large);
    }

    method Dispatch(size: u64) returns (p: u64)
      requires Framed()
      modifies heap, heap.mem, PoolFrame()
      ensures Framed()
      ensures p == Address(old(Contents()), size) && Contents() == Allocated(old(Contents()), size)
      ensures PayloadsSame(old(heap.blocks), old(heap.mem[..]), heap.mem[..])
    {
      if size <= 16 {
        p := PoolAllocSmall();
      } else if size <= 64 {
        p := PoolAllocMedium();
      } else if size <= 256 {
        p := PoolAllocLarge();
      } else {
        p := heap.Kmalloc(size);
      }
    }

    /** pool_free_small */
    method PoolFreeSmall(ptr: u64)
      requires Framed()
      modifies Parts(small)
      ensures Framed() && heap.mem[..] == old(heap.mem[..])
      ensures Contents() == old(Contents()).(small := Push(old(View(small)), ptr))
    {
      PoolGive(small, ptr);
    }

    /** pool_free_medium */
    method PoolFreeMedium(ptr: u64)
      requires Framed()
      modifies Parts(medium)
      ensures Framed() && heap.mem[..] == old(heap.mem[..])
      ensures Contents() == old(Contents()).(medium := Push(old(View(medium)), ptr))
    {
      PoolGive(medium, ptr);
    }

    /** pool_free_large */
    method PoolFreeLarge(ptr: u64)
      requires Framed()
      modifies Parts(large)
      ensures Framed() && heap.mem[..] == old(heap.mem[..])
      ensures Contents() == old(Contents()).(large := Push(old(View(large)), ptr))
    {
      PoolGive(large, ptr);
    }

    /** smart_free */
    method SmartFree(ptr: u64, size: u64)
      requires Valid() && Releasable(Contents(), ptr, size)
      modifies this, heap, heap.mem, PoolFrame()
      ensures Valid()
      ensures Contents() == Released(old(Contents()), ptr, size)
      ensures PayloadsSame(heap.blocks, old(heap.mem[..]), heap.mem[..])
    {
      SmartFreeReleases(Contents(), ptr, size);
      KnownToHeap(Contents(), ptr, size);
      Undispatch(ptr, size);
    }

    method Undispatch(ptr: u64, size: u64)
      requires Framed() && (size > 256 ==> Known(heap.blocks, ptr))
      modifies heap, heap.mem, PoolFrame()
      ensures Framed()
      ensures Contents() == Released(old(Contents()), ptr, size)
      ensures PayloadsSame(heap.blocks, old(heap.mem[..]), heap.mem[..])
    {
      ghost var s, m := Contents(), heap.mem[..];
      if size <= 256 {
        PoolRelease(ptr, size);
        SamePayloads(heap.blocks, m);
      } else {
        HeapRelease(ptr);
        assert Released(s, ptr, size) == s.(blocks := Free(s.blocks, ptr));
      }
    }

    method PoolRelease(ptr: u64, size: u64)
      requires Framed() && size <= 256
      modifies PoolFrame()
      ensures Framed() && heap.mem[..] == old(heap.mem[..])
      ensures Contents() == Released(old(Contents()), ptr, size)
    {
      if size <= 16 {
        PoolFreeSmall(ptr);
      } else if size <= 64 {
        PoolFreeMedium(ptr);
      } else {
        PoolFreeLarge(ptr);
      }
    }

    method HeapRelease(ptr: u64)
      requires Framed() && Known(heap.blocks, ptr)
      modifies heap, heap.mem
      ensures Framed()
      ensures Contents() == old(Contents()).(blocks := Free(old(Contents()).blocks, ptr))
      ensures PayloadsSame(heap.blocks, old(heap.mem[..]), heap.mem[..])
    {
      heap.Kfree(ptr);
    }
  }

  lemma SamePayloads(bs: seq<Block>, m: seq<u8>)
    ensures PayloadsSame(bs, m, m)
  {
  }

  lemma KnownToHeap(s: State, p: int, size: u64)
    requires Ok(s) && Releasable(s, p, size)
    ensures size > 256 ==> Known(s.blocks, p)
  {
    if p != 0 && size > 256 {
      var b :| LiveAt(s.blocks, p, b) && b !in Owned(s);
      FindUnique(s.blocks, b);
    }
  }

  /** pool_alloc, on a pool that may be null. */
  method PoolTake(pool: MemoryPool?) returns (p: u64)
    requires PoolOk(pool)
    modifies pool
    ensures PoolOk(pool) && View(pool) == Pop(old(View(pool))) && p == Top(old(View(pool)))
  {
    if pool == null {
      return 0;
    }
    p := pool.PoolAlloc();
  }

  /** pool_free, on a pool that may be null. */
  method PoolGive(pool: MemoryPool?, ptr: u64)
    requires PoolOk(pool)
    modifies Parts(pool)
    ensures PoolOk(pool) && View(pool) == Push(old(View(pool)), ptr)
  {
    if pool != null {
      pool.PoolFree(ptr);
    }
  }

  lemma StackFull(v: Store, e: Extent)
    requires v.Store? ==> 0 < v.size && |v.free| == v.total && Stack(v.free, v.start, v.size, v.total)
    ensures !Pooled(v, e)
  {
    if Pooled(v, e) {
      NotFull(v.free, v.start, v.size, v.total, e.addr);
    }
  }

  /** What creating a pool did to the heap: its blocks are new, and nothing was taken from it. */
  ghost predicate Grown(bs: seq<Block>, cs: seq<Block>, v: Store, k: Backing, size: u64) {
    && StoreOk(cs, v, k, size) && (v.Store? ==> |v.free| == v.total)
    && Live(cs) == Live(bs) + Space(v, k) && Space(v, k) !! Live(bs)
  }

  lemma ThreePools(b0: seq<Block>, b1: seq<Block>, b2: seq<Block>, s: State)
    requires Live(b0) == {} && WellFormed(s.blocks)
    requires Grown(b0, b1, s.small, s.smallAt, 16) && Grown(b1, b2, s.medium, s.mediumAt, 64)
    requires Grown(b2, s.blocks, s.large, s.largeAt, 256)
    ensures Ok(s) && Live(s.blocks) == Owned(s)
  {
    StoresKept(b1, s.blocks, s.small, s.smallAt, 16);
    StoresKept(b2, s.blocks, s.medium, s.mediumAt, 64);
  }

  lemma NothingOut(b0: seq<Block>, b1: seq<Block>, b2: seq<Block>, s: State)
    requires Live(b0) == {} && Live(s.blocks) == Owned(s)
    requires Grown(b0, b1, s.small, s.smallAt, 16) && Grown(b1, b2, s.medium, s.mediumAt, 64)
    requires Grown(b2, s.blocks, s.large, s.largeAt, 256)
    ensures forall e :: !Object(s, e)
  {
    forall e
      ensures !Pooled(s.small, e) && !Pooled(s.medium, e) && !Pooled(s.large, e)
    {
      StackFull(s.small, e);
      StackFull(s.medium, e);
      StackFull(s.large, e);
    }
  }

  /** A pool of `total` blocks of `size` bytes from address `start` on, all of them free, the last on top. */
  ghost predicate Stocked(v: Store, start: int, size: int, total: int) {
    && v.Store? && v.start == start && v.size == size && v.total == total && |v.free| == total
    && forall i :: 0 <= i < total ==> v.free[i] == BlockAddress(start, size, i)
  }

  /** The three pools of init_memory_pools, and the heap that holds them and nothing else. */
  ghost predicate AllStocked(s: State) {
    && s.blocks == PoolLayout.POOLED
    && Stocked(s.small, 0x100_0088, 16, 1024)
    && Stocked(s.medium, 0x100_6170, 64, 512)
    && Stocked(s.large, 0x100_F258, 256, 128)
  }

  /** The callers own nothing, and what the heap has allocated are the three pools, all of them full. */
  ghost predicate Untouched(s: State) {
    Live(s.blocks) == Owned(s) && (forall e :: !Object(s, e)) && AllStocked(s)
  }

  /** All blocks of the pool are free, the last on top. */
  ghost predicate Full(pool: MemoryPool, size: u64, count: u64)
    reads pool, pool.freeList
  {
    && pool.Valid() && pool.Ascending() && pool.freeBlocks == pool.totalBlocks
    && pool.blockSize == size && pool.totalBlocks == count
  }

  /** The pool is made where the three allocations are known to lie. */
  lemma PoolMade(b0: seq<Block>, b1: seq<Block>, c1: seq<Block>, pool: MemoryPool?, size: u64, count: u64,
                 self: u64, start: u64, list: u64)
    requires size != 0 && count != 0 && (pool == null ==> !Creates(b0, size, count))
    requires Taken(b0, c1, Bytes(count, size), Bytes(count, POINTER_SIZE), self, start, list)
    requires pool != null ==> Full(pool, size, count) && TakenFor(b0, b1, pool)
    ensures pool != null && b1 == c1 && Stocked(View(pool), start, size, count)
  {
    TakenIsGranted(b0, c1, size, count, self, start, list);
  }

  lemma PlainSizes(bs: seq<Block>, size: u64, count: u64)
    requires count * size + HEADER + 7 < TWO_64 && count * POINTER_SIZE + HEADER + 7 < TWO_64
    ensures Sized(bs, size, count)
  {
  }

  lemma PoolGrown(b0: seq<Block>, b1: seq<Block>, pool: MemoryPool, k: Backing, size: u64, count: u64)
    requires Full(pool, size, count) && Backed(b1, pool, k)
    requires Live(b1) == Live(b0) + k.All() && k.All() !! Live(b0)
    ensures Grown(b0, b1, View(pool), k, size)
  {
  }

  /** pool_create, with sizes that do not wrap. */
  method NewPool(h: KH.KernelHeap, size: u64, count: u64) returns (pool: MemoryPool?, ghost k: Backing)
    requires h.Valid() && size != 0 && count != 0 && Sized(h.blocks, size, count)
    modifies h, h.mem
    ensures h.Valid() && (pool == null ==> !Creates(old(h.blocks), size, count))
    ensures pool != null ==>
              && fresh(pool) && fresh(pool.freeList) && Full(pool, size, count)
              && TakenFor(old(h.blocks), h.blocks, pool)
              && Grown(old(h.blocks), h.blocks, View(pool), k, size)
  {
    ghost var bs := h.blocks;
    pool, k := PoolCreate(h, size, count);
    if pool != null {
      PoolGrown(bs, h.blocks, pool, k, size, count);
    }
  }

  /** One of the three calls of init_memory_pools, whose allocations lead to the heap `c`, with the pool at `start`. */
  method InitPool(h: KH.KernelHeap, size: u64, count: u64, ghost c: seq<Block>, ghost self: u64, ghost start: u64,
      ghost list: u64)
    returns (pool: MemoryPool, ghost k: Backing)
    requires h.Valid() && count * size + HEADER + 7 < TWO_64 && count * POINTER_SIZE + HEADER + 7 < TWO_64
    requires size != 0 && count != 0
    requires Taken(h.blocks, c, Bytes(count, size), Bytes(count, POINTER_SIZE), self, start, list)
    modifies h, h.mem
    ensures h.Valid() && pool.Valid() && fresh(pool) && fresh(pool.freeList)
    ensures Grown(old(h.blocks), h.blocks, View(pool), k, size)
    ensures h.blocks == c && Stocked(View(pool), start, size, count)
  {
    ghost var bs := h.blocks;
    PlainSizes(bs, size, count);
    var made;
    made, k := NewPool(h, size, count);
    PoolMade(bs, h.blocks, c, made, size, count, self, start, list);
    pool := made;
  }

  method InitSmall(h: KH.KernelHeap) returns (pool: MemoryPool, ghost k: Backing)
    requires h.Valid() && h.blocks == INITIAL
    modifies h, h.mem
    ensures h.Valid() && pool.Valid() && fresh(pool) && fresh(pool.freeList)
    ensures Grown(old(h.blocks), h.blocks, View(pool), k, 16)
    ensures h.blocks == PoolLayout.SMALL && Stocked(View(pool), 0x100_0088, 16, 1024)
  {
    PoolLayout.FirstPool();
    pool, k := InitPool(h, 16, 1024, PoolLayout.SMALL, 0x100_0020, 0x100_0088, 0x100_40C8);
  }

  method InitMedium(h: KH.KernelHeap) returns (pool: MemoryPool, ghost k: Backing)
    requires h.Valid() && h.blocks == PoolLayout.SMALL
    modifies h, h.mem
    ensures h.Valid() && pool.Valid() && fresh(pool) && fresh(pool.freeList)
    ensures Grown(old(h.blocks), h.blocks, View(pool), k, 64)
    ensures h.blocks == PoolLayout.MEDIUM && Stocked(View(pool), 0x100_6170, 64, 512)
  {
    PoolLayout.SecondPool();
    pool, k := InitPool(h, 64, 512, PoolLayout.MEDIUM, 0x100_6108, 0x100_6170, 0x100_E1B0);
  }

  method InitLarge(h: KH.KernelHeap) returns (pool: MemoryPool, ghost k: Backing)
    requires h.Valid() && h.blocks == PoolLayout.MEDIUM
    modifies h, h.mem
    ensures h.Valid() && pool.Valid() && fresh(pool) && fresh(pool.freeList)
    ensures Grown(old(h.blocks), h.blocks, View(pool), k, 256)
    ensures h.blocks == PoolLayout.POOLED && Stocked(View(pool), 0x100_F258, 256, 128)
  {
    PoolLayout.ThirdPool();
    pool, k := InitPool(h, 256, 128, PoolLayout.POOLED, 0x100_F1F0, 0x100_F258, 0x101_7298);
  }

  /** The first two of them. */
  method CreateTwo(h: KH.KernelHeap)
    returns (s: MemoryPool, m: MemoryPool, ghost sk: Backing, ghost mk: Backing, ghost b1: seq<Block>)
    requires h.Valid() && h.blocks == INITIAL
    modifies h, h.mem
    ensures h.Valid() && s.Valid() && m.Valid() && Unshared(s, m)
    ensures fresh(s) && fresh(s.freeList) && fresh(m) && fresh(m.freeList)
    ensures Grown(old(h.blocks), b1, View(s), sk, 16) && Grown(b1, h.blocks, View(m), mk, 64)
    ensures h.blocks == PoolLayout.MEDIUM
    ensures Stocked(View(s), 0x100_0088, 16, 1024) && Stocked(View(m), 0x100_6170, 64, 512)
  {
    s, sk := InitSmall(h);
    ghost var vs := View(s);
    b1 := h.blocks;
    m, mk := InitMedium(h);
    assert View(s) == vs;
  }

  /** The third, beside the first two. */
  method CreateThird(h: KH.KernelHeap, s: MemoryPool, m: MemoryPool) returns (l: MemoryPool, ghost k: Backing)
    requires h.Valid() && h.blocks == PoolLayout.MEDIUM && s.Valid() && m.Valid()
    modifies h, h.mem
    ensures h.Valid() && s.Valid() && m.Valid() && l.Valid() && fresh(l) && fresh(l.freeList)
    ensures View(s) == old(View(s)) && View(m) == old(View(m)) && Unshared(s, l) && Unshared(m, l)
    ensures Grown(old(h.blocks), h.blocks, View(l), k, 256)
    ensures h.blocks == PoolLayout.POOLED && Stocked(View(l), 0x100_F258, 256, 128)
  {
    l, k := InitLarge(h);
  }

  /** The three calls of init_memory_pools. */
  method CreatePools(h: KH.KernelHeap)
    returns (s: MemoryPool, m: MemoryPool, l: MemoryPool, ghost c: State)
    requires h.Valid() && Live(h.blocks) == {}
    modifies h, h.mem
    ensures h.Valid() && s.Valid() && m.Valid() && l.Valid()
    ensures fresh(s) && fresh(s.freeList) && fresh(m) && fresh(m.freeList) && fresh(l) && fresh(l.freeList)
    ensures Unshared(s, m) && Unshared(s, l) && Unshared(m, l)
    ensures c == State(h.blocks, View(s), View(m), View(l), c.smallAt, c.mediumAt, c.largeAt)
    ensures Ok(c) && Untouched(c)
  {
    ghost var sk, mk, lk, b1;
    ghost var b0 := h.blocks;
    PoolLayout.EmptyHeap(b0);
    s, m, sk, mk, b1 := CreateTwo(h);
    ghost var b2 := h.blocks;
    l, lk := CreateThird(h, s, m);
    c := State(h.blocks, View(s), View(m), View(l), sk, mk, lk);
    AllThree(b0, b1, b2, c);
  }

  lemma AllThree(b0: seq<Block>, b1: seq<Block>, b2: seq<Block>, s: State)
    requires Live(b0) == {} && WellFormed(s.blocks) && s.blocks == PoolLayout.POOLED
    requires Grown(b0, b1, s.small, s.smallAt, 16) && Grown(b1, b2, s.medium, s.mediumAt, 64)
    requires Grown(b2, s.blocks, s.large, s.largeAt, 256)
    requires Stocked(s.small, 0x100_0088, 16, 1024) && Stocked(s.medium, 0x100_6170, 64, 512)
    requires Stocked(s.large, 0x100_F258, 256, 128)
    ensures Ok(s) && Untouched(s)
  {
    ThreePools(b0, b1, b2, s);
    NothingOut(b0, b1, b2, s);
  }
}
