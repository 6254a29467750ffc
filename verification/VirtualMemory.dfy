/** vm_map_page, vm_unmap_page and vm_get_physical_addr on page tables in physical memory. */
module VirtualMemory {
  import opened Machine
  import opened Wrappers
  import opened PageFrames
  import opened PageTables
  import opened PageAccess

  /** The 36-bit virtual page number; the walk ignores the upper sixteen address bits. */
  function PageOf(va: u64): (v: nat)
    ensures v < VPNS
  {
    va / 4096 % VPNS
  }

  /** The four shifts and masks of the C code are the indices of the walk. */
  lemma IndexBits(va: u64)
    ensures va / 0x80_0000_0000 % 512 == Index(PageOf(va), 3)
    ensures va / 0x4000_0000 % 512 == Index(PageOf(va), 2)
    ensures va / 0x20_0000 % 512 == Index(PageOf(va), 1)
    ensures va / 0x1000 % 512 == Index(PageOf(va), 0)
  {
    var n := va / 4096;
    IndexValues(n % VPNS);
    assert va / 0x20_0000 == n / 512 && va / 0x4000_0000 == n / 0x4_0000 && va / 0x80_0000_0000 == n / 0x800_0000;
    LowDigits(n);
  }

  lemma LowDigits(n: nat)
    ensures n % VPNS % 512 == n % 512
    ensures n % VPNS / 512 % 512 == n / 512 % 512
    ensures n % VPNS / 0x4_0000 % 512 == n / 0x4_0000 % 512
    ensures n % VPNS / 0x800_0000 % 512 == n / 0x800_0000 % 512
  {
    var h, r := n / VPNS, n % VPNS;
    assert n == h * VPNS + r;
    Digit(n, h, r, 1, VPNS / 512);
    Digit(n, h, r, 512, VPNS / 0x4_0000);
    Digit(n, h, r, 0x4_0000, 0x4_0000 / 512);
    Digit(n, h, r, 0x800_0000, 1);
  }

  lemma Digit(n: nat, h: nat, r: nat, d: nat, q: nat)
    requires d > 0 && n == h * (512 * d * q) + r
    ensures n / d % 512 == r / d % 512
  {
    assert n == d * (512 * (h * q)) + r;
    DivShift(d, 512 * (h * q), r);
    ModShift(512, h * q, r / d);
  }

  lemma DivShift(d: nat, x: nat, r: nat)
    requires d > 0
    ensures (d * x + r) / d == x + r / d
  {
    DivUnique(d * x + r, d, x + r / d, r % d);
  }

  /** The frame of the machine's memory that page `v` is mapped to, if it is. */
  function FrameOf(m: seq<u64>, root: int, total: nat, v: nat): Option<nat> {
    match Translate(m, root, v)
    case Some(f) => if f < total then Some(f) else None
    case None => None
  }

  /**
   * Who owns which frame: a mapped frame of the machine's memory is neither a page table nor
   * free, and is mapped at one page only. Pages mapped to device memory are not restricted.
   */
  ghost predicate Owned(m: seq<u64>, tr: Tree, free: seq<nat>, total: nat) {
    && (forall v: nat :: v < VPNS && FrameOf(m, tr.root, total, v).Some? ==>
          var f := FrameOf(m, tr.root, total, v).value; f !in tr.level && f !in free)
    && (forall v: nat, w: nat :: v < w < VPNS && FrameOf(m, tr.root, total, v).Some? ==>
          FrameOf(m, tr.root, total, v) != FrameOf(m, tr.root, total, w))
  }

  /** The tree only gained tables, and every frame that left the free list became one. */
  ghost predicate Grown(tr: Tree, tw: Tree, free: seq<nat>, left: seq<nat>) {
    && tw.root == tr.root
    && (forall t :: t in tr.level ==> t in tw.level && tw.level[t] == tr.level[t])
    && (forall f :: f in left ==> f in free)
    && (forall f :: f in free ==> f in left || f in tw.level)
    && (forall t :: t in tw.level ==> t in tr.level || t in free)
  }

  /** The record of an entry's address is that of its target. */
  lemma FrameFound(fs: seq<PageFrame>, e: u64, f: Option<nat>)
    requires forall i :: 0 <= i < |fs| ==> fs[i].physicalAddr == i * PAGE_SIZE
    requires f.Some? ==> f.value < |fs| && fs[f.value].physicalAddr == e - e % 4096
    requires f == None ==> forall i :: 0 <= i < |fs| ==> fs[i].physicalAddr != e - e % 4096
    ensures f == if Target(e) < |fs| then Some(Target(e)) else None
  {
    var t := Target(e);
    assert e - e % 4096 == t * PAGE_SIZE;
    if t < |fs| {
      assert fs[t].physicalAddr == t * PAGE_SIZE;
    }
  }

  /** Frames that became tables are in use once; all other records are as they were. */
  ghost predicate Taken(fs: seq<PageFrame>, gs: seq<PageFrame>, tr: Tree, tw: Tree) {
    && |gs| == |fs|
    && forall i :: 0 <= i < |fs| ==>
         gs[i] == if i in tw.level && i !in tr.level then PageFrame(None, i * PAGE_SIZE, 1, false) else fs[i]
  }

  lemma TakenTwice(fs: seq<PageFrame>, gs: seq<PageFrame>, hs: seq<PageFrame>, ta: Tree, tb: Tree, tc: Tree)
    requires Taken(fs, gs, ta, tb) && Taken(gs, hs, tb, tc)
    requires forall t :: t in ta.level ==> t in tb.level
    requires forall t :: t in tb.level ==> t in tc.level
    ensures Taken(fs, hs, ta, tc)
  {
  }

  /** Every page translates in `m` as in `was`. */
  ghost predicate SamePages(was: seq<u64>, m: seq<u64>, root: int) {
    forall v: nat :: v < VPNS ==> Translate(m, root, v) == Translate(was, root, v)
  }

  lemma Descended(m: seq<u64>, w: seq<u64>, tr: Tree, t: nat, i: nat, c: nat, e: u64, vpn: nat)
    requires TreeOk(m, tr) && t in tr.level && tr.level[t] > 0 && i == Index(vpn, tr.level[t])
    requires TableAt(m, tr.root, vpn, 3, tr.level[t]) == Some(t) && c !in tr.level
    requires TableAdded(m, w, t, i, c, e) && !Present(Entry(m, t, i)) && e == c * 4096 + 3
    ensures TreeOk(w, WithTable(tr, t, i, c)) && SamePages(m, w, tr.root) && SameStates(m, w, tr.root)
    ensures TableAt(w, tr.root, vpn, 3, tr.level[t] - 1) == Some(c)
    ensures Missing(w, tr.root, vpn, 3) == Missing(m, tr.root, vpn, 3) - 1
  {
    var k := tr.level[t];
    NewEntry(c, e);
    AddTable(m, w, tr, t, i, c, e);
    AddStates(m, w, tr, t, i, c, e);
    TableAtSplits(m, tr.root, vpn, 3, k);
    TableAtKept(m, w, tr, t, i, c, e, tr.root, vpn, 3, k);
    TableAtSplits(w, tr.root, vpn, 3, k);
    ClearedMissing(w, c, vpn, k - 1);
  }

  /** The physical page that an entry `pa | flags` maps to, if its present bit is set. */
  function MapsTo(pa: u64, flags: u64): Option<nat> {
    if flags % 2 == 1 then Some(Or(pa / 4096, flags / 4096)) else None
  }

  /**
   * The header's attribute bits are the twelve low ones and bit 63, PAGE_NX. The walk masks only
   * the low ones away, so the page maps to its physical page exactly when PAGE_NX is not given.
   */
  lemma NoExecuteMistranslates(pa: u64, flags: u64)
    requires pa % 4096 == 0 && pa < 0x10_0000_0000_0000
    requires flags % 2 == 1 && flags % 0x8000_0000_0000_0000 < 4096
    ensures MapsTo(pa, flags) == Some(pa / 4096) <==> flags < 0x8000_0000_0000_0000
  {
    var p := pa / 4096;
    if flags < 0x8000_0000_0000_0000 {
      OrZero(p);
    } else {
      assert flags / 4096 == 0x8_0000_0000_0000;
      Pow2Fifty2();
      assert Pow2(51) == 0x8_0000_0000_0000;
      OrApart(p, 1, 51);
    }
  }

  /** One changed translation keeps the ownership rules if the new frame obeys them. */
  lemma OwnedSet(m: seq<u64>, w: seq<u64>, tr: Tree, free: seq<nat>, total: nat, vpn: nat, q: Option<nat>)
    requires Owned(m, tr, free, total) && vpn < VPNS && OnePage(m, w, tr.root, vpn, Some(q))
    requires q.Some? ==> FrameMappable(m, tr, free, total, q.value, vpn)
    ensures Owned(w, tr, free, total)
  {
    assert forall v: nat :: v < VPNS && v != vpn ==> FrameOf(w, tr.root, total, v) == FrameOf(m, tr.root, total, v);
    forall v: nat, x: nat | v < x < VPNS && FrameOf(w, tr.root, total, v).Some?
      ensures FrameOf(w, tr.root, total, v) != FrameOf(w, tr.root, total, x)
    {
      if v == vpn {
        assert Translate(m, tr.root, x) != Translate(w, tr.root, vpn);
      } else if x == vpn {
        assert Translate(m, tr.root, v) != Translate(w, tr.root, vpn);
      } else {
        assert FrameOf(m, tr.root, total, v) != FrameOf(m, tr.root, total, x);
      }
    }
  }

  /** Tables taken from the free frames keep the ownership rules. */
  lemma OwnedGrown(m: seq<u64>, w: seq<u64>, tr: Tree, tw: Tree, free: seq<nat>, left: seq<nat>, total: nat)
    requires Owned(m, tr, free, total) && Grown(tr, tw, free, left) && SamePages(m, w, tr.root)
    ensures Owned(w, tw, left, total)
  {
    assert forall v: nat :: v < VPNS ==> FrameOf(w, tr.root, total, v) == FrameOf(m, tr.root, total, v);
  }

  /** Mapping a frame keeps the ownership rules exactly when it was mappable, whatever tables were created. */
  lemma MapOwned(was: seq<u64>, w: seq<u64>, tr: Tree, tw: Tree, free: seq<nat>, left: seq<nat>, total: nat,
                 vpn: nat, q: Option<nat>)
    requires Owned(was, tr, free, total) && Grown(tr, tw, free, left) && vpn < VPNS
    requires OnePage(was, w, tr.root, vpn, Some(q))
    ensures Owned(w, tw, left, total) <==> (q.Some? ==> FrameMappable(was, tr, free, total, q.value, vpn))
  {
    if q.Some? ==> FrameMappable(was, tr, free, total, q.value, vpn) {
      OwnedGrown(was, was, tr, tw, free, left, total);
      OwnedSet(was, w, tw, left, total, vpn, q);
    } else {
      NotMappable(was, w, tr, tw, free, left, total, vpn, q.value);
    }
  }

  lemma NotMappable(was: seq<u64>, w: seq<u64>, tr: Tree, tw: Tree, free: seq<nat>, left: seq<nat>, total: nat,
                    vpn: nat, q: nat)
    requires Grown(tr, tw, free, left) && vpn < VPNS
    requires OnePage(was, w, tr.root, vpn, Some(Some(q))) && !FrameMappable(was, tr, free, total, q, vpn)
    ensures !Owned(w, tw, left, total)
  {
    assert FrameOf(w, tw.root, total, vpn) == Some(q);
    if q !in tr.level && q !in free {
      var x: nat :| x < VPNS && x != vpn && Translate(was, tr.root, x) == Some(q);
      assert FrameOf(w, tw.root, total, x) == Some(q);
      assert if x < vpn then x < vpn else vpn < x;
    }
  }

  /** Unmapping a page keeps the ownership rules, also when its frame becomes free. */
  lemma OwnedUnset(m: seq<u64>, w: seq<u64>, tr: Tree, free: seq<nat>, left: seq<nat>, total: nat, vpn: nat)
    requires Owned(m, tr, free, total) && vpn < VPNS && OnePage(m, w, tr.root, vpn, Some(None))
    requires forall f :: f in left ==> f in free || FrameOf(m, tr.root, total, vpn) == Some(f)
    ensures Owned(w, tr, left, total)
  {
    OwnedSet(m, w, tr, free, total, vpn, None);
    forall v: nat | v < VPNS && FrameOf(w, tr.root, total, v).Some?
      ensures FrameOf(w, tr.root, total, v).value !in left
    {
      assert v != vpn && FrameOf(w, tr.root, total, v) == FrameOf(m, tr.root, total, v);
      assert FrameOf(m, tr.root, total, v) != FrameOf(m, tr.root, total, vpn);
    }
  }

  /** Frame `f` of the machine's memory is a table, or some page is mapped to it. */
  ghost predicate InUse(m: seq<u64>, tr: Tree, f: nat) {
    f in tr.level || exists v: nat :: v < VPNS && Translate(m, tr.root, v) == Some(f)
  }

  /** Putting a frame on the free list keeps the rules exactly when it is not in use. */
  lemma OwnedFreed(m: seq<u64>, tr: Tree, free: seq<nat>, total: nat, f: nat)
    requires Owned(m, tr, free, total) && f < total && forall t :: t in tr.level ==> t !in free
    ensures InUse(m, tr, f) <==>
            !(Owned(m, tr, [f] + free, total) && forall t :: t in tr.level ==> t !in [f] + free)
  {
    assert f in [f] + free;
    if v: nat :| v < VPNS && Translate(m, tr.root, v) == Some(f) {
      assert FrameOf(m, tr.root, total, v) == Some(f);
    }
  }

  /** An entry without its low twelve bits, with an offset in their place. */
  lemma WithOffset(e: u64, o: nat)
    requires o < 4096
    ensures Or(e - e % 4096, o) == Target(e) * 4096 + o < TWO_64
  {
    assert e - e % 4096 == Target(e) * 4096;
    OrPaged(Target(e), 0, o);
    OrZero(Target(e));
  }

  const TEMP_BASE: u64 := 0xFFFF_FFFF_8000_0000 + 0x100_0000
  const TEMP_PAGE := 0xF_FFF8_1000

  /** The number of pages that `size` bytes take, rounded up in 64 bits. */
  function PageCount(size: u64): (n: nat) {
    (size + 4095) % TWO_64 / 4096
  }

  /** The pages hold the bytes and are as few as can be, up to the last 4095 sizes, for which there are none. */
  lemma PageCountIs(size: u64, n: nat)
    ensures size <= 0xFFFF_FFFF_FFFF_F000 ==>
              (size <= n * 4096 <==> PageCount(size) <= n)
    ensures size > 0xFFFF_FFFF_FFFF_F000 ==> PageCount(size) == 0
  {
    if size > 0xFFFF_FFFF_FFFF_F000 {
      DivUnique(size + 4095, TWO_64, 1, size + 4095 - TWO_64);
    }
  }

  /** The address `i` pages behind `a`, in 64 bits. */
  function Behind(a: u64, i: nat): u64 {
    (a + i * 4096) % TWO_64
  }

  lemma BehindAligned(a: u64, i: nat)
    ensures Behind(a, i) % 4096 == a % 4096
  {
    var x := a + i * 4096;
    var k := i - x / TWO_64 * 0x10_0000_0000_0000;
    assert x % TWO_64 == 4096 * k + a;
    ModShift(4096, k, a);
  }

  /** Pages follow one another, and behind the last one comes the first again. */
  lemma BehindPage(a: u64, i: nat)
    ensures PageOf(Behind(a, i)) == (PageOf(a) + i) % VPNS
  {
    var x := a + i * 4096;
    var h, n := x / TWO_64, a / 4096 + i;
    assert x / 4096 == n;
    assert Behind(a, i) / 4096 == n - h * 0x10_0000_0000_0000;
    ModShift(VPNS, -h * 0x1_0000, n);
    assert n == VPNS * (a / 4096 / VPNS) + (PageOf(a) + i);
    ModShift(VPNS, a / 4096 / VPNS, PageOf(a) + i);
  }

  lemma TempAddress(pa: u64, i: nat)
    ensures PageOf(Behind(TEMP_BASE, i)) == (TEMP_PAGE + i) % VPNS
    ensures Behind(TEMP_BASE, i) % 4096 == 0 && Behind(pa, i) % 4096 == pa % 4096
  {
    assert PageOf(TEMP_BASE) == TEMP_PAGE;
    BehindPage(TEMP_BASE, i);
    BehindAligned(TEMP_BASE, i);
    BehindAligned(pa, i);
  }

  /**
   * Frame `f` may be mapped at page `v`: if it belongs to the machine's memory it is neither a
   * table nor free, and no other page maps it.
   */
  ghost predicate FrameMappable(m: seq<u64>, tr: Tree, free: seq<nat>, total: nat, f: nat, v: nat) {
    f < total ==>
      && f !in tr.level && f !in free
      && forall w: nat :: w < VPNS && w != v ==> Translate(m, tr.root, w) != Some(f)
  }

  /** Page `vpn` translates to what `change` says, if it is a change; all other pages are as in `was`. */
  ghost predicate OnePage(was: seq<u64>, m: seq<u64>, root: int, vpn: nat, change: Option<Option<nat>>) {
    forall v: nat :: v < VPNS ==>
      Translate(m, root, v) == if v == vpn && change.Some? then change.value else Translate(was, root, v)
  }

  /** A page that was not mapped, was mapped and unmapped. */
  lemma BackAgain(was: seq<u64>, m: seq<u64>, w: seq<u64>, root: int, vpn: nat, f: nat, bits: Option<u64>)
    requires OnePage(was, m, root, vpn, Some(Some(f))) && OnePage(m, w, root, vpn, Some(None))
    requires OneState(was, m, root, vpn, Some(bits)) && OneState(m, w, root, vpn, Some(None))
    requires vpn < VPNS && Translate(was, root, vpn) == None
    ensures SamePages(was, w, root) && SameStates(was, w, root)
  {
    Unmapped(was, root, vpn);
  }

  lemma PlainFrame(f: nat, flags: u64)
    requires f < 0x10_0000_0000_0000 && flags < 0x1000 && flags % 2 == 1
    ensures f * 4096 < TWO_64 && f * 4096 % 4096 == 0 && MapsTo(f * 4096, flags) == Some(f)
  {
    var pa: u64 := f * 4096;
    assert pa / 4096 == f && flags / 4096 == 0;
    OrZero(f);
  }

  // ---- Ranges of pages ----

  /** How far page `v` lies behind page `first`. */
  function Offset(v: nat, first: nat): nat
    requires v < VPNS && first < VPNS
  {
    if v >= first then v - first else v + VPNS - first
  }

  /** The last of the indices below `k` that fall on the page at offset `off`. */
  function LastIndex(off: nat, k: nat): (i: nat)
    requires off < k
    ensures i < k
  {
    if k <= off + VPNS then off else VPNS + LastIndex(off, k - VPNS)
  }

  lemma OffsetOf(v: nat, first: nat, k: nat)
    requires v < VPNS && first < VPNS
    ensures v == (first + k) % VPNS <==> Offset(v, first) == k % VPNS
  {
  }

  /** One index more moves the last one only at the offset that it falls on. */
  lemma {:induction false} LastStep(off: nat, k: nat)
    requires off < VPNS
    ensures if off == k % VPNS then off < k + 1 && LastIndex(off, k + 1) == k
            else (off < k + 1 <==> off < k) && (off < k ==> LastIndex(off, k + 1) == LastIndex(off, k))
    decreases k
  {
    if k >= VPNS {
      assert (k - VPNS) % VPNS == k % VPNS;
      LastStep(off, k - VPNS);
    }
  }

  /** What memory_map_physical maps page `i` of a range to. */
  function RangeFrame(pa: u64, flags: u64, i: nat): Option<nat> {
    MapsTo(Behind(pa, i), flags)
  }

  /** Page `i` of a range from page `first` on may be mapped, and no other of its `n` pages to the same frame. */
  ghost predicate PageReady(m: seq<u64>, tr: Tree, free: seq<nat>, total: nat, first: nat, pa: u64, flags: u64,
                            n: nat, i: nat) {
    match RangeFrame(pa, flags, i)
    case None => true
    case Some(q) =>
      && FrameMappable(m, tr, free, total, q, (first + i) % VPNS)
      && (q < total ==> forall j: nat :: j < n && j != i ==> RangeFrame(pa, flags, j) != Some(q))
  }

  /** Every page of a range of `n` pages may be mapped. */
  ghost predicate AllReady(m: seq<u64>, tr: Tree, free: seq<nat>, total: nat, first: nat, pa: u64, flags: u64, n: nat) {
    forall i: nat :: i < n ==> PageReady(m, tr, free, total, first, pa, flags, n, i)
  }

  /**
   * The `k` pages from `first` on map what a range from `pa` on maps; all other pages are as in
   * `was`. A range that is longer than the address space overwrites its own beginning.
   */
  ghost predicate Window(was: seq<u64>, m: seq<u64>, root: int, first: nat, pa: u64, flags: u64, k: nat)
    requires first < VPNS
  {
    forall v: nat :: v < VPNS ==>
      Translate(m, root, v) ==
      if Offset(v, first) < k then RangeFrame(pa, flags, LastIndex(Offset(v, first), k)) else Translate(was, root, v)
  }

  /** The same for the attributes: those of the flags in the window, and what the tables permit stays everywhere. */
  ghost predicate WindowStates(was: seq<u64>, m: seq<u64>, root: int, first: nat, pa: u64, flags: u64, k: nat)
    requires first < VPNS
  {
    forall v: nat :: v < VPNS ==>
      StateOf(m, root, v) ==
      if Offset(v, first) < k then StateOf(was, root, v).(bits := RangeBits(pa, flags, LastIndex(Offset(v, first), k)))
      else StateOf(was, root, v)
  }

  function RangeBits(pa: u64, flags: u64, i: nat): Option<u64> {
    BitsFor(Behind(pa, i), flags)
  }

  /** With plain flags and no wrap-around a range is mapped contiguously. */
  lemma Contiguous(was: seq<u64>, m: seq<u64>, root: int, first: nat, pa: u64, flags: u64, k: nat, i: nat)
    requires flags < 0x1000 && flags % 2 == 1 && pa + k * 4096 <= TWO_64
    requires first < VPNS && Window(was, m, root, first, pa, flags, k) && i < k <= VPNS
    ensures Translate(m, root, (first + i) % VPNS) == Some(pa / 4096 + i)
  {
    var v := (first + i) % VPNS;
    OffsetOf(v, first, i);
    assert Offset(v, first) == i && LastIndex(i, k) == i;
    ContiguousPage(pa, flags, i);
  }

  lemma ContiguousPage(pa: u64, flags: u64, i: nat)
    requires flags < 0x1000 && flags % 2 == 1 && pa + i * 4096 < TWO_64
    ensures RangeFrame(pa, flags, i) == Some(pa / 4096 + i)
  {
    var p := Behind(pa, i);
    assert p == pa + i * 4096;
    assert p / 4096 == pa / 4096 + i;
    OrZero(p / 4096);
  }

  /** The `n` pages from `first` on are not mapped; all other pages are as in `was`. */
  ghost predicate Gap(was: seq<u64>, m: seq<u64>, root: int, first: nat, n: nat)
    requires first < VPNS
  {
    forall v: nat :: v < VPNS ==>
      Translate(m, root, v) == if Offset(v, first) < n then None else Translate(was, root, v)
  }

  /** The pages of a gap have no attributes; all else is as in `was`. */
  ghost predicate GapStates(was: seq<u64>, m: seq<u64>, root: int, first: nat, n: nat)
    requires first < VPNS
  {
    forall v: nat :: v < VPNS ==>
      StateOf(m, root, v) ==
      if Offset(v, first) < n then StateOf(was, root, v).(bits := None) else StateOf(was, root, v)
  }

  /** None of the `n` pages from `first` on is mapped. */
  ghost predicate NoneMapped(m: seq<u64>, root: int, first: nat, n: nat)
    requires first < VPNS
  {
    forall v: nat :: v < VPNS && Offset(v, first) < n ==> Translate(m, root, v) == None
  }

  /** Unmapping at least the pages a window maps restores every translation, if none of them was mapped before. */
  lemma WindowClosed(was: seq<u64>, m: seq<u64>, w: seq<u64>, root: int, first: nat, pa: u64, flags: u64,
                     k: nat, n: nat)
    requires first < VPNS && Window(was, m, root, first, pa, flags, k) && Gap(m, w, root, first, n) && k <= n
    requires NoneMapped(was, root, first, n)
    ensures SamePages(was, w, root)
  {
  }

  lemma StatesClosed(was: seq<u64>, m: seq<u64>, w: seq<u64>, root: int, first: nat, pa: u64, flags: u64,
                     k: nat, n: nat)
    requires first < VPNS && k <= n
    requires WindowStates(was, m, root, first, pa, flags, k) && GapStates(m, w, root, first, n)
    requires NoneMapped(was, root, first, n)
    ensures SameStates(was, w, root)
  {
    forall v: nat | v < VPNS
      ensures StateOf(w, root, v) == StateOf(was, root, v)
    {
      if Offset(v, first) < n {
        Unmapped(was, root, v);
      }
    }
  }

  lemma Unmapped(m: seq<u64>, root: int, v: nat)
    requires Translate(m, root, v) == None
    ensures StateOf(m, root, v).bits == None
  {
  }

  /** The next frame of a range is still mappable when the pages before it have been mapped. */
  lemma WindowMappable(was: seq<u64>, m: seq<u64>, tr: Tree, tw: Tree, free: seq<nat>, left: seq<nat>, total: nat,
                       first: nat, pa: u64, flags: u64, n: nat, i: nat, vpn: nat)
    requires first < VPNS && Grown(tr, tw, free, left) && Window(was, m, tw.root, first, pa, flags, i) && i < n
    requires AllReady(was, tr, free, total, first, pa, flags, n) && vpn == (first + i) % VPNS
    ensures RangeFrame(pa, flags, i).Some? ==>
              FrameMappable(m, tw, left, total, RangeFrame(pa, flags, i).value, vpn)
  {
    assert PageReady(was, tr, free, total, first, pa, flags, n, i);
    if RangeFrame(pa, flags, i).Some? && RangeFrame(pa, flags, i).value < total {
      var q := RangeFrame(pa, flags, i);
      forall v: nat | v < VPNS && v != (first + i) % VPNS
        ensures Translate(m, tw.root, v) != q
      {
        if Offset(v, first) < i {
          var j := LastIndex(Offset(v, first), i);
          assert j < i;
          assert RangeFrame(pa, flags, j) != q;
        }
      }
    }
  }

  lemma WindowNext(was: seq<u64>, m: seq<u64>, w: seq<u64>, root: int, first: nat, pa: u64, flags: u64, i: nat,
                   vpn: nat, ok: bool)
    requires first < VPNS && Window(was, m, root, first, pa, flags, i) && vpn == (first + i) % VPNS
    requires OnePage(m, w, root, vpn, if ok then Some(RangeFrame(pa, flags, i)) else None)
    ensures Window(was, w, root, first, pa, flags, if ok then i + 1 else i)
  {
    if ok {
      forall v: nat | v < VPNS
        ensures Translate(w, root, v) ==
                if Offset(v, first) < i + 1 then RangeFrame(pa, flags, LastIndex(Offset(v, first), i + 1))
                else Translate(was, root, v)
      {
        OffsetOf(v, first, i);
        LastStep(Offset(v, first), i);
      }
    }
  }

  lemma StatesNext(was: seq<u64>, m: seq<u64>, w: seq<u64>, root: int, first: nat, pa: u64, flags: u64, i: nat,
                   vpn: nat, ok: bool)
    requires first < VPNS && WindowStates(was, m, root, first, pa, flags, i) && vpn == (first + i) % VPNS
    requires OneState(m, w, root, vpn, if ok then Some(RangeBits(pa, flags, i)) else None)
    ensures WindowStates(was, w, root, first, pa, flags, if ok then i + 1 else i)
  {
    if ok {
      forall v: nat | v < VPNS
        ensures StateOf(w, root, v) ==
                if Offset(v, first) < i + 1
                then StateOf(was, root, v).(bits := RangeBits(pa, flags, LastIndex(Offset(v, first), i + 1)))
                else StateOf(was, root, v)
      {
        OffsetOf(v, first, i);
        LastStep(Offset(v, first), i);
      }
    }
  }

  lemma GapStatesNext(was: seq<u64>, m: seq<u64>, w: seq<u64>, root: int, first: nat, i: nat, vpn: nat)
    requires first < VPNS && GapStates(was, m, root, first, i) && OneState(m, w, root, vpn, Some(None))
    requires vpn == (first + i) % VPNS
    ensures GapStates(was, w, root, first, i + 1)
  {
    forall v: nat | v < VPNS
      ensures StateOf(w, root, v) ==
              if Offset(v, first) < i + 1 then StateOf(was, root, v).(bits := None) else StateOf(was, root, v)
    {
      OffsetOf(v, first, i);
      LastStep(Offset(v, first), i);
    }
  }

  lemma GapNext(was: seq<u64>, m: seq<u64>, w: seq<u64>, root: int, first: nat, i: nat, vpn: nat)
    requires first < VPNS && Gap(was, m, root, first, i) && OnePage(m, w, root, vpn, Some(None))
    requires vpn == (first + i) % VPNS
    ensures Gap(was, w, root, first, i + 1)
  {
    forall v: nat | v < VPNS
      ensures Translate(w, root, v) == if Offset(v, first) < i + 1 then None else Translate(was, root, v)
    {
      OffsetOf(v, first, i);
        LastStep(Offset(v, first), i);
    }
  }

  /** One of the `n` pages from `first` on is mapped to frame `f`. */
  ghost predicate MappedIn(m: seq<u64>, root: int, total: nat, first: nat, n: nat, f: nat)
    requires first < VPNS
  {
    exists v: nat :: v < VPNS && Offset(v, first) < n && FrameOf(m, root, total, v) == Some(f)
  }

  /** Each frame that was mapped in the range lost one reference, and is free if that was its only one. */
  ghost predicate LetGo(fs: seq<PageFrame>, gs: seq<PageFrame>, was: seq<u64>, root: int, first: nat, n: nat)
    requires first < VPNS
  {
    |gs| == |fs| && forall f :: 0 <= f < |fs| ==> OneLess(fs[f], gs[f], MappedIn(was, root, |fs|, first, n, f))
  }

  ghost predicate OneLess(r: PageFrame, s: PageFrame, less: bool) {
    && s.physicalAddr == r.physicalAddr
    && s.refCount == (if less then (r.refCount + TWO_32 - 1) % TWO_32 else r.refCount)
    && (s.isFree <==> if less then r.refCount == 1 else r.isFree)
  }

  /** No frame of the machine's memory is mapped at two pages. */
  ghost predicate MappedOnce(m: seq<u64>, root: int, total: nat) {
    forall v: nat, w: nat :: v < w < VPNS && FrameOf(m, root, total, v).Some? ==>
      FrameOf(m, root, total, v) != FrameOf(m, root, total, w)
  }

  /** The range with page `i`: of the frames, only the one that is still mapped there is new in it. */
  lemma MappedInNext(was: seq<u64>, m: seq<u64>, root: int, total: nat, first: nat, i: nat, vpn: nat, f: nat)
    requires first < VPNS && Gap(was, m, root, first, i) && vpn == (first + i) % VPNS && MappedOnce(was, root, total)
    ensures MappedIn(was, root, total, first, i + 1, f) <==>
            MappedIn(was, root, total, first, i, f) || FrameOf(m, root, total, vpn) == Some(f)
    ensures !(MappedIn(was, root, total, first, i, f) && FrameOf(m, root, total, vpn) == Some(f))
  {
    OffsetOf(vpn, first, i);
    if MappedIn(was, root, total, first, i + 1, f) {
      var v: nat :| v < VPNS && Offset(v, first) < i + 1 && FrameOf(was, root, total, v) == Some(f);
      OffsetOf(v, first, i);
      LastStep(Offset(v, first), i);
    }
    if FrameOf(m, root, total, vpn) == Some(f) {
      assert Offset(vpn, first) >= i && FrameOf(was, root, total, vpn) == Some(f);
      LastStep(Offset(vpn, first), i);
    }
  }

  lemma LetGoNext(fs: seq<PageFrame>, gs: seq<PageFrame>, hs: seq<PageFrame>, head: Option<nat>, was: seq<u64>,
                  m: seq<u64>, root: int, first: nat, i: nat, vpn: nat)
    requires first < VPNS && Gap(was, m, root, first, i) && vpn == (first + i) % VPNS
    requires MappedOnce(was, root, |fs|) && LetGo(fs, gs, was, root, first, i)
    requires var c := FrameOf(m, root, |fs|, vpn);
             if c == None then hs == gs else c.value < |gs| && !gs[c.value].isFree && hs == Dropped(gs, head, c.value)
    ensures LetGo(fs, hs, was, root, first, i + 1)
  {
    forall f | 0 <= f < |fs|
      ensures OneLess(fs[f], hs[f], MappedIn(was, root, |fs|, first, i + 1, f))
    {
      MappedInNext(was, m, root, |fs|, first, i, vpn, f);
      assert OneLess(fs[f], gs[f], MappedIn(was, root, |fs|, first, i, f));
    }
  }

  lemma GrownTwice(ta: Tree, tb: Tree, tc: Tree, fa: seq<nat>, fb: seq<nat>, fc: seq<nat>)
    requires Grown(ta, tb, fa, fb) && Grown(tb, tc, fb, fc)
    ensures Grown(ta, tc, fa, fc)
  {
  }

  class VirtualMemory {
    /** Physical memory as 64-bit words: frame f is words 512 f to 512 f + 511. */
    const ram: array<u64>
    const pages: FrameAllocator
    /** The frame of the current top-level table. */
    var currentPml4: nat
    ghost var tree: Tree

    /** The tables form a tree without sharing, and none of them is free. */
    ghost predicate Stable()
      reads this, ram, pages, pages.frames
    {
      && pages.Valid()
      && pages.frames.Length <= 0x10_0000_0000_0000
      && ram.Length == ENTRIES * pages.frames.Length
      && currentPml4 == tree.root
      && TreeOk(ram[..], tree)
      && (forall t :: t in tree.level ==> t !in pages.free)
    }

    /** The ownership rules for the mapped frames. */
    ghost predicate Owns()
      reads this, ram, pages, pages.frames
    {
      Owned(ram[..], tree, pages.free, pages.frames.Length)
    }

    ghost predicate Valid()
      reads this, ram, pages, pages.frames
    {
      Stable() && Owns()
    }

    /** The memory half of kmemory_init, then vm_switch_pagetable to the cleared frame `root`. */
    constructor (totalPages: nat, root: nat)
      requires totalPages <= 0x10_0000_0000_0000 && root < totalPages && root < FIRST_FRAME
      ensures Valid() && fresh(ram) && fresh(pages) && fresh(pages.frames)
      ensures pages.frames.Length == totalPages
      ensures forall v: nat :: v < VPNS ==> Mapping(v) == None
    {
      ram := new u64[ENTRIES * totalPages];
      pages := new FrameAllocator(totalPages);
      currentPml4 := root;
      tree := Tree(root, map[root := 3], map[]);
      new;
      ClearFrame(root);
      forall v: nat
        ensures Reach(ram[..], root, v, 3) == None
      {
        ClearedReach(ram[..], root, v, 3);
      }
    }

    /** What the hardware's walk makes of a virtual page. */
    ghost function Mapping(v: nat): Option<nat>
      reads this, ram
    {
      Translate(ram[..], tree.root, v)
    }

    /** How many free frames are lacking to give page `vpn` all its tables. */
    ghost function Lacking(vpn: nat): int
      reads this, ram, pages
    {
      Missing(ram[..], tree.root, vpn, 3) - |pages.free|
    }

    function At(t: nat, i: nat): u64
      requires InRam(ram[..], t) && i < ENTRIES
      reads ram
    {
      ram[ENTRIES * t + i]
    }

    /** Clears the frame `c`. */
    method ClearFrame(c: nat)
      requires InRam(ram[..], c)
      modifies ram
      ensures forall s, j :: InRam(ram[..], s) && 0 <= j < ENTRIES ==>
                Entry(ram[..], s, j) == if s == c then 0 else old(Entry(ram[..], s, j))
    {
      ghost var m, lo := ram[..], ENTRIES * c;
      for k := 0 to ENTRIES
        invariant forall x :: 0 <= x < ram.Length ==> ram[x] == if lo <= x < lo + k then 0 else m[x]
      {
        ram[ENTRIES * c + k] := 0;
      }
      assert forall x :: 0 <= x < ram.Length ==> ram[..][x] == if lo <= x < lo + ENTRIES then 0 else m[x];
    }

    /** Entry `i` of the table in frame `t` becomes `e`. */
    method SetEntry(t: nat, i: nat, e: u64)
      requires InRam(ram[..], t) && i < ENTRIES
      modifies ram
      ensures EntrySet(old(ram[..]), ram[..], t, i, e)
    {
      ram[ENTRIES * t + i] := e;
    }

    /**
     * One level of vm_map_page: the table that slot `i` of table `t` points to, or a new one
     * taken from the free frames, cleared, and hung into that slot.
     */
    method Descend(t: nat, i: nat, ghost vpn: nat) returns (c: Option<nat>)
      requires Stable() && t in tree.level && tree.level[t] > 0 && i == Index(vpn, tree.level[t])
      requires TableAt(ram[..], tree.root, vpn, 3, tree.level[t]) == Some(t)
      modifies this, ram, pages, pages.frames
      ensures Stable() && currentPml4 == old(currentPml4)
      ensures SamePages(old(ram[..]), ram[..], tree.root) && SameStates(old(ram[..]), ram[..], tree.root)
      ensures Lacking(vpn) == old(Lacking(vpn)) && (c == None ==> pages.free == [] && Lacking(vpn) > 0)
      ensures c != None ==>
                && c.value in tree.level && tree.level[c.value] == old(tree.level[t]) - 1
                && TableAt(ram[..], tree.root, vpn, 3, tree.level[c.value]) == c
      ensures Grown(old(tree), tree, old(pages.free), pages.free)
      ensures Taken(old(pages.frames[..]), pages.frames[..], old(tree), tree)
    {
      TableAtSplits(ram[..], tree.root, vpn, 3, tree.level[t]);
      assert Downward(ram[..], tree, t, i);
      if Present(At(t, i)) {
        return Some(Target(At(t, i)));
      }
      var frame := pages.AllocatePageFrame();
      if frame == None {
        return None;
      }
      HangTable(t, i, frame.value, vpn, old(pages.free));
      return frame;
    }

    /** The stores that make frame `f`, the first of the frames `free` that were free, a table. */
    method HangTable(t: nat, i: nat, f: nat, ghost vpn: nat, ghost free: seq<nat>)
      requires pages.Valid() && pages.frames.Length <= 0x10_0000_0000_0000
      requires ram.Length == ENTRIES * pages.frames.Length && currentPml4 == tree.root
      requires TreeOk(ram[..], tree) && t in tree.level && tree.level[t] > 0 && i == Index(vpn, tree.level[t])
      requires TableAt(ram[..], tree.root, vpn, 3, tree.level[t]) == Some(t) && !Present(Entry(ram[..], t, i))
      requires free == [f] + pages.free && f < pages.frames.Length && f !in pages.free
      requires forall s :: s in tree.level ==> s !in free
      modifies this`tree, ram
      ensures Stable() && InRam(ram[..], t) && Entry(ram[..], t, i) == f * 4096 + 3
      ensures SamePages(old(ram[..]), ram[..], tree.root) && SameStates(old(ram[..]), ram[..], tree.root)
      ensures tree == WithTable(old(tree), t, i, f)
      ensures TableAt(ram[..], tree.root, vpn, 3, tree.level[f]) == Some(f)
      ensures Lacking(vpn) == old(Lacking(vpn)) - 1
    {
      ghost var m, tr := ram[..], tree;
      assert f in free;
      TableEntry(f);
      ClearFrame(f);
      var e := Or(Or(f * 4096, PAGE_PRESENT), PAGE_WRITABLE);
      SetEntry(t, i, e);
      tree := WithTable(tree, t, i, f);
      Descended(m, ram[..], tr, t, i, f, e, vpn);
    }

    ghost predicate Mappable(q: nat, v: nat)
      reads this, ram, pages, pages.frames
    {
      FrameMappable(ram[..], tree, pages.free, pages.frames.Length, q, v)
    }

    /** The PML3 on the way to `va`. */
    method FindPml3(va: u64) returns (t: Option<nat>)
      requires Stable()
      modifies this, ram, pages, pages.frames
      ensures Stable() && currentPml4 == old(currentPml4)
      ensures SamePages(old(ram[..]), ram[..], tree.root) && SameStates(old(ram[..]), ram[..], tree.root)
      ensures Grown(old(tree), tree, old(pages.free), pages.free)
      ensures Taken(old(pages.frames[..]), pages.frames[..], old(tree), tree)
      ensures Lacking(PageOf(va)) == old(Lacking(PageOf(va)))
      ensures t == None ==> pages.free == [] && Lacking(PageOf(va)) > 0
      ensures t != None ==>
                && t.value in tree.level && tree.level[t.value] == 2
                && TableAt(ram[..], tree.root, PageOf(va), 3, 2) == t
    {
      IndexBits(va);
      t := Descend(currentPml4, va / 0x80_0000_0000 % 512, PageOf(va));
    }

    /** The PML2 on the way to `va`. */
    method FindPml2(va: u64) returns (t: Option<nat>)
      requires Stable()
      modifies this, ram, pages, pages.frames
      ensures Stable() && currentPml4 == old(currentPml4)
      ensures SamePages(old(ram[..]), ram[..], tree.root) && SameStates(old(ram[..]), ram[..], tree.root)
      ensures Grown(old(tree), tree, old(pages.free), pages.free)
      ensures Taken(old(pages.frames[..]), pages.frames[..], old(tree), tree)
      ensures Lacking(PageOf(va)) == old(Lacking(PageOf(va)))
      ensures t == None ==> pages.free == [] && Lacking(PageOf(va)) > 0
      ensures t != None ==>
                && t.value in tree.level && tree.level[t.value] == 1
                && TableAt(ram[..], tree.root, PageOf(va), 3, 1) == t
    {
      IndexBits(va);
      t := FindPml3(va);
      if t != None {
        ghost var tr, free, fs := tree, pages.free, pages.frames[..];
        t := Descend(t.value, va / 0x4000_0000 % 512, PageOf(va));
        GrownTwice(old(tree), tr, tree, old(pages.free), free, pages.free);
        TakenTwice(old(pages.frames[..]), fs, pages.frames[..], old(tree), tr, tree);
      }
    }

    /** The PML1 on the way to `va`. */
    method FindPml1(va: u64) returns (t: Option<nat>)
      requires Stable()
      modifies this, ram, pages, pages.frames
      ensures Stable() && currentPml4 == old(currentPml4)
      ensures SamePages(old(ram[..]), ram[..], tree.root) && SameStates(old(ram[..]), ram[..], tree.root)
      ensures Grown(old(tree), tree, old(pages.free), pages.free)
      ensures Taken(old(pages.frames[..]), pages.frames[..], old(tree), tree)
      ensures Lacking(PageOf(va)) == old(Lacking(PageOf(va)))
      ensures t == None ==> pages.free == [] && Lacking(PageOf(va)) > 0
      ensures t != None ==>
                && t.value in tree.level && tree.level[t.value] == 0
                && TableAt(ram[..], tree.root, PageOf(va), 3, 0) == t
    {
      IndexBits(va);
      t := FindPml2(va);
      if t != None {
        ghost var tr, free, fs := tree, pages.free, pages.frames[..];
        t := Descend(t.value, va / 0x20_0000 % 512, PageOf(va));
        GrownTwice(old(tree), tr, tree, old(pages.free), free, pages.free);
        TakenTwice(old(pages.frames[..]), fs, pages.frames[..], old(tree), tr, tree);
      }
    }

    /**
     * vm_map_page. It succeeds exactly when both addresses are page-aligned and the free frames
     * cover the missing tables; then it changes the translation of the one page, and otherwise
     * of none, even if some of the tables were created before the frames ran out. The page gets
     * the attributes of the flags, and what the tables permit stays. Any frame may be mapped; the
     * ownership rules are kept exactly when it was mappable.
     */
    method VmMapPage(va: u64, pa: u64, flags: u64) returns (ok: bool)
      requires Stable()
      modifies this, ram, pages, pages.frames
      ensures Stable() && currentPml4 == old(currentPml4)
      ensures ok <==> va % 4096 == 0 && pa % 4096 == 0 && old(Lacking(PageOf(va))) <= 0
      ensures OnePage(old(ram[..]), ram[..], tree.root, PageOf(va), if ok then Some(MapsTo(pa, flags)) else None)
      ensures OneState(old(ram[..]), ram[..], tree.root, PageOf(va), if ok then Some(BitsFor(pa, flags)) else None)
      ensures old(Owns()) ==>
                (Owns() <==> (ok && MapsTo(pa, flags).Some? ==> old(Mappable(MapsTo(pa, flags).value, PageOf(va)))))
      ensures Grown(old(tree), tree, old(pages.free), pages.free)
      ensures Taken(old(pages.frames[..]), pages.frames[..], old(tree), tree)
      ensures !ok && va % 4096 == 0 && pa % 4096 == 0 ==> pages.free == [] && Lacking(PageOf(va)) > 0
    {
      if va % 0x1000 != 0 || pa % 0x1000 != 0 {
        return false;
      }
      ghost var was, total := ram[..], pages.frames.Length;
      var pml1 := FindPml1(va);
      if pml1 == None {
        if old(Owns()) {
          OwnedGrown(was, ram[..], old(tree), tree, old(pages.free), pages.free, total);
        }
        return false;
      }
      IndexBits(va);
      SetPage(pml1.value, va / 0x1000 % 512, pa, flags, PageOf(va));
      if old(Owns()) {
        MapOwned(was, ram[..], old(tree), tree, old(pages.free), pages.free, total, PageOf(va), MapsTo(pa, flags));
      }
      return true;
    }

    /** The last store of vm_map_page, into the PML1 `t` of page `vpn`. */
    method SetPage(t: nat, i: nat, pa: u64, flags: u64, ghost vpn: nat)
      requires Stable() && vpn < VPNS && i == Index(vpn, 0) && pa % 4096 == 0
      requires t in tree.level && tree.level[t] == 0 && TableAt(ram[..], tree.root, vpn, 3, 0) == Some(t)
      modifies ram
      ensures Stable() && OnePage(old(ram[..]), ram[..], tree.root, vpn, Some(MapsTo(pa, flags)))
      ensures OneState(old(ram[..]), ram[..], tree.root, vpn, Some(BitsFor(pa, flags)))
    {
      ghost var m := ram[..];
      TableAtSplits(m, tree.root, vpn, 3, 0);
      LeafEntry(pa, flags);
      SetEntry(t, i, Or(pa, flags));
      LeafEntryBits(pa, flags);
      SetLeaf(m, ram[..], tree, t, vpn, Or(pa, flags));
      SetStates(m, ram[..], tree, t, vpn, Or(pa, flags));
    }

    /** The walk that vm_unmap_page and vm_get_physical_addr share: down to the PML1, or nothing. */
    method WalkDown(va: u64) returns (pml1: Option<nat>)
      requires Stable()
      ensures pml1 == Reach(ram[..], tree.root, PageOf(va), 3)
      ensures pml1 != None ==> pml1.value in tree.level && InRam(ram[..], pml1.value)
    {
      ghost var vpn := PageOf(va);
      IndexBits(va);
      ReachInTree(ram[..], tree, tree.root, vpn, 3);
      var i4 := va / 0x80_0000_0000 % 512;
      assert Downward(ram[..], tree, tree.root, i4);
      if !Present(At(currentPml4, i4)) {
        return None;
      }
      var pml3 := Target(At(currentPml4, i4));
      var i3 := va / 0x4000_0000 % 512;
      assert Downward(ram[..], tree, pml3, i3);
      if !Present(At(pml3, i3)) {
        return None;
      }
      var pml2 := Target(At(pml3, i3));
      var i2 := va / 0x20_0000 % 512;
      assert Downward(ram[..], tree, pml2, i2);
      if !Present(At(pml2, i2)) {
        return None;
      }
      return Some(Target(At(pml2, i2)));
    }

    /** vm_get_physical_addr; 0 also stands for "not mapped". */
    method VmGetPhysicalAddr(va: u64) returns (pa: u64)
      requires Stable()
      ensures pa == match Mapping(PageOf(va))
                    case Some(q) => q * 4096 + va % 4096
                    case None => 0
    {
      var pml1 := WalkDown(va);
      if pml1 == None {
        return 0;
      }
      IndexBits(va);
      var e := At(pml1.value, va / 0x1000 % 512);
      if !Present(e) {
        return 0;
      }
      WithOffset(e, va % 4096);
      return Or(e - e % 4096, va % 4096);
    }

    /** A reference to the frame of an entry is given up, if it belongs to the machine's memory. */
    method Release(e: u64)
      requires pages.Valid()
      requires Target(e) < pages.frames.Length ==> Target(e) !in pages.free
      modifies pages, pages.frames
      ensures pages.Valid()
      ensures pages.frames[..] == if Target(e) < pages.frames.Length
                                  then Dropped(old(pages.frames[..]), old(pages.freePageList), Target(e))
                                  else old(pages.frames[..])
      ensures pages.free == if Target(e) < pages.frames.Length && old(pages.frames[Target(e)].refCount) == 1
                            then [Target(e)] + old(pages.free) else old(pages.free)
    {
      var frame := pages.GetPageFrame(e - e % 4096);
      FrameFound(pages.frames[..], e, frame);
      if frame != None {
        pages.FreePageFrame(frame);
      }
    }

    /**
     * vm_unmap_page. It succeeds exactly when the page is mapped; then it removes that one
     * translation and gives up a reference to the frame, which becomes free with the last one.
     */
    method VmUnmapPage(va: u64) returns (ok: bool)
      requires Valid()
      modifies this, ram, pages, pages.frames
      ensures Valid() && currentPml4 == old(currentPml4) && tree == old(tree)
      ensures ok <==> old(Mapping(PageOf(va))).Some?
      ensures OnePage(old(ram[..]), ram[..], tree.root, PageOf(va), Some(None))
      ensures OneState(old(ram[..]), ram[..], tree.root, PageOf(va), Some(None))
      ensures pages.free ==
                match old(FrameOf(ram[..], tree.root, pages.frames.Length, PageOf(va)))
                case Some(f) => if old(pages.frames[f].refCount) == 1 then [f] + old(pages.free) else old(pages.free)
                case None => old(pages.free)
      ensures pages.frames[..] ==
                match old(FrameOf(ram[..], tree.root, pages.frames.Length, PageOf(va)))
                case Some(f) => Dropped(old(pages.frames[..]), old(pages.freePageList), f)
                case None => old(pages.frames[..])
    {
      var pml1 := WalkDown(va);
      if pml1 == None {
        return false;
      }
      IndexBits(va);
      var i := va / 0x1000 % 512;
      if !Present(At(pml1.value, i)) {
        return false;
      }
      Unset(pml1.value, i, PageOf(va));
      return true;
    }

    /** Gives up the frame of a present leaf entry, that of page `vpn`, and clears the entry. */
    method Unset(t: nat, i: nat, ghost vpn: nat)
      requires Valid() && vpn < VPNS && i == Index(vpn, 0)
      requires t in tree.level && InRam(ram[..], t) && Reach(ram[..], tree.root, vpn, 3) == Some(t)
      requires Present(At(t, i))
      modifies this, ram, pages, pages.frames
      ensures Valid() && currentPml4 == old(currentPml4) && tree == old(tree)
      ensures OnePage(old(ram[..]), ram[..], tree.root, vpn, Some(None))
      ensures OneState(old(ram[..]), ram[..], tree.root, vpn, Some(None))
      ensures pages.free ==
                match old(FrameOf(ram[..], tree.root, pages.frames.Length, vpn))
                case Some(f) => if old(pages.frames[f].refCount) == 1 then [f] + old(pages.free) else old(pages.free)
                case None => old(pages.free)
      ensures pages.frames[..] ==
                match old(FrameOf(ram[..], tree.root, pages.frames.Length, vpn))
                case Some(f) => Dropped(old(pages.frames[..]), old(pages.freePageList), f)
                case None => old(pages.frames[..])
    {
      ghost var m, free := ram[..], pages.free;
      var e := At(t, i);
      assert FrameOf(m, tree.root, pages.frames.Length, vpn)
          == if Target(e) < pages.frames.Length then Some(Target(e)) else None;
      Release(e);
      SetEntry(t, i, 0);
      SetLeaf(m, ram[..], tree, t, vpn, 0);
      SetStates(m, ram[..], tree, t, vpn, 0);
      OwnedUnset(m, ram[..], tree, free, pages.free, pages.frames.Length, vpn);
    }

    // ---- The caller's own frames ----

    /** allocate_page_frame, called by anyone: the frame is no table, and may be mapped at any page. */
    method AllocateFrame() returns (f: Option<nat>)
      requires Valid()
      modifies pages, pages.frames
      ensures Valid()
      ensures f == None <==> old(pages.free) == []
      ensures f == None ==> pages.free == old(pages.free) && pages.frames[..] == old(pages.frames[..])
      ensures f != None ==>
                && old(pages.free) == [f.value] + pages.free
                && pages.frames[..] == old(pages.frames[..])[f.value := PageFrame(None, f.value * PAGE_SIZE, 1, false)]
                && f.value !in pages.free && !InUse(ram[..], tree, f.value)
                && forall v: nat :: v < VPNS ==> Mappable(f.value, v)
    {
      f := pages.AllocatePageFrame();
      if f != None {
        FrameTaken(ram[..], tree, old(pages.free), pages.free, pages.frames.Length, f.value);
      }
    }

    /** free_page_frame gives up the last reference to a frame. */
    ghost predicate LastReference(f: Option<nat>)
      requires f.Some? ==> f.value < pages.frames.Length
      reads pages, pages.frames
    {
      f.Some? && !pages.frames[f.value].isFree && pages.frames[f.value].refCount == 1
    }

    /**
     * free_page_frame, called by anyone: the tables and the ownership rules are kept exactly
     * unless it gives up the last reference to a frame that is a table or mapped.
     */
    method FreeFrame(f: Option<nat>)
      requires Valid() && (f.Some? ==> f.value < pages.frames.Length)
      modifies pages, pages.frames
      ensures Valid() <==> !(old(LastReference(f)) && InUse(ram[..], tree, f.value))
      ensures pages.Valid()
      ensures pages.free == if old(LastReference(f)) then [f.value] + old(pages.free) else old(pages.free)
      ensures pages.frames[..] == if f == None then old(pages.frames[..])
                                  else Dropped(old(pages.frames[..]), old(pages.freePageList), f.value)
    {
      if LastReference(f) {
        OwnedFreed(ram[..], tree, pages.free, pages.frames.Length, f.value);
      }
      pages.FreePageFrame(f);
    }

    /**
     * A frame is allocated, mapped at a page that was not mapped, and unmapped again, or freed if
     * there was no room for the tables: every page translates as before, and the frame is the
     * first of the free ones again.
     */
    method BorrowFrame(va: u64, flags: u64) returns (ok: bool)
      requires Valid() && Mapping(PageOf(va)) == None && flags < 0x1000 && flags % 2 == 1
      modifies this, ram, pages, pages.frames
      ensures Valid() && SamePages(old(ram[..]), ram[..], tree.root) && SameStates(old(ram[..]), ram[..], tree.root)
      ensures ok <==> old(pages.free) != [] && va % 4096 == 0 && old(Lacking(PageOf(va))) < 0
      ensures old(pages.free) != [] ==> pages.free != [] && pages.free[0] == old(pages.free)[0]
    {
      var f := AllocateFrame();
      if f == None {
        return false;
      }
      ghost var was := ram[..];
      ok := MapOwn(va, f.value, flags);
      ghost var m := ram[..];
      if ok {
        var _ := VmUnmapPage(va);
        BackAgain(was, m, ram[..], tree.root, PageOf(va), f.value, BitsFor(f.value * 4096, flags));
      } else {
        FreeFrame(f);
      }
    }

    /** vm_map_page with a frame that is in no use, and is referred to once. */
    method MapOwn(va: u64, f: nat, flags: u64) returns (ok: bool)
      requires Valid() && flags < 0x1000 && flags % 2 == 1
      requires f < pages.frames.Length && pages.frames[f].refCount == 1 && !pages.frames[f].isFree
      requires f !in pages.free && !InUse(ram[..], tree, f)
      modifies this, ram, pages, pages.frames
      ensures Valid() && currentPml4 == old(currentPml4)
      ensures ok <==> va % 4096 == 0 && old(Lacking(PageOf(va))) <= 0
      ensures OnePage(old(ram[..]), ram[..], tree.root, PageOf(va), if ok then Some(Some(f)) else None)
      ensures OneState(old(ram[..]), ram[..], tree.root, PageOf(va),
                       if ok then Some(BitsFor(f * 4096, flags)) else None)
      ensures pages.frames[f] == old(pages.frames[f]) && f !in pages.free && f !in tree.level
      ensures ok ==> FrameOf(ram[..], tree.root, pages.frames.Length, PageOf(va)) == Some(f)
      ensures !ok ==> !InUse(ram[..], tree, f)
    {
      PlainFrame(f, flags);
      ok := VmMapPage(va, f * 4096, flags);
    }

    // ---- Ranges ----

    /** Every page that memory_map_physical would map may be mapped. */
    ghost predicate RangeReady(pa: u64, size: u64, flags: u64)
      reads this, ram, pages, pages.frames
    {
      AllReady(ram[..], tree, pages.free, pages.frames.Length, TEMP_PAGE, pa, flags, PageCount(size))
    }

    /** There are no free frames, and page `i` of the range lacks tables. */
    ghost predicate Stuck(i: nat)
      requires Stable()
      reads this, ram, pages, pages.frames
    {
      pages.free == [] && Lacking((TEMP_PAGE + i) % VPNS) > 0
    }

    /**
     * memory_map_physical: the range appears at one fixed address. It fails on a misaligned
     * address, mapping nothing, and otherwise at the first page that lacks more tables than there
     * are free frames; then the pages in front of that one are mapped.
     */
    method MemoryMapPhysical(pa: u64, size: u64, flags: u64) returns (va: u64, ghost k: nat)
      requires Stable()
      modifies this, ram, pages, pages.frames
      ensures Stable() && currentPml4 == old(currentPml4)
      ensures old(Owns() && RangeReady(pa, size, flags)) ==> Owns()
      ensures va == (if k == PageCount(size) then 0xFFFF_FFFF_8100_0000 else 0) && k <= PageCount(size)
      ensures Window(old(ram[..]), ram[..], tree.root, TEMP_PAGE, pa, flags, k)
      ensures Grown(old(tree), tree, old(pages.free), pages.free)
      ensures Taken(old(pages.frames[..]), pages.frames[..], old(tree), tree)
      ensures WindowStates(old(ram[..]), ram[..], tree.root, TEMP_PAGE, pa, flags, k)
      ensures pa % 4096 != 0 ==> k == 0
      ensures va == 0 && pa % 4096 == 0 ==> Stuck(k)
    {
      var count := MapPages(pa, flags, PageCount(size), Owns() && RangeReady(pa, size, flags));
      va := if count == PageCount(size) then TEMP_BASE else 0;
      k := count;
    }

    /** memory_map_physical's loop, over `n` pages; it stops where a page cannot be mapped. */
    method MapPages(pa: u64, flags: u64, n: nat, ghost ready: bool) returns (k: nat)
      requires Stable()
      requires ready ==>
                 Owns() && AllReady(ram[..], tree, pages.free, pages.frames.Length, TEMP_PAGE, pa, flags, n)
      modifies this, ram, pages, pages.frames
      ensures Stable() && currentPml4 == old(currentPml4) && (ready ==> Owns())
      ensures k <= n && Window(old(ram[..]), ram[..], tree.root, TEMP_PAGE, pa, flags, k)
      ensures Grown(old(tree), tree, old(pages.free), pages.free)
      ensures Taken(old(pages.frames[..]), pages.frames[..], old(tree), tree)
      ensures WindowStates(old(ram[..]), ram[..], tree.root, TEMP_PAGE, pa, flags, k)
      ensures pa % 4096 != 0 ==> k == 0
      ensures k < n && pa % 4096 == 0 ==> Stuck(k)
    {
      ghost var was, tr, free, fs := ram[..], tree, pages.free, pages.frames[..];
      k := 0;
      while k < n
        invariant k <= n && Stable() && currentPml4 == old(currentPml4) && (ready ==> Owns())
        invariant k > 0 ==> pa % 4096 == 0
        invariant Window(was, ram[..], tree.root, TEMP_PAGE, pa, flags, k)
        invariant WindowStates(was, ram[..], tree.root, TEMP_PAGE, pa, flags, k)
        invariant Grown(tr, tree, free, pages.free) && Taken(fs, pages.frames[..], tr, tree)
      {
        var ok := MapNext(pa, flags, k, n, was, tr, free, fs, ready);
        if !ok {
          return;
        }
        k := k + 1;
      }
    }

    /** The body of memory_map_physical's loop: page `i`. */
    method MapNext(pa: u64, flags: u64, i: nat, ghost n: nat, ghost was: seq<u64>, ghost tr: Tree,
        ghost free: seq<nat>, ghost fs: seq<PageFrame>, ghost ready: bool)
      returns (ok: bool)
      requires Stable() && i < n
      requires Window(was, ram[..], tree.root, TEMP_PAGE, pa, flags, i) && Grown(tr, tree, free, pages.free)
      requires Taken(fs, pages.frames[..], tr, tree)
      requires WindowStates(was, ram[..], tree.root, TEMP_PAGE, pa, flags, i)
      requires ready ==> Owns() && AllReady(was, tr, free, pages.frames.Length, TEMP_PAGE, pa, flags, n)
      modifies this, ram, pages, pages.frames
      ensures Stable() && currentPml4 == old(currentPml4)
      ensures ready ==> Owns()
      ensures Window(was, ram[..], tree.root, TEMP_PAGE, pa, flags, if ok then i + 1 else i)
      ensures WindowStates(was, ram[..], tree.root, TEMP_PAGE, pa, flags, if ok then i + 1 else i)
      ensures Grown(tr, tree, free, pages.free) && Taken(fs, pages.frames[..], tr, tree)
      ensures if pa % 4096 != 0 then !ok else !ok ==> Stuck(i)
    {
      ghost var m, t1, f1, vpn := ram[..], tree, pages.free, PageOf(Behind(TEMP_BASE, i));
      ghost var gs := pages.frames[..];
      TempAddress(pa, i);
      if ready {
        WindowMappable(was, m, tr, tree, free, pages.free, pages.frames.Length, TEMP_PAGE, pa, flags, n, i, vpn);
      }
      ok := MapReady(Behind(TEMP_BASE, i), Behind(pa, i), flags, ready);
      GrownTwice(tr, t1, tree, free, f1, pages.free);
      TakenTwice(fs, gs, pages.frames[..], tr, t1, tree);
      WindowNext(was, m, ram[..], tree.root, TEMP_PAGE, pa, flags, i, vpn, ok);
      StatesNext(was, m, ram[..], tree.root, TEMP_PAGE, pa, flags, i, vpn, ok);
    }

    /** vm_map_page on aligned virtual addresses, with a frame that may be mapped there if `ready`. */
    method MapReady(va: u64, page: u64, flags: u64, ghost ready: bool) returns (ok: bool)
      requires Stable() && va % 4096 == 0
      requires ready ==> Owns() && (MapsTo(page, flags).Some? ==> Mappable(MapsTo(page, flags).value, PageOf(va)))
      modifies this, ram, pages, pages.frames
      ensures Stable() && currentPml4 == old(currentPml4)
      ensures ready ==> Owns()
      ensures OnePage(old(ram[..]), ram[..], tree.root, PageOf(va), if ok then Some(MapsTo(page, flags)) else None)
      ensures OneState(old(ram[..]), ram[..], tree.root, PageOf(va), if ok then Some(BitsFor(page, flags)) else None)
      ensures Grown(old(tree), tree, old(pages.free), pages.free)
      ensures Taken(old(pages.frames[..]), pages.frames[..], old(tree), tree)
      ensures if page % 4096 != 0 then !ok else !ok ==> pages.free == [] && Lacking(PageOf(va)) > 0
    {
      ok := VmMapPage(va, page, flags);
    }

    /**
     * memory_unmap_physical: none of the pages of the range is mapped afterwards, and the others are
     * as before. Each frame that was mapped in the range loses one reference, and is free if that
     * was its only one; all others keep their references.
     */
    method MemoryUnmapPhysical(va: u64, size: u64)
      requires Valid()
      modifies this, ram, pages, pages.frames
      ensures Valid() && currentPml4 == old(currentPml4) && tree == old(tree)
      ensures Gap(old(ram[..]), ram[..], tree.root, PageOf(va), PageCount(size))
      ensures GapStates(old(ram[..]), ram[..], tree.root, PageOf(va), PageCount(size))
      ensures LetGo(old(pages.frames[..]), pages.frames[..], old(ram[..]), tree.root, PageOf(va), PageCount(size))
    {
      ghost var was, fs := ram[..], pages.frames[..];
      var i, n := 0, PageCount(size);
      while i < n
        invariant 0 <= i <= n && Valid() && currentPml4 == old(currentPml4) && tree == old(tree)
        invariant Gap(was, ram[..], tree.root, PageOf(va), i) && GapStates(was, ram[..], tree.root, PageOf(va), i)
        invariant LetGo(fs, pages.frames[..], was, tree.root, PageOf(va), i)
      {
        BehindPage(va, i);
        UnmapNext(Behind(va, i), PageOf(va), i, was, fs);
        i := i + 1;
      }
    }

    /** The body of memory_unmap_physical's loop, on the address of page `i` of the range from `first` on. */
    method UnmapNext(va: u64, ghost first: nat, ghost i: nat, ghost was: seq<u64>, ghost fs: seq<PageFrame>)
      requires Valid() && first < VPNS && PageOf(va) == (first + i) % VPNS
      requires Gap(was, ram[..], tree.root, first, i) && GapStates(was, ram[..], tree.root, first, i)
      requires MappedOnce(was, tree.root, |fs|) && LetGo(fs, pages.frames[..], was, tree.root, first, i)
      modifies this, ram, pages, pages.frames
      ensures Valid() && currentPml4 == old(currentPml4) && tree == old(tree)
      ensures Gap(was, ram[..], tree.root, first, i + 1) && GapStates(was, ram[..], tree.root, first, i + 1)
      ensures LetGo(fs, pages.frames[..], was, tree.root, first, i + 1)
    {
      ghost var m, gs, head := ram[..], pages.frames[..], pages.freePageList;
      var _ := VmUnmapPage(va);
      GapNext(was, m, ram[..], tree.root, first, i, PageOf(va));
      GapStatesNext(was, m, ram[..], tree.root, first, i, PageOf(va));
      LetGoNext(fs, gs, pages.frames[..], head, was, m, tree.root, first, i, PageOf(va));
    }

    /** Mapping a range and unmapping it again: every page translates as before. */
    method MapAndUnmap(pa: u64, size: u64, flags: u64)
      requires Valid() && RangeReady(pa, size, flags)
      requires NoneMapped(ram[..], tree.root, TEMP_PAGE, PageCount(size))
      modifies this, ram, pages, pages.frames
      ensures Valid() && SamePages(old(ram[..]), ram[..], tree.root) && SameStates(old(ram[..]), ram[..], tree.root)
    {
      ghost var was := ram[..];
      var _, k := MemoryMapPhysical(pa, size, flags);
      ghost var m := ram[..];
      assert PageOf(TEMP_BASE) == TEMP_PAGE;
      MemoryUnmapPhysical(TEMP_BASE, size);
      WindowClosed(was, m, ram[..], tree.root, TEMP_PAGE, pa, flags, k, PageCount(size));
      StatesClosed(was, m, ram[..], tree.root, TEMP_PAGE, pa, flags, k, PageCount(size));
    }
  }

  lemma FrameTaken(m: seq<u64>, tr: Tree, free: seq<nat>, left: seq<nat>, total: nat, f: nat)
    requires Owned(m, tr, free, total) && free == [f] + left && f !in left && f < total
    requires forall t :: t in tr.level ==> t !in free
    ensures Owned(m, tr, left, total) && !InUse(m, tr, f)
    ensures forall v: nat :: v < VPNS ==> FrameMappable(m, tr, left, total, f, v)
  {
    assert f in free;
    assert forall x :: x in left ==> x in free;
    forall v: nat | v < VPNS
      ensures Translate(m, tr.root, v) != Some(f)
    {
      assert Translate(m, tr.root, v) == Some(f) ==> FrameOf(m, tr.root, total, v) == Some(f);
    }
  }
}
