/**
 * Four levels of 512-entry page tables in physical memory, as the AMD64 Architecture Programmer's
 * Manual, Volume 2, section 5.3 lays them out: what the walk translates, which trees share no
 * table, and what one more table or one leaf entry does to the translation of every page.
 */
module PageTables {
  import opened Machine
  import opened Wrappers

  const ENTRIES := 512
  /** Virtual page numbers: 36 bits, four indices of nine. */
  const VPNS := 0x10_0000_0000

  /** Frame `t` lies within the physical memory `m`, given as 64-bit words. */
  predicate InRam(m: seq<u64>, t: int) {
    0 <= t && ENTRIES * t + ENTRIES <= |m|
  }

  function Entry(m: seq<u64>, t: int, i: int): u64
    requires InRam(m, t) && 0 <= i < ENTRIES
  {
    m[ENTRIES * t + i]
  }

  predicate Present(e: u64) { e % 2 == 1 }

  /** The page number in an entry: everything above the twelve flag bits. */
  function Target(e: u64): nat { e / 4096 }

  /** The index that level `level` of the walk takes from a virtual page number; level 0 is the PML1. */
  function Index(vpn: nat, level: nat): (i: nat)
    ensures i < ENTRIES
  {
    if level == 0 then vpn % ENTRIES else Index(vpn / ENTRIES, level - 1)
  }

  /** The PML1 that the walk from table `t` at level `level` ends in. */
  function Reach(m: seq<u64>, t: int, vpn: nat, level: nat): Option<int>
    decreases level
  {
    if !InRam(m, t) then None
    else if level == 0 then Some(t)
    else
      var e := Entry(m, t, Index(vpn, level));
      if Present(e) then Reach(m, Target(e), vpn, level - 1) else None
  }

  function Leaf(m: seq<u64>, t: int, vpn: nat): Option<nat> {
    if InRam(m, t) && Present(Entry(m, t, Index(vpn, 0))) then Some(Target(Entry(m, t, Index(vpn, 0)))) else None
  }

  /** The physical page a virtual page is mapped to. */
  function Translate(m: seq<u64>, root: int, vpn: nat): Option<nat> {
    match Reach(m, root, vpn, 3)
    case None => None
    case Some(t) => Leaf(m, t, vpn)
  }

  /** The tables that a walk to `vpn` from table `t` would still have to create. */
  function Missing(m: seq<u64>, t: int, vpn: nat, level: nat): (n: nat)
    ensures n <= level
    decreases level
  {
    if level == 0 || !InRam(m, t) then 0
    else
      var e := Entry(m, t, Index(vpn, level));
      if Present(e) then Missing(m, Target(e), vpn, level - 1) else level
  }

  // ---- Trees that share no table ----

  datatype Slot = Slot(table: int, index: int)

  /** The frames that are tables, with their levels, and the one slot that points to each but the root. */
  datatype Tree = Tree(root: int, level: map<int, nat>, owner: map<int, Slot>)

  /** A present entry of a table above the PML1 level points to a table it owns, one level down. */
  ghost predicate Downward(m: seq<u64>, tr: Tree, t: int, i: int)
    requires InRam(m, t) && 0 <= i < ENTRIES && t in tr.level
  {
    Present(Entry(m, t, i)) ==>
      var c := Target(Entry(m, t, i));
      && c in tr.level && c != tr.root && tr.level[c] + 1 == tr.level[t]
      && c in tr.owner && tr.owner[c] == Slot(t, i)
  }

  /** A table that is not the root is pointed to by its owning slot. */
  ghost predicate Upward(m: seq<u64>, tr: Tree, c: int)
    requires c in tr.level
  {
    && c in tr.owner
    && var Slot(t, i) := tr.owner[c];
    && t in tr.level && tr.level[t] == tr.level[c] + 1 && InRam(m, t) && 0 <= i < ENTRIES
    && Present(Entry(m, t, i)) && Target(Entry(m, t, i)) == c
  }

  ghost predicate TreeOk(m: seq<u64>, tr: Tree) {
    && tr.root in tr.level && tr.level[tr.root] == 3
    && (forall t :: t in tr.level ==> InRam(m, t) && tr.level[t] <= 3)
    && (forall t, i :: t in tr.level && tr.level[t] > 0 && 0 <= i < ENTRIES ==> Downward(m, tr, t, i))
    && (forall c :: c in tr.level && c != tr.root ==> Upward(m, tr, c))
  }

  /** The walk stays inside the tree. */
  lemma {:induction false} ReachInTree(m: seq<u64>, tr: Tree, t: int, vpn: nat, level: nat)
    requires TreeOk(m, tr) && t in tr.level && tr.level[t] == level
    ensures Reach(m, t, vpn, level).Some? ==>
              var p := Reach(m, t, vpn, level).value; p in tr.level && tr.level[p] == 0
    decreases level
  {
    if level > 0 {
      assert Downward(m, tr, t, Index(vpn, level));
      if Present(Entry(m, t, Index(vpn, level))) {
        ReachInTree(m, tr, Target(Entry(m, t, Index(vpn, level))), vpn, level - 1);
      }
    }
  }

  /** Two walks that meet took the same way. */
  lemma {:induction false} WalksMeet(m: seq<u64>, tr: Tree, s: int, t: int, v: nat, w: nat, level: nat)
    requires TreeOk(m, tr) && s in tr.level && t in tr.level && tr.level[s] == tr.level[t] == level
    requires Reach(m, s, v, level).Some? && Reach(m, s, v, level) == Reach(m, t, w, level)
    ensures s == t && forall k :: 1 <= k <= level ==> Index(v, k) == Index(w, k)
    decreases level
  {
    if level > 0 {
      var i, j := Index(v, level), Index(w, level);
      assert Downward(m, tr, s, i) && Downward(m, tr, t, j);
      WalksMeet(m, tr, Target(Entry(m, s, i)), Target(Entry(m, t, j)), v, w, level - 1);
    }
  }

  lemma IndexDetermines(v: nat, w: nat)
    requires v < VPNS && w < VPNS
    requires forall k :: 1 <= k <= 3 ==> Index(v, k) == Index(w, k)
    ensures v / ENTRIES == w / ENTRIES
  {
    Recomposed(v);
    Recomposed(w);
    assert Index(v, 1) == Index(w, 1) && Index(v, 2) == Index(w, 2) && Index(v, 3) == Index(w, 3);
  }

  lemma Recomposed(v: nat)
    requires v < VPNS
    ensures v / ENTRIES == ENTRIES * (ENTRIES * Index(v, 3) + Index(v, 2)) + Index(v, 1)
  {
    var v1 := v / 512;
    var v2 := v1 / 512;
    var v3 := v2 / 512;
    assert v3 < 512;
    assert Index(v, 1) == Index(v1, 0);
    assert Index(v, 2) == Index(v1, 1) == Index(v2, 0);
    assert Index(v, 3) == Index(v1, 2) == Index(v2, 1) == Index(v3, 0) == v3;
  }

  lemma IndexValues(v: nat)
    ensures Index(v, 0) == v % 512 && Index(v, 1) == v / 512 % 512
    ensures Index(v, 2) == v / 0x4_0000 % 512 && Index(v, 3) == v / 0x800_0000 % 512
  {
    var v1 := v / 512;
    var v2 := v1 / 512;
    var v3 := v2 / 512;
    assert Index(v, 1) == Index(v1, 0);
    assert Index(v, 2) == Index(v1, 1) == Index(v2, 0);
    assert Index(v, 3) == Index(v1, 2) == Index(v2, 1) == Index(v3, 0);
    assert v2 == v / 0x4_0000 && v3 == v / 0x800_0000;
  }

  /** Only one page's walk uses a given leaf entry. */
  lemma OneLeaf(m: seq<u64>, tr: Tree, v: nat, w: nat)
    requires TreeOk(m, tr) && v < VPNS && w < VPNS && v != w
    requires Reach(m, tr.root, v, 3).Some? && Reach(m, tr.root, v, 3) == Reach(m, tr.root, w, 3)
    ensures Index(v, 0) != Index(w, 0)
  {
    WalksMeet(m, tr, tr.root, tr.root, v, w, 3);
    IndexDetermines(v, w);
  }

  // ---- A new table ----

  /** `w` is `m` with frame `c` cleared and then the entry `e` stored in slot `i` of table `t`. */
  ghost predicate TableAdded(m: seq<u64>, w: seq<u64>, t: int, i: int, c: int, e: u64) {
    && |w| == |m| && InRam(m, t) && InRam(m, c) && 0 <= i < ENTRIES && t != c
    && Entry(w, t, i) == e
    && (forall s, j :: InRam(m, s) && 0 <= j < ENTRIES && !(s == t && j == i) ==>
          Entry(w, s, j) == if s == c then 0 else Entry(m, s, j))
  }

  function WithTable(tr: Tree, t: int, i: int, c: int): Tree
    requires t in tr.level && tr.level[t] > 0
  {
    Tree(tr.root, tr.level[c := tr.level[t] - 1], tr.owner[c := Slot(t, i)])
  }

  /** Hanging a cleared frame into an empty slot keeps the tree and translates nothing new. */
  lemma AddTable(m: seq<u64>, w: seq<u64>, tr: Tree, t: int, i: int, c: int, e: u64)
    requires TreeOk(m, tr) && t in tr.level && tr.level[t] > 0 && c !in tr.level
    requires TableAdded(m, w, t, i, c, e) && !Present(Entry(m, t, i)) && Present(e) && Target(e) == c
    ensures TreeOk(w, WithTable(tr, t, i, c))
    ensures forall vpn: nat :: Translate(w, tr.root, vpn) == Translate(m, tr.root, vpn)
  {
    var tw := WithTable(tr, t, i, c);
    forall s, j | s in tw.level && tw.level[s] > 0 && 0 <= j < ENTRIES
      ensures InRam(w, s) && Downward(w, tw, s, j)
    {
      if s != c {
        assert Downward(m, tr, s, j);
      }
    }
    forall d | d in tw.level && d != tw.root
      ensures Upward(w, tw, d)
    {
      if d != c {
        assert Upward(m, tr, d);
      }
    }
    forall vpn: nat
      ensures Translate(w, tr.root, vpn) == Translate(m, tr.root, vpn)
    {
      AddReach(m, w, tr, t, i, c, e, tr.root, vpn, 3);
    }
  }

  lemma {:induction false} AddReach(m: seq<u64>, w: seq<u64>, tr: Tree, t: int, i: int, c: int, e: u64, s: int,
      vpn: nat, level: nat)
    requires TreeOk(m, tr) && t in tr.level && tr.level[t] > 0 && c !in tr.level
    requires TableAdded(m, w, t, i, c, e) && !Present(Entry(m, t, i)) && Present(e) && Target(e) == c
    requires s in tr.level && tr.level[s] == level
    ensures match Reach(m, s, vpn, level)
            case Some(p) => Reach(w, s, vpn, level) == Some(p) && Leaf(w, p, vpn) == Leaf(m, p, vpn)
            case None => Reach(w, s, vpn, level) in {None, Some(c)} && Leaf(w, c, vpn) == None
    decreases level
  {
    var k := Index(vpn, level);
    if level == 0 {
      assert s != t;
    } else {
      assert Downward(m, tr, s, k);
      if s == t && k == i {
        ClearedReach(w, c, vpn, level - 1);
      } else if Present(Entry(m, s, k)) {
        AddReach(m, w, tr, t, i, c, e, Target(Entry(m, s, k)), vpn, level - 1);
      }
    }
  }

  /** From a cleared table nothing is translated. */
  lemma ClearedReach(m: seq<u64>, c: int, vpn: nat, level: nat)
    requires InRam(m, c) && forall j :: 0 <= j < ENTRIES ==> Entry(m, c, j) == 0
    ensures Reach(m, c, vpn, level) == if level == 0 then Some(c) else None
    ensures Leaf(m, c, vpn) == None
  {
  }

  // ---- A leaf entry ----

  /** `w` is `m` with the entry `e` stored in slot `i` of table `t`. */
  ghost predicate EntrySet(m: seq<u64>, w: seq<u64>, t: int, i: int, e: u64) {
    && |w| == |m| && InRam(m, t) && 0 <= i < ENTRIES
    && Entry(w, t, i) == e
    && (forall s, j :: InRam(m, s) && 0 <= j < ENTRIES && !(s == t && j == i) ==> Entry(w, s, j) == Entry(m, s, j))
  }

  lemma {:induction false} SetReach(m: seq<u64>, w: seq<u64>, tr: Tree, t: int, i: int, e: u64, s: int,
      vpn: nat, level: nat)
    requires TreeOk(m, tr) && t in tr.level && tr.level[t] == 0 && EntrySet(m, w, t, i, e)
    requires s in tr.level && tr.level[s] == level
    ensures Reach(w, s, vpn, level) == Reach(m, s, vpn, level)
    decreases level
  {
    if level > 0 {
      var k := Index(vpn, level);
      assert Downward(m, tr, s, k);
      if Present(Entry(m, s, k)) {
        SetReach(m, w, tr, t, i, e, Target(Entry(m, s, k)), vpn, level - 1);
      }
    }
  }

  /** Storing a leaf entry changes the translation of exactly one page. */
  lemma SetLeaf(m: seq<u64>, w: seq<u64>, tr: Tree, t: int, vpn: nat, e: u64)
    requires TreeOk(m, tr) && vpn < VPNS
    requires Reach(m, tr.root, vpn, 3) == Some(t) && EntrySet(m, w, t, Index(vpn, 0), e)
    ensures TreeOk(w, tr)
    ensures Translate(w, tr.root, vpn) == if Present(e) then Some(Target(e)) else None
    ensures forall v: nat :: v < VPNS && v != vpn ==> Translate(w, tr.root, v) == Translate(m, tr.root, v)
  {
    ReachInTree(m, tr, tr.root, vpn, 3);
    forall s, j | s in tr.level && tr.level[s] > 0 && 0 <= j < ENTRIES
      ensures InRam(w, s) && Downward(w, tr, s, j)
    {
      assert Downward(m, tr, s, j);
    }
    forall d | d in tr.level && d != tr.root
      ensures Upward(w, tr, d)
    {
      assert Upward(m, tr, d);
    }
    SetReach(m, w, tr, t, Index(vpn, 0), e, tr.root, vpn, 3);
    forall v: nat | v < VPNS && v != vpn
      ensures Translate(w, tr.root, v) == Translate(m, tr.root, v)
    {
      SetReach(m, w, tr, t, Index(vpn, 0), e, tr.root, v, 3);
      if Reach(m, tr.root, v, 3) == Some(t) {
        OneLeaf(m, tr, v, vpn);
      }
    }
  }

  // ---- The way down to a page's PML1 ----

  /** The table at level `k` on the walk to `vpn` from table `s` at level `level`. */
  function TableAt(m: seq<u64>, s: int, vpn: nat, level: nat, k: nat): Option<int>
    requires k <= level
    decreases level
  {
    if !InRam(m, s) then None
    else if level == k then Some(s)
    else
      var e := Entry(m, s, Index(vpn, level));
      if Present(e) then TableAt(m, Target(e), vpn, level - 1, k) else None
  }

  /** What lies below a table on the way is what lies below the start. */
  lemma {:induction false} TableAtSplits(m: seq<u64>, s: int, vpn: nat, level: nat, k: nat)
    requires k <= level && TableAt(m, s, vpn, level, k).Some?
    ensures var t := TableAt(m, s, vpn, level, k).value;
            && Reach(m, s, vpn, level) == Reach(m, t, vpn, k)
            && Missing(m, s, vpn, level) == Missing(m, t, vpn, k)
            && (k > 0 && InRam(m, t) ==>
                  var e := Entry(m, t, Index(vpn, k));
                  Present(e) && InRam(m, Target(e)) ==> TableAt(m, s, vpn, level, k - 1) == Some(Target(e)))
    decreases level
  {
    if level > k {
      TableAtSplits(m, Target(Entry(m, s, Index(vpn, level))), vpn, level - 1, k);
    } else if k > 0 && Present(Entry(m, s, Index(vpn, k))) {
      assert TableAt(m, Target(Entry(m, s, Index(vpn, k))), vpn, k - 1, k - 1) ==
             if InRam(m, Target(Entry(m, s, Index(vpn, k)))) then Some(Target(Entry(m, s, Index(vpn, k)))) else None;
    }
  }

  /** A new table below a table on the way leaves the way to it as it was. */
  lemma {:induction false} TableAtKept(m: seq<u64>, w: seq<u64>, tr: Tree, t: int, i: int, c: int, e: u64,
      s: int, vpn: nat, level: nat, k: nat)
    requires TreeOk(m, tr) && t in tr.level && tr.level[t] == k > 0 && c !in tr.level
    requires TableAdded(m, w, t, i, c, e)
    requires s in tr.level && tr.level[s] == level >= k && TableAt(m, s, vpn, level, k) == Some(t)
    ensures TableAt(w, s, vpn, level, k) == Some(t)
    decreases level
  {
    if level > k {
      assert Downward(m, tr, s, Index(vpn, level));
      TableAtKept(m, w, tr, t, i, c, e, Target(Entry(m, s, Index(vpn, level))), vpn, level - 1, k);
    }
  }

  /** Below a cleared table every table is missing. */
  lemma ClearedMissing(m: seq<u64>, c: int, vpn: nat, level: nat)
    requires InRam(m, c) && forall j :: 0 <= j < ENTRIES ==> Entry(m, c, j) == 0
    ensures Missing(m, c, vpn, level) == level
  {
  }

  // ---- Entries ----

  const PAGE_PRESENT := 0x001
  const PAGE_WRITABLE := 0x002

  /** `address | flags`, for a page-aligned address. */
  lemma LeafEntry(address: u64, flags: u64)
    requires address % 4096 == 0
    ensures Or(address, flags) < TWO_64
    ensures Present(Or(address, flags)) <==> flags % 2 == 1
    ensures Target(Or(address, flags)) == Or(address / 4096, flags / 4096)
    ensures flags < 4096 ==> Target(Or(address, flags)) == address / 4096
  {
    OrPages(address / 4096, flags / 4096, flags % 4096);
    EntryParts(Or(address / 4096, flags / 4096), flags % 4096, flags);
  }

  lemma OrPages(p: nat, f: nat, d: nat)
    requires d < 4096 && p < 0x10_0000_0000_0000 && f < 0x10_0000_0000_0000
    ensures Or(p * 4096, f * 4096 + d) == Or(p, f) * 4096 + d
    ensures Or(p, f) < 0x10_0000_0000_0000
    ensures f == 0 ==> Or(p, f) == p
  {
    OrPaged(p, f, d);
    OrZero(p);
    Pow2Fifty2();
    OrSplit(0, 0, p, f, 52);
  }

  lemma Pow2Twelve()
    ensures Pow2(12) == 4096
  {
    assert Pow2(4) == 16 && Pow2(8) == 256;
  }

  lemma OrPaged(p: nat, f: nat, d: nat)
    requires d < 4096
    ensures Or(p * 4096, f * 4096 + d) == Or(p, f) * 4096 + d
  {
    Pow2Twelve();
    OrSplit(p, f, 0, d, 12);
    OrZero(d);
  }

  lemma EntryParts(q: nat, d: nat, flags: u64)
    requires d == flags % 4096 && q < 0x10_0000_0000_0000
    ensures var e := q * 4096 + d; e < TWO_64 && (Present(e) <==> flags % 2 == 1) && Target(e) == q
  {
  }

  lemma Pow2Fifty2()
    ensures Pow2(52) == 0x10_0000_0000_0000
  {
    assert Pow2(8) == 0x100;
    assert Pow2(16) == 0x1_0000;
    assert Pow2(24) == 0x100_0000;
    assert Pow2(32) == 0x1_0000_0000;
    assert Pow2(40) == 0x100_0000_0000;
    assert Pow2(48) == 0x1_0000_0000_0000;
  }

  /** `phys | PAGE_PRESENT | PAGE_WRITABLE` of the frame numbered `c`. */
  lemma TableEntry(c: nat)
    requires c < 0x10_0000_0000_0000
    ensures var e := Or(Or(c * 4096, PAGE_PRESENT), PAGE_WRITABLE);
            e == c * 4096 + 3 < TWO_64 && Present(e) && Target(e) == c
  {
    Pow2Twelve();
    OrFlags();
    OrPaged(c, 0, 1);
    OrZero(c);
    OrSplit(c, 0, 1, 2, 12);
    EntryParts(c, 3, 3);
  }

  lemma OrFlags()
    ensures Or(0, 1) == 1 && Or(1, 2) == 3
  {
    OrZero(1);
    OrStep(0, 1, 1, 0);
    assert Or(2 * 0 + 1, 2 * 1 + 0) == 2 * Or(0, 1) + 1;
  }
}
