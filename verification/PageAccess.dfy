/**
 * What a page may be used for: the attribute bits of its leaf entry, and what the table entries on
 * the way to it permit. A walk permits writing, or user access, if every entry on it does.
 */
module PageAccess {
  import opened Machine
  import opened Wrappers
  import opened PageTables

  const BIT_63 := 0x8000_0000_0000_0000

  /** The two permissions in an entry: bit 1 allows writing, bit 2 user access. */
  datatype Permission = Write | User

  predicate Allows(e: u64, p: Permission) {
    match p
    case Write => e / 2 % 2 == 1
    case User => e / 4 % 2 == 1
  }

  /** The attribute bits of an entry: the low twelve, and bit 63, which forbids execution. */
  function Bits(e: u64): u64 {
    e % 4096 + e / BIT_63 * BIT_63
  }

  /** The attribute bits of a mapped page. */
  function LeafBits(m: seq<u64>, root: int, v: nat): Option<u64> {
    match Reach(m, root, v, 3)
    case None => None
    case Some(t) =>
      if InRam(m, t) && Present(Entry(m, t, Index(v, 0))) then Some(Bits(Entry(m, t, Index(v, 0)))) else None
  }

  /**
   * The table entries on the way to page `v` allow `p`. Those that are still missing count as
   * vm_map_page creates them: writable, and not for users.
   */
  function TablesPass(m: seq<u64>, t: int, v: nat, level: nat, p: Permission): bool
    decreases level
  {
    if level == 0 || !InRam(m, t) then true
    else
      var e := Entry(m, t, Index(v, level));
      if Present(e) then Allows(e, p) && TablesPass(m, Target(e), v, level - 1, p) else p.Write?
  }

  /** The attributes of a page, if it is mapped, and whether the tables let writing and user access pass. */
  datatype PageState = PageState(bits: Option<u64>, write: bool, user: bool) {
    predicate Writes() { bits.Some? && Allows(bits.value, Write) && write }

    predicate Users() { bits.Some? && Allows(bits.value, User) && user }
  }

  function StateOf(m: seq<u64>, root: int, v: nat): PageState {
    PageState(LeafBits(m, root, v), TablesPass(m, root, v, 3, Write), TablesPass(m, root, v, 3, User))
  }

  /** Every page is in `m` what it is in `was`. */
  ghost predicate SameStates(was: seq<u64>, m: seq<u64>, root: int) {
    forall v: nat :: v < VPNS ==> StateOf(m, root, v) == StateOf(was, root, v)
  }

  /** Page `vpn` has the attributes that `change` says, if it is a change; all else is as in `was`. */
  ghost predicate OneState(was: seq<u64>, m: seq<u64>, root: int, vpn: nat, change: Option<Option<u64>>) {
    forall v: nat :: v < VPNS ==>
      StateOf(m, root, v) ==
      if v == vpn && change.Some? then StateOf(was, root, v).(bits := change.value) else StateOf(was, root, v)
  }

  /** The attributes that mapping the address `pa` with `flags` gives a page. */
  function BitsFor(pa: u64, flags: u64): Option<u64> {
    if flags % 2 == 0 then None
    else Some(flags % 4096 + if pa >= BIT_63 || flags >= BIT_63 then BIT_63 else 0)
  }

  /** For addresses below 2^63 they are those of the flags. */
  lemma BitsOfFlags(pa: u64, flags: u64)
    requires pa < BIT_63 && flags % 2 == 1
    ensures BitsFor(pa, flags) == Some(flags % 4096 + flags / BIT_63 * BIT_63)
  {
  }

  // ---- A mapped page's walk, entry by entry ----

  /** The table at level `k` on the walk from table `t` allows `p` in its entry for page `v`. */
  ghost predicate EntryPasses(m: seq<u64>, t: int, v: nat, level: nat, k: nat, p: Permission)
    requires k <= level
  {
    match TableAt(m, t, v, level, k)
    case None => false
    case Some(s) => InRam(m, s) && Allows(Entry(m, s, Index(v, k)), p)
  }

  /** Each table entry on the walk from table `t` allows `p`. */
  ghost predicate AllPass(m: seq<u64>, t: int, v: nat, level: nat, p: Permission) {
    forall k :: 1 <= k <= level ==> EntryPasses(m, t, v, level, k, p)
  }

  /** On the walk to a page that has all its tables, the tables let `p` pass exactly when each entry does. */
  lemma {:induction false} EveryEntry(m: seq<u64>, t: int, v: nat, level: nat, p: Permission)
    requires Reach(m, t, v, level).Some?
    ensures TablesPass(m, t, v, level, p) <==> AllPass(m, t, v, level, p)
    decreases level
  {
    if level > 0 {
      EveryEntry(m, Target(Entry(m, t, Index(v, level))), v, level - 1, p);
      OneMore(m, t, v, level, level - 1, p);
    }
  }

  lemma OneMore(m: seq<u64>, t: int, v: nat, level: nat, below: nat, p: Permission)
    requires level == below + 1 && InRam(m, t) && Present(Entry(m, t, Index(v, level)))
    ensures var e := Entry(m, t, Index(v, level));
            AllPass(m, t, v, level, p) <==> Allows(e, p) && AllPass(m, Target(e), v, below, p)
  {
    var e := Entry(m, t, Index(v, level));
    assert EntryPasses(m, t, v, level, level, p) <==> Allows(e, p);
    assert forall k :: 1 <= k <= below ==>
                         (EntryPasses(m, t, v, level, k, p) <==> EntryPasses(m, Target(e), v, below, k, p));
  }

  /** A page mapped with `flags` may be written exactly when they and all its tables say so; the same for users. */
  lemma MappedAccess(st: PageState, pa: u64, flags: u64)
    requires flags % 2 == 1
    ensures st.(bits := BitsFor(pa, flags)).Writes() <==> flags / 2 % 2 == 1 && st.write
    ensures st.(bits := BitsFor(pa, flags)).Users() <==> flags / 4 % 2 == 1 && st.user
  {
    var b, top := BitsFor(pa, flags).value, if pa >= BIT_63 || flags >= BIT_63 then 1 else 0;
    var d, h := flags % 4096, flags / 4096;
    var l, g := d % 8, d / 8;
    LowThreeBits(flags, h * 512 + g, l);
    LowThreeBits(b, top * (BIT_63 / 8) + g, l);
  }

  /** Bits 1 and 2 of a number are those of its remainder by eight. */
  lemma LowThreeBits(x: int, h: int, l: nat)
    requires x == 8 * h + l && l < 8
    ensures x / 2 % 2 == l / 2 % 2
    ensures x / 4 % 2 == if l >= 4 then 1 else 0
  {
    DivUnique(x, 2, 4 * h + l / 2, l % 2);
    DivUnique(4 * h + l / 2, 2, 2 * h + l / 4, l / 2 % 2);
    DivUnique(x, 4, 2 * h + l / 4, l % 4);
    DivUnique(2 * h + l / 4, 2, h, l / 4);
  }

  // ---- A new table ----

  lemma {:induction false} AddPass(m: seq<u64>, w: seq<u64>, tr: Tree, t: int, i: int, c: int, e: u64, s: int,
                                   v: nat, level: nat, p: Permission)
    requires TreeOk(m, tr) && t in tr.level && tr.level[t] > 0 && c !in tr.level
    requires TableAdded(m, w, t, i, c, e) && !Present(Entry(m, t, i)) && e == c * 4096 + 3
    requires s in tr.level && tr.level[s] == level
    ensures TablesPass(w, s, v, level, p) == TablesPass(m, s, v, level, p)
    decreases level
  {
    var k := Index(v, level);
    if level > 0 {
      assert Downward(m, tr, s, k);
      if s == t && k == i {
        NewEntry(c, e);
      } else if Present(Entry(m, s, k)) {
        AddPass(m, w, tr, t, i, c, e, Target(Entry(m, s, k)), v, level - 1, p);
      }
    }
  }

  lemma NewEntry(c: int, e: u64)
    requires c >= 0 && e == c * 4096 + 3
    ensures Present(e) && Target(e) == c && Allows(e, Write) && !Allows(e, User)
  {
    LowThree(c * 512, e);
  }

  lemma LowThree(h: int, e: int)
    requires e == 8 * h + 3
    ensures e % 2 == 1 && e / 2 % 2 == 1 && e / 4 % 2 == 0
  {
    DivUnique(e, 2, 4 * h + 1, 1);
    DivUnique(4 * h + 1, 2, 2 * h, 1);
    DivUnique(e, 4, 2 * h, 3);
    DivUnique(2 * h, 2, h, 0);
  }

  lemma {:induction false} AddBits(m: seq<u64>, w: seq<u64>, tr: Tree, t: int, i: int, c: int, e: u64, v: nat)
    requires TreeOk(m, tr) && t in tr.level && tr.level[t] > 0 && c !in tr.level
    requires TableAdded(m, w, t, i, c, e) && !Present(Entry(m, t, i)) && Present(e) && Target(e) == c
    ensures LeafBits(w, tr.root, v) == LeafBits(m, tr.root, v)
  {
    AddReach(m, w, tr, t, i, c, e, tr.root, v, 3);
    ReachInTree(m, tr, tr.root, v, 3);
  }

  /** Hanging a cleared frame into an empty slot changes no page's attributes, and no permission. */
  lemma AddStates(m: seq<u64>, w: seq<u64>, tr: Tree, t: int, i: int, c: int, e: u64)
    requires TreeOk(m, tr) && t in tr.level && tr.level[t] > 0 && c !in tr.level
    requires TableAdded(m, w, t, i, c, e) && !Present(Entry(m, t, i)) && e == c * 4096 + 3
    ensures SameStates(m, w, tr.root)
  {
    NewEntry(c, e);
    forall v: nat | v < VPNS
      ensures StateOf(w, tr.root, v) == StateOf(m, tr.root, v)
    {
      AddBits(m, w, tr, t, i, c, e, v);
      AddPass(m, w, tr, t, i, c, e, tr.root, v, 3, Write);
      AddPass(m, w, tr, t, i, c, e, tr.root, v, 3, User);
    }
  }

  // ---- A leaf entry ----

  lemma {:induction false} SetPass(m: seq<u64>, w: seq<u64>, tr: Tree, t: int, i: int, e: u64, s: int, v: nat,
                                   level: nat, p: Permission)
    requires TreeOk(m, tr) && t in tr.level && tr.level[t] == 0 && EntrySet(m, w, t, i, e)
    requires s in tr.level && tr.level[s] == level
    ensures TablesPass(w, s, v, level, p) == TablesPass(m, s, v, level, p)
    decreases level
  {
    if level > 0 {
      assert Downward(m, tr, s, Index(v, level));
      if Present(Entry(m, s, Index(v, level))) {
        SetPass(m, w, tr, t, i, e, Target(Entry(m, s, Index(v, level))), v, level - 1, p);
      }
    }
  }

  lemma SetBits(m: seq<u64>, w: seq<u64>, tr: Tree, t: int, vpn: nat, e: u64, v: nat)
    requires TreeOk(m, tr) && vpn < VPNS && v < VPNS
    requires Reach(m, tr.root, vpn, 3) == Some(t) && EntrySet(m, w, t, Index(vpn, 0), e)
    ensures LeafBits(w, tr.root, v) ==
            if v != vpn then LeafBits(m, tr.root, v) else if Present(e) then Some(Bits(e)) else None
  {
    ReachInTree(m, tr, tr.root, vpn, 3);
    ReachInTree(m, tr, tr.root, v, 3);
    SetReach(m, w, tr, t, Index(vpn, 0), e, tr.root, v, 3);
    if v != vpn && Reach(m, tr.root, v, 3) == Some(t) {
      OneLeaf(m, tr, v, vpn);
    }
  }

  /** Storing a leaf entry changes the attributes of exactly one page, and no permission of a table. */
  lemma SetStates(m: seq<u64>, w: seq<u64>, tr: Tree, t: int, vpn: nat, e: u64)
    requires TreeOk(m, tr) && vpn < VPNS
    requires Reach(m, tr.root, vpn, 3) == Some(t) && EntrySet(m, w, t, Index(vpn, 0), e)
    ensures OneState(m, w, tr.root, vpn, Some(if Present(e) then Some(Bits(e)) else None))
  {
    ReachInTree(m, tr, tr.root, vpn, 3);
    forall v: nat | v < VPNS
      ensures StateOf(w, tr.root, v) ==
              if v == vpn then StateOf(m, tr.root, v).(bits := if Present(e) then Some(Bits(e)) else None)
              else StateOf(m, tr.root, v)
    {
      SetBits(m, w, tr, t, vpn, e, v);
      SetPass(m, w, tr, t, Index(vpn, 0), e, tr.root, v, 3, Write);
      SetPass(m, w, tr, t, Index(vpn, 0), e, tr.root, v, 3, User);
    }
  }

  /** The attribute bits of an address or-ed with flags. */
  lemma LeafEntryBits(pa: u64, flags: u64)
    requires pa % 4096 == 0
    ensures Or(pa, flags) < TWO_64
    ensures BitsFor(pa, flags) == if Present(Or(pa, flags)) then Some(Bits(Or(pa, flags))) else None
  {
    LeafEntry(pa, flags);
    var p, f, d := pa / 4096, flags / 4096, flags % 4096;
    OrPages(p, f, d);
    TopBit(p, f);
    HighBit(Or(p, f), d);
  }

  const HALF := 0x8_0000_0000_0000

  lemma TopBit(p: nat, f: nat)
    requires p < 0x10_0000_0000_0000 && f < 0x10_0000_0000_0000
    ensures Or(p, f) / HALF == if p >= HALF || f >= HALF then 1 else 0
  {
    var a, b, c, d := p / HALF, f / HALF, p % HALF, f % HALF;
    assert p == a * HALF + c && f == b * HALF + d;
    OrHigh(a, b, c, d, Or(p, f));
    SmallOrs();
  }

  lemma Halved(o: nat, x: nat, y: nat)
    requires o == x * HALF + y && y < HALF
    ensures o / HALF == x
  {
  }

  lemma OrHigh(a: nat, b: nat, c: nat, d: nat, o: nat)
    requires c < HALF && d < HALF && o == Or(a * HALF + c, b * HALF + d)
    ensures o / HALF == Or(a, b)
  {
    Pow51();
    OrSplit(a, b, c, d, 51);
    Halved(o, Or(a, b), Or(c, d));
  }

  lemma Pow51()
    ensures Pow2(51) == HALF
  {
    Pow2Fifty2();
  }

  lemma SmallOrs()
    ensures Or(0, 0) == 0 && Or(0, 1) == 1 && Or(1, 0) == 1 && Or(1, 1) == 1
  {
  }

  lemma HighBit(o: nat, d: nat)
    requires o < 0x10_0000_0000_0000 && d < 4096
    ensures o * 4096 + d < TWO_64 && (o * 4096 + d) / BIT_63 == o / 0x8_0000_0000_0000
    ensures (o * 4096 + d) % 4096 == d
  {
  }
}
