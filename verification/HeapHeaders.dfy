/** What the header stores of kmalloc and kfree do to the linked list of blocks. */
module HeapHeaders {
  import opened Machine
  import opened HeapBlocks
  import opened HeapLayout
  import opened HeapRuns

  // ---- A list of headers, at one of its blocks ----

  /** The blocks `L`, `b`, `R` lie one behind the other, inside the heap. */
  ghost predicate InOrder(L: seq<Block>, b: Block, R: seq<Block>) {
    && HEAP_BASE <= b.addr && b.End() <= HEAP_TOP && b.size >= 0 && b.size % 8 == 0
    && (forall x :: x in L ==> HEAP_BASE <= x.addr && x.size >= 0 && x.End() <= b.addr)
    && (forall x :: x in R ==> b.End() <= x.addr && x.size >= 0 && x.End() <= HEAP_TOP)
    && (R != [] ==> R[0].addr == b.End() && forall x :: x in R[1..] ==> R[0].End() <= x.addr)
    && (R == [] ==> b.End() == HEAP_TOP)
    && (L != [] ==> L[|L| - 1].End() == b.addr && forall x :: x in L[..|L| - 1] ==> x.End() <= L[|L| - 1].addr)
  }

  lemma Ordered(L: seq<Block>, b: Block, R: seq<Block>)
    requires Tiled(L + [b] + R, HEAP_BASE, HEAP_TOP)
    ensures InOrder(L, b, R)
  {
    assert L + [b] + R == L + ([b] + R);
    var mid := TiledSplit(L, [b] + R, HEAP_BASE, HEAP_TOP);
    TiledBounds(L, HEAP_BASE, mid);
    assert ([b] + R)[1..] == R;
    TiledBounds(R, b.End(), HEAP_TOP);
    TiledBounds([b] + R, mid, HEAP_TOP);
    assert ([b] + R)[0] == b && b in [b] + R;
    if R != [] {
      TiledBounds(R[1..], R[0].End(), HEAP_TOP);
    }
    if L != [] {
      var K, a := L[..|L| - 1], L[|L| - 1];
      assert L == K + [a];
      var m := TiledSplit(K, [a], HEAP_BASE, mid);
      TiledBounds(K, HEAP_BASE, m);
      assert [a][1..] == [];
    }
  }

  /** The headers `hs` link `L`, `b`, `R`, seen from `b`. */
  ghost predicate LinkedAround(hs: Headers, L: seq<Block>, b: Block, R: seq<Block>) {
    && Linked(hs, L, 0, b.addr)
    && b.addr in hs && hs[b.addr] == HeaderOf(b, Last(L, 0), First(R, 0))
    && Linked(hs, R, b.addr, 0)
  }

  lemma Around(hs: Headers, L: seq<Block>, b: Block, R: seq<Block>)
    ensures Linked(hs, L + [b] + R, 0, 0) <==> LinkedAround(hs, L, b, R)
  {
    LinkedThree(hs, L, [b], R);
    LinkedOne(hs, b, Last(L, 0), First(R, 0));
  }

  lemma AddrsThree(L: seq<Block>, c: seq<Block>, R: seq<Block>)
    ensures Addrs(L + c + R) == Addrs(L) + Addrs(c) + Addrs(R)
    ensures |c| == 1 ==> Addrs(c) == {c[0].addr}
    ensures |c| == 2 ==> Addrs(c) == {c[0].addr, c[1].addr}
  {
    AddrsConcat(L + c, R);
    AddrsConcat(L, c);
    if c != [] {
      assert c[1..] == if |c| == 2 then [c[1]] else c[1..];
      if |c| == 2 {
        assert Addrs([c[1]]) == {c[1].addr};
      }
    }
  }

  /** A header at the start of `b`, or inside it if it is free, is clear of all others and of live payloads. */
  lemma HeaderRoom(L: seq<Block>, b: Block, R: seq<Block>, hs: Headers, a: int)
    requires InOrder(L, b, R) && hs.Keys == Addrs(L + [b] + R)
    requires a == b.addr || (b.free && b.Payload() <= a && a + HEADER <= b.End())
    ensures Clear(hs, a) && OffPayloads(L + [b] + R, a)
    ensures a in hs <==> a == b.addr
  {
    AddrsIn(L + [b] + R);
    assert (L + [b] + R)[|L|] == b;
    forall c | c in hs && c != b.addr
      ensures c + HEADER <= b.addr || b.End() <= c
    {
      var x := BlockAt(L + [b] + R, c);
    }
  }

  lemma SuccessorRoom(L: seq<Block>, b: Block, R: seq<Block>, hs: Headers)
    requires InOrder(L, b, R) && LinkedAround(hs, L, b, R) && hs.Keys == Addrs(L + [b] + R) && R != []
    ensures Clear(hs, R[0].addr) && OffPayloads(L + [b] + R, R[0].addr) && R[0].addr in hs
    ensures R[0].addr + HEADER <= HEAP_TOP
  {
    AddrsIn(L + [b] + R);
    assert R == [R[0]] + R[1..];
    forall c | c in hs && c != R[0].addr
      ensures c + HEADER <= R[0].addr || R[0].addr + HEADER <= c
    {
      var x := BlockAt(L + [b] + R, c);
    }
  }

  // ---- What kmalloc does to the headers ----

  /** The header stores by which kmalloc splits the block `b` in front of `nxt`, in program order. */
  function SplitHeaders(hs: Headers, b: Block, need: int, nxt: int): Headers
    requires b.addr in hs && (nxt != 0 ==> nxt in hs)
  {
    var n := b.Payload() + need;
    var hs1 := hs[n := Header(b.size - need - HEADER, 1, nxt, b.addr)];
    var hs2 := if nxt != 0 then hs1[nxt := hs1[nxt].(prev := n)] else hs1;
    var hs3 := hs2[b.addr := hs2[b.addr].(next := n)];
    hs3[b.addr := hs3[b.addr].(size := need)]
  }

  lemma SplitForm(hs: Headers, b: Block, need: int, nxt: int, a: int, n: int, g1: Headers, g2: Headers,
      g3: Headers, g4: Headers)
    requires a in hs && (nxt != 0 ==> nxt in hs) && a == b.addr && n == b.Payload() + need
    requires g1 == hs[n := Header(b.size - need - HEADER, 1, nxt, a)]
    requires nxt == 0 ==> g2 == g1
    requires nxt != 0 ==> nxt in g1 && g2 == g1[nxt := g1[nxt].(prev := n)]
    requires a in g2 && g3 == g2[a := g2[a].(next := n)]
    requires a in g3 && g4 == g3[a := g3[a].(size := need)]
    ensures g4 == SplitHeaders(hs, b, need, nxt)
  {
  }

  /** The header stores of kmalloc on the fitting block `b`: split it if the rest is worth a block, then mark it. */
  function TakeHeaders(hs: Headers, b: Block, need: int, nxt: int): Headers
    requires b.addr in hs && (nxt != 0 ==> nxt in hs)
  {
    var hs1 := if b.size >= need + HEADER + 64 then SplitHeaders(hs, b, need, nxt) else hs;
    hs1[b.addr := hs1[b.addr].(flag := 0)]
  }

  lemma TakeLinked(hs: Headers, L: seq<Block>, b: Block, R: seq<Block>, need: int)
    requires InOrder(L, b, R) && LinkedAround(hs, L, b, R)
    requires b.free && b.size >= need >= 0
    ensures Linked(TakeHeaders(hs, b, need, First(R, 0)), L + Carve(b, need) + R, 0, 0)
  {
    var c, nxt := Carve(b, need), First(R, 0);
    var gs := TakeHeaders(hs, b, need, nxt);
    assert Linked(gs, L, 0, b.addr) by {
      LinkedFrame(hs, gs, L, 0, b.addr);
    }
    assert Linked(gs, R, Last(c, 0), 0) by {
      if |c| == 2 && R != [] {
        LinkedNewPrev(hs, gs, R, b.addr, c[1].addr, 0);
      } else {
        LinkedFrame(hs, gs, R, b.addr, 0);
      }
    }
    assert Linked(gs, c, Last(L, 0), nxt) by {
      if |c| == 2 {
        assert c == [c[0]] + [c[1]];
        LinkedConcat(gs, [c[0]], [c[1]], Last(L, 0), nxt);
        LinkedOne(gs, c[0], Last(L, 0), c[1].addr);
        LinkedOne(gs, c[1], c[0].addr, nxt);
      } else {
        LinkedOne(gs, c[0], Last(L, 0), nxt);
      }
    }
    LinkedThree(gs, L, c, R);
  }

  lemma TakeKeys(hs: Headers, L: seq<Block>, b: Block, R: seq<Block>, need: int)
    requires LinkedAround(hs, L, b, R) && hs.Keys == Addrs(L + [b] + R)
    ensures TakeHeaders(hs, b, need, First(R, 0)).Keys == Addrs(L + Carve(b, need) + R)
  {
    AddrsThree(L, [b], R);
    AddrsThree(L, Carve(b, need), R);
  }

  // ---- What kfree does to the headers ----

  /**
   * The header at `p` takes over its successor's header, size and next link, and the block behind,
   * if there is one, is linked back to `p`.
   */
  function AbsorbHeaders(hs: Headers, p: int): Headers
    requires p in hs && hs[p].next in hs && (hs[hs[p].next].next != 0 ==> hs[hs[p].next].next in hs)
  {
    var q := hs[p].next;
    var nxt := hs[q].next;
    var hs1 := hs[p := hs[p].(size := hs[p].size + HEADER + hs[q].size)];
    var hs2 := hs1[p := hs1[p].(next := nxt)];
    var hs3 := if nxt != 0 then hs2[nxt := hs2[nxt].(prev := p)] else hs2;
    hs3 - {q}
  }

  lemma AbsorbForm(hs: Headers, p: int, q: int, nxt: int, g1: Headers, g2: Headers, g3: Headers)
    requires p in hs && q in hs && hs[p].next == q && hs[q].next == nxt && (nxt != 0 ==> nxt in hs)
    requires g1 == hs[p := hs[p].(size := hs[p].size + HEADER + hs[q].size)]
    requires g2 == g1[p := g1[p].(next := nxt)]
    requires nxt == 0 ==> g3 == g2
    requires nxt != 0 ==> nxt in g2 && g3 == g2[nxt := g2[nxt].(prev := p)]
    ensures g3 - {q} == AbsorbHeaders(hs, p)
  {
  }

  lemma AbsorbFront(hs: Headers, L: seq<Block>, b: Block)
    requires Linked(hs, L, 0, b.addr) && forall x :: x in L ==> x.addr < b.addr
    requires b.addr in hs && hs[b.addr].next in hs && b.addr < hs[b.addr].next
    requires var nxt := hs[hs[b.addr].next].next; nxt != 0 ==> nxt in hs && b.addr < nxt
    ensures Linked(AbsorbHeaders(hs, b.addr), L, 0, b.addr)
  {
    LinkedFrame(hs, AbsorbHeaders(hs, b.addr), L, 0, b.addr);
  }

  lemma AbsorbBack(hs: Headers, b: Block, c: Block, R: seq<Block>)
    requires Linked(hs, R, c.addr, 0) && b.addr < c.addr
    requires R != [] ==> c.addr < R[0].addr && R[0].addr != 0 && forall x :: x in R[1..] ==> R[0].addr < x.addr
    requires b.addr in hs && hs[b.addr].next == c.addr && c.addr in hs && hs[c.addr].next == First(R, 0)
    ensures First(R, 0) != 0 ==> First(R, 0) in hs
    ensures Linked(AbsorbHeaders(hs, b.addr), R, b.addr, 0)
  {
    if R != [] {
      LinkedNewPrev(hs, AbsorbHeaders(hs, b.addr), R, c.addr, b.addr, 0);
    }
  }

  lemma AbsorbLinked(hs: Headers, L: seq<Block>, b: Block, c: Block, R: seq<Block>)
    requires b.free && HEAP_BASE <= b.addr < c.addr
    requires R != [] ==> c.addr < R[0].addr && forall x :: x in R[1..] ==> R[0].addr < x.addr
    requires forall x :: x in L ==> x.addr < b.addr
    requires Linked(hs, L, 0, b.addr) && Linked(hs, R, c.addr, 0)
    requires b.addr in hs && hs[b.addr] == HeaderOf(b, Last(L, 0), c.addr)
    requires c.addr in hs && hs[c.addr] == HeaderOf(c, b.addr, First(R, 0))
    ensures First(R, 0) != 0 ==> First(R, 0) in hs
    ensures Linked(AbsorbHeaders(hs, b.addr), L + [Join(b, c)] + R, 0, 0)
  {
    AbsorbBack(hs, b, c, R);
    AbsorbFront(hs, L, b);
    Around(AbsorbHeaders(hs, b.addr), L, Join(b, c), R);
  }

  lemma AbsorbKeys(hs: Headers, L: seq<Block>, b: Block, c: Block, R: seq<Block>)
    requires hs.Keys == Addrs(L + [b] + ([c] + R))
    requires forall x :: x in L ==> x.addr < b.addr
    requires forall x :: x in R ==> c.addr < x.addr
    requires b.addr < c.addr && b.addr in hs && hs[b.addr].next == c.addr && c.addr in hs
    requires hs[c.addr].next != 0 ==> hs[c.addr].next in hs
    ensures AbsorbHeaders(hs, b.addr).Keys == Addrs(L + [Join(b, c)] + R)
  {
    AddrsThree(L, [b], [c] + R);
    AddrsConcat([c], R);
    assert [c][1..] == [];
    AddrsThree(L, [Join(b, c)], R);
    AddrsBelow(L, c.addr);
    AddrsAbove(R, c.addr);
  }

  lemma AddrsBelow(bs: seq<Block>, a: int)
    requires forall x :: x in bs ==> x.addr < a
    ensures a !in Addrs(bs)
  {
    if a in Addrs(bs) {
      var x := BlockAt(bs, a);
    }
  }

  lemma AddrsAbove(bs: seq<Block>, a: int)
    requires forall x :: x in bs ==> x.addr > a
    ensures a !in Addrs(bs)
  {
    if a in Addrs(bs) {
      var x := BlockAt(bs, a);
    }
  }

  lemma AbsorbTiled(L: seq<Block>, b: Block, c: Block, R: seq<Block>)
    requires Tiled(L + [b] + ([c] + R), HEAP_BASE, HEAP_TOP)
    ensures Tiled(L + [Join(b, c)] + R, HEAP_BASE, HEAP_TOP)
  {
    var cR := [c] + R;
    var bR, jR := [b] + cR, [Join(b, c)] + R;
    assert L + [b] + cR == L + bR && L + [Join(b, c)] + R == L + jR;
    var mid := TiledSplit(L, bR, HEAP_BASE, HEAP_TOP);
    assert bR[1..] == cR && cR[1..] == R && jR[1..] == R;
    TiledConcat(L, jR, HEAP_BASE, mid, HEAP_TOP);
  }

  /** Everything a merge of `b` with its successor `c` relies on, and the list it leaves. */
  lemma AbsorbRoom(hs: Headers, L: seq<Block>, b: Block, c: Block, R: seq<Block>)
    requires var bs := L + [b] + ([c] + R);
             Tiled(bs, HEAP_BASE, HEAP_TOP) && Linked(hs, bs, 0, 0) && hs.Keys == Addrs(bs)
    requires b.free
    ensures b.addr in hs && c.addr in hs && b.addr < c.addr && hs[b.addr].next == c.addr
    ensures Clear(hs, b.addr) && OffPayloads(L + [b] + ([c] + R), b.addr)
    ensures 0 <= hs[b.addr].size + HEADER + hs[c.addr].size < TWO_64
    ensures hs[c.addr].next == First(R, 0)
    ensures R != [] ==> var nxt := R[0].addr;
              0 < nxt < TWO_64 && nxt in hs && c.addr < nxt && Clear(hs, nxt) && OffPayloads(L + [b] + ([c] + R), nxt)
  {
    var bs := L + [b] + ([c] + R);
    assert bs == (L + [b]) + [c] + R;
    Ordered(L, b, [c] + R);
    Ordered(L + [b], c, R);
    Around(hs, L, b, [c] + R);
    Around(hs, L + [b], c, R);
    HeaderRoom(L, b, [c] + R, hs, b.addr);
    if R != [] {
      SuccessorRoom(L + [b], c, R, hs);
    }
  }

  /** The list a merge of `b` with its successor `c` leaves. */
  lemma AbsorbList(hs: Headers, L: seq<Block>, b: Block, c: Block, R: seq<Block>)
    requires var bs := L + [b] + ([c] + R);
             Tiled(bs, HEAP_BASE, HEAP_TOP) && Linked(hs, bs, 0, 0)
    requires b.free
    ensures b.addr in hs && c.addr in hs && hs[b.addr].next == c.addr
    ensures hs[c.addr].next != 0 ==> hs[c.addr].next in hs
    ensures Linked(AbsorbHeaders(hs, b.addr), L + [Join(b, c)] + R, 0, 0)
  {
    assert L + [b] + ([c] + R) == (L + [b]) + [c] + R;
    Ordered(L, b, [c] + R);
    Ordered(L + [b], c, R);
    Around(hs, L, b, [c] + R);
    Around(hs, L + [b], c, R);
    assert ([c] + R)[0] == c && (L + [b])[|L + [b]| - 1] == b;
    AbsorbLinked(hs, L, b, c, R);
  }

  lemma AbsorbListKeys(hs: Headers, L: seq<Block>, b: Block, c: Block, R: seq<Block>)
    requires Tiled(L + [b] + ([c] + R), HEAP_BASE, HEAP_TOP) && hs.Keys == Addrs(L + [b] + ([c] + R))
    requires b.addr in hs && c.addr in hs && hs[b.addr].next == c.addr
    requires hs[c.addr].next != 0 ==> hs[c.addr].next in hs
    ensures AbsorbHeaders(hs, b.addr).Keys == Addrs(L + [Join(b, c)] + R)
  {
    assert L + [b] + ([c] + R) == (L + [b]) + [c] + R;
    Ordered(L, b, [c] + R);
    Ordered(L + [b], c, R);
    AbsorbKeys(hs, L, b, c, R);
  }

  lemma MarkLinked(hs: Headers, L: seq<Block>, b: Block, R: seq<Block>)
    requires InOrder(L, b, R) && LinkedAround(hs, L, b, R)
    ensures Linked(hs[b.addr := hs[b.addr].(flag := 1)], L + [b.(free := true)] + R, 0, 0)
  {
    var gs := hs[b.addr := hs[b.addr].(flag := 1)];
    LinkedFrame(hs, gs, L, 0, b.addr);
    LinkedFrame(hs, gs, R, b.addr, 0);
    Around(gs, L, b.(free := true), R);
  }

  lemma MarkTiled(L: seq<Block>, b: Block, R: seq<Block>)
    requires Tiled(L + [b] + R, HEAP_BASE, HEAP_TOP)
    ensures Tiled(L + [b.(free := true)] + R, HEAP_BASE, HEAP_TOP)
  {
    var bR, cR := [b] + R, [b.(free := true)] + R;
    assert L + [b] + R == L + bR && L + [b.(free := true)] + R == L + cR;
    var mid := TiledSplit(L, bR, HEAP_BASE, HEAP_TOP);
    assert bR[1..] == R && cR[1..] == R;
    TiledConcat(L, cR, HEAP_BASE, mid, HEAP_TOP);
  }

  /** The last header of a non-empty list. */
  lemma LinkedLast(hs: Headers, bs: seq<Block>, prv: int, nxt: int)
    requires Linked(hs, bs, prv, nxt)
    ensures bs != [] ==> var b := bs[|bs| - 1];
              b.addr in hs && hs[b.addr].flag == (if b.free then 1 else 0) && hs[b.addr].next == nxt
    decreases |bs|
  {
    if |bs| > 1 {
      LinkedLast(hs, bs[1..], bs[0].addr, nxt);
      assert bs[1..][|bs| - 2] == bs[|bs| - 1];
    }
  }

  /** What the header of `b` says about its neighbours, and what theirs say about themselves. */
  lemma Neighbours(hs: Headers, L: seq<Block>, b: Block, R: seq<Block>)
    requires Tiled(L + [b] + R, HEAP_BASE, HEAP_TOP) && Linked(hs, L + [b] + R, 0, 0)
    ensures b.addr in hs && hs[b.addr].size == b.size && hs[b.addr].flag == (if b.free then 1 else 0)
    ensures hs[b.addr].next != 0 <==> R != []
    ensures R != [] ==>
              && hs[b.addr].next == R[0].addr && R[0].addr in hs
              && hs[R[0].addr].flag == (if R[0].free then 1 else 0)
    ensures hs[b.addr].prev != 0 <==> L != []
    ensures L != [] ==> var p := L[|L| - 1];
              hs[b.addr].prev == p.addr && p.addr in hs && hs[p.addr].flag == (if p.free then 1 else 0)
  {
    Ordered(L, b, R);
    Around(hs, L, b, R);
    LinkedLast(hs, L, 0, b.addr);
    assert L != [] ==> L[|L| - 1] in L;
    assert R != [] ==> R[0] in R;
  }

  /** What a forward merge with a free neighbour `c` leaves. */
  lemma MergeNextForm(L: seq<Block>, b: Block, c: Block, S: seq<Block>)
    requires c.free
    ensures L + [Join(b, c)] + S == L + MergeNext(b, [c] + S)
  {
    assert ([c] + S)[1..] == S;
    assert L + [Join(b, c)] + S == L + ([Join(b, c)] + S);
  }

  /** Marking `b` free: where its header lies, and the list it leaves. */
  lemma MarkRoom(hs: Headers, L: seq<Block>, b: Block, R: seq<Block>)
    requires var bs := L + [b] + R;
             Tiled(bs, HEAP_BASE, HEAP_TOP) && Linked(hs, bs, 0, 0) && hs.Keys == Addrs(bs)
    ensures b.addr in hs && Clear(hs, b.addr) && OffPayloads(L + [b] + R, b.addr)
    ensures var cs, gs := L + [b.(free := true)] + R, hs[b.addr := hs[b.addr].(flag := 1)];
            Tiled(cs, HEAP_BASE, HEAP_TOP) && Linked(gs, cs, 0, 0) && gs.Keys == Addrs(cs)
  {
    Ordered(L, b, R);
    Around(hs, L, b, R);
    HeaderRoom(L, b, R, hs, b.addr);
    MarkLinked(hs, L, b, R);
    MarkTiled(L, b, R);
    AddrsThree(L, [b], R);
    AddrsThree(L, [b.(free := true)], R);
  }

  lemma NoPayloadAtZero(bs: seq<Block>)
    requires Tiled(bs, HEAP_BASE, HEAP_TOP)
    ensures Find(bs, 0) == |bs|
  {
    TiledBounds(bs, HEAP_BASE, HEAP_TOP);
    assert forall b :: b in bs ==> b.Payload() != 0;
    assert forall i :: 0 <= i < |bs| ==> bs[i].Payload() != 0;
  }

  /** The three stages of kfree keep the payload of every block that stays live. */
  lemma FreePayloads(L: seq<Block>, b: Block, R: seq<Block>, m: seq<u8>, m1: seq<u8>, m2: seq<u8>, m3: seq<u8>)
    requires |m| == |m1| == |m2| == |m3|
    requires PayloadsSame(L + [b] + R, m, m1)
    requires PayloadsSame(L + [b.(free := true)] + R, m1, m2)
    requires PayloadsSame(L + MergeNext(b, R), m2, m3)
    ensures PayloadsSame(MergePrev(L, MergeNext(b, R)), m, m3)
  {
    var bs := MergePrev(L, MergeNext(b, R));
    forall x | x in bs && !x.free
      ensures Same(m, m3, At(x.Payload()), At(x.End()))
    {
      assert x in L || x in R;
      assert x in L || x in MergeNext(b, R);
      assert x in L + [b] + R && x in L + [b.(free := true)] + R && x in L + MergeNext(b, R);
    }
  }

  /** One header store: where it is allowed, the memory still holds the headers and the payloads. */
  lemma StoreStep(m0: seq<u8>, m: seq<u8>, w: seq<u8>, hs: Headers, a: int, h: Header, bs: seq<Block>)
    requires Holds(m, hs) && Rewritten(m, w, a, h) && PayloadsSame(bs, m0, m) && |m0| == |m| == HEAP_SIZE
    requires Clear(hs, a) && OffPayloads(bs, a)
    ensures Holds(w, hs[a := h]) && PayloadsSame(bs, m0, w)
  {
    HoldsRewritten(m, w, hs, a, h);
    PayloadsRewritten(bs, m0, m, w, a);
  }

  /** A header clear of the others and of the new header at `n` is clear of them together. */
  lemma ClearMore(hs: Headers, gs: Headers, a: int, n: int)
    requires Clear(hs, a) && Clear(hs, n) && a in hs && n !in hs && gs.Keys == hs.Keys + {n}
    ensures Clear(gs, a)
  {
  }

  /** Whether a header is clear of the others depends only on where the headers are. */
  lemma ClearSame(hs: Headers, gs: Headers, a: int)
    requires Clear(hs, a) && forall c :: c in gs ==> c in hs || c == a
    ensures Clear(gs, a)
  {
  }

  // ---- Stores of the owners ----

  /** `w` differs from `m` at most in the payload of `b`. */
  ghost predicate OnlyPayload(m: seq<u8>, w: seq<u8>, b: Block) {
    Same(m, w, 0, At(b.Payload())) && Same(m, w, At(b.End()), HEAP_SIZE)
  }

  lemma PayloadInside(bs: seq<Block>, b: Block)
    requires Tiled(bs, HEAP_BASE, HEAP_TOP) && b in bs
    ensures 0 <= At(b.Payload()) && At(b.Payload()) + b.size == At(b.End()) <= HEAP_SIZE && b.size >= 0
  {
    TiledBounds(bs, HEAP_BASE, HEAP_TOP);
  }

  /** A store inside one live payload reaches neither a header nor another live payload. */
  lemma OwnerStore(m: seq<u8>, w: seq<u8>, hs: Headers, bs: seq<Block>, b: Block)
    requires |m| == HEAP_SIZE && Holds(m, hs) && Tiled(bs, HEAP_BASE, HEAP_TOP) && hs.Keys == Addrs(bs)
    requires b in bs && OnlyPayload(m, w, b)
    ensures Holds(w, hs)
    ensures forall c :: c in bs && c != b ==> Same(m, w, At(c.Payload()), At(c.End()))
  {
    var i :| 0 <= i < |bs| && bs[i] == b;
    assert bs == bs[..i] + [b] + bs[i + 1..];
    Ordered(bs[..i], b, bs[i + 1..]);
    forall a | a in hs
      ensures HeaderFits(w, a) && HeaderAt(w, a) == hs[a]
    {
      var x := BlockAt(bs, a);
      assert x in bs[..i] || x == b || x in bs[i + 1..];
      HeaderSame(m, w, a);
    }
    forall c | c in bs && c != b
      ensures Same(m, w, At(c.Payload()), At(c.End()))
    {
      assert c in bs[..i] || c in bs[i + 1..];
    }
  }

  lemma BlockHeader(hs: Headers, bs: seq<Block>, i: int)
    requires Tiled(bs, HEAP_BASE, HEAP_TOP) && Linked(hs, bs, 0, 0) && 0 <= i < |bs|
    ensures bs[i].addr in hs && hs[bs[i].addr].size == bs[i].size
    ensures hs[bs[i].addr].flag == (if bs[i].free then 1 else 0)
    ensures HEAP_BASE <= bs[i].addr && bs[i].End() <= HEAP_TOP
  {
    assert bs == bs[..i] + [bs[i]] + bs[i + 1..];
    Neighbours(hs, bs[..i], bs[i], bs[i + 1..]);
    TiledBounds(bs, HEAP_BASE, HEAP_TOP);
    assert bs[i] in bs;
  }

  /** After a kmalloc every live block but the new one was live before. */
  lemma StillLive(bs: seq<Block>, size: u64, m: seq<u8>, w: seq<u8>)
    requires WellFormed(bs) && PayloadsSame(bs, m, w)
    ensures forall b :: b in Malloc(bs, size) && !b.free && b.Payload() != AllocResult(bs, size)
                    ==> Same(m, w, At(b.Payload()), At(b.End()))
  {
    MallocKeeps(bs, size);
    if AllocResult(bs, size) != 0 {
      var c :| Live(Malloc(bs, size)) == Live(bs) + {c} && c.Payload() == AllocResult(bs, size);
      forall b | b in Malloc(bs, size) && !b.free && b.Payload() != AllocResult(bs, size)
        ensures b in bs
      {
        assert b in Live(Malloc(bs, size));
        assert b in Live(bs);
      }
    }
  }

  /** The `n` bytes at address `to` of `z` are those at `from` of `m`. */
  ghost predicate Moved(m: seq<u8>, z: seq<u8>, from: int, to: int, n: int) {
    && 0 <= At(from) && At(from) + n <= |m| && 0 <= At(to) && At(to) + n <= |z|
    && forall k :: At(to) <= k < At(to) + n ==> z[k] == m[k - At(to) + At(from)]
  }

  /** Who is live after krealloc moved `b` to the block `c` that kmalloc granted. */
  lemma MoveLive(bs: seq<Block>, ms: seq<Block>, fs: seq<Block>, size: u64, b: Block, c: Block)
    requires WellFormed(bs) && ms == Malloc(bs, size) && fs == Free(ms, b.Payload())
    requires c.Payload() == AllocResult(bs, size) != 0
    requires b in bs && !b.free && b in ms && c in ms && !c.free && b != c
    ensures c in fs
    ensures forall x :: x in fs && !x.free ==> x in ms && x != b && (x != c ==> x in bs && x.Payload() != c.Payload())
  {
    MallocKeeps(bs, size);
    FindUnique(ms, b);
    FreeKeeps(ms, b.Payload());
    assert c in Live(ms);
    assert c in Live(fs);
    NewOnly(bs, size, c);
    forall x | x in fs && !x.free
      ensures x in ms && x != b && (x != c ==> x in bs && x.Payload() != c.Payload())
    {
      assert x in Live(fs);
      assert x in Live(ms);
    }
  }

  /** Every live block but the one kmalloc granted was live before, at another address. */
  lemma NewOnly(bs: seq<Block>, size: u64, c: Block)
    requires WellFormed(bs) && c in Malloc(bs, size) && c.Payload() == AllocResult(bs, size) != 0
    ensures forall x :: x in Live(Malloc(bs, size)) && x != c ==> x in bs && x.Payload() != c.Payload()
  {
    MallocKeeps(bs, size);
    var ms := Malloc(bs, size);
    var d :| Live(ms) == Live(bs) + {d} && d.Payload() == AllocResult(bs, size);
    assert d in Live(ms);
    FindUnique(ms, c);
    FindUnique(ms, d);
    forall x | x in Live(ms) && x != c
      ensures x in bs && x.Payload() != c.Payload()
    {
      FindUnique(ms, x);
    }
  }

  /** krealloc's four memories: at the start, after kmalloc, after the copy, after kfree. */
  lemma MoveBytes(bs: seq<Block>, ms: seq<Block>, fs: seq<Block>, b: Block, c: Block,
                  m: seq<u8>, v: seq<u8>, w: seq<u8>, z: seq<u8>)
    requires |m| == |v| == |w| == |z| == HEAP_SIZE && WellFormed(ms)
    requires b in bs && !b.free && c in ms && c in fs && !c.free && 0 <= b.size <= c.size
    requires forall x :: x in fs && !x.free && x != c ==> x in ms && x in bs
    requires PayloadsSame(bs, m, v) && OnlyPayload(v, w, c) && PayloadsSame(fs, w, z)
    requires Moved(v, w, b.Payload(), c.Payload(), b.size)
    ensures forall x :: x in fs && !x.free && x != c ==> Same(m, z, At(x.Payload()), At(x.End()))
    ensures Moved(m, z, b.Payload(), c.Payload(), b.size)
  {
    forall x | x in fs && !x.free && x != c
      ensures Same(m, z, At(x.Payload()), At(x.End()))
    {
      LiveApart(ms, x, c);
      assert Same(m, v, At(x.Payload()), At(x.End()));
      assert Same(v, w, At(x.Payload()), At(x.End()));
      assert Same(w, z, At(x.Payload()), At(x.End()));
    }
    assert Same(m, v, At(b.Payload()), At(b.End()));
    assert Same(w, z, At(c.Payload()), At(c.End()));
  }
}
