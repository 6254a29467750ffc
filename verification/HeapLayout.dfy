/**
 * The heap's doubly linked list as it lies in memory: heap_block_t headers in the bytes in
 * front of each payload, what one field store changes, and what makes headers a list.
 */
module HeapLayout {
  import opened Machine
  import opened HeapBlocks

  function At(a: int): int { a - HEAP_BASE }

  /** A 32-byte header may lie at address `a` of the heap memory `m`. */
  predicate HeaderFits(m: seq<u8>, a: int) {
    |m| == HEAP_SIZE && HEAP_BASE <= a && a + HEADER <= HEAP_TOP
  }

  /** heap_block_t: size at offset 0, the byte is_free at 8, next at 16, prev at 24. */
  datatype Header = Header(size: int, flag: u8, next: int, prev: int)

  function HeaderAt(m: seq<u8>, a: int): Header
    requires HeaderFits(m, a)
  {
    Header(Load64(m, At(a)), m[At(a) + 8], Load64(m, At(a) + 16), Load64(m, At(a) + 24))
  }

  function SetSize(m: seq<u8>, a: int, v: u64): (w: seq<u8>)
    requires HeaderFits(m, a)
    ensures |w| == |m|
  {
    Store64(m, At(a), v)
  }

  function SetFlag(m: seq<u8>, a: int, v: u8): (w: seq<u8>)
    requires HeaderFits(m, a)
    ensures |w| == |m|
  {
    m[At(a) + 8 := v]
  }

  function SetNext(m: seq<u8>, a: int, v: u64): (w: seq<u8>)
    requires HeaderFits(m, a)
    ensures |w| == |m|
  {
    Store64(m, At(a) + 16, v)
  }

  function SetPrev(m: seq<u8>, a: int, v: u64): (w: seq<u8>)
    requires HeaderFits(m, a)
    ensures |w| == |m|
  {
    Store64(m, At(a) + 24, v)
  }

  /** `m` and `w` differ at most in the header at `a`. */
  ghost predicate OnlyHeader(m: seq<u8>, w: seq<u8>, a: int) {
    Same(m, w, 0, At(a)) && Same(m, w, At(a) + HEADER, HEAP_SIZE)
  }

  /** Each store changes its own field of its own header and nothing else. */
  lemma FieldStores(m: seq<u8>, a: int, v: u64, f: u8)
    requires HeaderFits(m, a)
    ensures HeaderAt(SetSize(m, a, v), a) == HeaderAt(m, a).(size := v) && OnlyHeader(m, SetSize(m, a, v), a)
    ensures HeaderAt(SetFlag(m, a, f), a) == HeaderAt(m, a).(flag := f) && OnlyHeader(m, SetFlag(m, a, f), a)
    ensures HeaderAt(SetNext(m, a, v), a) == HeaderAt(m, a).(next := v) && OnlyHeader(m, SetNext(m, a, v), a)
    ensures HeaderAt(SetPrev(m, a, v), a) == HeaderAt(m, a).(prev := v) && OnlyHeader(m, SetPrev(m, a, v), a)
  {
    var i := At(a);
    StoreLoad(m, i, v);
    StoreLoad(m, i + 16, v);
    StoreLoad(m, i + 24, v);
    LoadSame(m, SetSize(m, a, v), i + 16);
    LoadSame(m, SetSize(m, a, v), i + 24);
    LoadSame(m, SetFlag(m, a, f), i);
    LoadSame(m, SetFlag(m, a, f), i + 16);
    LoadSame(m, SetFlag(m, a, f), i + 24);
    LoadSame(m, SetNext(m, a, v), i);
    LoadSame(m, SetNext(m, a, v), i + 24);
    LoadSame(m, SetPrev(m, a, v), i);
    LoadSame(m, SetPrev(m, a, v), i + 16);
  }

  lemma HeaderSame(m: seq<u8>, w: seq<u8>, a: int)
    requires HeaderFits(m, a) && Same(m, w, At(a), At(a) + HEADER)
    ensures HeaderAt(m, a) == HeaderAt(w, a)
  {
    LoadSame(m, w, At(a));
    LoadSame(m, w, At(a) + 16);
    LoadSame(m, w, At(a) + 24);
  }

  /** `w` is `m` with the header at `a` replaced by `h`. */
  ghost predicate Rewritten(m: seq<u8>, w: seq<u8>, a: int, h: Header) {
    HeaderFits(m, a) && |w| == |m| && OnlyHeader(m, w, a) && HeaderAt(w, a) == h
  }

  // ---- The headers in a memory ----

  /** Headers by address. */
  type Headers = map<int, Header>

  /** The memory `m` holds the headers `hs`. */
  ghost predicate Holds(m: seq<u8>, hs: Headers) {
    forall a :: a in hs ==> HeaderFits(m, a) && HeaderAt(m, a) == hs[a]
  }

  /** A header at `a` overlaps none of the other headers `hs`. */
  ghost predicate Clear(hs: Headers, a: int) {
    forall c :: c in hs && c != a ==> c + HEADER <= a || a + HEADER <= c
  }

  lemma HoldsRewritten(m: seq<u8>, w: seq<u8>, hs: Headers, a: int, h: Header)
    requires Holds(m, hs) && Clear(hs, a) && Rewritten(m, w, a, h)
    ensures Holds(w, hs[a := h])
  {
    forall c | c in hs && c != a
      ensures HeaderFits(w, c) && HeaderAt(w, c) == hs[c]
    {
      HeaderSame(m, w, c);
    }
  }

  // ---- The linked list ----

  function First(bs: seq<Block>, nxt: int): int {
    if bs == [] then nxt else bs[0].addr
  }

  function Last(bs: seq<Block>, prv: int): int {
    if bs == [] then prv else bs[|bs| - 1].addr
  }

  /** The header of `b` when its list neighbours are at `prv` and `nxt`. */
  function HeaderOf(b: Block, prv: int, nxt: int): Header {
    Header(b.size, if b.free then 1 else 0, nxt, prv)
  }

  /** The headers `hs` link the blocks `bs` in this order, between the neighbours `prv` and `nxt`. */
  ghost predicate Linked(hs: Headers, bs: seq<Block>, prv: int, nxt: int)
    decreases |bs|
  {
    bs != [] ==>
      && bs[0].addr in hs
      && hs[bs[0].addr] == HeaderOf(bs[0], prv, First(bs[1..], nxt))
      && Linked(hs, bs[1..], bs[0].addr, nxt)
  }

  lemma {:induction false} LinkedConcat(hs: Headers, xs: seq<Block>, ys: seq<Block>, prv: int, nxt: int)
    ensures Linked(hs, xs + ys, prv, nxt)
       <==> Linked(hs, xs, prv, First(ys, nxt)) && Linked(hs, ys, Last(xs, prv), nxt)
    decreases |xs|
  {
    if xs == [] {
      assert xs + ys == ys;
    } else {
      assert (xs + ys)[1..] == xs[1..] + ys;
      LinkedConcat(hs, xs[1..], ys, xs[0].addr, nxt);
    }
  }

  lemma {:induction false} LinkedFrame(hs: Headers, gs: Headers, bs: seq<Block>, prv: int, nxt: int)
    requires Linked(hs, bs, prv, nxt)
    requires forall b :: b in bs && b.addr in hs ==> b.addr in gs && gs[b.addr] == hs[b.addr]
    ensures Linked(gs, bs, prv, nxt)
    decreases |bs|
  {
    if bs != [] {
      LinkedFrame(hs, gs, bs[1..], bs[0].addr, nxt);
    }
  }

  lemma LinkedOne(hs: Headers, b: Block, prv: int, nxt: int)
    ensures Linked(hs, [b], prv, nxt) <==> b.addr in hs && hs[b.addr] == HeaderOf(b, prv, nxt)
  {
    assert [b][1..] == [];
  }

  /** A list is its blocks before the i-th, the i-th, and those after it. */
  lemma LinkedThree(hs: Headers, L: seq<Block>, c: seq<Block>, R: seq<Block>)
    requires c != []
    ensures Linked(hs, L + c + R, 0, 0)
       <==> Linked(hs, L, 0, c[0].addr) && Linked(hs, c, Last(L, 0), First(R, 0)) && Linked(hs, R, Last(c, 0), 0)
  {
    LinkedConcat(hs, L + c, R, 0, 0);
    LinkedConcat(hs, L, c, 0, First(R, 0));
    assert Last(L + c, 0) == Last(c, 0);
  }

  /** Rewriting only the prev field of a list's first header. */
  lemma LinkedNewPrev(hs: Headers, gs: Headers, bs: seq<Block>, prv: int, prv': int, nxt: int)
    requires bs != [] && Linked(hs, bs, prv, nxt)
    requires bs[0].addr in gs && gs[bs[0].addr] == hs[bs[0].addr].(prev := prv')
    requires forall b :: b in bs[1..] && b.addr in hs ==> b.addr in gs && gs[b.addr] == hs[b.addr]
    ensures Linked(gs, bs, prv', nxt)
  {
    LinkedFrame(hs, gs, bs[1..], bs[0].addr, nxt);
  }

  function Addrs(bs: seq<Block>): set<int> {
    if bs == [] then {} else {bs[0].addr} + Addrs(bs[1..])
  }

  lemma {:induction false} AddrsConcat(xs: seq<Block>, ys: seq<Block>)
    ensures Addrs(xs + ys) == Addrs(xs) + Addrs(ys)
    decreases |xs|
  {
    if xs == [] {
      assert xs + ys == ys;
    } else {
      assert (xs + ys)[1..] == xs[1..] + ys;
      AddrsConcat(xs[1..], ys);
    }
  }

  lemma {:induction false} AddrsIn(bs: seq<Block>)
    ensures forall b :: b in bs ==> b.addr in Addrs(bs)
    decreases |bs|
  {
    if bs != [] {
      AddrsIn(bs[1..]);
      assert bs == [bs[0]] + bs[1..];
    }
  }

  lemma {:induction false} BlockAt(bs: seq<Block>, a: int) returns (b: Block)
    requires a in Addrs(bs)
    ensures b in bs && b.addr == a
    decreases |bs|
  {
    if bs[0].addr == a {
      b := bs[0];
    } else {
      b := BlockAt(bs[1..], a);
    }
  }

  // ---- Payloads ----

  /** The payload bytes of every live block are the same in `m` and `w`. */
  ghost predicate PayloadsSame(bs: seq<Block>, m: seq<u8>, w: seq<u8>) {
    forall b :: b in bs && !b.free ==> Same(m, w, At(b.Payload()), At(b.End()))
  }

  lemma PayloadsChain(bs: seq<Block>, m: seq<u8>, v: seq<u8>, w: seq<u8>)
    requires PayloadsSame(bs, m, v) && PayloadsSame(bs, v, w)
    requires |m| == |v| == |w|
    ensures PayloadsSame(bs, m, w)
  {
  }

  /** A header at `a` overlaps no live payload. */
  ghost predicate OffPayloads(bs: seq<Block>, a: int) {
    forall b :: b in bs && !b.free ==> b.End() <= a || a + HEADER <= b.Payload()
  }

  lemma PayloadsRewritten(bs: seq<Block>, m: seq<u8>, v: seq<u8>, w: seq<u8>, a: int)
    requires PayloadsSame(bs, m, v) && |v| == |w| == |m| == HEAP_SIZE && OnlyHeader(v, w, a) && OffPayloads(bs, a)
    ensures PayloadsSame(bs, m, w)
  {
  }
}
