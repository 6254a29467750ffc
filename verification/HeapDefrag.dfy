/** heap_defrag: which order of the block list it leaves, and that it leaves a linked list at all. */
module HeapDefrag {
  import opened Machine
  import opened HeapBlocks
  import opened HeapLayout
  import opened HeapHeaders
  import KH = KernelHeap

  // ---- The order it produces ----

  function Frees(bs: seq<Block>): seq<Block> {
    if bs == [] then [] else (if bs[0].free then [bs[0]] else []) + Frees(bs[1..])
  }

  function Taken(bs: seq<Block>): seq<Block> {
    if bs == [] then [] else (if bs[0].free then [] else [bs[0]]) + Taken(bs[1..])
  }

  function Reverse(bs: seq<Block>): seq<Block> {
    if bs == [] then [] else Reverse(bs[1..]) + [bs[0]]
  }

  /** The number of allocated blocks in front of the first free one. */
  function Lead(bs: seq<Block>): (n: nat)
    ensures n <= |bs|
    ensures n < |bs| ==> bs[n].free
    ensures forall i :: 0 <= i < n ==> !bs[i].free
  {
    if bs == [] || bs[0].free then 0 else 1 + Lead(bs[1..])
  }

  /** The allocated prefix, the first free block, the other free blocks backwards, the other allocated blocks. */
  function Defragged(bs: seq<Block>): seq<Block> {
    var n := Lead(bs);
    if n == |bs| then bs
    else bs[..n + 1] + Reverse(Frees(bs[n + 1..])) + Taken(bs[n + 1..])
  }

  lemma {:induction false} PartsSnoc(bs: seq<Block>, b: Block)
    ensures Frees(bs + [b]) == if b.free then Frees(bs) + [b] else Frees(bs)
    ensures Taken(bs + [b]) == if b.free then Taken(bs) else Taken(bs) + [b]
    decreases |bs|
  {
    if bs == [] {
      assert bs + [b] == [b] && [b][1..] == [];
    } else {
      assert (bs + [b])[1..] == bs[1..] + [b];
      PartsSnoc(bs[1..], b);
    }
  }

  lemma {:induction false} ReverseSnoc(bs: seq<Block>, b: Block)
    ensures Reverse(bs + [b]) == [b] + Reverse(bs)
    decreases |bs|
  {
    if bs == [] {
      assert [b][1..] == [];
    } else {
      assert (bs + [b])[1..] == bs[1..] + [b];
      ReverseSnoc(bs[1..], b);
    }
  }

  lemma {:induction false} PartsBag(bs: seq<Block>)
    ensures multiset(Frees(bs)) + multiset(Taken(bs)) == multiset(bs)
    decreases |bs|
  {
    if bs != [] {
      PartsBag(bs[1..]);
      assert bs == [bs[0]] + bs[1..];
    }
  }

  lemma {:induction false} ReverseBag(bs: seq<Block>)
    ensures multiset(Reverse(bs)) == multiset(bs)
    decreases |bs|
  {
    if bs != [] {
      ReverseBag(bs[1..]);
      assert bs == [bs[0]] + bs[1..];
    }
  }

  lemma BagOfThree(xs: seq<Block>, ys: seq<Block>, zs: seq<Block>, ws: seq<Block>)
    requires multiset(ys) + multiset(zs) == multiset(ws)
    ensures multiset(xs + ys + zs) == multiset(xs + ws)
  {
  }

  lemma PartsPermute(xs: seq<Block>, rest: seq<Block>)
    ensures multiset(xs + Reverse(Frees(rest)) + Taken(rest)) == multiset(xs + rest)
  {
    PartsBag(rest);
    ReverseBag(Frees(rest));
    BagOfThree(xs, Reverse(Frees(rest)), Taken(rest), rest);
  }

  lemma DefragParts(bs: seq<Block>) returns (xs: seq<Block>, rest: seq<Block>)
    ensures bs == xs + rest && Defragged(bs) == xs + Reverse(Frees(rest)) + Taken(rest)
  {
    var n := Lead(bs);
    if n < |bs| {
      xs, rest := bs[..n + 1], bs[n + 1..];
    } else {
      xs, rest := bs, [];
    }
  }

  /** The same blocks, with their sizes and flags, in another order. */
  lemma DefragPermutes(bs: seq<Block>)
    ensures multiset(Defragged(bs)) == multiset(bs)
  {
    var xs, rest := DefragParts(bs);
    PartsPermute(xs, rest);
  }

  // ---- Unlinking and inserting ----

  /** No two blocks of the list start at one address. */
  ghost predicate NoDup(bs: seq<Block>)
    decreases |bs|
  {
    bs != [] ==> bs[0].addr !in Addrs(bs[1..]) && NoDup(bs[1..])
  }

  lemma {:induction false} NoDupConcat(xs: seq<Block>, ys: seq<Block>)
    ensures NoDup(xs + ys) <==> NoDup(xs) && NoDup(ys) && Addrs(xs) !! Addrs(ys)
    decreases |xs|
  {
    if xs == [] {
      assert xs + ys == ys;
    } else {
      assert (xs + ys)[1..] == xs[1..] + ys;
      AddrsConcat(xs[1..], ys);
      NoDupConcat(xs[1..], ys);
    }
  }

  lemma {:induction false} TiledNoDup(bs: seq<Block>, lo: int, hi: int)
    requires Tiled(bs, lo, hi)
    ensures NoDup(bs)
    decreases |bs|
  {
    if bs != [] {
      TiledNoDup(bs[1..], bs[0].End(), hi);
      TiledBounds(bs[1..], bs[0].End(), hi);
      AddrsAbove(bs[1..], bs[0].addr);
    }
  }

  lemma {:induction false} LinkedAgree(hs: Headers, gs: Headers, bs: seq<Block>, prv: int, nxt: int)
    requires Linked(hs, bs, prv, nxt)
    requires forall a :: a in Addrs(bs) && a in hs ==> a in gs && gs[a] == hs[a]
    ensures Linked(gs, bs, prv, nxt)
  {
    AddrsIn(bs);
    LinkedFrame(hs, gs, bs, prv, nxt);
  }

  /** The next link of `a` becomes `v`, unless `a` is null. */
  function WithNext(hs: Headers, a: int, v: int): Headers
    requires a != 0 ==> a in hs
  {
    if a != 0 then hs[a := hs[a].(next := v)] else hs
  }

  /** The previous link of `a` becomes `v`, unless `a` is null. */
  function WithPrev(hs: Headers, a: int, v: int): Headers
    requires a != 0 ==> a in hs
  {
    if a != 0 then hs[a := hs[a].(prev := v)] else hs
  }

  /** A list whose last header gets another successor. */
  lemma {:induction false} NewNext(hs: Headers, bs: seq<Block>, prv: int, nxt: int, nxt': int)
    requires Linked(hs, bs, prv, nxt) && NoDup(bs) && prv !in Addrs(bs)
    requires Last(bs, 0) != 0 ==> Last(bs, 0) in hs
    requires bs != [] ==> Last(bs, 0) != 0
    ensures Linked(WithNext(hs, Last(bs, 0), nxt'), bs, prv, nxt')
    decreases |bs|
  {
    if bs != [] {
      var K, b := bs[..|bs| - 1], bs[|bs| - 1];
      assert bs == K + [b];
      LinkedConcat(hs, K, [b], prv, nxt);
      LinkedOne(hs, b, Last(K, prv), nxt);
      NoDupConcat(K, [b]);
      assert b.addr in Addrs([b]);
      var gs := WithNext(hs, b.addr, nxt');
      LinkedAgree(hs, gs, K, prv, b.addr);
      LinkedOne(gs, b, Last(K, prv), nxt');
      LinkedConcat(gs, K, [b], prv, nxt');
    }
  }

  /** A list whose first header gets another predecessor. */
  lemma NewPrev(hs: Headers, bs: seq<Block>, prv: int, prv': int, nxt: int)
    requires Linked(hs, bs, prv, nxt) && NoDup(bs)
    requires First(bs, 0) != 0 ==> First(bs, 0) in hs
    requires bs != [] ==> First(bs, 0) != 0
    ensures Linked(WithPrev(hs, First(bs, 0), prv'), bs, prv', nxt)
  {
    if bs != [] {
      AddrsIn(bs[1..]);
      LinkedNewPrev(hs, WithPrev(hs, bs[0].addr, prv'), bs, prv, prv', nxt);
    }
  }

  /** The neighbours of `c`, where it has them, are linked to each other; the links of `c` itself stay. */
  function Unlinked(hs: Headers, c: int): Headers
    requires c in hs
    requires hs[c].prev != 0 ==> hs[c].prev in hs
    requires hs[c].next != 0 ==> hs[c].next in hs
  {
    WithPrev(WithNext(hs, hs[c].prev, hs[c].next), hs[c].next, hs[c].prev)
  }

  /** `c` is linked in between `f` and the successor of `f`, if there is one. */
  function Inserted(hs: Headers, f: int, c: int): Headers
    requires c in hs && f in hs && f != 0 && c != 0
    requires hs[f].next != 0 ==> hs[f].next in hs
  {
    WithPrev(WithNext(WithPrev(WithNext(hs, c, hs[f].next), c, f), f, c), hs[f].next, c)
  }

  lemma UnlinkStep(hs: Headers, P: seq<Block>, c: Block, S: seq<Block>)
    requires Linked(hs, P + [c] + S, 0, 0) && NoDup(P + [c] + S) && 0 !in Addrs(P + [c] + S)
    ensures c.addr in hs && hs[c.addr] == HeaderOf(c, Last(P, 0), First(S, 0))
    ensures P != [] ==> Last(P, 0) in hs && Last(P, 0) != 0
    ensures S != [] ==> First(S, 0) in hs && First(S, 0) != 0
    ensures Linked(Unlinked(hs, c.addr), P + S, 0, 0)
    ensures Unlinked(hs, c.addr)[c.addr] == hs[c.addr]
  {
    Around(hs, P, c, S);
    Separate(P, c, S);
    Ends(hs, P, 0, c.addr);
    Ends(hs, S, c.addr, 0);
    var hs1 := WithNext(hs, Last(P, 0), First(S, 0));
    NewNext(hs, P, 0, c.addr, First(S, 0));
    LinkedAgree(hs, hs1, S, c.addr, 0);
    var hs2 := WithPrev(hs1, First(S, 0), Last(P, 0));
    LinkedAgree(hs1, hs2, P, 0, First(S, 0));
    NewPrev(hs1, S, c.addr, Last(P, 0), 0);
    LinkedConcat(hs2, P, S, 0, 0);
  }

  lemma InsertStep(hs: Headers, P: seq<Block>, c: Block, S: seq<Block>, p: int, n: int)
    requires Linked(hs, P + S, 0, 0) && NoDup(P + [c] + S) && 0 !in Addrs(P + [c] + S) && P != []
    requires c.addr in hs && hs[c.addr] == HeaderOf(c, p, n)
    ensures Last(P, 0) in hs && Last(P, 0) != 0 && c.addr != 0 && hs[Last(P, 0)].next == First(S, 0)
    ensures S != [] ==> First(S, 0) in hs && First(S, 0) != 0
    ensures Linked(Inserted(hs, Last(P, 0), c.addr), P + [c] + S, 0, 0)
  {
    LinkedConcat(hs, P, S, 0, 0);
    Separate(P, c, S);
    Ends(hs, P, 0, First(S, 0));
    Ends(hs, S, Last(P, 0), 0);
    LinkedLast(hs, P, 0, First(S, 0));
    var f, s := Last(P, 0), First(S, 0);
    var hs2 := WithPrev(WithNext(hs, c.addr, s), c.addr, f);
    LinkedAgree(hs, hs2, P, 0, s);
    LinkedAgree(hs, hs2, S, f, 0);
    var hs3 := WithNext(hs2, f, c.addr);
    NewNext(hs2, P, 0, s, c.addr);
    LinkedAgree(hs2, hs3, S, f, 0);
    var hs4 := WithPrev(hs3, s, c.addr);
    LinkedAgree(hs3, hs4, P, 0, c.addr);
    NewPrev(hs3, S, f, c.addr, 0);
    Around(hs4, P, c, S);
  }

  lemma Separate(P: seq<Block>, c: Block, S: seq<Block>)
    requires NoDup(P + [c] + S) && 0 !in Addrs(P + [c] + S)
    ensures NoDup(P) && NoDup(S) && Addrs(P) !! Addrs(S)
    ensures c.addr !in Addrs(P) && c.addr !in Addrs(S) && c.addr != 0
    ensures 0 !in Addrs(P) && 0 !in Addrs(S)
  {
    AddrsThree(P, [c], S);
    NoDupConcat(P + [c], S);
    NoDupConcat(P, [c]);
    AddrsConcat(P, [c]);
  }

  lemma Ends(hs: Headers, bs: seq<Block>, prv: int, nxt: int)
    requires Linked(hs, bs, prv, nxt) && 0 !in Addrs(bs)
    ensures bs != [] ==>
              && First(bs, 0) in hs && First(bs, 0) in Addrs(bs) && First(bs, 0) != 0
              && Last(bs, 0) in hs && Last(bs, 0) in Addrs(bs) && Last(bs, 0) != 0
  {
    AddrsIn(bs);
    LinkedLast(hs, bs, prv, nxt);
  }

  // ---- The list of a run so far ----

  /** The list once `done` behind the first free block was handled: freed ones came forward. */
  ghost function Arranged(A: seq<Block>, done: seq<Block>, todo: seq<Block>): seq<Block> {
    A + Reverse(Frees(done)) + Taken(done) + todo
  }

  lemma ArrangedBag(A: seq<Block>, done: seq<Block>, todo: seq<Block>)
    ensures multiset(Arranged(A, done, todo)) == multiset(A + done + todo)
  {
    PartsBag(done);
    ReverseBag(Frees(done));
  }

  /** One more block handled: an allocated one stays, a free one moves to the front of the others. */
  lemma ArrangedStep(A: seq<Block>, done: seq<Block>, c: Block, todo: seq<Block>)
    ensures !c.free ==> Arranged(A, done + [c], todo) == Arranged(A, done, [c] + todo)
    ensures c.free ==> Arranged(A, done + [c], todo) == A + [c] + (Reverse(Frees(done)) + Taken(done) + todo)
  {
    PartsSnoc(done, c);
    ReverseSnoc(Frees(done), c);
    Regroup(A, c, Reverse(Frees(done)), Taken(done), todo);
  }

  lemma Regroup(A: seq<Block>, c: Block, F: seq<Block>, T: seq<Block>, S: seq<Block>)
    ensures A + ([c] + F) + T + S == A + [c] + (F + T + S)
    ensures A + F + (T + [c]) + S == A + F + T + ([c] + S)
    ensures A + F + T + ([c] + S) == A + (F + T) + [c] + S
  {
  }

  /** A permutation of a non-empty list, cut around the list's first block. */
  lemma BagSplit(xs: seq<Block>, ys: seq<Block>) returns (P: seq<Block>, S: seq<Block>)
    requires multiset(xs) == multiset(ys) && xs != []
    ensures ys == P + [xs[0]] + S && multiset(xs[1..]) == multiset(P + S)
  {
    var b, T := xs[0], xs[1..];
    assert xs == [b] + T;
    assert b in multiset(xs);
    assert b in ys;
    var i :| 0 <= i < |ys| && ys[i] == b;
    P, S := ys[..i], ys[i + 1..];
    assert ys == P + [b] + S;
    HeadBag(b, T);
    BagMinus(P, b, S);
  }

  lemma HeadBag(b: Block, T: seq<Block>)
    ensures multiset(T) == multiset([b] + T) - multiset{b}
  {
  }

  lemma BagMinus(P: seq<Block>, b: Block, S: seq<Block>)
    ensures multiset(P + S) == multiset(P + [b] + S) - multiset{b}
  {
  }

  /** What a permutation keeps: the addresses, their distinctness, and the bytes in use. */
  lemma {:induction false} BagSame(xs: seq<Block>, ys: seq<Block>)
    requires multiset(xs) == multiset(ys) && NoDup(xs)
    ensures NoDup(ys) && Addrs(xs) == Addrs(ys) && Used(xs) == Used(ys)
    decreases |xs|
  {
    if xs == [] {
      assert |multiset(ys)| == 0;
    } else {
      var b := xs[0];
      var P, S := BagSplit(xs, ys);
      BagSame(xs[1..], P + S);
      SplitNoDup(P, b, S);
      UsedConcat(P, S);
      UsedConcat(P + [b], S);
      UsedConcat(P, [b]);
    }
  }

  lemma SplitNoDup(P: seq<Block>, b: Block, S: seq<Block>)
    ensures NoDup(P + [b] + S) <==> NoDup(P + S) && b.addr !in Addrs(P + S)
    ensures Addrs(P + [b] + S) == Addrs(P + S) + {b.addr}
  {
    assert [b][1..] == [];
    NoDupConcat(P, S);
    AddrsConcat(P, S);
    AddrsThree(P, [b], S);
    NoDupConcat(P + [b], S);
    NoDupConcat(P, [b]);
    AddrsConcat(P, [b]);
  }

  // ---- The stores ----

  /** Headers at `keys` overlap neither each other nor the live payloads of `bs`. */
  ghost predicate Roomy(keys: set<int>, bs: seq<Block>) {
    && (forall a, c :: a in keys && c in keys && a != c ==> c + HEADER <= a || a + HEADER <= c)
    && (forall a :: a in keys ==> OffPayloads(bs, a))
  }

  lemma TiledRoomy(hs: Headers, bs: seq<Block>)
    requires Tiled(bs, HEAP_BASE, HEAP_TOP) && hs.Keys == Addrs(bs)
    ensures Roomy(hs.Keys, bs)
  {
    forall a | a in hs
      ensures Clear(hs, a) && OffPayloads(bs, a)
    {
      var b := BlockAt(bs, a);
      var i :| 0 <= i < |bs| && bs[i] == b;
      assert bs == bs[..i] + [b] + bs[i + 1..];
      Ordered(bs[..i], b, bs[i + 1..]);
      HeaderRoom(bs[..i], b, bs[i + 1..], hs, a);
    }
  }

  /** The next link of `a`, unless that is null, in the heap's bytes; `bs` are the blocks before heap_defrag. */
  method StoreNext(h: KH.KernelHeap, a: int, v: u64, ghost bs: seq<Block>)
    requires h.mem.Length == HEAP_SIZE && Holds(h.mem[..], h.headers) && Roomy(h.headers.Keys, bs)
    requires a != 0 ==> a in h.headers
    modifies h`headers, h.mem
    ensures h.headers == WithNext(old(h.headers), a, v) && h.headers.Keys == old(h.headers).Keys
    ensures Holds(h.mem[..], h.headers) && PayloadsSame(bs, old(h.mem[..]), h.mem[..])
  {
    if a != 0 {
      h.SetNext(a, v, bs, h.mem[..]);
    }
  }

  /** The previous link of `a` becomes `v`, unless `a` is null. */
  method StorePrev(h: KH.KernelHeap, a: int, v: u64, ghost bs: seq<Block>)
    requires h.mem.Length == HEAP_SIZE && Holds(h.mem[..], h.headers) && Roomy(h.headers.Keys, bs)
    requires a != 0 ==> a in h.headers
    modifies h`headers, h.mem
    ensures h.headers == WithPrev(old(h.headers), a, v) && h.headers.Keys == old(h.headers).Keys
    ensures Holds(h.mem[..], h.headers) && PayloadsSame(bs, old(h.mem[..]), h.mem[..])
  {
    if a != 0 {
      h.SetPrev(a, v, bs, h.mem[..]);
    }
  }

  method UnlinkBlock(h: KH.KernelHeap, c: u64, ghost P: seq<Block>, ghost b: Block, ghost S: seq<Block>,
      ghost bs: seq<Block>)
    requires h.mem.Length == HEAP_SIZE && Holds(h.mem[..], h.headers) && Roomy(h.headers.Keys, bs) && c == b.addr
    requires Linked(h.headers, P + [b] + S, 0, 0) && NoDup(P + [b] + S) && 0 !in Addrs(P + [b] + S)
    modifies h`headers, h.mem
    ensures h.headers.Keys == old(h.headers).Keys && Holds(h.mem[..], h.headers)
    ensures Linked(h.headers, P + S, 0, 0)
    ensures c in h.headers && h.headers[c] == HeaderOf(b, Last(P, 0), First(S, 0))
    ensures PayloadsSame(bs, old(h.mem[..]), h.mem[..])
  {
    ghost var m, hs := h.mem[..], h.headers;
    UnlinkStep(hs, P, b, S);
    var hc := h.Peek(c);
    StoreNext(h, hc.prev, hc.next, bs);
    ghost var m1 := h.mem[..];
    StorePrev(h, hc.next, hc.prev, bs);
    PayloadsChain(bs, m, m1, h.mem[..]);
    assert h.headers == Unlinked(hs, c);
  }

  method InsertBehind(h: KH.KernelHeap, f: u64, c: u64, ghost P: seq<Block>, ghost b: Block,
      ghost S: seq<Block>, ghost p: int, ghost n: int, ghost bs: seq<Block>)
    requires h.mem.Length == HEAP_SIZE && Holds(h.mem[..], h.headers) && Roomy(h.headers.Keys, bs)
    requires P != [] && f == Last(P, 0) && c == b.addr && c in h.headers && h.headers[c] == HeaderOf(b, p, n)
    requires Linked(h.headers, P + S, 0, 0) && NoDup(P + [b] + S) && 0 !in Addrs(P + [b] + S)
    modifies h`headers, h.mem
    ensures h.headers.Keys == old(h.headers).Keys && Holds(h.mem[..], h.headers)
    ensures Linked(h.headers, P + [b] + S, 0, 0)
    ensures PayloadsSame(bs, old(h.mem[..]), h.mem[..])
  {
    ghost var m, hs := h.mem[..], h.headers;
    InsertStep(hs, P, b, S, p, n);
    var next := h.Peek(f).next;
    StoreNext(h, c, next, bs);
    ghost var m1 := h.mem[..];
    StorePrev(h, c, f, bs);
    ghost var m2 := h.mem[..];
    PayloadsChain(bs, m, m1, m2);
    StoreNext(h, f, c, bs);
    ghost var m3 := h.mem[..];
    PayloadsChain(bs, m, m2, m3);
    StorePrev(h, next, c, bs);
    PayloadsChain(bs, m, m3, h.mem[..]);
    assert h.headers == Inserted(hs, f, c);
  }

  /** The list, whole: `A` ends with the first free block, `done` was handled, `todo` is to come. */
  ghost predicate Progress(h: KH.KernelHeap, bs: seq<Block>, A: seq<Block>, done: seq<Block>, todo: seq<Block>)
    reads h, h.mem
  {
    && h.mem.Length == HEAP_SIZE && Holds(h.mem[..], h.headers)
    && h.headers.Keys == Addrs(bs)
    && bs == A + done + todo
    && Linked(h.headers, Arranged(A, done, todo), 0, 0)
  }

  lemma ArrangedNoDup(bs: seq<Block>, A: seq<Block>, done: seq<Block>, todo: seq<Block>)
    requires Tiled(bs, HEAP_BASE, HEAP_TOP) && bs == A + done + todo
    ensures NoDup(Arranged(A, done, todo)) && 0 !in Addrs(Arranged(A, done, todo))
  {
    TiledNoDup(bs, HEAP_BASE, HEAP_TOP);
    ArrangedBag(A, done, todo);
    BagSame(bs, Arranged(A, done, todo));
    TiledBounds(bs, HEAP_BASE, HEAP_TOP);
    AddrsAbove(bs, 0);
  }

  /** Before the first free block was met `A` holds allocated blocks only; afterwards it ends with that block. */
  ghost predicate Phase(A: seq<Block>, done: seq<Block>, lastFree: int) {
    if lastFree == 0 then done == [] && forall b :: b in A ==> !b.free
    else A != [] && lastFree == Last(A, 0) && A[|A| - 1].free && forall i :: 0 <= i < |A| - 1 ==> !A[i].free
  }

  lemma AtCurrent(hs: Headers, bs: seq<Block>, A: seq<Block>, done: seq<Block>, b: Block, T: seq<Block>)
    requires Tiled(bs, HEAP_BASE, HEAP_TOP) && bs == A + done + ([b] + T)
    requires Linked(hs, Arranged(A, done, [b] + T), 0, 0)
    ensures b.addr in hs && hs[b.addr].next == First(T, 0) && hs[b.addr].flag == (if b.free then 1 else 0)
    ensures HEAP_BASE <= b.addr < HEAP_TOP && (T != [] ==> T[0].addr != 0)
  {
    Regroup(A, b, Reverse(Frees(done)), Taken(done), T);
    Around(hs, A + (Reverse(Frees(done)) + Taken(done)), b, T);
    TiledBounds(bs, HEAP_BASE, HEAP_TOP);
    assert b in bs;
    assert T != [] ==> T[0] in bs;
  }

  /** A free block met after the first: unlinked, and linked in behind that one. */
  method MoveBehind(h: KH.KernelHeap, f: u64, c: u64, ghost bs: seq<Block>, ghost A: seq<Block>,
      ghost done: seq<Block>, ghost b: Block, ghost T: seq<Block>)
    requires Tiled(bs, HEAP_BASE, HEAP_TOP) && Progress(h, bs, A, done, [b] + T)
    requires A != [] && f == Last(A, 0) && c == b.addr && b.free
    modifies h`headers, h.mem
    ensures Progress(h, bs, A, done + [b], T)
    ensures PayloadsSame(bs, old(h.mem[..]), h.mem[..])
  {
    ghost var m := h.mem[..];
    ghost var F, K := Reverse(Frees(done)), Taken(done);
    MoveReady(bs, A, done, b, T);
    TiledRoomy(h.headers, bs);
    UnlinkBlock(h, c, A + (F + K), b, T, bs);
    ghost var v := h.mem[..];
    InsertBehind(h, f, c, A, b, F + K + T, Last(A + (F + K), 0), First(T, 0), bs);
    PayloadsChain(bs, m, v, h.mem[..]);
  }

  /** The list before and after one move, cut where unlinking and inserting cut it. */
  lemma MoveReady(bs: seq<Block>, A: seq<Block>, done: seq<Block>, b: Block, T: seq<Block>)
    requires Tiled(bs, HEAP_BASE, HEAP_TOP) && bs == A + done + ([b] + T) && b.free
    ensures var F, K := Reverse(Frees(done)), Taken(done);
            var xs, ys := A + (F + K) + [b] + T, A + [b] + (F + K + T);
            && xs == Arranged(A, done, [b] + T) && NoDup(xs) && 0 !in Addrs(xs)
            && ys == Arranged(A, done + [b], T) && NoDup(ys) && 0 !in Addrs(ys)
            && A + (F + K) + T == A + (F + K + T)
    ensures bs == A + (done + [b]) + T
  {
    MoveShapes(A, done, b, T);
    assert bs == A + (done + [b]) + T;
    ArrangedNoDup(bs, A, done, [b] + T);
    ArrangedNoDup(bs, A, done + [b], T);
  }

  /** The lists before and after the move, with the place of `b` shown. */
  lemma MoveShapes(A: seq<Block>, done: seq<Block>, b: Block, T: seq<Block>)
    requires b.free
    ensures var F, K := Reverse(Frees(done)), Taken(done);
            && A + (F + K) + [b] + T == Arranged(A, done, [b] + T)
            && A + [b] + (F + K + T) == Arranged(A, done + [b], T)
            && A + (F + K) + T == A + (F + K + T)
  {
    ArrangedStep(A, done, b, T);
    Regroup(A, b, Reverse(Frees(done)), Taken(done), T);
    Grouped(A, Reverse(Frees(done)), Taken(done), T);
  }

  lemma Grouped(A: seq<Block>, F: seq<Block>, K: seq<Block>, T: seq<Block>)
    ensures A + (F + K) + T == A + (F + K + T)
  {
  }

  lemma DefragSame(bs: seq<Block>)
    requires Tiled(bs, HEAP_BASE, HEAP_TOP)
    ensures multiset(Defragged(bs)) == multiset(bs)
    ensures Addrs(Defragged(bs)) == Addrs(bs) && Used(Defragged(bs)) == Used(bs)
  {
    DefragPermutes(bs);
    TiledNoDup(bs, HEAP_BASE, HEAP_TOP);
    BagSame(bs, Defragged(bs));
  }

  lemma Finished(bs: seq<Block>, A: seq<Block>, done: seq<Block>, lastFree: int)
    requires bs == A + done && Phase(A, done, lastFree)
    ensures Arranged(A, done, []) == Defragged(bs)
  {
    var n := Lead(bs);
    if lastFree == 0 {
      assert bs == A && n == |bs|;
      assert Arranged(A, [], []) == A;
    } else {
      assert forall i :: 0 <= i < |A| ==> bs[i] == A[i];
      assert n == |A| - 1;
      assert bs[..n + 1] == A && bs[n + 1..] == done;
    }
  }

  /**
   * heap_defrag. It terminates, keeps every byte of every payload, and leaves the headers linked
   * in the order Defragged; that order tiles the heap only by accident, so Valid() is lost.
   */
  method HeapDefrag(h: KH.KernelHeap)
    requires h.Valid()
    modifies h, h.mem
    ensures h.mem.Length == HEAP_SIZE && Holds(h.mem[..], h.headers)
    ensures h.blocks == Defragged(old(h.blocks))
    ensures Linked(h.headers, h.blocks, 0, 0) && h.headers.Keys == Addrs(h.blocks)
    ensures multiset(h.blocks) == multiset(old(h.blocks)) && h.heapUsed == Used(h.blocks)
    ensures PayloadsSame(old(h.blocks), old(h.mem[..]), h.mem[..])
  {
    ghost var bs := h.blocks;
    ghost var A, done, lastFree := Sweep(h);
    Finished(bs, A, done, lastFree);
    DefragSame(bs);
    h.blocks := Defragged(bs);
  }

  /** heap_defrag's loop over the list. */
  method Sweep(h: KH.KernelHeap) returns (ghost A: seq<Block>, ghost done: seq<Block>, lastFree: u64)
    requires h.Valid()
    modifies h`headers, h.mem
    ensures Progress(h, h.blocks, A, done, []) && Phase(A, done, lastFree)
    ensures PayloadsSame(h.blocks, old(h.mem[..]), h.mem[..])
  {
    ghost var bs, m := h.blocks, h.mem[..];
    var current: u64 := HEAP_BASE;
    lastFree := 0;
    ghost var todo := bs;
    A, done := [], [];
    assert Arranged(A, done, todo) == bs;
    while current != 0
      invariant Progress(h, bs, A, done, todo)
      invariant current == First(todo, 0) && (todo != [] ==> todo[0].addr != 0)
      invariant Phase(A, done, lastFree)
      invariant PayloadsSame(bs, m, h.mem[..])
      decreases |todo|
    {
      ghost var v := h.mem[..];
      assert todo == [todo[0]] + todo[1..];
      current, lastFree, A, done := Visit(h, current, lastFree, bs, A, done, todo[0], todo[1..]);
      PayloadsChain(bs, m, v, h.mem[..]);
      todo := todo[1..];
    }
  }

  /** The block under the loop stays where it is, unless it is free and not the first free one. */
  lemma Stays(bs: seq<Block>, A: seq<Block>, done: seq<Block>, b: Block, T: seq<Block>, lastFree: int)
    requires bs == A + done + ([b] + T) && Phase(A, done, lastFree) && b.addr != 0
    ensures lastFree == 0 ==>
              && done == [] && bs == A + [b] + [] + T && Arranged(A + [b], [], T) == Arranged(A, done, [b] + T)
              && Phase(A + [b], [], if b.free then b.addr else 0)
    ensures lastFree != 0 ==> bs == A + (done + [b]) + T && Phase(A, done + [b], lastFree)
    ensures lastFree != 0 && !b.free ==> Arranged(A, done + [b], T) == Arranged(A, done, [b] + T)
  {
    ArrangedStep(A, done, b, T);
    ArrangedStart(A, b, T);
  }

  /** The body of heap_defrag's loop. */
  method Visit(h: KH.KernelHeap, current: u64, lastFree: u64, ghost bs: seq<Block>,
               ghost A: seq<Block>, ghost done: seq<Block>, ghost b: Block, ghost T: seq<Block>)
    returns (next: u64, last: u64, ghost A': seq<Block>, ghost done': seq<Block>)
    requires Tiled(bs, HEAP_BASE, HEAP_TOP) && Progress(h, bs, A, done, [b] + T)
    requires current == b.addr && Phase(A, done, lastFree)
    modifies h`headers, h.mem
    ensures Progress(h, bs, A', done', T) && Phase(A', done', last)
    ensures next == First(T, 0) && (T != [] ==> T[0].addr != 0)
    ensures PayloadsSame(bs, old(h.mem[..]), h.mem[..])
  {
    AtCurrent(h.headers, bs, A, done, b, T);
    Stays(bs, A, done, b, T, lastFree);
    next, last, A', done' := h.Peek(current).next, lastFree, A, done;
    if h.Peek(current).flag != 0 && lastFree != 0 {
      MoveBehind(h, lastFree, current, bs, A, done, b, T);
      done' := done + [b];
    } else if lastFree != 0 {
      done' := done + [b];
    } else {
      A' := A + [b];
      if h.Peek(current).flag != 0 {
        last := current;
      }
    }
  }

  lemma ArrangedStart(A: seq<Block>, b: Block, T: seq<Block>)
    ensures Arranged(A + [b], [], T) == Arranged(A, [], [b] + T)
    ensures A + [b] + [] + T == A + [] + ([b] + T)
  {
  }
}
