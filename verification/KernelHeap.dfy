/** kmalloc, kcalloc, krealloc and kfree on the bytes of the heap. */
module KernelHeap {
  import opened Machine
  import opened HeapBlocks
  import opened HeapLayout
  import opened HeapHeaders
  import HeapRuns
  import KString

  class KernelHeap {
    /** The bytes from HEAP_BASE to HEAP_TOP: headers and payloads. */
    const mem: array<u8>
    var heapUsed: int
    /** The headers in `mem`, and the block list they spell out. */
    ghost var headers: Headers
    ghost var blocks: seq<Block>

    /** The memory holds a linked list of blocks that tile the heap. */
    ghost predicate Shape()
      reads this, mem
    {
      && mem.Length == HEAP_SIZE
      && Holds(mem[..], headers)
      && Tiled(blocks, HEAP_BASE, HEAP_TOP)
      && Linked(headers, blocks, 0, 0) && headers.Keys == Addrs(blocks)
    }

    /** The invariant between calls: no two free neighbours, and the usage counter is right. */
    ghost predicate Valid()
      reads this, mem
    {
      Shape() && Settled(blocks) && heapUsed == Used(blocks)
    }

    // ---- Field access ----

    function Peek(a: int): Header
      requires mem.Length == HEAP_SIZE && HeaderFits(mem[..], a)
      reads mem
    {
      HeaderAt(mem[..], a)
    }

    method PokeSize(a: int, v: u64)
      requires HeaderFits(mem[..], a)
      modifies mem
      ensures Rewritten(old(mem[..]), mem[..], a, old(Peek(a)).(size := v))
    {
      FieldStores(mem[..], a, v, 0);
      KString.PutBytes(mem, At(a), Encode(v, 8));
    }

    method PokeFlag(a: int, v: u8)
      requires HeaderFits(mem[..], a)
      modifies mem
      ensures Rewritten(old(mem[..]), mem[..], a, old(Peek(a)).(flag := v))
    {
      ghost var m := mem[..];
      FieldStores(m, a, 0, v);
      mem[At(a) + 8] := v;
      assert mem[..] == HeapLayout.SetFlag(m, a, v);
    }

    method PokeNext(a: int, v: u64)
      requires HeaderFits(mem[..], a)
      modifies mem
      ensures Rewritten(old(mem[..]), mem[..], a, old(Peek(a)).(next := v))
    {
      FieldStores(mem[..], a, v, 0);
      KString.PutBytes(mem, At(a) + 16, Encode(v, 8));
    }

    method PokePrev(a: int, v: u64)
      requires HeaderFits(mem[..], a)
      modifies mem
      ensures Rewritten(old(mem[..]), mem[..], a, old(Peek(a)).(prev := v))
    {
      FieldStores(mem[..], a, v, 0);
      KString.PutBytes(mem, At(a) + 24, Encode(v, 8));
    }

    /** The four stores that put a new header at `a`. */
    method PokeHeader(a: int, size: u64, flag: u8, next: u64, prev: u64)
      requires HeaderFits(mem[..], a)
      modifies mem
      ensures Rewritten(old(mem[..]), mem[..], a, Header(size, flag, next, prev))
    {
      PokeSize(a, size);
      PokeFlag(a, flag);
      PokeNext(a, next);
      PokePrev(a, prev);
    }

    // ---- Stores into the headers of a well-formed memory ----

    /**
     * A header may be stored at `a`: it overlaps no other header and no payload of the blocks
     * `bs`, and those payloads still hold what they held in the memory `was`.
     */
    ghost predicate Writable(a: int, bs: seq<Block>, was: seq<u8>)
      reads `headers, mem
    {
      && mem.Length == HEAP_SIZE == |was| && Holds(mem[..], headers) && PayloadsSame(bs, was, mem[..])
      && Clear(headers, a) && OffPayloads(bs, a)
    }

    /** The size of the header at `a` becomes `v`. */
    method SetSize(a: int, v: u64, ghost bs: seq<Block>, ghost was: seq<u8>)
      requires Writable(a, bs, was) && a in headers
      modifies `headers, mem
      ensures headers == old(headers)[a := old(headers)[a].(size := v)]
      ensures headers.Keys == old(headers).Keys
      ensures Writable(a, bs, was)
    {
      ghost var m, hs := mem[..], headers;
      PokeSize(a, v);
      headers := headers[a := headers[a].(size := v)];
      StoreStep(was, m, mem[..], hs, a, headers[a], bs);
      ClearSame(hs, headers, a);
    }

    /** The free flag of the header at `a` becomes `v`. */
    method SetFlag(a: int, v: u8, ghost bs: seq<Block>, ghost was: seq<u8>)
      requires Writable(a, bs, was) && a in headers
      modifies `headers, mem
      ensures headers == old(headers)[a := old(headers)[a].(flag := v)]
      ensures headers.Keys == old(headers).Keys
      ensures Writable(a, bs, was)
    {
      ghost var m, hs := mem[..], headers;
      PokeFlag(a, v);
      headers := headers[a := headers[a].(flag := v)];
      StoreStep(was, m, mem[..], hs, a, headers[a], bs);
      ClearSame(hs, headers, a);
    }

    /** The next link of the header at `a` becomes `v`. */
    method SetNext(a: int, v: u64, ghost bs: seq<Block>, ghost was: seq<u8>)
      requires Writable(a, bs, was) && a in headers
      modifies `headers, mem
      ensures headers == old(headers)[a := old(headers)[a].(next := v)]
      ensures headers.Keys == old(headers).Keys
      ensures Writable(a, bs, was)
    {
      ghost var m, hs := mem[..], headers;
      PokeNext(a, v);
      headers := headers[a := headers[a].(next := v)];
      StoreStep(was, m, mem[..], hs, a, headers[a], bs);
      ClearSame(hs, headers, a);
    }

    /** The previous link of the header at `a` becomes `v`. */
    method SetPrev(a: int, v: u64, ghost bs: seq<Block>, ghost was: seq<u8>)
      requires Writable(a, bs, was) && a in headers
      modifies `headers, mem
      ensures headers == old(headers)[a := old(headers)[a].(prev := v)]
      ensures headers.Keys == old(headers).Keys
      ensures Writable(a, bs, was)
    {
      ghost var m, hs := mem[..], headers;
      PokePrev(a, v);
      headers := headers[a := headers[a].(prev := v)];
      StoreStep(was, m, mem[..], hs, a, headers[a], bs);
      ClearSame(hs, headers, a);
    }

    /** The four stores that put a new header at `a`. */
    method NewHeader(a: int, size: u64, flag: u8, next: u64, prev: u64, ghost bs: seq<Block>, ghost was: seq<u8>)
      requires Writable(a, bs, was) && HeaderFits(mem[..], a)
      modifies `headers, mem
      ensures headers == old(headers)[a := Header(size, flag, next, prev)]
      ensures headers.Keys == old(headers).Keys + {a}
      ensures Writable(a, bs, was)
    {
      ghost var m, hs := mem[..], headers;
      PokeHeader(a, size, flag, next, prev);
      headers := headers[a := Header(size, flag, next, prev)];
      StoreStep(was, m, mem[..], hs, a, headers[a], bs);
      ClearSame(hs, headers, a);
    }

    // ---- The allocator ----

    /** heap_init */
    constructor ()
      ensures Valid() && fresh(mem)
      ensures blocks == INITIAL && heapUsed == 0
    {
      mem := new u8[HEAP_SIZE];
      heapUsed := 0;
      blocks := INITIAL;
      headers := map[];
      new;
      PokeSize(HEAP_BASE, HEAP_SIZE - HEADER);
      PokeFlag(HEAP_BASE, 1);
      PokeNext(HEAP_BASE, 0);
      PokePrev(HEAP_BASE, 0);
      headers := map[HEAP_BASE := Peek(HEAP_BASE)];
      InitialWellFormed();
      LinkedOne(headers, INITIAL[0], 0, 0);
    }

    /** kmalloc's walk along the list: the first free block that fits, or 0. */
    method FindFit(total: int) returns (current: int, ghost L: seq<Block>, ghost b: Block, ghost R: seq<Block>)
      requires Valid() && total >= 0
      ensures forall x :: x in L ==> !(x.free && x.size >= total)
      ensures current == 0 ==> blocks == L
      ensures current != 0 ==>
                && blocks == L + [b] + R && current == b.addr && HEAP_BASE <= current < HEAP_TOP
                && b.free && b.size >= total
    {
      current, L, b, R := HEAP_BASE, [], INITIAL[0], blocks;
      while current != 0
        invariant blocks == L + R && current == First(R, 0)
        invariant forall x :: x in L ==> !(x.free && x.size >= total)
        decreases |R|
      {
        b := R[0];
        assert blocks == L + [b] + R[1..];
        Around(headers, L, b, R[1..]);
        if Peek(current).flag != 0 && Peek(current).size >= total {
          Ordered(L, b, R[1..]);
          R := R[1..];
          return;
        }
        current := Peek(current).next;
        L, R := L + [b], R[1..];
      }
      if R != [] {
        assert blocks == L + [R[0]] + R[1..];
        Ordered(L, R[0], R[1..]);
      }
    }

    method Kmalloc(size: u64) returns (p: u64)
      requires Valid()
      modifies this, mem
      ensures Valid()
      ensures p == AllocResult(old(blocks), size)
      ensures blocks == Malloc(old(blocks), size)
      ensures PayloadsSame(old(blocks), old(mem[..]), mem[..])
    {
      if size == 0 {
        return 0;
      }
      var total := TotalSize(size);
      var current, L, b, R := FindFit(total);
      if current == 0 {
        NoFit(blocks, total);
        return 0;
      }
      MallocAt(L, b, R, size);
      Take(current, total, L, b, R);
      return current + HEADER;
    }

    /** kmalloc's split: the stores into the new header, the successor's, and the old header. */
    method SplitBlock(current: int, total: u64, ghost b: Block, ghost bs: seq<Block>, ghost was: seq<u8>)
      requires current == b.addr && current in headers && headers[current].size == b.size >= total + HEADER + 64
      requires b.size < TWO_64 && Writable(current, bs, was)
      requires var n := b.Payload() + total;
               HeaderFits(mem[..], n) && n !in headers && Writable(n, bs, was)
      requires var nxt := headers[current].next;
               && 0 <= nxt < TWO_64
               && (nxt != 0 ==> nxt in headers && nxt != current && Writable(nxt, bs, was))
      modifies `headers, mem
      ensures headers == SplitHeaders(old(headers), b, total, old(headers)[current].next)
      ensures Writable(current, bs, was)
    {
      ghost var hs := headers;
      var h := Peek(current);
      var n := current + HEADER + total;
      NewHeader(n, h.size - total - HEADER, 1, h.next, current, bs, was);
      ghost var g1 := headers;
      assert g1 == hs[n := Header(b.size - total - HEADER, 1, h.next, current)];
      ClearMore(hs, headers, current, n);
      if h.next != 0 {
        ClearMore(hs, headers, h.next, n);
        SetPrev(h.next, n, bs, was);
        assert headers == g1[h.next := g1[h.next].(prev := n)];
        ClearMore(hs, headers, current, n);
      }
      ghost var g2 := headers;
      assert h.next != 0 ==> g2 == g1[h.next := g1[h.next].(prev := n)];
      SetNext(current, n, bs, was);
      ghost var g3 := headers;
      assert g3 == g2[current := g2[current].(next := n)];
      SetSize(current, total, bs, was);
      assert headers == g3[current := g3[current].(size := total)];
      SplitForm(hs, b, total, h.next, current, n, g1, g2, g3, headers);
    }

    /** The stores of kmalloc into the fitting block at `current`: split it if it is large, then mark it. */
    method TakeBlock(current: int, total: u64, ghost L: seq<Block>, ghost b: Block, ghost R: seq<Block>)
      requires mem.Length == HEAP_SIZE && Holds(mem[..], headers) && headers.Keys == Addrs(L + [b] + R)
      requires InOrder(L, b, R) && LinkedAround(headers, L, b, R)
      requires current == b.addr && b.free && b.size >= total
      modifies `headers, mem
      ensures headers == TakeHeaders(old(headers), b, total, First(R, 0))
      ensures Holds(mem[..], headers)
      ensures PayloadsSame(L + [b] + R, old(mem[..]), mem[..])
    {
      ghost var m, bs := mem[..], L + [b] + R;
      HeaderRoom(L, b, R, headers, current);
      if Peek(current).size >= total + HEADER + 64 {
        HeaderRoom(L, b, R, headers, current + HEADER + total);
        if R != [] {
          SuccessorRoom(L, b, R, headers);
        }
        SplitBlock(current, total, b, bs, m);
      }
      SetFlag(current, 0, bs, m);
    }

    /** The rest of kmalloc, once the block at `current` was found to fit. */
    method Take(current: int, total: u64, ghost L: seq<Block>, ghost b: Block, ghost R: seq<Block>)
      requires Valid() && blocks == L + [b] + R
      requires current == b.addr && b.free && b.size >= total && total % 8 == 0
      modifies this, mem
      ensures Valid()
      ensures blocks == L + Carve(b, total) + R
      ensures PayloadsSame(old(blocks), old(mem[..]), mem[..])
    {
      Ordered(L, b, R);
      Around(headers, L, b, R);
      TakeLinked(headers, L, b, R, total);
      TakeKeys(headers, L, b, R, total);
      CarveKeeps(L, b, R, total);
      CarveUsed(L, b, R, total);
      TakeBlock(current, total, L, b, R);
      heapUsed := heapUsed + Peek(current).size;
      blocks := L + Carve(b, total) + R;
    }

    /** kfree's merge: the block at `p` swallows its successor. */
    method AbsorbNext(p: int, ghost L: seq<Block>, ghost b: Block, ghost c: Block, ghost R: seq<Block>)
      requires Shape() && blocks == L + [b] + ([c] + R) && p == b.addr && b.free
      modifies `headers, `blocks, mem
      ensures Shape() && blocks == L + [Join(b, c)] + R
      ensures PayloadsSame(old(blocks), old(mem[..]), mem[..])
    {
      ghost var bs := blocks;
      AbsorbRoom(headers, L, b, c, R);
      AbsorbList(headers, L, b, c, R);
      AbsorbListKeys(headers, L, b, c, R);
      AbsorbTiled(L, b, c, R);
      AbsorbStores(p, c.addr, bs, mem[..]);
      blocks := L + [Join(b, c)] + R;
    }

    method AbsorbStores(p: int, ghost q: int, ghost bs: seq<Block>, ghost was: seq<u8>)
      requires p in headers && q in headers && p != q && headers[p].next == q
      requires Writable(p, bs, was)
      requires 0 <= headers[p].size + HEADER + headers[q].size < TWO_64
      requires var nxt := headers[q].next;
               && 0 <= nxt < TWO_64
               && (nxt != 0 ==> nxt in headers && nxt != p && nxt != q && Writable(nxt, bs, was))
      modifies `headers, mem
      ensures headers == AbsorbHeaders(old(headers), p) && Holds(mem[..], headers)
      ensures PayloadsSame(bs, was, mem[..])
    {
      ghost var hs, nxt := headers, headers[q].next;
      var next := Peek(p).next;
      SetSize(p, Peek(p).size + HEADER + Peek(next).size, bs, was);
      ghost var g1 := headers;
      assert g1 == hs[p := hs[p].(size := hs[p].size + HEADER + hs[q].size)];
      SetNext(p, Peek(next).next, bs, was);
      ghost var g2 := headers;
      assert g2 == g1[p := g1[p].(next := nxt)];
      if Peek(p).next != 0 {
        SetPrev(Peek(p).next, p, bs, was);
        assert headers == g2[nxt := g2[nxt].(prev := p)];
      }
      AbsorbForm(hs, p, q, nxt, g1, g2, headers);
      headers := headers - {next};
    }

    /** Marking the allocated block at `a` free; neighbours are not merged yet. */
    method MarkFree(a: int, ghost L: seq<Block>, ghost b: Block, ghost R: seq<Block>)
      requires Shape() && blocks == L + [b] + R && a == b.addr
      modifies `headers, `blocks, mem
      ensures Shape() && blocks == L + [b.(free := true)] + R
      ensures PayloadsSame(old(blocks), old(mem[..]), mem[..])
    {
      MarkRoom(headers, L, b, R);
      SetFlag(a, 1, blocks, mem[..]);
      blocks := L + [b.(free := true)] + R;
    }

    /** kfree's first merge: with the next block, if that is free. */
    method MergeForward(a: int, ghost L: seq<Block>, ghost b: Block, ghost R: seq<Block>)
      requires Shape() && blocks == L + [b] + R && a == b.addr && b.free
      modifies `headers, `blocks, mem
      ensures Shape() && blocks == L + MergeNext(b, R)
      ensures PayloadsSame(old(blocks), old(mem[..]), mem[..])
    {
      Neighbours(headers, L, b, R);
      var next := Peek(a).next;
      if next != 0 && Peek(next).flag != 0 {
        ghost var c, S := R[0], R[1..];
        assert R == [c] + S;
        AbsorbNext(a, L, b, c, S);
        MergeNextForm(L, b, c, S);
      } else {
        assert blocks == L + ([b] + R);
      }
    }

    /** kfree's second merge: into the previous block, if that is free. */
    method MergeBackward(a: int, ghost L: seq<Block>, ghost M: seq<Block>)
      requires Shape() && M != [] && blocks == L + M && a == M[0].addr && M[0].free
      modifies `headers, `blocks, mem
      ensures Shape() && blocks == MergePrev(L, M)
      ensures PayloadsSame(old(blocks), old(mem[..]), mem[..])
    {
      ghost var b, R := M[0], M[1..];
      assert M == [b] + R;
      assert blocks == L + [b] + R;
      Neighbours(headers, L, b, R);
      var prev := Peek(a).prev;
      if prev != 0 && Peek(prev).flag != 0 {
        ghost var K, p := L[..|L| - 1], L[|L| - 1];
        assert L == K + [p];
        assert blocks == K + [p] + ([b] + R);
        AbsorbNext(prev, K, p, b, R);
      }
    }

    /** kfree, for null and for pointers to the payload of some block. */
    method Kfree(ptr: u64)
      requires Valid()
      requires ptr == 0 || Find(blocks, ptr) < |blocks|
      modifies this, mem
      ensures Valid()
      ensures blocks == Free(old(blocks), ptr)
      ensures PayloadsSame(blocks, old(mem[..]), mem[..])
    {
      NoPayloadAtZero(blocks);
      if ptr == 0 {
        return;
      }
      ghost var bs, m, i := blocks, mem[..], Find(blocks, ptr);
      ghost var L, b, R := bs[..i], bs[i], bs[i + 1..];
      assert bs == L + [b] + R;
      var block := ptr - HEADER;
      Neighbours(headers, L, b, R);
      if Peek(block).flag != 0 {
        return;
      }
      FreeKeeps(bs, ptr);
      heapUsed := heapUsed - Peek(block).size;
      FreeBlock(block, L, b, R);
    }

    /** The stores of kfree on the allocated block at `a`: mark it, merge forward, merge backward. */
    method FreeBlock(a: int, ghost L: seq<Block>, ghost b: Block, ghost R: seq<Block>)
      requires Shape() && blocks == L + [b] + R && a == b.addr && !b.free
      modifies `headers, `blocks, mem
      ensures Shape() && blocks == MergePrev(L, MergeNext(b, R))
      ensures PayloadsSame(blocks, old(mem[..]), mem[..])
    {
      ghost var m := mem[..];
      MarkFree(a, L, b, R);
      ghost var m1 := mem[..];
      MergeForward(a, L, b.(free := true), R);
      ghost var m2 := mem[..];
      ghost var M := MergeNext(b, R);
      assert M == MergeNext(b.(free := true), R);
      MergeBackward(a, L, M);
      FreePayloads(L, b, R, m, m1, m2, mem[..]);
    }

    /** kcalloc: the count of bytes is computed modulo 2^64. */
    method Kcalloc(count: u64, size: u64) returns (p: u64)
      requires Valid()
      requires HeapRuns.Permitted(blocks, HeapRuns.Kcalloc(count, size))
      modifies this, mem
      ensures Valid()
      ensures p == AllocResult(old(blocks), count * size % TWO_64)
      ensures blocks == Malloc(old(blocks), count * size % TWO_64)
      ensures PayloadsSame(old(blocks), old(mem[..]), mem[..])
      ensures p != 0 ==>
                && HEAP_BASE <= p && p + count * size % TWO_64 <= HEAP_TOP
                && forall k :: At(p) <= k < At(p) + count * size % TWO_64 ==> mem[k] == 0
    {
      var total: u64 := count * size % TWO_64;
      ghost var bs, m := blocks, mem[..];
      p := Kmalloc(total);
      if p != 0 {
        ghost var b := HeapRuns.Granted(bs, total);
        Fill(p, total, b, bs, m);
      }
    }

    /** Clears the first `total` bytes of a block that was just allocated. */
    method Fill(p: u64, total: u64, ghost b: Block, ghost bs: seq<Block>, ghost m: seq<u8>)
      requires Valid() && b in blocks && !b.free && p == b.Payload() && total <= b.size
      requires forall x :: x in bs && !x.free ==> x in blocks && x != b
      requires |m| == HEAP_SIZE && PayloadsSame(bs, m, mem[..])
      modifies mem
      ensures Valid() && PayloadsSame(bs, m, mem[..])
      ensures HEAP_BASE <= p && p + total <= HEAP_TOP
      ensures forall k :: At(p) <= k < At(p) + total ==> mem[k] == 0
    {
      ghost var v := mem[..];
      TiledBounds(blocks, HEAP_BASE, HEAP_TOP);
      KString.Kmemset(mem, HEAP_BASE, p, 0, total);
      OwnerStore(v, mem[..], headers, blocks, b);
    }

    /**
     * krealloc, for null and live pointers. The object at the returned address starts with
     * every byte of the old block; all other objects keep theirs.
     */
    method Krealloc(ptr: u64, size: u64) returns (r: u64)
      requires Valid() && HeapRuns.Permitted(blocks, HeapRuns.Krealloc(ptr, size))
      modifies this, mem
      ensures Valid()
      ensures r == HeapRuns.ReallocResult(old(blocks), ptr, size)
      ensures blocks == HeapRuns.Realloc(old(blocks), ptr, size)
      ensures forall b :: b in blocks && !b.free && b.Payload() != r ==>
                Same(old(mem[..]), mem[..], At(b.Payload()), At(b.End()))
      ensures r != 0 && ptr != 0 ==>
                Moved(old(mem[..]), mem[..], ptr, r, old(blocks)[Find(old(blocks), ptr)].size)
    {
      ghost var bs, m := blocks, mem[..];
      if ptr == 0 {
        r := Kmalloc(size);
        StillLive(bs, size, m, mem[..]);
        return;
      }
      if size == 0 {
        Kfree(ptr);
        return 0;
      }
      ghost var b := bs[Find(bs, ptr)];
      var block := ptr - HEADER;
      BlockHeader(headers, bs, Find(bs, ptr));
      if Peek(block).size >= size {
        return ptr;
      }
      HeapRuns.MallocKeeps(bs, size);
      r := Kmalloc(size);
      if r != 0 {
        Move(r, ptr, size, b, bs, m);
      }
    }

    /** krealloc's last step: copy the old block into the new one and free the old one. */
    method Move(r: u64, ptr: u64, size: u64, ghost b: Block, ghost bs: seq<Block>, ghost m: seq<u8>)
      requires Valid() && WellFormed(bs) && blocks == Malloc(bs, size) && r == AllocResult(bs, size) != 0
      requires b in bs && !b.free && b.Payload() == ptr && b.size <= HeapRuns.GrantedSize(bs, size)
      requires |m| == HEAP_SIZE && PayloadsSame(bs, m, mem[..])
      modifies this, mem
      ensures Valid() && blocks == Free(Malloc(bs, size), ptr)
      ensures forall x :: x in blocks && !x.free && x.Payload() != r ==> Same(m, mem[..], At(x.Payload()), At(x.End()))
      ensures Moved(m, mem[..], ptr, r, b.size)
    {
      ghost var v := mem[..];
      ghost var c := HeapRuns.Granted(bs, size);
      ghost var ms := blocks;
      TiledBounds(ms, HEAP_BASE, HEAP_TOP);
      HeapRuns.FindUnique(ms, b);
      BlockHeader(headers, ms, Find(ms, ptr));
      CopyPayload(r, ptr, Peek(ptr - HEADER).size, b, c);
      ghost var w := mem[..];
      Kfree(ptr);
      MoveLive(bs, ms, blocks, size, b, c);
      MoveBytes(bs, ms, blocks, b, c, m, v, w, mem[..]);
    }

    method CopyPayload(r: u64, ptr: u64, n: int, ghost b: Block, ghost c: Block)
      requires Valid() && b in blocks && c in blocks && b != c
      requires b.Payload() == ptr && c.Payload() == r && n == b.size <= c.size
      modifies mem
      ensures Valid()
      ensures OnlyPayload(old(mem[..]), mem[..], c)
      ensures Moved(old(mem[..]), mem[..], ptr, r, n)
    {
      ghost var m := mem[..];
      PayloadInside(blocks, b);
      PayloadInside(blocks, c);
      KString.Kmemcpy(mem, At(r), At(ptr), n);
      OwnerStore(m, mem[..], headers, blocks, c);
    }
  }
}
