/** The page frame allocator: an array of records whose free ones are chained into a list. */
module PageFrames {
  import opened Machine
  import opened Wrappers
  import opened Pigeonhole

  const PAGE_SIZE := 4096
  /** Frames below KERNEL_HEAP_BASE belong to the kernel and are never handed out. */
  const FIRST_FRAME := 0x0100_0000 / PAGE_SIZE

  /** page_frame_t; `next` is the index of the next free frame. */
  datatype PageFrame = PageFrame(next: Option<nat>, physicalAddr: int, refCount: u32, isFree: bool)

  /** The records `fs` chain the frames `list`, in this order, starting at `head`. */
  ghost predicate Chain(fs: seq<PageFrame>, head: Option<nat>, list: seq<nat>)
    decreases |list|
  {
    if list == [] then head == None
    else head == Some(list[0]) && list[0] < |fs| && Chain(fs, fs[list[0]].next, list[1..])
  }

  /** Exactly the frames of the list are marked free. */
  ghost predicate Marked(fs: seq<PageFrame>, list: seq<nat>) {
    forall i :: 0 <= i < |fs| ==> (fs[i].isFree <==> i in list)
  }

  ghost predicate FramesOk(fs: seq<PageFrame>, head: Option<nat>, list: seq<nat>) {
    && Chain(fs, head, list) && Distinct(list) && Marked(fs, list)
    && (forall i :: i in list ==> i < |fs|)
    && (forall i :: 0 <= i < |fs| ==> fs[i].physicalAddr == i * PAGE_SIZE)
  }

  lemma {:induction false} ChainFrame(fs: seq<PageFrame>, gs: seq<PageFrame>, head: Option<nat>, list: seq<nat>)
    requires Chain(fs, head, list) && |fs| == |gs|
    requires forall i :: i in list && i < |fs| ==> gs[i].next == fs[i].next
    ensures Chain(gs, head, list)
    decreases |list|
  {
    if list != [] {
      ChainFrame(fs, gs, fs[list[0]].next, list[1..]);
    }
  }

  /** Taking the first frame off the list. */
  lemma PopOk(fs: seq<PageFrame>, head: Option<nat>, list: seq<nat>)
    requires FramesOk(fs, head, list) && list != []
    ensures var gs := fs[list[0] := fs[list[0]].(next := None, refCount := 1, isFree := false)];
            FramesOk(gs, fs[list[0]].next, list[1..])
  {
    var f := list[0];
    var gs := fs[f := fs[f].(next := None, refCount := 1, isFree := false)];
    assert list == [f] + list[1..];
    assert f !in list[1..];
    assert forall i :: i in list <==> i == f || i in list[1..];
    ChainFrame(fs, gs, fs[f].next, list[1..]);
  }

  /** Putting a frame in front of the list. */
  lemma PushOk(fs: seq<PageFrame>, head: Option<nat>, list: seq<nat>, f: nat, n: u32)
    requires FramesOk(fs, head, list) && f < |fs| && f !in list
    ensures var gs := fs[f := fs[f].(next := head, refCount := n, isFree := true)];
            FramesOk(gs, Some(f), [f] + list)
  {
    var gs := fs[f := fs[f].(next := head, refCount := n, isFree := true)];
    assert ([f] + list)[1..] == list;
    ChainFrame(fs, gs, head, list);
  }

  /**
   * The records after a reference to `f` was given up, on a free list that begins at `head`. The
   * count is 32 bits wide, so a count of 0 wraps to 2^32 - 1 and the frame stays in use.
   */
  function Dropped(fs: seq<PageFrame>, head: Option<nat>, f: nat): seq<PageFrame>
    requires f < |fs|
  {
    var r := fs[f];
    if r.isFree then fs
    else if r.refCount == 1 then fs[f := PageFrame(head, r.physicalAddr, 0, true)]
    else fs[f := r.(refCount := (r.refCount + TWO_32 - 1) % TWO_32)]
  }

  /** A reference less; only the last one frees the frame, and a frame without references does not become free. */
  lemma DroppedCounts(fs: seq<PageFrame>, head: Option<nat>, f: nat)
    requires f < |fs| && !fs[f].isFree
    ensures var gs := Dropped(fs, head, f);
            && |gs| == |fs| && (forall i :: 0 <= i < |fs| && i != f ==> gs[i] == fs[i])
            && gs[f].physicalAddr == fs[f].physicalAddr
            && gs[f].refCount == (if fs[f].refCount == 0 then 0xFFFF_FFFF else fs[f].refCount - 1)
            && (gs[f].isFree <==> fs[f].refCount == 1)
            && gs[f].next == if gs[f].isFree then head else fs[f].next
  {
  }

  /** kmemory_init's loop, when frames below `i` were sorted into reserved and chained ones. */
  ghost predicate Building(fs: seq<PageFrame>, head: Option<nat>, list: seq<nat>, i: nat) {
    && Chain(fs, head, list) && Distinct(list)
    && |list| == (if i < FIRST_FRAME then 0 else i - FIRST_FRAME)
    && (forall j :: 0 <= j < |list| ==> list[j] == i - 1 - j)
    && (forall k :: k in list ==> FIRST_FRAME <= k < i)
    && (forall k :: FIRST_FRAME <= k < i ==> k in list)
    && (forall k :: 0 <= k < |fs| ==> fs[k].physicalAddr == k * PAGE_SIZE && fs[k].refCount == 0)
    && (forall k :: 0 <= k < |fs| ==> (fs[k].isFree <==> FIRST_FRAME <= k || i <= k))
  }

  lemma BuildStep(fs: seq<PageFrame>, head: Option<nat>, list: seq<nat>, i: nat)
    requires Building(fs, head, list, i) && i < |fs|
    ensures i < FIRST_FRAME ==> Building(fs[i := fs[i].(isFree := false)], head, list, i + 1)
    ensures i >= FIRST_FRAME ==> Building(fs[i := fs[i].(next := head)], Some(i), [i] + list, i + 1)
  {
    if i < FIRST_FRAME {
      ChainFrame(fs, fs[i := fs[i].(isFree := false)], head, list);
    } else {
      var gs := fs[i := fs[i].(next := head)];
      assert i !in list && ([i] + list)[1..] == list;
      ChainFrame(fs, gs, head, list);
    }
  }

  class FrameAllocator {
    const frames: array<PageFrame>
    var freePageList: Option<nat>
    var freePages: nat
    var usedPages: nat
    /** The free frames, in list order. */
    ghost var free: seq<nat>

    ghost predicate Valid()
      reads this, frames
    {
      && FramesOk(frames[..], freePageList, free)
      && freePages == |free| && freePages + usedPages == frames.Length
    }

    /** The frame part of kmemory_init: everything below KERNEL_HEAP_BASE is in use, the rest is chained, last first. */
    constructor (totalPages: nat)
      ensures Valid() && fresh(frames) && frames.Length == totalPages
      ensures forall i :: 0 <= i < totalPages ==> (i in free <==> 4096 <= i)
      ensures forall j :: 0 <= j < |free| ==> free[j] == totalPages - 1 - j
      ensures usedPages == if totalPages < 4096 then totalPages else 4096
      ensures forall i :: 0 <= i < totalPages ==> frames[i].physicalAddr == i * 4096 && frames[i].refCount == 0
    {
      frames := new PageFrame[totalPages](i => PageFrame(None, i * PAGE_SIZE, 0, true));
      freePageList, freePages, usedPages, free := None, totalPages, 0, [];
      new;
      for i := 0 to totalPages
        invariant Building(frames[..], freePageList, free, i)
        invariant usedPages == (if i < FIRST_FRAME then i else FIRST_FRAME) && freePages == totalPages - usedPages
      {
        BuildStep(frames[..], freePageList, free, i);
        if frames[i].physicalAddr < FIRST_FRAME * PAGE_SIZE {
          frames[i] := frames[i].(isFree := false);
          usedPages := usedPages + 1;
          freePages := freePages - 1;
        } else {
          frames[i] := frames[i].(next := freePageList);
          freePageList, free := Some(i), [i] + free;
        }
      }
    }

    /** allocate_page_frame: the head of the list, or nothing when the list is empty. */
    method AllocatePageFrame() returns (f: Option<nat>)
      requires Valid()
      modifies this, frames
      ensures Valid()
      ensures f == None <==> old(free) == []
      ensures f == None ==> frames[..] == old(frames[..]) && free == old(free) && usedPages == old(usedPages)
      ensures f != None ==>
                && old(free) == [f.value] + free
                && frames[..] == old(frames[..])[f.value := PageFrame(None, f.value * PAGE_SIZE, 1, false)]
                && usedPages == old(usedPages) + 1
    {
      if freePageList == None {
        return None;
      }
      var i := freePageList.value;
      PopOk(frames[..], freePageList, free);
      freePageList := frames[i].next;
      frames[i] := frames[i].(next := None, refCount := 1, isFree := false);
      freePages := freePages - 1;
      usedPages := usedPages + 1;
      free := free[1..];
      return Some(i);
    }

    /** free_page_frame: the frame is put in front of the free list with its last reference. */
    method FreePageFrame(f: Option<nat>)
      requires Valid() && (f.Some? ==> f.value < frames.Length)
      modifies this, frames
      ensures Valid()
      ensures frames[..] == if f == None then old(frames[..]) else Dropped(old(frames[..]), old(freePageList), f.value)
      ensures var last := f != None && !old(frames[f.value].isFree) && old(frames[f.value].refCount) == 1;
              && free == (if last then [f.value] + old(free) else old(free))
              && usedPages == old(usedPages) - if last then 1 else 0
    {
      if f == None || frames[f.value].isFree {
        return;
      }
      var i := f.value;
      ghost var fs := frames[..];
      frames[i] := frames[i].(refCount := (frames[i].refCount + TWO_32 - 1) % TWO_32);
      if frames[i].refCount > 0 {
        ChainFrame(fs, frames[..], freePageList, free);
        return;
      }
      PushOk(fs, freePageList, free, i, 0);
      frames[i] := frames[i].(next := freePageList, isFree := true);
      assert frames[..] == fs[i := fs[i].(next := freePageList, refCount := 0, isFree := true)];
      freePageList, free := Some(i), [i] + free;
      AtMost(free, frames.Length);
      freePages := freePages + 1;
      usedPages := usedPages - 1;
    }

    /** get_page_frame: the record of the page an address lies in, if there is one. */
    method GetPageFrame(physicalAddr: u64) returns (f: Option<nat>)
      requires Valid()
      ensures f.Some? ==>
                f.value < frames.Length && frames[f.value].physicalAddr == physicalAddr - physicalAddr % PAGE_SIZE
      ensures f == None ==>
                forall i :: 0 <= i < frames.Length ==> frames[i].physicalAddr != physicalAddr - physicalAddr % PAGE_SIZE
    {
      var i := physicalAddr / PAGE_SIZE;
      if i >= frames.Length {
        return None;
      }
      return Some(i);
    }
  }
}
