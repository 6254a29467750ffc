/** Which blocks change places in heap_defrag. */
module HeapDefragOrder {
  import opened HeapBlocks
  import opened HeapDefrag

  /** `x` stands somewhere in front of `y`. */
  ghost predicate Before(bs: seq<Block>, x: Block, y: Block) {
    exists i, j :: 0 <= i < j < |bs| && bs[i] == x && bs[j] == y
  }

  lemma BeforeLeft(xs: seq<Block>, ys: seq<Block>, x: Block, y: Block)
    requires Before(xs, x, y)
    ensures Before(xs + ys, x, y)
  {
    var i, j :| 0 <= i < j < |xs| && xs[i] == x && xs[j] == y;
    assert (xs + ys)[i] == x && (xs + ys)[j] == y;
  }

  lemma BeforeRight(xs: seq<Block>, ys: seq<Block>, x: Block, y: Block)
    requires Before(ys, x, y)
    ensures Before(xs + ys, x, y)
  {
    var i, j :| 0 <= i < j < |ys| && ys[i] == x && ys[j] == y;
    assert (xs + ys)[|xs| + i] == x && (xs + ys)[|xs| + j] == y;
  }

  lemma BeforeAcross(xs: seq<Block>, ys: seq<Block>, x: Block, y: Block)
    requires x in xs && y in ys
    ensures Before(xs + ys, x, y)
  {
    var i :| 0 <= i < |xs| && xs[i] == x;
    var j :| 0 <= j < |ys| && ys[j] == y;
    assert (xs + ys)[i] == x && (xs + ys)[|xs| + j] == y;
  }

  lemma {:induction false} Reversed(bs: seq<Block>, i: nat, j: nat)
    requires i < j < |bs|
    ensures Before(Reverse(bs), bs[j], bs[i])
    decreases |bs|
  {
    InReverse(bs[1..], bs[j]);
    if i == 0 {
      assert bs[1..][j - 1] == bs[j];
      BeforeAcross(Reverse(bs[1..]), [bs[0]], bs[j], bs[0]);
    } else {
      Reversed(bs[1..], i - 1, j - 1);
      BeforeLeft(Reverse(bs[1..]), [bs[0]], bs[j], bs[i]);
    }
  }

  lemma {:induction false} InReverse(bs: seq<Block>, x: Block)
    ensures x in Reverse(bs) <==> x in bs
    decreases |bs|
  {
    if bs != [] {
      InReverse(bs[1..], x);
      assert bs == [bs[0]] + bs[1..];
    }
  }

  /** The free blocks, or the others. */
  function Those(bs: seq<Block>, free: bool): seq<Block> {
    if free then Frees(bs) else Taken(bs)
  }

  lemma ThoseStep(bs: seq<Block>, free: bool)
    requires bs != []
    ensures Those(bs, free) == (if bs[0].free == free then [bs[0]] else []) + Those(bs[1..], free)
  {
  }

  lemma {:induction false} Picked(bs: seq<Block>, i: nat)
    requires i < |bs|
    ensures bs[i] in Those(bs, bs[i].free)
    decreases |bs|
  {
    if i > 0 {
      Picked(bs[1..], i - 1);
    }
  }

  /** The free blocks keep their order when they are picked out, and so do the others. */
  lemma {:induction false} PickedInOrder(bs: seq<Block>, free: bool, i: nat, j: nat)
    requires i < j < |bs| && bs[i].free == free && bs[j].free == free
    ensures Before(Those(bs, free), bs[i], bs[j])
    decreases |bs|
  {
    var rest := Those(bs[1..], free);
    ThoseStep(bs, free);
    assert bs[1..][j - 1] == bs[j];
    if i > 0 {
      assert bs[1..][i - 1] == bs[i];
      PickedInOrder(bs[1..], free, i - 1, j - 1);
      BeforeRight(if bs[0].free == free then [bs[0]] else [], rest, bs[i], bs[j]);
    } else {
      Picked(bs[1..], j - 1);
      BeforeAcross([bs[0]], rest, bs[i], bs[j]);
    }
  }

  /** Behind the first free block: free blocks come first and backwards, the others follow in order. */
  lemma Rearranged(bs: seq<Block>, i: nat, j: nat)
    requires i < j < |bs|
    ensures var ds := Reverse(Frees(bs)) + Taken(bs);
            if bs[j].free then Before(ds, bs[j], bs[i]) else Before(ds, bs[i], bs[j])
  {
    var fs, ts := Reverse(Frees(bs)), Taken(bs);
    Picked(bs, i);
    Picked(bs, j);
    InReverse(Frees(bs), bs[i]);
    InReverse(Frees(bs), bs[j]);
    if bs[i].free != bs[j].free {
      BeforeAcross(fs, ts, if bs[i].free then bs[i] else bs[j], if bs[i].free then bs[j] else bs[i]);
    } else {
      PickedInOrder(bs, bs[i].free, i, j);
      if bs[i].free {
        var p, q :| 0 <= p < q < |Frees(bs)| && Frees(bs)[p] == bs[i] && Frees(bs)[q] == bs[j];
        Reversed(Frees(bs), p, q);
        BeforeLeft(fs, ts, bs[j], bs[i]);
      } else {
        BeforeRight(fs, ts, bs[i], bs[j]);
      }
    }
  }

  /**
   * Two blocks change places exactly when some free block stands in front of both and the second
   * of them is free. So free blocks move to the front, not to the end.
   */
  lemma DefragOrder(bs: seq<Block>, i: nat, j: nat)
    requires i < j < |bs|
    ensures if (exists k :: 0 <= k < i && bs[k].free) && bs[j].free
            then Before(Defragged(bs), bs[j], bs[i]) else Before(Defragged(bs), bs[i], bs[j])
  {
    if Lead(bs) < |bs| {
      var xs, rest, ds := Split(bs);
      if j < |xs| {
        BothInFront(xs, rest, ds, i, j);
      } else if i < |xs| {
        InRest(rest, ds, j - |xs|, rest[j - |xs|]);
        AcrossFront(xs, rest, ds, i, j);
      } else {
        BothBehind(xs, rest, ds, i, j);
      }
    }
  }

  /** The front up to the first free block, what is behind it, and how that is rearranged. */
  lemma Split(bs: seq<Block>) returns (xs: seq<Block>, rest: seq<Block>, ds: seq<Block>)
    requires Lead(bs) < |bs|
    ensures bs == xs + rest && |xs| == Lead(bs) + 1 && Defragged(bs) == xs + ds && bs[|xs| - 1].free
    ensures ds == Reverse(Frees(rest)) + Taken(rest)
  {
    xs, rest := bs[..Lead(bs) + 1], bs[Lead(bs) + 1..];
    ds := Reverse(Frees(rest)) + Taken(rest);
    assert xs + Reverse(Frees(rest)) + Taken(rest) == xs + ds;
  }

  lemma BothInFront(xs: seq<Block>, rest: seq<Block>, ds: seq<Block>, i: nat, j: nat)
    requires i < j < |xs|
    ensures Before(xs + ds, (xs + rest)[i], (xs + rest)[j])
  {
    assert xs[i] == (xs + rest)[i] && xs[j] == (xs + rest)[j];
    BeforeLeft(xs, ds, xs[i], xs[j]);
  }

  lemma AcrossFront(xs: seq<Block>, rest: seq<Block>, ds: seq<Block>, i: nat, j: nat)
    requires i < |xs| <= j < |xs| + |rest| && rest[j - |xs|] in ds
    ensures Before(xs + ds, (xs + rest)[i], (xs + rest)[j])
  {
    var y := rest[j - |xs|];
    BeforeAcross(xs, ds, xs[i], y);
  }

  lemma BothBehind(xs: seq<Block>, rest: seq<Block>, ds: seq<Block>, i: nat, j: nat)
    requires |xs| <= i < j < |xs| + |rest| && ds == Reverse(Frees(rest)) + Taken(rest)
    ensures var x, y := (xs + rest)[i], (xs + rest)[j];
            if y.free then Before(xs + ds, y, x) else Before(xs + ds, x, y)
  {
    var x, y := rest[i - |xs|], rest[j - |xs|];
    Rearranged(rest, i - |xs|, j - |xs|);
    if y.free {
      BeforeRight(xs, ds, y, x);
    } else {
      BeforeRight(xs, ds, x, y);
    }
  }

  lemma InRest(bs: seq<Block>, ds: seq<Block>, i: nat, x: Block)
    requires i < |bs| && x == bs[i] && ds == Reverse(Frees(bs)) + Taken(bs)
    ensures x in ds
  {
    Picked(bs, i);
    InReverse(Frees(bs), x);
  }
}
