/** kmemset and kmemcpy, on a memory whose index 0 is at address `base`. */
module KString {
  import opened Machine

  /** The byte, doubled three times by an or with itself, shifted by 8, 16 and 32 bits. */
  function Pattern(c: u8): nat {
    var p1 := Or(c, c * 0x100);
    var p2 := Or(p1, p1 * 0x1_0000);
    Or(p2, p2 * TWO_32)
  }

  lemma Pow2Bytes()
    ensures Pow2(8) == 0x100 && Pow2(16) == 0x1_0000 && Pow2(32) == TWO_32
  {
    assert Pow2(4) == 0x10;
    assert Pow2(12) == 0x1000;
    assert Pow2(20) == 0x10_0000;
    assert Pow2(24) == 0x100_0000;
    assert Pow2(28) == 0x1000_0000;
  }

  /** The eight bytes of the pattern are the byte it was made of. */
  lemma PatternBytes(c: u8)
    ensures Pattern(c) < TWO_64 && Encode(Pattern(c), 8) == Repeat(c, 8)
  {
    PatternValue(c);
    EncodeRepeated(c, 8);
    OnesEight();
  }

  lemma PatternValue(c: u8)
    ensures Pattern(c) == 0x101_0101_0101_0101 * c
  {
    OrByte(c);
    OrWord(0x101 * c);
    OrHalf(0x101_0101 * c);
  }

  /** A byte, or-ed with its copy in the next byte; and so on for two and four bytes. */
  lemma OrByte(x: nat)
    requires x < 0x100
    ensures Or(x, x * 0x100) == 0x101 * x
  {
    Pow2Bytes();
    OrApart(x, x, 8);
  }

  lemma OrWord(x: nat)
    requires x < 0x1_0000
    ensures Or(x, x * 0x1_0000) == 0x1_0001 * x
  {
    Pow2Bytes();
    OrApart(x, x, 16);
  }

  lemma OrHalf(x: nat)
    requires x < TWO_32
    ensures Or(x, x * TWO_32) == x + x * TWO_32
  {
    Pow2Bytes();
    OrApart(x, x, 32);
  }

  lemma OnesEight()
    ensures Ones(8) == 0x101_0101_0101_0101
  {
    assert Ones(5) == 0x1_0101_0101;
  }

  /** 1 + 256 + ... , with `n` terms. */
  function Ones(n: nat): nat {
    if n == 0 then 0 else 0x100 * Ones(n - 1) + 1
  }

  lemma {:induction false} EncodeRepeated(c: u8, n: nat)
    ensures Encode(Ones(n) * c, n) == Repeat(c, n)
  {
    if n != 0 {
      var rc := Ones(n - 1) * c;
      EncodeRepeated(c, n - 1);
      assert Ones(n) * c == 0x100 * rc + c by {
        OnesStep(Ones(n - 1), c);
      }
      EncodeStep(c, rc, n - 1);
      assert Repeat(c, n) == [c] + Repeat(c, n - 1);
    }
  }

  lemma OnesStep(r: int, c: int)
    ensures (0x100 * r + 1) * c == 0x100 * (r * c) + c
  {
  }

  lemma EncodeStep(c: u8, v: nat, n: nat)
    ensures Encode(0x100 * v + c, n + 1) == [c] + Encode(v, n)
  {
    DivUnique(0x100 * v + c, 0x100, v, c);
  }

  /** A word store, least significant byte first. */
  method StoreWord(mem: array<u8>, i: int, w: u64)
    requires 0 <= i && i + 8 <= mem.Length
    modifies mem
    ensures mem[..] == Put(old(mem[..]), i, Encode(w, 8))
  {
    PutBytes(mem, i, Encode(w, 8));
  }

  method PutBytes(mem: array<u8>, i: int, s: seq<u8>)
    requires 0 <= i && i + |s| <= mem.Length
    modifies mem
    ensures mem[..] == Put(old(mem[..]), i, s)
  {
    for k := 0 to |s|
      invariant mem[..] == Put(old(mem[..]), i, s[..k])
    {
      mem[i + k] := s[k];
      assert s[..k + 1] == s[..k] + [s[k]];
    }
    assert s[..|s|] == s;
  }

  /**
   * kmemset on the `n` bytes at address `s`: single bytes up to a word boundary, whole words,
   * and the bytes left over.
   */
  method Kmemset(mem: array<u8>, base: int, s: int, c: int, n: nat)
    requires base <= s && s - base + n <= mem.Length
    modifies mem
    ensures mem[..] == Put(old(mem[..]), s - base, Repeat(c % 256, n))
  {
    var b, at := c % 256, s - base;
    ghost var m := mem[..];
    var pattern := Pattern(b);
    PatternBytes(b);
    var misalign := s % 8;
    var toAlign := if misalign != 0 then 8 - misalign else 0;
    var i := 0;
    while i < n && toAlign > 0
      invariant 0 <= i <= n && 0 <= toAlign
      invariant i < n ==> (s + i + toAlign) % 8 == 0
      invariant Filled(m, mem[..], at, b, i)
    {
      mem[at + i] := b;
      i := i + 1;
      toAlign := toAlign - 1;
    }
    var words := (n - i) / 8;
    for w := 0 to words
      invariant Filled(m, mem[..], at, b, i + 8 * w)
    {
      StoreWord(mem, at + i + 8 * w, pattern);
    }
    i := i + words * 8;
    while i < n
      invariant 0 <= i <= n
      invariant Filled(m, mem[..], at, b, i)
    {
      mem[at + i] := b;
      i := i + 1;
    }
  }

  /** The first `n` bytes from index `at` on are `b`, the others as in `m`. */
  ghost predicate Filled(m: seq<u8>, w: seq<u8>, at: int, b: u8, n: int) {
    |w| == |m| && forall k :: 0 <= k < |m| ==> w[k] == if at <= k < at + n then b else m[k]
  }

  /** The bytes `s` lie at index `at`, the others are as in `m`. */
  ghost predicate Placed(m: seq<u8>, w: seq<u8>, at: int, s: seq<u8>) {
    && |w| == |m|
    && (forall k :: 0 <= k < |s| && 0 <= at + k < |w| ==> w[at + k] == s[k])
    && (forall k :: 0 <= k < |m| && !(at <= k < at + |s|) ==> w[k] == m[k])
  }

  /** kmemcpy within one memory: backward when the destination starts inside the source. */
  method Kmemcpy(mem: array<u8>, d: int, s: int, n: nat)
    requires 0 <= d && d + n <= mem.Length && 0 <= s && s + n <= mem.Length
    modifies mem
    ensures mem[..] == Put(old(mem[..]), d, old(mem[s..s + n]))
  {
    if s < d && s + n > d {
      CopyBackward(mem, d, s, n);
    } else {
      CopyForward(mem, d, s, n);
    }
  }

  method CopyBackward(mem: array<u8>, d: int, s: int, n: nat)
    requires 0 <= s <= d && d + n <= mem.Length
    modifies mem
    ensures mem[..] == Put(old(mem[..]), d, old(mem[s..s + n]))
  {
    ghost var m, t := mem[..], mem[s..s + n];
    var i := n;
    while i > 0
      invariant 0 <= i <= n
      invariant Placed(m, mem[..], d + i, t[i..])
    {
      ghost var w := mem[..];
      BackwardStep(m, w, d, s, i, t);
      mem[d + i - 1] := mem[s + i - 1];
      assert mem[..] == w[d + i - 1 := w[s + i - 1]];
      i := i - 1;
    }
    assert t[0..] == t;
    PlacedIsPut(m, mem[..], d, t);
  }

  lemma PlacedIsPut(m: seq<u8>, w: seq<u8>, at: int, s: seq<u8>)
    requires 0 <= at && at + |s| <= |m| && Placed(m, w, at, s)
    ensures w == Put(m, at, s)
  {
  }

  lemma BackwardStep(m: seq<u8>, w: seq<u8>, d: int, s: int, i: nat, t: seq<u8>)
    requires 0 <= s <= d && 0 < i <= |t| && d + |t| <= |m| && t == m[s..s + |t|] && Placed(m, w, d + i, t[i..])
    ensures Placed(m, w[d + i - 1 := w[s + i - 1]], d + i - 1, t[i - 1..])
  {
    assert w[s + i - 1] == t[i - 1];
    assert t[i - 1..] == [t[i - 1]] + t[i..];
    PlacedBefore(m, w, d + i, t[i..], t[i - 1]);
  }

  lemma PlacedBefore(m: seq<u8>, w: seq<u8>, at: int, s: seq<u8>, b: u8)
    requires Placed(m, w, at, s) && 0 < at <= |w|
    ensures Placed(m, w[at - 1 := b], at - 1, [b] + s)
  {
  }

  method CopyForward(mem: array<u8>, d: int, s: int, n: nat)
    requires 0 <= d && d + n <= mem.Length && 0 <= s && s + n <= mem.Length
    requires d <= s || s + n <= d
    modifies mem
    ensures mem[..] == Put(old(mem[..]), d, old(mem[s..s + n]))
  {
    ghost var m, t := mem[..], mem[s..s + n];
    for i := 0 to n
      invariant Placed(m, mem[..], d, t[..i])
    {
      assert mem[s + i] == m[s + i] == t[i];
      mem[d + i] := mem[s + i];
      assert t[..i + 1] == t[..i] + [t[i]];
    }
    assert t[..n] == t;
    PlacedIsPut(m, mem[..], d, t);
  }
}
