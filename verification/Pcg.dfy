/** The PCG32 generator: period of its state and distribution of its output. */
module Pcg {
  import opened Machine
  import opened Lcg

  const PCG32_MULT := 6364136223846793005
  const PCG32_INIT_SEQ := 0xDEADBEEF

  // ---- The output function ----

  /** `x >> r`, with the power of two in place of the distance */
  function ShiftRight(x: nat, p: nat): (q: nat)
    requires p > 0
    ensures x == p * q + x % p
  {
    DivNonNegative(x, p);
    x / p
  }

  /** A 32-bit word shifted right by r, with the word shifted left by s, for p = 2^r and q = 2^s. */
  function RotateBy(x: u32, p: nat, q: nat): nat
    requires p > 0
  {
    Or(ShiftRight(x, p), x * q % TWO_32)
  }

  /** A 32-bit word rotated right by `r`. */
  function RotateRight(x: u32, r: nat): nat
    requires r < 32
  {
    RotateBy(x, Pow2(r), Pow2((32 - r) % 32))
  }

  /** The state xored with itself shifted right by 18; bits 27 to 58 of that. */
  function Xorshifted(s: u64): u32 {
    Xor(s / 0x4_0000, s) / 0x800_0000 % TWO_32
  }

  /** XSH-RR: the xorshifted state, rotated by its top five bits. */
  function Output(s: u64): nat {
    RotateRight(Xorshifted(s), s / 0x800_0000_0000_0000)
  }

  // ---- Rotation is a bijection ----

  /** What a proper rotation does: the low bits go to the top. */
  lemma RotateParts(x: u32, p: nat, q: nat, k: nat)
    requires p > 0 && q == Pow2(k) && p * q == TWO_32
    ensures ShiftRight(x, p) < q
    ensures RotateBy(x, p, q) == x % p * q + ShiftRight(x, p)
  {
    var h, l := ShiftRight(x, p), x % p;
    assert x == p * h + l;
    MulMonotone(p, h, q);
    Scaled(h, l, p, q);
    MulMonotone(q, p, l + 1);
    DivUnique(x * q, TWO_32, h, l * q);
    OrApart(h, l, k);
  }

  lemma Scaled(h: int, l: int, p: int, q: int)
    ensures (p * h + l) * q == (p * q) * h + l * q
    ensures q * (l + 1) == l * q + q && p * q == q * p
  {
    assert (p * h + l) * q == (p * h) * q + l * q;
    Assoc(p, h, q);
    Assoc(p, q, h);
  }

  function UnrotateBy(o: u32, p: nat, q: nat): nat
    requires q > 0
  {
    o % q * p + ShiftRight(o, q)
  }

  /** The inverse of RotateRight. */
  function Unrotate(o: u32, r: nat): nat
    requires r < 32
  {
    if r == 0 then o else UnrotateBy(o, Pow2(r), Pow2(32 - r))
  }

  lemma {:induction false} PowersAdd(i: nat, j: nat)
    ensures Pow2(i + j) == Pow2(i) * Pow2(j)
  {
    if i != 0 {
      PowersAdd(i - 1, j);
      Assoc(2, Pow2(i - 1), Pow2(j));
    }
  }

  lemma Pow2Half()
    ensures Pow2(32) == TWO_32
  {
    assert Pow2(8) == 0x100;
    assert Pow2(16) == 0x1_0000;
    assert Pow2(24) == 0x100_0000;
  }

  lemma NoRotation(x: u32)
    ensures RotateRight(x, 0) == x
  {
    OrSelf(x);
    assert Pow2(0) == 1 && x * 1 % TWO_32 == x;
  }

  /** Swapping the two parts of a number: h on top of l, or l on top of h. */
  lemma SwapParts(h: nat, l: nat, p: nat, q: nat)
    requires p > 0 && h < q && l < p
    ensures var o := l * q + h; o % q == h && ShiftRight(o, q) == l && o < p * q
  {
    DivUnique(l * q + h, q, l, h);
    MulMonotone(q, p, l + 1);
    Scaled(h, l, p, q);
  }

  lemma UnrotateRotateBy(x: u32, p: nat, q: nat, k: nat)
    requires p > 0 && q == Pow2(k) && p * q == TWO_32
    ensures RotateBy(x, p, q) < TWO_32 && UnrotateBy(RotateBy(x, p, q), p, q) == x
  {
    RotateParts(x, p, q, k);
    SwapParts(ShiftRight(x, p), x % p, p, q);
    TwoParts(x, p);
  }

  lemma TwoParts(x: u32, p: nat)
    requires p > 0
    ensures ShiftRight(x, p) * p + x % p == x
  {
  }

  lemma RotateUnrotateBy(o: u32, p: nat, q: nat, k: nat)
    requires p > 0 && q == Pow2(k) && p * q == TWO_32
    ensures UnrotateBy(o, p, q) < TWO_32 && RotateBy(UnrotateBy(o, p, q), p, q) == o
  {
    var h, l := o % q, ShiftRight(o, q);
    Scaled(h, l, p, q);
    MulMonotone(q, l, p);
    SwapParts(l, h, q, p);
    RotateParts(h * p + l, p, q, k);
  }

  lemma PowerPair(r: nat) returns (p: nat, q: nat)
    requires r < 32
    ensures p == Pow2(r) && q == Pow2(32 - r) && p > 0 && p * q == TWO_32
  {
    PowersAdd(r, 32 - r);
    Pow2Half();
    p, q := Pow2(r), Pow2(32 - r);
  }

  lemma UnrotateRotate(x: u32, r: nat)
    requires r < 32
    ensures RotateRight(x, r) < TWO_32 && Unrotate(RotateRight(x, r), r) == x
  {
    if r == 0 {
      NoRotation(x);
    } else {
      var p, q := PowerPair(r);
      UnrotateRotateBy(x, p, q, 32 - r);
      RotationBy(x, r, p, q);
      UnrotationBy(RotateBy(x, p, q), r, p, q);
    }
  }

  lemma RotateUnrotate(o: u32, r: nat)
    requires r < 32
    ensures Unrotate(o, r) < TWO_32 && RotateRight(Unrotate(o, r), r) == o
  {
    if r == 0 {
      NoRotation(o);
    } else {
      var p, q := PowerPair(r);
      RotateUnrotateBy(o, p, q, 32 - r);
      var y: u32 := UnrotateBy(o, p, q);
      UnrotationBy(o, r, p, q);
      RotationBy(y, r, p, q);
    }
  }

  lemma RotationBy(x: u32, r: nat, p: nat, q: nat)
    requires 0 < r < 32 && p == Pow2(r) && q == Pow2(32 - r)
    ensures RotateRight(x, r) == RotateBy(x, p, q)
  {
  }

  lemma UnrotationBy(o: u32, r: nat, p: nat, q: nat)
    requires 0 < r < 32 && p == Pow2(r) && q == Pow2(32 - r)
    ensures Unrotate(o, r) == UnrotateBy(o, p, q)
  {
  }

  // ---- The xorshift is a bijection, for each value of the top bits ----

  /** The xorshift in terms of the top five bits and the 32 bits below them. */
  function Mix(t: nat, m: u32): nat
    requires t < 32
  {
    Xor(t * 0x4000 + m / 0x4_0000, m)
  }

  function Unmix(t: nat, x: u32): nat
    requires t < 32
  {
    var high := Xor(x / 0x4_0000, t / 16);
    high * 0x4_0000 + Xor(x % 0x4_0000, t % 16 * 0x4000 + high)
  }

  lemma Pow2Small()
    ensures Pow2(14) == 0x4000 && Pow2(18) == 0x4_0000 && Pow2(27) == 0x800_0000
  {
    assert Pow2(6) == 0x40;
    assert Pow2(10) == 0x400;
    assert Pow2(22) == 0x40_0000;
  }

  /** The upper 14 bits mix with the top of t, the lower 18 with the rest. */
  lemma MixParts(t: nat, high: nat, low: nat, a: nat, b: nat)
    requires t < 32 && high < 0x4000 && low < 0x4_0000
    requires a == Xor(t / 16, high) && b == Xor(t % 16 * 0x4000 + high, low)
    ensures Mix(t, high * 0x4_0000 + low) == a * 0x4_0000 + b
    ensures a < 0x4000 && b < 0x4_0000
  {
    Pow2Small();
    MixSplit(t, high, low);
    XorCut(t / 16, high, t % 16 * 0x4000 + high, low, 0x4_0000, 18);
    XorBelow(t / 16, high, 0x4000, 14);
  }

  lemma MixSplit(t: nat, high: nat, low: nat)
    requires t < 32 && high < 0x4000 && low < 0x4_0000
    ensures Mix(t, high * 0x4_0000 + low)
         == Xor(t / 16 * 0x4_0000 + (t % 16 * 0x4000 + high), high * 0x4_0000 + low)
  {
    assert (high * 0x4_0000 + low) / 0x4_0000 == high;
    assert t * 0x4000 + high == t / 16 * 0x4_0000 + (t % 16 * 0x4000 + high);
  }

  lemma UnmixParts(t: nat, xh: nat, xl: nat, high: nat, low: nat)
    requires t < 32 && xh < 0x4000 && xl < 0x4_0000
    requires high == Xor(xh, t / 16) && low == Xor(xl, t % 16 * 0x4000 + high)
    ensures Unmix(t, xh * 0x4_0000 + xl) == high * 0x4_0000 + low
    ensures high < 0x4000 && low < 0x4_0000
  {
    Pow2Small();
    XorBelow(xh, t / 16, 0x4000, 14);
    XorBelow(xl, t % 16 * 0x4000 + high, 0x4_0000, 18);
    assert (xh * 0x4_0000 + xl) / 0x4_0000 == xh && (xh * 0x4_0000 + xl) % 0x4_0000 == xl;
  }

  lemma UnmixMix(t: nat, m: u32)
    requires t < 32
    ensures Mix(t, m) < TWO_32 && Unmix(t, Mix(t, m)) == m
  {
    var high, low := m / 0x4_0000, m % 0x4_0000;
    var w := t % 16 * 0x4000 + high;
    var a, b := Xor(t / 16, high), Xor(w, low);
    MixParts(t, high, low, a, b);
    XorTwice(t / 16, high, a);
    XorTwice(w, low, b);
    UnmixParts(t, a, b, high, low);
  }

  lemma MixUnmix(t: nat, x: u32)
    requires t < 32
    ensures Unmix(t, x) < TWO_32 && Mix(t, Unmix(t, x)) == x
  {
    MixUnmixParts(t, x / 0x4_0000, x % 0x4_0000);
  }

  lemma MixUnmixParts(t: nat, xh: nat, xl: nat)
    requires t < 32 && xh < 0x4000 && xl < 0x4_0000
    ensures var x := xh * 0x4_0000 + xl; Unmix(t, x) < TWO_32 && Mix(t, Unmix(t, x)) == x
  {
    var high := Xor(xh, t / 16);
    var w := t % 16 * 0x4000 + high;
    var low := Xor(xl, w);
    UnmixParts(t, xh, xl, high, low);
    XorTwice(xh, t / 16, high);
    XorTwice(xl, w, low);
    MixParts(t, high, low, xh, xl);
  }

  // ---- The output function on the three fields of the state ----

  function Compose(t: nat, m: u32, l: nat): u64
    requires t < 32 && l < 0x800_0000
  {
    t * 0x800_0000_0000_0000 + m * 0x800_0000 + l
  }

  /** Shifting right by 27 after the xor is the same as before it. */
  lemma XorshiftedMix(t: nat, m: u32, l: nat)
    requires t < 32 && l < 0x800_0000
    ensures Xorshifted(Compose(t, m, l)) == Mix(t, m) % TWO_32
  {
    var s := Compose(t, m, l);
    var h, u, r := t * TWO_32 + m, t * 0x4000 + m / 0x4_0000, s / 0x4_0000 % 0x800_0000;
    TwoViews(t, m, l, r);
    ShiftBelow(s, u, h, r, l);
    HighBitsGo(t, u, m);
  }

  /** The state and the state shifted by 18, each cut at bit 27. */
  lemma TwoViews(t: nat, m: u32, l: nat, r: nat)
    requires t < 32 && l < 0x800_0000 && r == Compose(t, m, l) / 0x4_0000 % 0x800_0000
    ensures Compose(t, m, l) == (t * TWO_32 + m) * 0x800_0000 + l
    ensures Compose(t, m, l) / 0x4_0000 == (t * 0x4000 + m / 0x4_0000) * 0x800_0000 + r
  {
  }

  lemma ShiftBelow(s: u64, u: nat, h: nat, r: nat, l: nat)
    requires s == h * 0x800_0000 + l && s / 0x4_0000 == u * 0x800_0000 + r && r < 0x800_0000 && l < 0x800_0000
    ensures Xorshifted(s) == Xor(u, h) % TWO_32
  {
    Pow2Small();
    XorCut(u, h, r, l, 0x800_0000, 27);
    DivUnique(Xor(s / 0x4_0000, s), 0x800_0000, Xor(u, h), Xor(r, l));
  }

  lemma HighBitsGo(t: nat, u: nat, m: u32)
    requires u < TWO_32
    ensures Xor(u, t * TWO_32 + m) % TWO_32 == Xor(u, m) % TWO_32
  {
    Pow2Half();
    XorCut(0, t, u, m, TWO_32, 32);
    XorBelow(u, m, TWO_32, 32);
  }

  lemma OutputOfFields(t: nat, m: u32, l: nat)
    requires t < 32 && l < 0x800_0000
    ensures Mix(t, m) < TWO_32 && Output(Compose(t, m, l)) == RotateRight(Mix(t, m), t)
  {
    XorshiftedMix(t, m, l);
    UnmixMix(t, m);
    TopOf(t, m, l);
    OutputFrom(Compose(t, m, l), Mix(t, m), t);
  }

  lemma OutputFrom(s: u64, x: u32, t: nat)
    requires Xorshifted(s) == x && s / 0x800_0000_0000_0000 == t
    ensures t < 32 && Output(s) == RotateRight(x, t)
  {
  }

  lemma TopOf(t: nat, m: u32, l: nat)
    requires t < 32 && l < 0x800_0000
    ensures Compose(t, m, l) / 0x800_0000_0000_0000 == t
    ensures Compose(t, m, l) / 0x800_0000 % TWO_32 == m && Compose(t, m, l) % 0x800_0000 == l
  {
    var s := Compose(t, m, l);
    assert s == (t * TWO_32 + m) * 0x800_0000 + l;
    assert s / 0x800_0000 == t * TWO_32 + m;
  }

  /** The state with top bits `t` and low bits `l` that is output as `o`. */
  function StateOf(o: u32, t: nat, l: nat): u64
    requires t < 32 && l < 0x800_0000
  {
    RotateUnrotate(o, t);
    MixUnmix(t, Unrotate(o, t));
    Compose(t, Unmix(t, Unrotate(o, t)), l)
  }

  lemma StateOfFields(o: u32, t: nat, l: nat)
    requires t < 32 && l < 0x800_0000
    ensures var s := StateOf(o, t, l); Output(s) == o && s / 0x800_0000_0000_0000 == t && s % 0x800_0000 == l
  {
    RotateUnrotate(o, t);
    var x: u32 := Unrotate(o, t);
    MixUnmix(t, x);
    var m: u32 := Unmix(t, x);
    OutputOfFields(t, m, l);
    TopOf(t, m, l);
  }

  lemma FieldsOf(s: u64)
    ensures var t, m, l := s / 0x800_0000_0000_0000, s / 0x800_0000 % TWO_32, s % 0x800_0000;
            t < 32 && s == Compose(t, m, l)
  {
  }

  /** For any five top and 27 low bits exactly one state is output as `o`. */
  lemma OneState(o: u32, t: nat, l: nat, s: u64)
    requires t < 32 && l < 0x800_0000
    ensures s == StateOf(o, t, l) <==>
            Output(s) == o && s / 0x800_0000_0000_0000 == t && s % 0x800_0000 == l
  {
    StateOfFields(o, t, l);
    if Output(s) == o && s / 0x800_0000_0000_0000 == t && s % 0x800_0000 == l {
      var m: u32 := s / 0x800_0000 % TWO_32;
      FieldsOf(s);
      OutputOfFields(t, m, l);
      UnrotateRotate(Mix(t, m), t);
      UnmixMix(t, m);
    }
  }

  // ---- How often each output occurs ----

  /** The k-th of the 2^32 states output as `o`. */
  function KthState(o: u32, k: u32): u64 {
    StateOf(o, k / 0x800_0000, k % 0x800_0000)
  }

  lemma KthStateOutput(o: u32, k: u32)
    ensures Output(KthState(o, k)) == o
  {
    StateOfFields(o, k / 0x800_0000, k % 0x800_0000);
  }

  lemma KthStateInjective(o: u32, j: u32, k: u32)
    requires KthState(o, j) == KthState(o, k)
    ensures j == k
  {
    StateOfFields(o, j / 0x800_0000, j % 0x800_0000);
    StateOfFields(o, k / 0x800_0000, k % 0x800_0000);
  }

  lemma KthStateAll(o: u32, y: u64) returns (k: u32)
    requires Output(y) == o
    ensures KthState(o, k) == y
  {
    var t, l := y / 0x800_0000_0000_0000, y % 0x800_0000;
    k := t * 0x800_0000 + l;
    assert k / 0x800_0000 == t && k % 0x800_0000 == l;
    OneState(o, t, l, y);
  }

  /** The draw, within a full period, at which the state is the k-th of those output as `o`. */
  ghost function DrawAt(inc: nat, s: u64, o: u32, k: u32): (n: nat)
    requires inc % 2 == 1
    ensures n < TWO_64 && StateAfter(PCG32_MULT, inc, s, n) == KthState(o, k)
  {
    DrawExists(inc, s, KthState(o, k));
    var n: nat :| n < TWO_64 && StateAfter(PCG32_MULT, inc, s, n) == KthState(o, k);
    n
  }

  lemma DrawExists(inc: nat, s: u64, y: u64)
    requires inc % 2 == 1
    ensures exists n: nat :: n < TWO_64 && StateAfter(PCG32_MULT, inc, s, n) == y
  {
    var n := EveryState(PCG32_MULT, inc, s, y);
  }

  /** The first `k` of these draws. */
  ghost function Draws(inc: nat, s: u64, o: u32, k: nat): set<nat>
    requires inc % 2 == 1 && k <= TWO_32
  {
    if k == 0 then {} else Draws(inc, s, o, k - 1) + {DrawAt(inc, s, o, k - 1)}
  }

  lemma {:induction false} DrawIndex(inc: nat, s: u64, o: u32, k: nat, n: nat) returns (j: u32)
    requires inc % 2 == 1 && k <= TWO_32 && n in Draws(inc, s, o, k)
    ensures j < k && n == DrawAt(inc, s, o, j)
    decreases k
  {
    if n == DrawAt(inc, s, o, k - 1) {
      j := k - 1;
    } else {
      j := DrawIndex(inc, s, o, k - 1, n);
    }
  }

  lemma DrawsStep(inc: nat, s: u64, o: u32, k: nat)
    requires inc % 2 == 1 && 0 < k <= TWO_32
    ensures Draws(inc, s, o, k) == Draws(inc, s, o, k - 1) + {DrawAt(inc, s, o, k - 1)}
  {
  }

  lemma {:induction false} DrawListed(inc: nat, s: u64, o: u32, k: nat, j: u32)
    requires inc % 2 == 1 && j < k <= TWO_32
    ensures DrawAt(inc, s, o, j) in Draws(inc, s, o, k)
    decreases k
  {
    DrawsStep(inc, s, o, k);
    if j < k - 1 {
      DrawListed(inc, s, o, k - 1, j);
    }
  }

  lemma {:induction false} DrawsCount(inc: nat, s: u64, o: u32, k: nat)
    requires inc % 2 == 1 && k <= TWO_32
    ensures |Draws(inc, s, o, k)| == k
    decreases k
  {
    if k != 0 {
      DrawsCount(inc, s, o, k - 1);
      NextDrawIsNew(inc, s, o, k - 1);
    }
  }

  lemma NextDrawIsNew(inc: nat, s: u64, o: u32, k: u32)
    requires inc % 2 == 1
    ensures DrawAt(inc, s, o, k) !in Draws(inc, s, o, k)
  {
    var n := DrawAt(inc, s, o, k);
    if n in Draws(inc, s, o, k) {
      var j := DrawIndex(inc, s, o, k, n);
      KthStateInjective(o, j, k);
    }
  }

  /** A draw of a full period outputs `o` exactly when it is one of the 2^32 listed ones. */
  lemma DrawsAreAll(inc: nat, s: u64, o: u32, n: nat, all: nat)
    requires inc % 2 == 1 && n < TWO_64 && all == TWO_32
    ensures n in Draws(inc, s, o, all) <==> Output(StateAfter(PCG32_MULT, inc, s, n)) == o
  {
    if n in Draws(inc, s, o, all) {
      var j := DrawIndex(inc, s, o, all, n);
      KthStateOutput(o, j);
    }
    if Output(StateAfter(PCG32_MULT, inc, s, n)) == o {
      var j := KthStateAll(o, StateAfter(PCG32_MULT, inc, s, n));
      DrawFound(inc, s, o, n, j);
      DrawListed(inc, s, o, all, j);
    }
  }

  lemma DrawFound(inc: nat, s: u64, o: u32, n: nat, j: u32)
    requires inc % 2 == 1 && n < TWO_64 && KthState(o, j) == StateAfter(PCG32_MULT, inc, s, n)
    ensures n == DrawAt(inc, s, o, j)
  {
    OnlyOnce(PCG32_MULT, inc, s, n, DrawAt(inc, s, o, j));
  }

  /** The draws of a full period that output `o`. */
  ghost function Occurrences(inc: nat, s: u64, o: u32): set<nat> {
    set n: nat | n < TWO_64 && Output(StateAfter(PCG32_MULT, inc, s, n)) == o
  }

  /** Over a full period every 32-bit output occurs exactly 2^32 times. */
  lemma Equidistributed(inc: nat, s: u64, o: u32)
    requires inc % 2 == 1
    ensures |Occurrences(inc, s, o)| == TWO_32
  {
    var all: nat := TWO_32;
    SetOfDraws(inc, s, o, all, Occurrences(inc, s, o));
    DrawsCount(inc, s, o, all);
  }

  lemma SetOfDraws(inc: nat, s: u64, o: u32, all: nat, occurrences: set<nat>)
    requires inc % 2 == 1 && all == TWO_32
    requires forall n: nat :: n in occurrences <==> n < TWO_64 && Output(StateAfter(PCG32_MULT, inc, s, n)) == o
    ensures occurrences == Draws(inc, s, o, all)
  {
    forall n: nat
      ensures n in occurrences <==> n in Draws(inc, s, o, all)
    {
      if n < TWO_64 {
        DrawsAreAll(inc, s, o, n, all);
      } else if n in Draws(inc, s, o, all) {
        var j := DrawIndex(inc, s, o, all, n);
      }
    }
  }

  // ---- The generator ----

  /** The increment: twice the sequence number, with the lowest bit set. */
  function IncrementOf(q: u64): nat {
    Or(q * 2 % TWO_64, 1)
  }

  lemma IncrementOdd(q: u64)
    ensures IncrementOf(q) == q * 2 % TWO_64 + 1 && IncrementOf(q) % 2 == 1 && IncrementOf(q) < TWO_64
  {
    var h := if q < 0x8000_0000_0000_0000 then q else q - 0x8000_0000_0000_0000;
    DivUnique(q * 2, TWO_64, if q < 0x8000_0000_0000_0000 then 0 else 1, 2 * h);
    SetLowBit(h);
  }

  lemma SetLowBit(h: nat)
    ensures Or(2 * h, 1) == 2 * h + 1
  {
    OrStep(h, 0, 0, 1);
    OrZero(h);
    assert Or(2 * h + 0, 2 * 0 + 1) == 2 * h + 1;
  }

  /** The state ksrand32 leaves. */
  function Seeded(seed: u64, q: u64): u64 {
    var inc := IncrementOf(q);
    Next(PCG32_MULT, inc, (StateAfter(PCG32_MULT, inc, 0, 3) + seed) % TWO_64)
  }

  /** The n-th output (from 0) after ksrand32(seed, q). */
  function OutputAfter(seed: u64, q: u64, n: nat): nat {
    Output(StateAfter(PCG32_MULT, IncrementOf(q), Seeded(seed, q), n))
  }

  /** For every seed and sequence number: period 2^64, every state once per period, outputs equidistributed. */
  lemma SeededPeriod(seed: u64, q: u64, i: nat, n: nat, y: u64, o: u32)
    ensures var inc, s := IncrementOf(q), Seeded(seed, q);
            && (StateAfter(PCG32_MULT, inc, s, i + n) == StateAfter(PCG32_MULT, inc, s, i) <==> Divides(TWO_64, n))
            && (exists k: nat :: k < TWO_64 && StateAfter(PCG32_MULT, inc, s, k) == y)
            && |Occurrences(inc, s, o)| == TWO_32
  {
    IncrementOdd(q);
    OddPeriod(IncrementOf(q), Seeded(seed, q), i, n, y, o);
  }

  lemma OddPeriod(inc: nat, s: u64, i: nat, n: nat, y: u64, o: u32)
    requires inc % 2 == 1
    ensures StateAfter(PCG32_MULT, inc, s, i + n) == StateAfter(PCG32_MULT, inc, s, i) <==> Divides(TWO_64, n)
    ensures exists k: nat :: k < TWO_64 && StateAfter(PCG32_MULT, inc, s, k) == y
    ensures |Occurrences(inc, s, o)| == TWO_32
  {
    FullPeriod(PCG32_MULT, inc, s, i, n);
    DrawExists(inc, s, y);
    Equidistributed(inc, s, o);
  }

  lemma OutputBound(s: u64)
    ensures Output(s) < TWO_32
  {
    UnrotateRotate(Xorshifted(s), s / 0x800_0000_0000_0000);
  }

  /** The 32 bits of `o`, read as a signed integer. */
  function Signed(o: u32): (i: int)
    ensures i % TWO_32 == o && -0x8000_0000 <= i < 0x8000_0000
  {
    if o < 0x8000_0000 then o else o - TWO_32
  }

  class Generator {
    var state: u64
    var inc: nat
    var inited: bool

    ghost predicate Valid()
      reads this
    {
      inited ==> inc % 2 == 1 && inc < TWO_64
    }

    constructor ()
      ensures Valid() && !inited && state == 0 && inc == 0
    {
      state, inc, inited := 0, 0, false;
    }

    method Ksrand32(seed: u64, q: u64)
      modifies this
      ensures Valid() && inited
      ensures inc == IncrementOf(q) && state == Seeded(seed, q)
    {
      IncrementOdd(q);
      state := 0;
      inc := IncrementOf(q);
      for i := 0 to 3
        invariant inc == IncrementOf(q)
        invariant state == StateAfter(PCG32_MULT, inc, 0, i)
      {
        state := Next(PCG32_MULT, inc, state);
      }
      state := (state + seed) % TWO_64;
      state := Next(PCG32_MULT, inc, state);
      inited := true;
    }

    /** kensure_pcg_init, with the low half of the time stamp counter as a parameter. */
    method EnsureInit(tsc: u32)
      requires Valid()
      modifies this
      ensures Valid() && inited
      ensures old(inited) ==> inc == old(inc) && state == old(state)
      ensures !old(inited) ==> inc == IncrementOf(InitSequence(tsc)) && state == Seeded(tsc, InitSequence(tsc))
    {
      if !inited {
        Ksrand32(tsc, InitSequence(tsc));
      }
    }

    /** k_u_rand32 */
    method KURand32(tsc: u32) returns (r: u32)
      requires Valid()
      modifies this
      ensures Valid() && inited
      ensures old(inited) ==> inc == old(inc) && r == Output(old(state)) && state == Next(PCG32_MULT, inc, old(state))
      ensures !old(inited) ==>
                var s := Seeded(tsc, InitSequence(tsc));
                inc == IncrementOf(InitSequence(tsc)) && r == Output(s) && state == Next(PCG32_MULT, inc, s)
    {
      EnsureInit(tsc);
      var prev := state;
      state := Next(PCG32_MULT, inc, prev);
      OutputBound(prev);
      r := Output(prev);
    }

    /** krand32: the same bits, read as a signed integer. */
    method Krand32(tsc: u32) returns (r: int)
      requires Valid()
      modifies this
      ensures Valid() && inited
      ensures old(inited) ==>
                && inc == old(inc) && state == Next(PCG32_MULT, inc, old(state))
                && r % TWO_32 == Output(old(state)) && -0x8000_0000 <= r < 0x8000_0000
      ensures !old(inited) ==>
                var s := Seeded(tsc, InitSequence(tsc));
                && inc == IncrementOf(InitSequence(tsc)) && state == Next(PCG32_MULT, inc, s)
                && r % TWO_32 == Output(s) && -0x8000_0000 <= r < 0x8000_0000
    {
      EnsureInit(tsc);
      var prev := state;
      state := Next(PCG32_MULT, inc, prev);
      OutputBound(prev);
      r := Signed(Output(prev));
    }

    /** Drawing n times after seeding: exactly the outputs OutputAfter lists. */
    method DrawMany(seed: u64, q: u64, n: nat) returns (outputs: seq<u32>)
      modifies this
      ensures Valid() && inited && inc == IncrementOf(q)
      ensures |outputs| == n && forall k :: 0 <= k < n ==> outputs[k] == OutputAfter(seed, q, k)
    {
      Ksrand32(seed, q);
      outputs := [];
      for k := 0 to n
        invariant Valid() && inited && inc == IncrementOf(q)
        invariant state == StateAfter(PCG32_MULT, inc, Seeded(seed, q), k)
        invariant |outputs| == k && forall j :: 0 <= j < k ==> outputs[j] == OutputAfter(seed, q, j)
      {
        var r := KURand32(0);
        outputs := outputs + [r];
      }
    }
  }

  /** `t ^ PCG32_INIT_SEQ` */
  function InitSequence(tsc: u32): u64 {
    Pow2Half();
    XorBelow(tsc, PCG32_INIT_SEQ, TWO_32, 32);
    Xor(tsc, PCG32_INIT_SEQ)
  }
}
