/** Machine integers and little-endian access to a byte memory, as every other module uses them. */
module Machine {
  const TWO_32 := 0x1_0000_0000
  const TWO_64 := 0x1_0000_0000_0000_0000

  type u8 = x: int | 0 <= x < 0x100
  type u16 = x: int | 0 <= x < 0x1_0000
  type u32 = x: int | 0 <= x < 0x1_0000_0000
  type u64 = x: int | 0 <= x < 0x1_0000_0000_0000_0000

  /** `m` and `w` hold the same bytes at the indices `lo <= i < hi`. */
  ghost predicate Same(m: seq<u8>, w: seq<u8>, lo: int, hi: int) {
    |m| == |w| && forall i :: lo <= i < hi && 0 <= i < |m| ==> m[i] == w[i]
  }

  /** The value of a little-endian byte string. */
  function Decode(s: seq<u8>): nat {
    if s == [] then 0 else s[0] + 256 * Decode(s[1..])
  }

  /** The `n` low bytes of `v`, least significant first. */
  function Encode(v: nat, n: nat): (s: seq<u8>)
    ensures |s| == n
  {
    if n == 0 then [] else [v % 256] + Encode(v / 256, n - 1)
  }

  function Pow256(n: nat): nat {
    if n == 0 then 1 else 256 * Pow256(n - 1)
  }

  lemma {:induction false} DecodeEncode(v: nat, n: nat)
    requires v < Pow256(n)
    ensures Decode(Encode(v, n)) == v
  {
    if n == 0 {
    } else {
      assert v == 256 * (v / 256) + v % 256;
      DecodeEncode(v / 256, n - 1);
      assert Encode(v, n)[1..] == Encode(v / 256, n - 1);
    }
  }

  lemma {:induction false} DecodeBound(s: seq<u8>)
    ensures Decode(s) < Pow256(|s|)
  {
    if s != [] {
      DecodeBound(s[1..]);
    }
  }

  lemma Pow256Values()
    ensures Pow256(1) == 0x100 && Pow256(2) == 0x1_0000
    ensures Pow256(4) == TWO_32 && Pow256(8) == TWO_64
  {
    assert Pow256(3) == 0x100_0000;
    assert Pow256(5) == 0x100_0000_0000;
    assert Pow256(6) == 0x1_0000_0000_0000;
    assert Pow256(7) == 0x100_0000_0000_0000;
  }

  function Repeat(c: u8, n: nat): (s: seq<u8>)
    ensures |s| == n && forall i :: 0 <= i < n ==> s[i] == c
  {
    seq(n, i => c)
  }

  /** The memory `m` after the bytes `s` were stored at index `i`. */
  function Put(m: seq<u8>, i: int, s: seq<u8>): (w: seq<u8>)
    requires 0 <= i && i + |s| <= |m|
    ensures |w| == |m|
    ensures w[i..i + |s|] == s
    ensures forall k :: 0 <= k < i || i + |s| <= k < |m| ==> w[k] == m[k]
  {
    m[..i] + s + m[i + |s|..]
  }

  /** The 64-bit word at index `i`. */
  function Load64(m: seq<u8>, i: int): (v: u64)
    requires 0 <= i && i + 8 <= |m|
  {
    DecodeBound(m[i..i + 8]);
    Pow256Values();
    Decode(m[i..i + 8])
  }

  /** The 32-bit word at index `i`. */
  function Load32(m: seq<u8>, i: int): (v: u32)
    requires 0 <= i && i + 4 <= |m|
  {
    var a: int, b: int, c: int, d: int := m[i], m[i + 1], m[i + 2], m[i + 3];
    a + 0x100 * b + 0x1_0000 * c + 0x100_0000 * d
  }

  /** The 16-bit word at index `i`. */
  function Load16(m: seq<u8>, i: int): (v: u16)
    requires 0 <= i && i + 2 <= |m|
  {
    var a: int, b: int := m[i], m[i + 1];
    a + 0x100 * b
  }

  function Store64(m: seq<u8>, i: int, v: u64): (w: seq<u8>)
    requires 0 <= i && i + 8 <= |m|
    ensures |w| == |m|
  {
    Put(m, i, Encode(v, 8))
  }

  /** A store is read back, and changes no byte beside the eight it covers. */
  lemma StoreLoad(m: seq<u8>, i: int, v: u64)
    requires 0 <= i && i + 8 <= |m|
    ensures Load64(Store64(m, i, v), i) == v
    ensures Same(m, Store64(m, i, v), 0, i)
    ensures Same(m, Store64(m, i, v), i + 8, |m|)
  {
    Pow256Values();
    DecodeEncode(v, 8);
  }

  lemma LoadSame(m: seq<u8>, w: seq<u8>, i: int)
    requires 0 <= i && i + 8 <= |m| && Same(m, w, i, i + 8)
    ensures Load64(m, i) == Load64(w, i)
  {
    assert m[i..i + 8] == w[i..i + 8];
  }

  /** The conversion `(int) n`. */
  function AsInt(n: nat): int {
    if n % TWO_32 < 0x8000_0000 then n % TWO_32 else n % TWO_32 - TWO_32
  }

  function Least(a: int, b: int): int { if a <= b then a else b }

  // ---- Division ----

  lemma DivUnique(n: int, d: int, q: int, r: int)
    requires d > 0 && n == d * q + r && 0 <= r < d
    ensures n / d == q && n % d == r
  {
    var k := n / d;
    assert n == d * k + n % d;
    MulMonotone(d, k, q + 1);
    MulMonotone(d, q, k + 1);
  }

  lemma DivNonNegative(x: int, d: int)
    requires d > 0 && x >= 0
    ensures x / d >= 0
  {
    assert x == d * (x / d) + x % d;
    MulMonotone(d, -1, x / d);
  }

  lemma ModShift(d: int, q: int, r: int)
    requires d > 0
    ensures (d * q + r) % d == r % d
  {
    assert r == d * (r / d) + r % d;
    DivUnique(d * q + r, d, q + r / d, r % d);
  }

  lemma MulMonotone(d: int, a: int, b: int)
    requires d > 0
    ensures a >= b ==> d * a >= d * b
  {
  }

  lemma Nonneg(a: nat, b: nat)
    ensures a * b >= 0
  {
  }

  lemma Assoc(x: int, y: int, z: int)
    ensures x * (y * z) == (x * y) * z
  {
  }

  // ---- Bitwise or ----

  function Pow2(k: nat): (p: nat)
    ensures p > 0
  {
    if k == 0 then 1 else 2 * Pow2(k - 1)
  }

  /** The bits of `a` or `b`. */
  function Or(a: nat, b: nat): nat
    decreases a + b
  {
    if a == 0 && b == 0 then 0
    else (if a % 2 == 1 || b % 2 == 1 then 1 else 0) + 2 * Or(a / 2, b / 2)
  }

  lemma {:induction false} OrZero(a: nat)
    ensures Or(a, 0) == a && Or(0, a) == a
  {
    if a != 0 {
      OrZero(a / 2);
    }
  }

  /** High and low bits are combined separately. */
  lemma {:induction false} OrSplit(a: nat, b: nat, c: nat, d: nat, k: nat)
    requires c < Pow2(k) && d < Pow2(k)
    ensures Or(a * Pow2(k) + c, b * Pow2(k) + d) == Or(a, b) * Pow2(k) + Or(c, d)
    ensures Or(c, d) < Pow2(k)
    decreases k
  {
    if k == 0 {
    } else {
      var p := Pow2(k - 1);
      OrSplit(a, b, c / 2, d / 2, k - 1);
      Doubled(a, p);
      Doubled(b, p);
      Doubled(Or(a, b), p);
      var x: nat, y: nat := a * p, b * p;
      OrOuter(x, y, c, d);
      assert Or(x + c / 2, y + d / 2) == Or(a, b) * p + Or(c / 2, d / 2);
      assert Or(2 * x + c, 2 * y + d) == 2 * (Or(a, b) * p) + Or(c, d);
    }
  }

  lemma OrOuter(x: nat, y: nat, c: nat, d: nat)
    ensures Or(2 * x + c, 2 * y + d) == 2 * Or(x + c / 2, y + d / 2) + (Or(c, d) - 2 * Or(c / 2, d / 2))
    ensures 0 <= Or(c, d) - 2 * Or(c / 2, d / 2) <= 1
  {
    OrStep(x + c / 2, y + d / 2, c % 2, d % 2);
    OrStep(c / 2, d / 2, c % 2, d % 2);
    assert 2 * (x + c / 2) + c % 2 == 2 * x + c && 2 * (y + d / 2) + d % 2 == 2 * y + d;
  }

  lemma Doubled(x: int, p: int)
    ensures x * (2 * p) == 2 * (x * p)
    ensures x >= 0 && p >= 0 ==> x * p >= 0
  {
  }

  lemma OrStep(x: nat, y: nat, i: nat, j: nat)
    requires i < 2 && j < 2
    ensures Or(2 * x + i, 2 * y + j) == 2 * Or(x, y) + (if i == 1 || j == 1 then 1 else 0)
  {
    assert (2 * x + i) / 2 == x && (2 * y + j) / 2 == y;
    assert (2 * x + i) % 2 == i && (2 * y + j) % 2 == j;
  }

  /** Bits that do not meet add up. */
  lemma OrApart(a: nat, b: nat, k: nat)
    requires a < Pow2(k)
    ensures Or(a, b * Pow2(k)) == a + b * Pow2(k)
  {
    OrSplit(0, b, a, 0, k);
    OrZero(a);
    OrZero(b);
  }

  lemma {:induction false} OrSelf(a: nat)
    ensures Or(a, a) == a
  {
    if a != 0 {
      OrSelf(a / 2);
    }
  }

  // ---- Bitwise exclusive or ----

  function Xor(a: nat, b: nat): nat
    decreases a + b
  {
    if a == 0 && b == 0 then 0
    else (if a % 2 == b % 2 then 0 else 1) + 2 * Xor(a / 2, b / 2)
  }

  lemma XorStep(x: nat, y: nat, i: nat, j: nat)
    requires i < 2 && j < 2
    ensures Xor(2 * x + i, 2 * y + j) == 2 * Xor(x, y) + (if i == j then 0 else 1)
  {
    assert (2 * x + i) / 2 == x && (2 * y + j) / 2 == y;
    assert (2 * x + i) % 2 == i && (2 * y + j) % 2 == j;
  }

  lemma XorOuter(x: nat, y: nat, c: nat, d: nat)
    ensures Xor(2 * x + c, 2 * y + d) == 2 * Xor(x + c / 2, y + d / 2) + (Xor(c, d) - 2 * Xor(c / 2, d / 2))
    ensures 0 <= Xor(c, d) - 2 * Xor(c / 2, d / 2) <= 1
  {
    XorStep(x + c / 2, y + d / 2, c % 2, d % 2);
    XorStep(c / 2, d / 2, c % 2, d % 2);
    assert 2 * (x + c / 2) + c % 2 == 2 * x + c && 2 * (y + d / 2) + d % 2 == 2 * y + d;
  }

  /** High and low bits are combined separately. */
  lemma {:induction false} XorSplit(a: nat, b: nat, c: nat, d: nat, k: nat)
    requires c < Pow2(k) && d < Pow2(k)
    ensures Xor(a * Pow2(k) + c, b * Pow2(k) + d) == Xor(a, b) * Pow2(k) + Xor(c, d)
    ensures Xor(c, d) < Pow2(k)
    decreases k
  {
    if k == 0 {
    } else {
      var p := Pow2(k - 1);
      XorSplit(a, b, c / 2, d / 2, k - 1);
      Doubled(a, p);
      Doubled(b, p);
      Doubled(Xor(a, b), p);
      var x: nat, y: nat := a * p, b * p;
      XorOuter(x, y, c, d);
      assert Xor(x + c / 2, y + d / 2) == Xor(a, b) * p + Xor(c / 2, d / 2);
      assert Xor(2 * x + c, 2 * y + d) == 2 * (Xor(a, b) * p) + Xor(c, d);
    }
  }

  lemma {:induction false} XorCancel(a: nat, b: nat)
    ensures Xor(Xor(a, b), b) == a && Xor(a, b) == Xor(b, a)
    decreases a + b
  {
    if a != 0 || b != 0 {
      XorCancel(a / 2, b / 2);
      var i := if a % 2 == b % 2 then 0 else 1;
      XorStep(Xor(a / 2, b / 2), b / 2, i, b % 2);
      assert Xor(a, b) == 2 * Xor(a / 2, b / 2) + i;
    }
  }

  /** A second xor with either operand gives back the other. */
  lemma XorTwice(a: nat, b: nat, x: nat)
    requires x == Xor(a, b)
    ensures x == Xor(b, a)
    ensures Xor(x, b) == a && Xor(b, x) == a && Xor(x, a) == b && Xor(a, x) == b
  {
    XorCancel(a, b);
    XorCancel(b, a);
    XorCancel(x, a);
    XorCancel(x, b);
  }

  /** The bits from the k-th on, and those below it. */
  lemma XorCut(a: nat, b: nat, c: nat, d: nat, p: nat, k: nat)
    requires p == Pow2(k) && c < p && d < p
    ensures a * p >= 0 && b * p >= 0
    ensures var z := Xor(a * p + c, b * p + d);
            z == Xor(a, b) * p + Xor(c, d) && Xor(c, d) < p && z / p == Xor(a, b) && z % p == Xor(c, d)
  {
    Doubled(a, p);
    Doubled(b, p);
    XorSplit(a, b, c, d, k);
    Divided(Xor(a * p + c, b * p + d), p, Xor(a, b), Xor(c, d));
  }

  lemma Divided(z: int, p: int, h: int, r: int)
    requires z == h * p + r && 0 <= r < p
    ensures z / p == h && z % p == r
  {
    DivUnique(z, p, h, r);
  }

  lemma XorBelow(c: nat, d: nat, p: nat, k: nat)
    requires p == Pow2(k) && c < p && d < p
    ensures Xor(c, d) < p
  {
    XorSplit(0, 0, c, d, k);
  }
}
