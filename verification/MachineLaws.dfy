/** What the machine's operations on words mean, bit by bit and as numbers. */
module MachineLaws {
  import opened Machine

  // ---- Bits ----

  /** Bit `k` of `a`. */
  predicate Bit(a: nat, k: nat) {
    if k == 0 then a % 2 == 1 else Bit(a / 2, k - 1)
  }

  /** The two bitwise operations, bit by bit. */
  lemma {:induction false} BitwiseOperations(a: nat, b: nat, k: nat)
    ensures Bit(Or(a, b), k) <==> Bit(a, k) || Bit(b, k)
    ensures Bit(Xor(a, b), k) <==> Bit(a, k) != Bit(b, k)
    decreases k
  {
    OrStep(a / 2, b / 2, a % 2, b % 2);
    XorStep(a / 2, b / 2, a % 2, b % 2);
    if k != 0 {
      BitwiseOperations(a / 2, b / 2, k - 1);
    }
  }

  // ---- Conversions ----

  /** The conversion to int keeps the low 32 bits, and gives the number of that residue which an int can hold. */
  lemma AsIntIs(n: nat, i: int)
    ensures i == AsInt(n) <==> -0x8000_0000 <= i <= 0x7FFF_FFFF && (i - n) % 0x1_0000_0000 == 0
  {
    var q, r := n / TWO_32, n % TWO_32;
    assert n == TWO_32 * q + r;
    Residue(i, q, r);
  }

  lemma Residue(i: int, q: int, r: int)
    requires 0 <= r < TWO_32
    ensures var j := if r < 0x8000_0000 then r else r - TWO_32;
            i == j <==> -0x8000_0000 <= i <= 0x7FFF_FFFF && (i - (TWO_32 * q + r)) % TWO_32 == 0
  {
    var j := if r < 0x8000_0000 then r else r - TWO_32;
    ModShift(TWO_32, -q, i - r);
    assert i - (TWO_32 * q + r) == TWO_32 * -q + (i - r);
  }
}
