/** What the seed and the sequence number do to the generator, and one seeding worked out to its first output. */
module PcgSeeds {
  import opened Machine
  import opened Lcg
  import opened Pcg

  // ---- The seed decides the state ----

  /** The multiplier's inverse modulo 2^64. */
  const INVERSE := 13877824140714322085

  lemma InverseOfMultiplier()
    ensures INVERSE * PCG32_MULT == TWO_64 * 4787856489426250814 + 1
  {
  }

  /** The seed is multiplied by the generator's multiplier and added to what seed 0 gives. */
  lemma SeedAdds(seed: u64, q: u64)
    ensures Seeded(seed, q) == (6364136223846793005 * seed + Seeded(0, q)) % TWO_64
  {
    var inc, a := IncrementOf(q), StateAfter(PCG32_MULT, IncrementOf(q), 0, 3);
    NextMod(PCG32_MULT, inc, a + seed);
    NextMod(PCG32_MULT, inc, a);
    AddLater(PCG32_MULT * a + inc, PCG32_MULT * seed);
  }

  lemma AddLater(x: nat, y: nat)
    ensures (x + y) % TWO_64 == (y + x % TWO_64) % TWO_64
  {
  }

  /** Different seeds leave different states. */
  lemma SeedsDiffer(a: u64, b: u64, q: u64)
    ensures Seeded(a, q) == Seeded(b, q) <==> a == b
  {
    SeedOfSeeded(a, q);
    SeedOfSeeded(b, q);
  }

  /** The seed that leaves the state `y`. */
  function SeedFor(y: u64, q: u64): u64 {
    INVERSE * ((y + TWO_64 - Seeded(0, q)) % TWO_64) % TWO_64
  }

  /** Every state is what exactly one seed leaves. */
  lemma SeedFound(y: u64, q: u64, seed: u64)
    ensures Seeded(seed, q) == y <==> seed == SeedFor(y, q)
  {
    SeededSeed(y, q);
    SeedOfSeeded(seed, q);
  }

  lemma SeededSeed(y: u64, q: u64)
    ensures Seeded(SeedFor(y, q), q) == y
  {
    var d: nat := (y + TWO_64 - Seeded(0, q)) % TWO_64;
    SeedAdds(SeedFor(y, q), q);
    Undo(INVERSE, PCG32_MULT, d);
    Restore(PCG32_MULT * SeedFor(y, q), d, y, Seeded(0, q));
  }

  lemma SeedOfSeeded(seed: u64, q: u64)
    ensures SeedFor(Seeded(seed, q), q) == seed
  {
    SeedAdds(seed, q);
    var z: u64 := Seeded(0, q);
    var d: nat := (Seeded(seed, q) + TWO_64 - z) % TWO_64;
    Distance(PCG32_MULT * seed, z, Seeded(seed, q));
    Undo(PCG32_MULT, INVERSE, seed);
  }

  lemma Distance(t: nat, z: u64, y: u64)
    requires y == (t + z) % TWO_64
    ensures (y + TWO_64 - z) % TWO_64 == t % TWO_64
  {
  }

  lemma Restore(x: nat, d: nat, y: u64, z: u64)
    requires d == (y + TWO_64 - z) % TWO_64 && x % TWO_64 == d
    ensures (x + z) % TWO_64 == y
  {
  }

  /** Multiplying by one of the two factors and then by the other changes nothing modulo 2^64. */
  lemma Undo(a: nat, b: nat, x: u64)
    requires (a == PCG32_MULT && b == INVERSE) || (a == INVERSE && b == PCG32_MULT)
    ensures b * (a * x % TWO_64) % TWO_64 == x
  {
    InverseOfMultiplier();
    var k, r := a * x / TWO_64, a * x % TWO_64;
    assert a * x == TWO_64 * k + r;
    if a == PCG32_MULT {
      assert INVERSE * r == TWO_64 * (4787856489426250814 * x - INVERSE * k) + x;
      DivUnique(INVERSE * r, TWO_64, 4787856489426250814 * x - INVERSE * k, x);
    } else {
      assert PCG32_MULT * r == TWO_64 * (4787856489426250814 * x - PCG32_MULT * k) + x;
      DivUnique(PCG32_MULT * r, TWO_64, 4787856489426250814 * x - PCG32_MULT * k, x);
    }
  }

  /** A sequence number gives the same increment as another exactly when they agree below bit 63. */
  lemma SequencesDiffer(p: u64, q: u64)
    ensures IncrementOf(p) == IncrementOf(q) <==> p % 0x8000_0000_0000_0000 == q % 0x8000_0000_0000_0000
  {
    IncrementOdd(p);
    IncrementOdd(q);
    DoubleWraps(p);
    DoubleWraps(q);
  }

  lemma DoubleWraps(q: u64)
    ensures q * 2 % TWO_64 == 2 * (q % 0x8000_0000_0000_0000)
  {
    if q < 0x8000_0000_0000_0000 {
      DivUnique(q * 2, TWO_64, 0, q * 2);
    } else {
      DivUnique(q * 2, TWO_64, 1, q * 2 - TWO_64);
    }
  }

  /** Unseeded, the sequence number is the time stamp with the bits of one constant turned over. */
  lemma InitSequenceIs(tsc: u32)
    ensures Xor(InitSequence(tsc), tsc) == 0xDEAD_BEEF
  {
    XorTwice(tsc, PCG32_INIT_SEQ, InitSequence(tsc));
  }

  // ---- ksrand32(42, 54) ----

  lemma StepIs(inc: nat, s: u64, k: nat, t: u64)
    requires PCG32_MULT * s + inc == TWO_64 * k + t
    ensures Next(PCG32_MULT, inc, s) == t
  {
    DivUnique(s * PCG32_MULT + inc, TWO_64, k, t);
  }

  /** The state: three steps from 0, the seed added, and one more step. */
  lemma SeededDemo()
    ensures Seeded(42, 54) == 0x39EB_EB57_F02D_807E
  {
    IncrementOdd(54);
    StepIs(109, 0, 0, 0x6D);
    StepIs(109, 0x6D, 37, 0x9AE4_F749_9BA7_2696);
    StepIs(109, 0x9AE4_F749_9BA7_2696, 3850660356033856275, 0xB98_F444_45D4_32CB);
    StepIs(109, 0xB98_F444_45D4_32F5, 288312206415051396, 0x39EB_EB57_F02D_807E);
    Warmed(54, 109, 0x6D, 0x9AE4_F749_9BA7_2696, 0xB98_F444_45D4_32CB, 42, 0x39EB_EB57_F02D_807E);
  }

  lemma Warmed(q: u64, inc: nat, a: u64, b: u64, c: u64, seed: u64, s: u64)
    requires inc == IncrementOf(q) && c + seed < TWO_64
    requires Next(PCG32_MULT, inc, 0) == a && Next(PCG32_MULT, inc, a) == b && Next(PCG32_MULT, inc, b) == c
    requires Next(PCG32_MULT, inc, c + seed) == s
    ensures Seeded(seed, q) == s
  {
    assert StateAfter(PCG32_MULT, inc, 0, 0) == 0;
    assert StateAfter(PCG32_MULT, inc, 0, 1) == a;
    assert StateAfter(PCG32_MULT, inc, 0, 2) == b;
  }

  /** Four bits at a time. */
  lemma XorDigit(a: nat, b: nat, c: nat, d: nat, h: nat, l: nat)
    requires c < 16 && d < 16 && Xor(a, b) == h && Xor(c, d) == l
    ensures Xor(16 * a + c, 16 * b + d) == 16 * h + l
  {
    assert Pow2(4) == 16;
    XorSplit(a, b, c, d, 4);
  }

  lemma DigitsOfMix()
    ensures Xor(0x1, 0xD) == 0xC && Xor(0xC, 0x6) == 0xA && Xor(0xF, 0xA) == 0x5
  {
  }

  lemma MoreDigits()
    ensures Xor(0x5, 0xF) == 0xA && Xor(0xF, 0xE) == 0x1
  {
  }

  lemma TwoDigits(a: nat, b: nat, h: nat, c: nat, d: nat, l: nat, c1: nat, d1: nat, l1: nat)
    requires c < 16 && d < 16 && c1 < 16 && d1 < 16
    requires Xor(a, b) == h && Xor(c, d) == l && Xor(c1, d1) == l1
    ensures Xor(16 * (16 * a + c) + c1, 16 * (16 * b + d) + d1) == 16 * (16 * h + l) + l1
  {
    XorDigit(a, b, c, d, h, l);
    XorDigit(16 * a + c, 16 * b + d, c1, d1, 16 * h + l, l1);
  }

  lemma UpperMix()
    ensures Xor(0x1C, 0x3_D7D6) == 0x3_D7CA
  {
    DigitsOfMix();
    XorZero(0x3D7);
    TwoDigits(0, 0x3D7, 0x3D7, 0x1, 0xD, 0xC, 0xC, 0x6, 0xA);
  }

  lemma MiddleMix()
    ensures Xor(0x1CF5, 0x3D7_D6AF) == 0x3D7_CA5A
  {
    UpperMix();
    DigitsOfMix();
    MoreDigits();
    TwoDigits(0x1C, 0x3_D7D6, 0x3_D7CA, 0xF, 0xA, 0x5, 0x5, 0xF, 0xA);
  }

  lemma LowerMix()
    ensures Xor(0x1_CF5F, 0x3D7D_6AFE) == 0x3D7C_A5A1
  {
    MiddleMix();
    MoreDigits();
    XorDigit(0x1CF5, 0x3D7_D6AF, 0xF, 0xE, 0x3D7_CA5A, 0x1);
  }

  lemma MixDemo()
    ensures Mix(7, 0x3D7D_6AFE) == 0x3D7C_A5A1
  {
    LowerMix();
    MixIs(7, 0x3D7D_6AFE, 0x1_CF5F, 0x3D7C_A5A1);
  }

  lemma {:induction false} XorZero(a: nat)
    ensures Xor(0, a) == a
  {
    if a != 0 {
      XorZero(a / 2);
    }
  }

  lemma MixIs(t: nat, m: u32, shifted: nat, x: nat)
    requires t < 32 && shifted == t * 0x4000 + m / 0x4_0000 && Xor(shifted, m) == x
    ensures Mix(t, m) == x
  {
  }

  /** A rotation to the right by seven. */
  lemma RotateDemo()
    ensures RotateRight(0x3D7C_A5A1, 7) == 0x427A_F94B
  {
    var p, q := PowerPair(7);
    assert Pow2(7) == 128;
    RotateParts(0x3D7C_A5A1, p, q, 25);
    RotationBy(0x3D7C_A5A1, 7, p, q);
  }

  /** The first number drawn after ksrand32(42, 54). */
  lemma FirstDraw()
    ensures OutputAfter(42, 54, 0) == 0x427A_F94B
  {
    SeededDemo();
    MixDemo();
    RotateDemo();
    OutputOfFields(7, 0x3D7D_6AFE, 0x02D_807E);
    assert Compose(7, 0x3D7D_6AFE, 0x02D_807E) == 0x39EB_EB57_F02D_807E;
    FirstIs(42, 54, 0x39EB_EB57_F02D_807E);
  }

  lemma FirstIs(seed: u64, q: u64, s: u64)
    requires Seeded(seed, q) == s
    ensures OutputAfter(seed, q, 0) == Output(s)
  {
  }
}
