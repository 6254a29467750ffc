/**
 * Full period of a linear congruential generator modulo a power of two whose multiplier is 1
 * modulo 4 and whose increment is odd (the theorem of Hull and Dobell for these moduli).
 */
module Lcg {
  import opened Machine

  /** The generator without the modulus: n steps from `x`. */
  function Steps(a: nat, c: nat, x: nat, n: nat): nat {
    if n == 0 then x else a * Steps(a, c, x, n - 1) + c
  }

  function Power(a: nat, n: nat): nat {
    if n == 0 then 1 else a * Power(a, n - 1)
  }

  /** 1 + a + ... + a^(n-1) */
  function Geometric(a: nat, n: nat): nat {
    if n == 0 then 0 else a * Geometric(a, n - 1) + 1
  }

  ghost predicate Divides(d: int, n: int)
    requires d > 0
  {
    n % d == 0
  }

  // ---- Closed forms ----

  lemma {:induction false} StepsClosed(a: nat, c: nat, x: nat, n: nat)
    requires a >= 1
    ensures Steps(a, c, x, n) == x + Geometric(a, n) * ((a - 1) * x + c)
  {
    if n != 0 {
      StepsClosed(a, c, x, n - 1);
      ClosedStep(a, c, x, Geometric(a, n - 1));
    }
  }

  lemma ClosedStep(a: int, c: int, x: int, g: int)
    ensures var d := (a - 1) * x + c; a * (x + g * d) + c == x + (a * g + 1) * d
  {
    var d := (a - 1) * x + c;
    Assoc(a, g, d);
    assert a * (x + g * d) == a * x + a * (g * d);
    assert (a * g + 1) * d == (a * g) * d + d;
  }

  lemma {:induction false} StepsCompose(a: nat, c: nat, x: nat, m: nat, n: nat)
    ensures Steps(a, c, x, m + n) == Steps(a, c, Steps(a, c, x, m), n)
  {
    if n != 0 {
      StepsCompose(a, c, x, m, n - 1);
    }
  }

  lemma {:induction false} GeometricSum(a: nat, m: nat, n: nat)
    ensures Geometric(a, m + n) == Geometric(a, n) + Power(a, n) * Geometric(a, m)
  {
    if n != 0 {
      GeometricSum(a, m, n - 1);
      SumStep(a, Geometric(a, n - 1), Power(a, n - 1), Geometric(a, m));
    }
  }

  lemma SumStep(a: int, g: int, p: int, h: int)
    ensures a * (g + p * h) + 1 == (a * g + 1) + (a * p) * h
  {
    Assoc(a, p, h);
  }

  lemma {:induction false} PowerMod4(a: nat, n: nat)
    requires a % 4 == 1
    ensures Power(a, n) % 4 == 1
  {
    if n != 0 {
      PowerMod4(a, n - 1);
      var p := Power(a, n - 1);
      ProductMod4(a, p);
    }
  }

  lemma ProductMod4(a: nat, p: nat)
    requires a % 4 == 1 && p % 4 == 1
    ensures (a * p) % 4 == 1
  {
    var i, j := a / 4, p / 4;
    assert a * p == (4 * i + 1) * (4 * j + 1);
    assert (4 * i + 1) * (4 * j + 1) == 4 * (4 * (i * j) + i + j) + 1;
  }

  lemma {:induction false} GeometricParity(a: nat, n: nat)
    requires a % 2 == 1
    ensures Geometric(a, n) % 2 == n % 2
  {
    if n != 0 {
      GeometricParity(a, n - 1);
      OddStep(a, Geometric(a, n - 1), n - 1);
    }
  }

  lemma OddStep(a: nat, y: nat, n: nat)
    requires a % 2 == 1 && y % 2 == n % 2
    ensures (a * y + 1) % 2 == (n + 1) % 2
  {
    OddProduct(a, y);
    NextParity(a * y, n);
  }

  lemma NextParity(u: int, n: int)
    requires u % 2 == n % 2
    ensures (u + 1) % 2 == (n + 1) % 2
  {
  }

  lemma OddProduct(o: int, y: int)
    requires o % 2 == 1
    ensures (o * y) % 2 == y % 2
  {
    var k := o / 2;
    assert o * y == 2 * (k * y) + y;
  }

  // ---- Powers of two and odd factors ----

  lemma EvenMod(w: int, j: nat)
    requires j > 0
    ensures (2 * w) % Pow2(j) == 2 * (w % Pow2(j - 1))
  {
    var p := Pow2(j - 1);
    var q, r := w / p, w % p;
    assert w == p * q + r;
    assert 2 * w == (2 * p) * q + 2 * r by {
      assert 2 * (p * q) == (2 * p) * q;
    }
    DivUnique(2 * w, 2 * p, q, 2 * r);
  }

  /** An odd factor does not matter for divisibility by a power of two. */
  lemma {:induction false} OddFactor(o: int, y: int, j: nat)
    requires o % 2 == 1
    ensures Divides(Pow2(j), o * y) <==> Divides(Pow2(j), y)
    decreases j
  {
    if j > 0 {
      OddProduct(o, y);
      ParityOf(o * y, j);
      ParityOf(y, j);
      if y % 2 == 0 {
        var z := y / 2;
        assert o * y == 2 * (o * z);
        EvenMod(o * z, j);
        EvenMod(z, j);
        OddFactor(o, z, j - 1);
      }
    }
  }

  /** A multiple of 2^j, j > 0, is even. */
  lemma ParityOf(y: int, j: nat)
    requires j > 0
    ensures Divides(Pow2(j), y) ==> y % 2 == 0
  {
    if Divides(Pow2(j), y) {
      var p, q := Pow2(j - 1), y / Pow2(j);
      assert y == (2 * p) * q;
      assert (2 * p) * q == 2 * (p * q);
    }
  }

  /** The sum of n powers of a is divisible by exactly those powers of two that divide n. */
  lemma {:induction false} GeometricValuation(a: nat, n: nat, k: nat)
    requires a % 4 == 1
    ensures Divides(Pow2(k), Geometric(a, n)) <==> Divides(Pow2(k), n)
    decreases k
  {
    if k > 0 {
      GeometricParity(a, n);
      ParityOf(Geometric(a, n), k);
      ParityOf(n, k);
      if n % 2 == 0 {
        var m := n / 2;
        var o := GeometricDouble(a, m);
        TwiceOdd(o, Geometric(a, m), k);
        EvenMod(m, k);
        GeometricValuation(a, m, k - 1);
      }
    }
  }

  lemma TwiceOdd(o: int, g: int, k: nat)
    requires o % 2 == 1 && k > 0
    ensures Divides(Pow2(k), 2 * (o * g)) <==> Divides(Pow2(k - 1), g)
  {
    EvenMod(o * g, k);
    OddFactor(o, g, k - 1);
  }

  lemma GeometricDouble(a: nat, m: nat) returns (o: nat)
    requires a % 4 == 1
    ensures o % 2 == 1 && Geometric(a, 2 * m) == 2 * (o * Geometric(a, m))
  {
    PowerMod4(a, m);
    o := HalfOdd(Power(a, m));
    GeometricSum(a, m, m);
    Halve(Geometric(a, m), Power(a, m), o);
  }

  lemma HalfOdd(p: nat) returns (o: nat)
    requires p % 4 == 1
    ensures o % 2 == 1 && 1 + p == 2 * o
  {
    var k := p / 4;
    o := 2 * k + 1;
  }

  lemma Halve(g: int, p: int, o: int)
    requires 1 + p == 2 * o
    ensures g + p * g == 2 * (o * g)
  {
    assert (1 + p) * g == g + p * g;
    Assoc(2, o, g);
  }

  // ---- The period ----

  /** The drift per period is odd. */
  lemma OddDrift(a: nat, c: nat, x: nat)
    requires a % 4 == 1 && c % 2 == 1
    ensures ((a - 1) * x + c) % 2 == 1
  {
    var k := (a - 1) / 2;
    assert a - 1 == 2 * k;
    Assoc(2, k, x);
  }

  /** n steps return to the start modulo 2^k exactly when 2^k divides n. */
  lemma Returns(a: nat, c: nat, x: nat, n: nat, k: nat)
    requires a % 4 == 1 && c % 2 == 1
    ensures Divides(Pow2(k), Steps(a, c, x, n) - x) <==> Divides(Pow2(k), n)
  {
    var d := (a - 1) * x + c;
    StepsClosed(a, c, x, n);
    OddDrift(a, c, x);
    assert Steps(a, c, x, n) - x == d * Geometric(a, n);
    OddFactor(d, Geometric(a, n), k);
    GeometricValuation(a, n, k);
  }

  /** Every residue modulo 2^k is met within the first 2^k steps. */
  lemma {:induction false} Reaches(a: nat, c: nat, x: nat, y: nat, k: nat) returns (n: nat)
    requires a % 4 == 1 && c % 2 == 1
    ensures n < Pow2(k) && Divides(Pow2(k), Steps(a, c, x, n) - y)
    decreases k
  {
    if k == 0 {
      n := 0;
    } else {
      var p := Pow2(k - 1);
      n := Reaches(a, c, x, y, k - 1);
      var s := Steps(a, c, x, n);
      if !Divides(2 * p, s - y) {
        var t := Steps(a, c, s, p);
        StepsCompose(a, c, x, n, p);
        Returns(a, c, s, p, k - 1);
        Returns(a, c, s, p, k);
        DivUnique(p, p, 1, 0);
        DivUnique(p, 2 * p, 0, p);
        HalfSteps(s - y, t - s, p);
        n := n + p;
      }
    }
  }

  /** Two odd multiples of p add up to a multiple of 2p. */
  lemma HalfSteps(u: int, v: int, p: int)
    requires p > 0 && Divides(p, u) && Divides(p, v) && !Divides(2 * p, u) && !Divides(2 * p, v)
    ensures Divides(2 * p, u + v)
  {
    var i := OddQuotient(p, u);
    var j := OddQuotient(p, v);
    OddMultiples(p, i, j);
  }

  lemma OddQuotient(p: int, u: int) returns (i: int)
    requires p > 0 && Divides(p, u) && !Divides(2 * p, u)
    ensures u == p * i && i % 2 == 1
  {
    i := u / p;
    EvenMultiple(p, i);
  }

  lemma OddMultiples(p: int, i: int, j: int)
    requires p > 0 && i % 2 == 1 && j % 2 == 1
    ensures Divides(2 * p, p * i + p * j)
  {
    EvenMultiple(p, i + j);
    assert p * (i + j) == p * i + p * j;
  }

  lemma EvenMultiple(p: int, i: int)
    requires p > 0
    ensures i % 2 == 0 ==> Divides(2 * p, p * i)
  {
    var h := i / 2;
    assert p * (2 * h) == (2 * p) * h;
    DivUnique((2 * p) * h, 2 * p, h, 0);
  }

  // ---- Modulo 2^64 ----

  /** One step, in 64 bits. */
  function Next(a: nat, c: nat, s: u64): u64 {
    (s * a + c) % TWO_64
  }

  /** The state after n steps. */
  function StateAfter(a: nat, c: nat, s: u64, n: nat): u64 {
    if n == 0 then s else Next(a, c, StateAfter(a, c, s, n - 1))
  }

  lemma Pow2Word()
    ensures Pow2(64) == TWO_64
  {
    assert Pow2(8) == 0x100;
    assert Pow2(16) == 0x1_0000;
    assert Pow2(24) == 0x100_0000;
    assert Pow2(32) == TWO_32;
    assert Pow2(40) == 0x100_0000_0000;
    assert Pow2(48) == 0x1_0000_0000_0000;
    assert Pow2(56) == 0x100_0000_0000_0000;
  }

  lemma NextMod(a: nat, c: nat, w: nat)
    ensures Next(a, c, w % TWO_64) == (a * w + c) % TWO_64
  {
    var q, r := w / TWO_64, w % TWO_64;
    ScaledSplit(a, q, r);
    ModShift(TWO_64, a * q, r * a + c);
  }

  lemma ScaledSplit(a: int, q: int, r: int)
    ensures a * (TWO_64 * q + r) == TWO_64 * (a * q) + r * a
  {
    Assoc(a, TWO_64, q);
    Assoc(TWO_64, a, q);
  }

  lemma {:induction false} StateIsSteps(a: nat, c: nat, s: u64, n: nat)
    ensures StateAfter(a, c, s, n) == Steps(a, c, s, n) % TWO_64
  {
    if n != 0 {
      StateIsSteps(a, c, s, n - 1);
      NextMod(a, c, Steps(a, c, s, n - 1));
    }
  }

  lemma SameResidue(x: int, y: int)
    ensures x % TWO_64 == y % TWO_64 <==> Divides(TWO_64, x - y)
  {
  }

  /** The state recurs after n steps exactly when 2^64 divides n. */
  lemma FullPeriod(a: nat, c: nat, s: u64, i: nat, n: nat)
    requires a % 4 == 1 && c % 2 == 1
    ensures StateAfter(a, c, s, i + n) == StateAfter(a, c, s, i) <==> Divides(TWO_64, n)
  {
    var t := Steps(a, c, s, i);
    StateIsSteps(a, c, s, i);
    StateIsSteps(a, c, s, i + n);
    StepsCompose(a, c, s, i, n);
    Pow2Word();
    Returns(a, c, t, n, 64);
    SameResidue(Steps(a, c, t, n), t);
  }

  lemma FewerThanPeriod(n: nat)
    requires n < TWO_64
    ensures Divides(TWO_64, n) <==> n == 0
  {
  }

  lemma ReachesState(a: nat, c: nat, s: u64, y: u64) returns (n: nat)
    requires a % 4 == 1 && c % 2 == 1
    ensures n < TWO_64 && StateAfter(a, c, s, n) == y
  {
    Pow2Word();
    n := Reaches(a, c, s, y, 64);
    StateIsSteps(a, c, s, n);
    SameResidue(Steps(a, c, s, n), y);
  }

  /** Within 2^64 steps the state takes every 64-bit value, each at one step only. */
  lemma EveryState(a: nat, c: nat, s: u64, y: u64) returns (n: nat)
    requires a % 4 == 1 && c % 2 == 1
    ensures n < TWO_64 && StateAfter(a, c, s, n) == y
    ensures forall k: nat :: k < TWO_64 && StateAfter(a, c, s, k) == y ==> k == n
  {
    n := ReachesState(a, c, s, y);
    forall k: nat | k < TWO_64 && StateAfter(a, c, s, k) == y
      ensures k == n
    {
      OnlyOnce(a, c, s, k, n);
    }
  }

  lemma OnlyOnce(a: nat, c: nat, s: u64, i: nat, j: nat)
    requires a % 4 == 1 && c % 2 == 1 && i < TWO_64 && j < TWO_64
    requires StateAfter(a, c, s, i) == StateAfter(a, c, s, j)
    ensures i == j
  {
    var lo, hi := if i <= j then i else j, if i <= j then j else i;
    FullPeriod(a, c, s, lo, hi - lo);
    FewerThanPeriod(hi - lo);
  }
}
