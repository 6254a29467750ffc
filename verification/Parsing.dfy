/** katoi and kstrtol. A C string is the sequence of its characters; behind them lies the NUL. */
module Parsing {
  import opened Machine
  import opened Numerals

  const INT_MIN := -0x8000_0000
  const INT_MAX := 0x7FFF_FFFF
  const LONG_MIN := -0x8000_0000_0000_0000
  const LONG_MAX := 0x7FFF_FFFF_FFFF_FFFF
  const KEINVAL := 22
  const KERANGE := 34
  const MINUS: u8 := 45
  const PLUS: u8 := 43

  function At(s: seq<u8>, i: nat): u8 {
    if i < |s| then s[i] else 0
  }

  /** kisspace */
  predicate IsSpace(c: u8) {
    c == 32 || 9 <= c <= 13
  }

  /** What a character counts as a digit: 0 to 35, and 36 for none. */
  function DigitOf(c: u8): (d: nat)
    ensures d <= 36
  {
    if 48 <= c <= 57 then c - 48 else if 65 <= c <= 90 then c - 55 else if 97 <= c <= 122 then c - 87 else 36
  }

  function SkipSpaces(s: seq<u8>, i: nat): (j: nat)
    ensures i <= j && !IsSpace(At(s, j))
    decreases |s| - i
  {
    if IsSpace(At(s, i)) then SkipSpaces(s, i + 1) else i
  }

  predicate Below(ds: seq<nat>, b: nat) {
    forall i :: 0 <= i < |ds| ==> ds[i] < b
  }

  /** The longest row of digits below `b` from index `i` on. */
  function Run(s: seq<u8>, i: nat, b: nat): (ds: seq<nat>)
    requires b <= 36
    ensures Below(ds, b)
    ensures i <= |s| ==> i + |ds| <= |s|
    decreases |s| - i
  {
    if i < |s| && DigitOf(s[i]) < b then [DigitOf(s[i])] + Run(s, i + 1, b) else []
  }

  lemma ValueSnoc(ds: seq<nat>, b: nat, d: nat)
    ensures Value(ds + [d], b) == Value(ds, b) * b + d
  {
    LastDigit(ds, b, d);
  }

  /** More digits never make a smaller number. */
  lemma {:induction false} ValueGrows(ds: seq<nat>, es: seq<nat>, b: nat)
    requires b >= 1
    ensures Value(ds, b) <= Value(ds + es, b)
    decreases |es|
  {
    if es == [] {
      assert ds + es == ds;
    } else {
      var k := |es| - 1;
      ValueGrows(ds, es[..k], b);
      assert ds + es == (ds + es[..k]) + [es[k]];
      ValueSnoc(ds + es[..k], b, es[k]);
      TimesAtLeast(Value(ds + es[..k], b), b);
    }
  }

  lemma TimesAtLeast(v: nat, b: nat)
    requires b >= 1
    ensures v * b >= v
  {
    MulMonotone(b, 1, 1);
    assert v * b == v + v * (b - 1);
    Nonneg(v, b - 1);
  }

  // ---- katoi ----

  /** The number in front of a string: spaces, a sign, decimal digits. */
  datatype Decimal = Decimal(negative: bool, digits: seq<nat>)

  function DecimalOf(s: seq<u8>): Decimal {
    var i := SkipSpaces(s, 0);
    var signed := At(s, i) == PLUS || At(s, i) == MINUS;
    Decimal(At(s, i) == MINUS, Run(s, if signed then i + 1 else i, 10))
  }

  function Signed(negative: bool, v: int): int { if negative then -v else v }

  function ToInt(v: int): int { if v < INT_MIN then INT_MIN else if v > INT_MAX then INT_MAX else v }

  /**
   * katoi: the decimal value, cut to the range of int, with kerrno telling whether it was cut
   * and whether there was a number at all.
   */
  method Katoi(s: seq<u8>) returns (r: int, kerrno: int)
    ensures var n := DecimalOf(s); var v := Signed(n.negative, Value(n.digits, 10));
            if n.digits == [] then r == 0 && kerrno == KEINVAL
            else r == ToInt(v) && kerrno == if v == ToInt(v) then 0 else KERANGE
  {
    var i := 0;
    while IsSpace(At(s, i))
      invariant SkipSpaces(s, 0) == SkipSpaces(s, i)
      decreases |s| - i
    {
      i := i + 1;
    }
    var sign := 1;
    if At(s, i) == PLUS || At(s, i) == MINUS {
      if At(s, i) == MINUS {
        sign := -1;
      }
      i := i + 1;
    }
    ghost var all := Run(s, i, 10);
    if !(48 <= At(s, i) <= 57) {
      return 0, KEINVAL;
    }
    var result, fits := DecimalDigits(s, i);
    if !fits {
      return if sign == 1 then INT_MAX else INT_MIN, KERANGE;
    }
    result := result * sign;
    if result < INT_MIN || result > INT_MAX {
      return if result > 0 then INT_MAX else INT_MIN, KERANGE;
    }
    return result, 0;
  }

  /** katoi's digit loop; it gives up when the next step would leave the range of long. */
  method DecimalDigits(s: seq<u8>, start: nat) returns (result: int, fits: bool)
    ensures fits <==> Value(Run(s, start, 10), 10) <= LONG_MAX
    ensures fits ==> result == Value(Run(s, start, 10), 10)
  {
    ghost var all, ds: seq<nat> := Run(s, start, 10), [];
    var i := start;
    result := 0;
    while 48 <= At(s, i) <= 57
      invariant Parsed(all, ds, Run(s, i, 10), result)
      decreases |s| - i
    {
      var digit: int := At(s, i) - 48;
      ParsedStep(s, i, all, ds, result, digit);
      if result > (LONG_MAX - digit) / 10 {
        return result, false;
      }
      result := result * 10 + digit;
      ds := ds + [DigitOf(s[i])];
      i := i + 1;
    }
    assert all == ds;
    fits := true;
  }

  /** Of the digits `all`, those before `rest` have been read, to the value `result`. */
  ghost predicate Parsed(all: seq<nat>, ds: seq<nat>, rest: seq<nat>, result: int) {
    all == ds + rest && result == Value(ds, 10) <= LONG_MAX
  }

  lemma ParsedStep(s: seq<u8>, i: nat, all: seq<nat>, ds: seq<nat>, result: int, digit: int)
    requires i < |s| && 48 <= s[i] <= 57 && digit == s[i] - 48 && Parsed(all, ds, Run(s, i, 10), result)
    ensures if result > (LONG_MAX - digit) / 10 then Value(all, 10) > LONG_MAX
            else Parsed(all, ds + [DigitOf(s[i])], Run(s, i + 1, 10), result * 10 + digit)
  {
    var more := ds + [DigitOf(s[i])];
    ValueSnoc(ds, 10, DigitOf(s[i]));
    RunStep(s, i, 10, all, ds);
    Guard(result, digit);
    ValueGrows(more, Run(s, i + 1, 10), 10);
  }

  lemma Guard(v: int, d: int)
    requires v >= 0 && 0 <= d < 10
    ensures v > (LONG_MAX - d) / 10 <==> v * 10 + d > LONG_MAX
  {
  }

  // ---- kstrtol ----

  /** Arithmetic on long, which wraps where the C program overflows. */
  function Wrap(x: int): int {
    (x - LONG_MIN) % TWO_64 + LONG_MIN
  }

  lemma WrapFits(x: int)
    requires LONG_MIN <= x <= LONG_MAX
    ensures Wrap(x) == x
  {
  }

  datatype Acc = Acc(value: int, neg: bool, range: bool)

  datatype Cut = Cut(off: int, lim: int)

  /** cutoff and cutlim; in C the quotient and the remainder of KLONG_MIN are not positive. */
  function CutOf(neg: bool, b: nat): Cut
    requires b >= 2
  {
    if !neg then Cut(LONG_MAX / b, LONG_MAX % b) else
    var q, r := -LONG_MIN / b, -LONG_MIN % b;
    if r > 0 then Cut(-q + 1, b - r) else Cut(-q, 0)
  }

  /** The overflow check and the step for one digit. */
  function Feed(a: Acc, b: nat, cut: Cut, c: nat): Acc {
    if a.neg then
      if a.value < cut.off || (a.value == cut.off && c > cut.lim) then Acc(LONG_MIN, false, true)
      else Acc(Wrap(a.value * b - c), true, a.range)
    else
      if a.value > cut.off || (a.value == cut.off && c > cut.lim) then Acc(LONG_MAX, false, true)
      else Acc(Wrap(a.value * b + c), false, a.range)
  }

  function FeedAll(neg: bool, b: nat, ds: seq<nat>): Acc
    requires b >= 2
    decreases |ds|
  {
    if ds == [] then Acc(0, neg, false)
    else Feed(FeedAll(neg, b, ds[..|ds| - 1]), b, CutOf(neg, b), ds[|ds| - 1])
  }

  /** Below the cut another digit fits, above it it does not. */
  lemma PositiveCut(v: nat, b: nat, c: nat)
    requires b >= 2 && c < b && v <= LONG_MAX
    ensures var cut := CutOf(false, b); v > cut.off || (v == cut.off && c > cut.lim) <==> v * b + c > LONG_MAX
  {
    var q, r := LONG_MAX / b, LONG_MAX % b;
    assert LONG_MAX == b * q + r;
    CutBy(v, b, c, q, r);
  }

  lemma CutBy(v: nat, b: nat, c: nat, q: nat, r: nat)
    requires b >= 1 && c < b && r < b
    ensures v > q || (v == q && c > r) <==> v * b + c > b * q + r
  {
    if v > q {
      MulMonotone(b, v, q + 1);
      assert b * (q + 1) == b * q + b;
    } else if v < q {
      MulMonotone(b, q, v + 1);
      assert b * (v + 1) == b * v + b;
    }
  }

  /** The number with a minus sign down to which kstrtol is right: LONG_MIN raised by twice its remainder. */
  function NegativeLimit(b: nat): nat
    requires 2 <= b <= 36
  {
    -LONG_MIN - 2 * (-LONG_MIN % b)
  }

  lemma NegativeCut(v: int, b: nat, c: nat)
    requires 2 <= b <= 36 && c < b && v >= 0
    ensures var cut := CutOf(true, b); -v < cut.off || (-v == cut.off && c > cut.lim) <==> v * b + c > NegativeLimit(b)
  {
    var q, r := -LONG_MIN / b, -LONG_MIN % b;
    assert -LONG_MIN == b * q + r;
    if r > 0 {
      CutBy(v, b, c, q - 1, b - r);
      assert b * (q - 1) == b * q - b;
    } else {
      CutBy(v, b, c, q, 0);
    }
  }

  /** Without a minus sign kstrtol saturates at LONG_MAX, exactly. */
  lemma {:induction false} PositiveExact(b: nat, ds: seq<nat>)
    requires 2 <= b <= 36 && Below(ds, b)
    ensures var a := FeedAll(false, b, ds);
            !a.neg && a.value == Least(Value(ds, b), LONG_MAX) && (a.range <==> Value(ds, b) > LONG_MAX)
    decreases |ds|
  {
    if ds != [] {
      var front, c := ds[..|ds| - 1], ds[|ds| - 1];
      assert ds == front + [c];
      PositiveExact(b, front);
      ValueSnoc(front, b, c);
      PositiveStep(FeedAll(false, b, front), b, c, Value(front, b));
    }
  }

  lemma PositiveStep(a: Acc, b: nat, c: nat, v: nat)
    requires 2 <= b <= 36 && c < b && !a.neg && a.value == Least(v, LONG_MAX) && (a.range <==> v > LONG_MAX)
    ensures var n := Feed(a, b, CutOf(false, b), c);
            !n.neg && n.value == Least(v * b + c, LONG_MAX) && (n.range <==> v * b + c > LONG_MAX)
  {
    PositiveCut(a.value, b, c);
    if v > LONG_MAX {
      TimesAtLeast(v, b);
      TimesAtLeast(LONG_MAX, b);
      Doubling(b);
    } else if v * b + c <= LONG_MAX {
      Nonneg(v, b);
      WrapFits(v * b + c);
    }
  }

  lemma Doubling(b: nat)
    requires b >= 2
    ensures LONG_MAX * b > LONG_MAX
  {
    MulMonotone(LONG_MAX, b, 2);
  }

  /** After digits of value `v`: exact down to the limit, marked out of range below it. */
  ghost predicate NegativeSoFar(a: Acc, b: nat, v: int)
    requires 2 <= b <= 36
  {
    && (a.range <==> v > NegativeLimit(b))
    && (if a.range then !a.neg else a.neg && a.value == -v)
  }

  /**
   * With a minus sign kstrtol is exact, and kerrno stays as it is, exactly for values down to
   * LONG_MIN + 2 * |LONG_MIN % base|.
   */
  lemma {:induction false} NegativeExact(b: nat, ds: seq<nat>)
    requires 2 <= b <= 36 && Below(ds, b)
    ensures NegativeSoFar(FeedAll(true, b, ds), b, Value(ds, b))
    decreases |ds|
  {
    if ds != [] {
      var front, c := ds[..|ds| - 1], ds[|ds| - 1];
      assert ds == front + [c];
      NegativeExact(b, front);
      ValueSnoc(front, b, c);
      NegativeStep(FeedAll(true, b, front), b, c, Value(front, b));
    }
  }

  lemma NegativeStep(a: Acc, b: nat, c: nat, v: int)
    requires 2 <= b <= 36 && c < b && v >= 0
    requires NegativeSoFar(a, b, v)
    ensures NegativeSoFar(Feed(a, b, CutOf(true, b), c), b, v * b + c)
  {
    if a.range {
      TimesAtLeast(v, b);
    } else {
      NegativeCut(v, b, c);
      Nonneg(v, b);
      Negated(v, b, c);
      if v * b + c <= NegativeLimit(b) {
        WrapFits(-(v * b + c));
      }
    }
  }

  lemma Negated(v: int, b: int, c: int)
    ensures -v * b - c == -(v * b + c)
  {
  }

  // ---- Beyond the limit with a minus sign ----

  /** How many digits are read before the value passes the limit. */
  function Kept(ds: seq<nat>, b: nat): (k: nat)
    requires 2 <= b <= 36
    ensures k <= |ds| && Value(ds[..k], b) <= NegativeLimit(b)
    ensures k < |ds| ==> Value(ds[..k + 1], b) > NegativeLimit(b)
    ensures k == |ds| <==> Value(ds, b) <= NegativeLimit(b)
    decreases |ds|
  {
    assert ds[..|ds|] == ds;
    if Value(ds, b) <= NegativeLimit(b) then |ds| else
    var front := ds[..|ds| - 1];
    var k := Kept(front, b);
    assert front[..k] == ds[..k];
    assert k < |front| ==> front[..k + 1] == ds[..k + 1];
    k
  }

  /** The digits behind the one that passed the limit. */
  function Behind(ds: seq<nat>, b: nat): seq<nat>
    requires 2 <= b <= 36 && Value(ds, b) > NegativeLimit(b)
  {
    ds[Kept(ds, b) + 1..]
  }

  /** With LONG_MIN + w accumulated and the sign forgotten, the overflow check lets digit `c` pass. */
  predicate Passes(cut: Cut, w: nat, c: nat) {
    LONG_MIN + w < cut.off || (LONG_MIN + w == cut.off && c <= cut.lim)
  }

  /** All of the digits `es` pass, as the value of those before them, modulo 2^64, builds up. */
  predicate AllPass(b: nat, cut: Cut, es: seq<nat>)
    decreases |es|
  {
    es == [] || var front, c := es[..|es| - 1], es[|es| - 1];
                AllPass(b, cut, front) && Passes(cut, Value(front, b) % TWO_64, c)
  }

  /** The accumulator after digits `es` that build up above LONG_MIN until one does not pass. */
  function Risen(b: nat, cut: Cut, es: seq<nat>): int {
    if AllPass(b, cut, es) then LONG_MIN + Value(es, b) % TWO_64 else LONG_MAX
  }

  /**
   * What kstrtol makes of the digits `es` behind the one that passed the limit. It has set
   * LONG_MIN and forgotten the sign, but goes on multiplying and comparing with the negative cut.
   */
  function Beyond(b: nat, es: seq<nat>): int
    requires b >= 2
  {
    if b % 2 == 1 then Risen(b, CutOf(true, b), es)
    else if es == [] then LONG_MIN
    else if |es| == 1 then es[0]
    else LONG_MAX
  }

  lemma EvenTimes(b: nat, c: nat)
    requires b % 2 == 0 && c < 36 && b <= 36
    ensures Wrap(LONG_MIN * b + c) == c
  {
    var h := b / 2;
    assert LONG_MIN * b + c - LONG_MIN == TWO_64 * -h + (c - LONG_MIN);
    DivUnique(LONG_MIN * b + c - LONG_MIN, TWO_64, -h, c - LONG_MIN);
  }

  /** An odd base keeps LONG_MIN in place, and the digits build up above it, modulo 2^64. */
  lemma OddTimes(b: nat, v: nat, c: nat)
    requires b % 2 == 1
    ensures Wrap((LONG_MIN + v % TWO_64) * b + c) == LONG_MIN + (v * b + c) % TWO_64
  {
    var h, q, w := b / 2, v / TWO_64, v % TWO_64;
    var x := v * b + c;
    assert v == TWO_64 * q + w;
    assert v * b == TWO_64 * (q * b) + w * b by {
      assert v * b == (TWO_64 * q) * b + w * b;
      assert (TWO_64 * q) * b == TWO_64 * (q * b);
    }
    assert (LONG_MIN + w) * b == LONG_MIN * b + w * b;
    assert LONG_MIN * b == LONG_MIN - TWO_64 * h;
    var y := (LONG_MIN + w) * b + c - LONG_MIN;
    var k := x / TWO_64 - q * b - h;
    assert y == x + TWO_64 * (-(q * b) - h);
    assert y == TWO_64 * k + x % TWO_64 by {
      assert x == TWO_64 * (x / TWO_64) + x % TWO_64;
    }
    DivUnique(y, TWO_64, k, x % TWO_64);
  }

  lemma CutAbove(b: nat)
    requires 2 <= b <= 36
    ensures LONG_MIN < CutOf(true, b).off < 0
  {
    var q := -LONG_MIN / b;
    assert -LONG_MIN == b * q + -LONG_MIN % b;
    MulMonotone(b, q, -LONG_MIN);
    assert q > 1;
  }

  /** Behind the limit: a digit after LONG_MIN in an even base, and after a value above the cut. */
  lemma FeedEven(b: nat, c: nat)
    requires 2 <= b <= 36 && c < b
    ensures b % 2 == 0 ==> Feed(Acc(LONG_MIN, false, true), b, CutOf(true, b), c) == Acc(c, false, true)
    ensures forall v :: v >= 0 ==> Feed(Acc(v, false, true), b, CutOf(true, b), c) == Acc(LONG_MAX, false, true)
  {
    CutAbove(b);
    if b % 2 == 0 {
      EvenTimes(b, c);
    }
  }

  lemma FeedOdd(b: nat, v: nat, c: nat, x: nat)
    requires 2 <= b <= 36 && b % 2 == 1 && x == Append(v, b, c)
    ensures Feed(Acc(LONG_MIN + v % TWO_64, false, true), b, CutOf(true, b), c)
            == Acc(if Passes(CutOf(true, b), v % TWO_64, c) then LONG_MIN + x % TWO_64 else LONG_MAX, false, true)
  {
    OddTimes(b, v, c);
  }

  lemma BeyondStep(a: Acc, b: nat, es: seq<nat>, c: nat)
    requires 2 <= b <= 36 && c < b && Below(es, b) && a == Acc(Beyond(b, es), false, true)
    ensures Feed(a, b, CutOf(true, b), c) == Acc(Beyond(b, es + [c]), false, true)
  {
    FeedEven(b, c);
    if b % 2 == 0 {
      BeyondEven(b, es, c);
    } else {
      LastDigit(es, b, c);
      FeedOdd(b, Value(es, b), c, Value(es + [c], b));
      RisenStep(b, CutOf(true, b), es, c);
    }
  }

  lemma BeyondEven(b: nat, es: seq<nat>, c: nat)
    requires 2 <= b && b % 2 == 0 && Below(es, b)
    ensures Beyond(b, es + [c]) == if es == [] then c else LONG_MAX
    ensures es == [] || Beyond(b, es) >= 0
  {
  }

  lemma RisenStep(b: nat, cut: Cut, es: seq<nat>, c: nat)
    ensures Risen(b, cut, es + [c]) == if AllPass(b, cut, es) && Passes(cut, Value(es, b) % TWO_64, c)
                                       then LONG_MIN + Value(es + [c], b) % TWO_64 else LONG_MAX
  {
    var fs := es + [c];
    assert fs[..|fs| - 1] == es && fs[|fs| - 1] == c;
  }

  lemma BeyondMore(b: nat, ds: seq<nat>, es: seq<nat>, c: nat)
    requires 2 <= b <= 36 && c < b && Below(es, b) && FeedAll(true, b, ds) == Acc(Beyond(b, es), false, true)
    ensures FeedAll(true, b, ds + [c]) == Acc(Beyond(b, es + [c]), false, true)
  {
    FeedMore(true, b, ds, c);
    BeyondStep(FeedAll(true, b, ds), b, es, c);
  }

  /** Once the accumulator is LONG_MIN with the sign forgotten, the digits `es` take it to Beyond. */
  lemma {:induction false} BeyondAll(b: nat, ds: seq<nat>, es: seq<nat>)
    requires 2 <= b <= 36 && Below(es, b) && FeedAll(true, b, ds) == Acc(LONG_MIN, false, true)
    ensures FeedAll(true, b, ds + es) == Acc(Beyond(b, es), false, true)
    decreases |es|
  {
    if es == [] {
      assert ds + es == ds;
    } else {
      var fs, c := es[..|es| - 1], es[|es| - 1];
      BeyondAll(b, ds, fs);
      BeyondMore(b, ds + fs, fs, c);
      LastApart(ds, es, fs, c);
    }
  }

  lemma LastApart(ds: seq<nat>, es: seq<nat>, fs: seq<nat>, c: nat)
    requires es != [] && fs == es[..|es| - 1] && c == es[|es| - 1]
    ensures es == fs + [c] && ds + es == (ds + fs) + [c]
  {
  }

  /**
   * With a minus sign and a value beyond the limit: LONG_MIN if the digit that passes it is the
   * last one. Behind it, in even bases a single digit is returned instead and more give LONG_MAX;
   * in odd bases the digits build up above LONG_MIN, until one does not pass and LONG_MAX stays.
   */
  lemma PastLongMin(b: nat, ds: seq<nat>)
    requires 2 <= b <= 36 && Below(ds, b) && Value(ds, b) > NegativeLimit(b)
    ensures FeedAll(true, b, ds).value == Beyond(b, Behind(ds, b))
  {
    var k := Kept(ds, b);
    var front, es := ds[..k + 1], ds[k + 1..];
    assert ds == front + es && front[..k] == ds[..k];
    NegativeExact(b, ds[..k]);
    NegativeExact(b, front);
    BeyondAll(b, front, es);
  }

  /** The value section 7.22.1.4 of C11 asks of strtol for a number with a minus sign. */
  function Standard(v: int): int { if -v < LONG_MIN then LONG_MIN else -v }

  /** Another digit takes a value beyond the limit to LONG_MIN or below. */
  lemma {:induction false} FarBelow(b: nat, ds: seq<nat>)
    requires 2 <= b <= 36 && Value(ds, b) > NegativeLimit(b) && Behind(ds, b) != []
    ensures Value(ds, b) > -LONG_MIN
  {
    var k := Kept(ds, b);
    var front, c := ds[..k + 1], ds[k + 1];
    assert ds[..k + 2] == front + [c] && ds == ds[..k + 2] + ds[k + 2..];
    ValueSnoc(front, b, c);
    ValueGrows(ds[..k + 2], ds[k + 2..], b);
    MulMonotone(Value(front, b), b, 2);
  }

  lemma PrefixGrows(ds: seq<nat>, i: nat, j: nat, b: nat)
    requires b >= 1 && i <= j <= |ds|
    ensures Value(ds[..i], b) <= Value(ds[..j], b)
  {
    assert ds[..j] == ds[..i] + ds[i..j];
    ValueGrows(ds[..i], ds[i..j], b);
  }

  /** Digits that keep the value within the limit are among those kept. */
  lemma LastKept(b: nat, ds: seq<nat>, n: nat)
    requires 2 <= b <= 36 && n <= |ds| && Value(ds[..n], b) <= NegativeLimit(b)
    ensures Kept(ds, b) >= n
  {
    if Kept(ds, b) < n {
      PrefixGrows(ds, Kept(ds, b) + 1, n, b);
    }
  }

  /** No digit but the last passes the limit exactly when the value without the last is within it. */
  lemma LastPasses(b: nat, ds: seq<nat>)
    requires 2 <= b <= 36 && Value(ds, b) > NegativeLimit(b)
    ensures ds != []
    ensures Behind(ds, b) == [] <==> Value(ds[..|ds| - 1], b) <= NegativeLimit(b)
  {
    var n := |ds| - 1;
    if Value(ds[..n], b) <= NegativeLimit(b) {
      LastKept(b, ds, n);
    }
  }

  /**
   * In even bases a number with a minus sign is read as the standard asks exactly when it is
   * within the limit, or when it is below LONG_MIN's negative and its last digit passes the limit.
   */
  lemma EvenStandard(b: nat, ds: seq<nat>)
    requires 2 <= b <= 36 && b % 2 == 0 && Below(ds, b)
    ensures FeedAll(true, b, ds).value == Standard(Value(ds, b)) <==>
            || Value(ds, b) <= NegativeLimit(b)
            || (Value(ds, b) >= -LONG_MIN && Value(ds[..|ds| - 1], b) <= NegativeLimit(b))
  {
    NegativeExact(b, ds);
    if Value(ds, b) > NegativeLimit(b) {
      PastLongMin(b, ds);
      LastPasses(b, ds);
      if Behind(ds, b) != [] {
        FarBelow(b, ds);
      }
    }
  }

  /**
   * In odd bases exactly when it is within the limit, or when it is LONG_MIN or below and the
   * digits behind the limit, if any, all pass and are a multiple of 2^64, as zeros are.
   */
  lemma OddStandard(b: nat, ds: seq<nat>)
    requires 2 <= b <= 36 && b % 2 == 1 && Below(ds, b)
    ensures FeedAll(true, b, ds).value == Standard(Value(ds, b)) <==>
            || Value(ds, b) <= NegativeLimit(b)
            || (var es := Behind(ds, b);
                Value(ds, b) >= -LONG_MIN && AllPass(b, CutOf(true, b), es) && Value(es, b) % TWO_64 == 0)
  {
    NegativeExact(b, ds);
    if Value(ds, b) > NegativeLimit(b) {
      PastLongMin(b, ds);
      if Behind(ds, b) != [] {
        FarBelow(b, ds);
      }
    }
  }

  function Nines(n: nat): (ds: seq<nat>)
    ensures |ds| == n && Below(ds, 10)
  {
    seq(n, _ => 9)
  }

  lemma {:induction false} NinesValue(n: nat)
    ensures Value(Nines(n), 10) == Power(10, n) - 1
  {
    if n > 0 {
      NinesValue(n - 1);
      assert Nines(n) == Nines(n - 1) + [9];
      ValueSnoc(Nines(n - 1), 10, 9);
    }
  }

  lemma BigPowers()
    ensures Power(10, 18) == 100_0000_0000_0000_0000 && Power(10, 21) == 10_0000_0000_0000_0000_0000
  {
    assert Power(10, 4) == 1_0000 && Power(10, 8) == 1_0000_0000;
    assert Power(10, 12) == 1_0000_0000_0000 && Power(10, 16) == 1_0000_0000_0000_0000;
  }

  /** Minus 10^21 - 1, twenty-one nines, is read as LONG_MAX. */
  lemma NinesGoPositive()
    ensures FeedAll(true, 10, Nines(21)).value == LONG_MAX
  {
    var ds := Nines(21);
    NinesValue(18);
    NinesValue(21);
    assert ds[..18] == Nines(18);
    BigPowers();
    PastLongMin(10, ds);
    LastKept(10, ds, 18);
  }

  // ---- The whole of kstrtol ----

  /** What precedes the digits: the sign, the base, and where the digits begin. */
  datatype Intro = Intro(neg: bool, base: nat, start: nat)

  predicate HexMark(s: seq<u8>, i: nat) {
    At(s, i) == 48 && (At(s, i + 1) == 120 || At(s, i + 1) == 88)
  }

  function IntroOf(s: seq<u8>, base: nat): (t: Intro)
    requires base == 0 || 2 <= base <= 36
    ensures 2 <= t.base <= 36 && t.start <= |s|
  {
    SpacesInside(s, 0);
    var i := SkipSpaces(s, 0);
    var j := if At(s, i) == MINUS || At(s, i) == PLUS then i + 1 else i;
    var neg := At(s, i) == MINUS;
    if base == 0 then
      if HexMark(s, j) then Intro(neg, 16, j + 2)
      else if At(s, j) == 48 then Intro(neg, 8, j + 1)
      else Intro(neg, 10, j)
    else if base == 16 && HexMark(s, j) then Intro(neg, 16, j + 2)
    else Intro(neg, base, j)
  }

  lemma {:induction false} SpacesInside(s: seq<u8>, i: nat)
    requires i <= |s|
    ensures SkipSpaces(s, i) <= |s|
    decreases |s| - i
  {
    if IsSpace(At(s, i)) {
      SpacesInside(s, i + 1);
    }
  }

  /** The result of the digits `ds` behind a sign: the value, and whether it was out of range. */
  ghost predicate Converts(neg: bool, b: nat, ds: seq<nat>, acc: int, range: bool)
    requires 2 <= b <= 36
  {
    var v: int := Value(ds, b);
    if neg then
      && (range <==> v > NegativeLimit(b))
      && acc == if v > NegativeLimit(b) then Beyond(b, Behind(ds, b)) else -v
    else acc == Least(v, LONG_MAX) && (range <==> v > LONG_MAX)
  }

  /**
   * kstrtol. The digits after the sign and the base mark count, the end pointer stands behind
   * them, and the value is theirs: cut at LONG_MAX without a minus sign; with one, exact and
   * without an error just down to LONG_MIN + 2 * |LONG_MIN % base|, and below that what Beyond
   * says of the digits behind the one that passed the limit.
   */
  method Kstrtol(s: seq<u8>, base0: nat) returns (acc: int, end: nat, range: bool)
    requires base0 == 0 || 2 <= base0 <= 36
    ensures var t := IntroOf(s, base0); var ds := Run(s, t.start, t.base);
            end == t.start + |ds| && Converts(t.neg, t.base, ds, acc, range)
  {
    var neg, base, i := Introduce(s, base0);
    acc, end, range := Convert(s, i, neg, base);
  }

  /** kstrtol up to the first digit. */
  method Introduce(s: seq<u8>, base0: nat) returns (neg: bool, base: nat, i: nat)
    requires base0 == 0 || 2 <= base0 <= 36
    ensures Intro(neg, base, i) == IntroOf(s, base0)
  {
    i := 0;
    while IsSpace(At(s, i))
      invariant i <= |s| && SkipSpaces(s, 0) == SkipSpaces(s, i)
      decreases |s| - i
    {
      i := i + 1;
    }
    neg, base := false, base0;
    if At(s, i) == MINUS {
      neg := true;
      i := i + 1;
    } else if At(s, i) == PLUS {
      i := i + 1;
    }
    if base == 0 {
      if At(s, i) == 48 {
        if At(s, i + 1) == 120 || At(s, i + 1) == 88 {
          base := 16;
          i := i + 2;
        } else {
          base := 8;
          i := i + 1;
        }
      } else {
        base := 10;
      }
    } else if base == 16 {
      if At(s, i) == 48 && (At(s, i + 1) == 120 || At(s, i + 1) == 88) {
        i := i + 2;
      }
    }
  }

  /** The cut and the digit loop of kstrtol. */
  method Convert(s: seq<u8>, start: nat, negative: bool, base: nat) returns (acc: int, i: nat, range: bool)
    requires 2 <= base <= 36 && start <= |s|
    ensures var ds := Run(s, start, base);
            i == start + |ds| && Converts(negative, base, ds, acc, range)
  {
    var cutoff := if negative then LONG_MIN else LONG_MAX;
    var cutlim := if negative then -(-LONG_MIN % base) else LONG_MAX % base;
    cutoff := if negative then -(-LONG_MIN / base) else LONG_MAX / base;
    if cutlim < 0 {
      cutlim := cutlim + base;
      cutoff := cutoff + 1;
    }
    assert CutOf(negative, base) == Cut(cutoff, cutlim);
    ghost var all := Run(s, start, base);
    acc, i, range := DigitLoop(s, start, negative, base, cutoff, cutlim);
    if negative {
      NegativeExact(base, all);
      if range {
        PastLongMin(base, all);
      }
    } else {
      PositiveExact(base, all);
    }
  }

  method DigitLoop(s: seq<u8>, start: nat, negative: bool, base: nat, cutoff: int, cutlim: int)
    returns (acc: int, i: nat, range: bool)
    requires 2 <= base <= 36 && start <= |s| && CutOf(negative, base) == Cut(cutoff, cutlim)
    ensures var ds := Run(s, start, base);
            && i == start + |ds|
            && acc == FeedAll(negative, base, ds).value && range == FeedAll(negative, base, ds).range
  {
    ghost var all := Run(s, start, base);
    ghost var ds: seq<nat> := [];
    var neg := negative;
    acc, i, range := 0, start, false;
    while i < |s| && DigitOf(s[i]) < base
      invariant start <= i <= |s| && i == start + |ds|
      invariant all == ds + Run(s, i, base)
      invariant FeedAll(negative, base, ds) == Acc(acc, neg, range)
      decreases |s| - i
    {
      var c := DigitOf(s[i]);
      FeedMore(negative, base, ds, c);
      RunStep(s, i, base, all, ds);
      if neg {
        if acc < cutoff || (acc == cutoff && c > cutlim) {
          acc, range, neg := LONG_MIN, true, false;
        } else {
          acc := Wrap(acc * base - c);
        }
      } else {
        if acc > cutoff || (acc == cutoff && c > cutlim) {
          acc, range, neg := LONG_MAX, true, false;
        } else {
          acc := Wrap(acc * base + c);
        }
      }
      ds := ds + [c];
      i := i + 1;
    }
    assert all == ds;
  }

  lemma FeedMore(neg: bool, b: nat, ds: seq<nat>, c: nat)
    requires b >= 2
    ensures FeedAll(neg, b, ds + [c]) == Feed(FeedAll(neg, b, ds), b, CutOf(neg, b), c)
  {
    assert (ds + [c])[..|ds|] == ds;
  }

  lemma RunStep(s: seq<u8>, i: nat, b: nat, all: seq<nat>, ds: seq<nat>)
    requires b <= 36 && i < |s| && DigitOf(s[i]) < b && all == ds + Run(s, i, b)
    ensures all == (ds + [DigitOf(s[i])]) + Run(s, i + 1, b)
  {
  }

  // ---- Printing and parsing ----

  /** Reading back what kutoa wrote gives the number, and all of the text is used up. */
  lemma TextRun(v: nat, b: nat, upper: bool)
    requires 2 <= b <= 16
    ensures Run(Text(v, b, upper), 0, b) == Numeral(v, b)
    ensures IntroOf(Text(v, b, upper), b) == Intro(false, b, 0)
  {
    CharsRun(Numeral(v, b), b, upper, 0);
    var s := Text(v, b, upper);
    assert s[0] == DigitChar(Numeral(v, b)[0], upper);
    assert |s| > 1 ==> s[1] == DigitChar(Numeral(v, b)[1], upper);
  }

  lemma {:induction false} CharsRun(ds: seq<nat>, b: nat, upper: bool, i: nat)
    requires 2 <= b <= 16 && i <= |ds| && forall d :: d in ds ==> d < b
    ensures Run(Chars(ds, upper), i, b) == ds[i..]
    decreases |ds| - i
  {
    if i < |ds| {
      assert ds[i] in ds;
      CharsRun(ds, b, upper, i + 1);
    }
  }

  /** kstrtol(kutoa(v, b), b) == v for every base and every number a long can hold. */
  method PrintAndParse(mem: array<u8>, v: u64, b: nat, upper: bool) returns (acc: int, end: nat, range: bool,
      text: seq<u8>)
    requires 2 <= b <= 16 && v <= LONG_MAX && mem.Length >= |Text(v, b, upper)|
    modifies mem
    ensures text == Text(v, b, upper) && acc == v && end == |text| && !range
  {
    var rev := Kutoa(mem, 0, mem.Length, v, b, upper);
    text := mem[..rev];
    TextRun(v, b, upper);
    NumeralValue(v, b);
    acc, end, range := Kstrtol(text, b);
  }

  /**
   * Of the numbers a long can hold, kstrtol refuses with a minus sign those beyond its limit:
   * in base ten the sixteen lowest.
   */
  lemma Refused(v: nat, b: nat)
    requires 2 <= b <= 36 && v <= -LONG_MIN
    ensures FeedAll(true, b, Digits(v, b)).range <==> v > NegativeLimit(b)
    ensures NegativeLimit(10) == -LONG_MIN - 16
  {
    ValueOfDigits(v, b);
    DigitsAreBelow(v, b);
    NegativeExact(b, Digits(v, b));
    LimitTen();
  }

  lemma DigitsAreBelow(v: nat, b: nat)
    requires b >= 2
    ensures Below(Digits(v, b), b)
  {
    DigitsBelow(v, b);
    assert forall i :: 0 <= i < |Digits(v, b)| ==> Digits(v, b)[i] in Digits(v, b);
  }

  lemma LimitTen()
    ensures NegativeLimit(10) == -LONG_MIN - 16
  {
  }
}
