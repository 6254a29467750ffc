/** kutoa, and what a row of digits means. */
module Numerals {
  import opened Machine

  // ---- Digits and values ----

  /** The digits of a positive number, most significant first; none for 0. */
  function Digits(v: nat, b: nat): seq<nat>
    requires b >= 2
    decreases v
  {
    if v == 0 then [] else Digits(v / b, b) + [v % b]
  }

  /** The number a row of digits stands for. */
  function Value(ds: seq<nat>, b: nat): nat
    decreases |ds|
  {
    if ds == [] then 0 else Append(Value(ds[..|ds| - 1], b), b, ds[|ds| - 1])
  }

  function Append(v: nat, b: nat, d: nat): (w: nat)
    ensures w == v * b + d
  {
    Nonneg(v, b);
    v * b + d
  }

  /** Digits and value are inverse to each other. */
  lemma {:induction false} ValueOfDigits(v: nat, b: nat)
    requires b >= 2
    ensures Value(Digits(v, b), b) == v
    decreases v
  {
    if v != 0 {
      ValueOfDigits(v / b, b);
      LastDigit(Digits(v / b, b), b, v % b);
      DivBack(v, b);
    }
  }

  lemma LastDigit(ds: seq<nat>, b: nat, d: nat)
    ensures Value(ds + [d], b) == Append(Value(ds, b), b, d)
  {
    assert (ds + [d])[..|ds|] == ds;
  }

  lemma DivBack(v: nat, b: nat)
    requires b > 0
    ensures v / b * b + v % b == v
  {
  }

  lemma {:induction false} DigitsBelow(v: nat, b: nat)
    requires b >= 2
    ensures forall d :: d in Digits(v, b) ==> d < b
    decreases v
  {
    if v != 0 {
      DigitsBelow(v / b, b);
    }
  }

  function Power(b: nat, n: nat): nat {
    if n == 0 then 1 else Append(Power(b, n - 1), b, 0)
  }

  lemma {:induction false} DigitCount(v: nat, b: nat, n: nat)
    requires b >= 2 && v < Power(b, n)
    ensures |Digits(v, b)| <= n
    decreases n
  {
    if v != 0 && n != 0 {
      Quotient(v, b, Power(b, n - 1));
      DigitCount(v / b, b, n - 1);
    }
  }

  lemma Quotient(v: nat, b: nat, p: nat)
    requires b > 0 && v < p * b
    ensures v / b < p
  {
    assert v == b * (v / b) + v % b;
    MulMonotone(b, v / b, p);
  }

  /** A 64-bit number has at most 20 decimal digits; a 32-bit one at most 10, or 8 hexadecimal ones. */
  lemma WordDigits(v: u64)
    ensures |Digits(v, 10)| <= 20
    ensures v < TWO_32 ==> |Digits(v, 10)| <= 10 && |Digits(v, 16)| <= 8
  {
    TenPowers();
    DigitCount(v, 10, 20);
    if v < TWO_32 {
      DigitCount(v, 10, 10);
      DigitCount(v, 16, 8);
    }
  }

  lemma TenPowers()
    ensures Power(10, 10) > TWO_32 && Power(10, 20) > TWO_64 && Power(16, 8) == TWO_32
  {
    assert Power(10, 4) == 10000 && Power(10, 8) == 1_0000_0000;
    assert Power(10, 12) == 1_0000_0000_0000 && Power(10, 16) == 1_0000_0000_0000_0000;
    assert Power(16, 4) == 0x1_0000;
  }

  // ---- Characters ----

  /** kdigits_lower[d] or kdigits_upper[d] */
  function DigitChar(d: nat, upper: bool): u8 {
    if d < 10 then 48 + d else if d >= 16 then 0 else if upper then 55 + d else 87 + d
  }

  /** What a conversion writes: a zero has one digit, too. */
  function Numeral(v: nat, b: nat): (ds: seq<nat>)
    requires 2 <= b
    ensures ds != [] && forall d :: d in ds ==> d < b
  {
    DigitsBelow(v, b);
    if v == 0 then [0] else Digits(v, b)
  }

  lemma NumeralValue(v: nat, b: nat)
    requires 2 <= b
    ensures Value(Numeral(v, b), b) == v
  {
    ValueOfDigits(v, b);
    assert [0][..0] == [];
  }

  function Chars(ds: seq<nat>, upper: bool): (s: seq<u8>)
    ensures |s| == |ds| && forall i :: 0 <= i < |s| ==> s[i] == DigitChar(ds[i], upper)
  {
    seq(|ds|, i requires 0 <= i < |ds| => DigitChar(ds[i], upper))
  }

  function Text(v: nat, b: nat, upper: bool): seq<u8>
    requires 2 <= b <= 16
  {
    Chars(Numeral(v, b), upper)
  }

  // ---- kutoa ----

  function Reversed<T>(s: seq<T>): (r: seq<T>)
    ensures |r| == |s| && forall i :: 0 <= i < |s| ==> r[i] == s[|s| - 1 - i]
  {
    seq(|s|, i requires 0 <= i < |s| => s[|s| - 1 - i])
  }

  /** The in-place swaps at the end of kutoa. */
  method ReverseInPlace(mem: array<u8>, lo: nat, hi: nat)
    requires lo <= hi <= mem.Length
    modifies mem
    ensures mem[..] == Put(old(mem[..]), lo, Reversed(old(mem[lo..hi])))
  {
    ghost var was, i := mem[..], 0;
    var p1, p2 := lo, hi - 1;
    while p1 < p2
      invariant 0 <= i && p1 == lo + i && p2 == hi - 1 - i && p1 <= p2 + 1
      invariant forall k :: 0 <= k < mem.Length ==> mem[k] == Flipped(was, lo, hi, i, k)
      decreases p2 - p1
    {
      mem[p1], mem[p2] := mem[p2], mem[p1];
      p1, p2 := p1 + 1, p2 - 1;
      i := i + 1;
    }
    FlippedAll(was, lo, hi, i, mem[..]);
  }

  /** Byte `k` after the outermost `i` pairs between `lo` and `hi` were swapped. */
  function Flipped(was: seq<u8>, lo: nat, hi: nat, i: nat, k: nat): u8
    requires lo <= hi <= |was| && k < |was|
  {
    if (lo <= k < lo + i && k < hi) || (hi - i <= k < hi && lo <= k) then was[lo + hi - 1 - k] else was[k]
  }

  lemma FlippedAll(was: seq<u8>, lo: nat, hi: nat, i: nat, now: seq<u8>)
    requires lo <= hi <= |was| == |now| && lo + i >= hi - 1 - i && lo + i <= hi - i
    requires forall k :: 0 <= k < |was| ==> now[k] == Flipped(was, lo, hi, i, k)
    ensures now == Put(was, lo, Reversed(was[lo..hi]))
  {
    var s, w := Reversed(was[lo..hi]), Put(was, lo, Reversed(was[lo..hi]));
    forall k | 0 <= k < |was|
      ensures now[k] == w[k]
    {
      if lo <= k < hi {
        assert w[k] == s[k - lo] == was[lo + hi - 1 - k];
      }
    }
  }

  /** The text that fits into `room` characters: all of it, or its last digits. */
  function Last(s: seq<u8>, room: int): (r: seq<u8>)
    ensures |s| <= room ==> r == s
  {
    if |s| <= room then s else if room <= 0 then [] else s[|s| - room..]
  }

  /** The digit loop of kutoa: least significant digit first, until the number or the room is used up. */
  method LowDigits(mem: array<u8>, buf: nat, end: nat, v: u64, b: int, upper: bool)
    returns (rev: nat, ghost low: seq<nat>, ghost left: nat)
    requires buf <= mem.Length && end <= mem.Length && 2 <= b <= 16
    modifies mem
    ensures rev == buf + |low| <= mem.Length && mem[..] == Put(old(mem[..]), buf, Chars(low, upper))
    ensures Digits(v, b) == Digits(left, b) + Reversed(low)
    ensures left == 0 || rev >= end
    ensures low == [] || rev <= end
  {
    ghost var was := mem[..];
    var value: nat := v;
    rev, low := buf, [];
    assert Written(was, mem[..], buf, [], upper) && Pending(v, b, v, []);
    while value != 0 && rev < end
      invariant rev == buf + |low| <= mem.Length && (low == [] || rev <= end)
      invariant Written(was, mem[..], buf, low, upper) && Pending(v, b, value, low)
      decreases value
    {
      ghost var w := mem[..];
      var digit, rest := Step(value, b);
      mem[rev] := DigitChar(digit, upper);
      LowStep(was, w, mem[..], buf, low, digit, upper);
      DigitStep(v, value, b, low);
      low := low + [digit];
      value := rest;
      rev := rev + 1;
    }
    left := value;
  }

  /** `value % base` and `value / base` */
  method Step(value: nat, b: nat) returns (digit: nat, rest: nat)
    requires b >= 2 && value > 0
    ensures digit == value % b && rest == value / b < value
  {
    digit, rest := value % b, value / b;
  }

  /** The digits `low` stand from index `buf` on, and nothing else changed. */
  ghost predicate Written(was: seq<u8>, now: seq<u8>, buf: nat, low: seq<nat>, upper: bool) {
    buf + |low| <= |was| && now == Put(was, buf, Chars(low, upper))
  }

  /** `value` holds the digits of `v` that `low` does not. */
  ghost predicate Pending(v: nat, b: nat, value: nat, low: seq<nat>) {
    b >= 2 && Digits(v, b) == Digits(value, b) + Reversed(low)
  }

  lemma LowStep(was: seq<u8>, w: seq<u8>, now: seq<u8>, buf: nat, low: seq<nat>, d: nat, upper: bool)
    requires Written(was, w, buf, low, upper) && buf + |low| < |was| && now == w[buf + |low| := DigitChar(d, upper)]
    ensures Written(was, now, buf, low + [d], upper)
  {
    assert Chars(low + [d], upper) == Chars(low, upper) + [DigitChar(d, upper)];
  }

  lemma DigitStep(v: nat, value: nat, b: nat, low: seq<nat>)
    requires b >= 2 && value != 0 && Pending(v, b, value, low)
    ensures Pending(v, b, value / b, low + [value % b])
  {
    assert Reversed(low + [value % b]) == [value % b] + Reversed(low);
  }

  /** What was written, reversed, is the text or as much of its end as there was room for. */
  lemma ReversedText(v: nat, b: nat, upper: bool, low: seq<nat>, left: nat, room: int)
    requires 2 <= b <= 16 && v != 0
    requires Digits(v, b) == Digits(left, b) + Reversed(low)
    requires (left == 0 || |low| >= room) && (low == [] || |low| <= room)
    ensures Reversed(Chars(low, upper)) == Last(Text(v, b, upper), room)
  {
    var all, part := Text(v, b, upper), Reversed(Chars(low, upper));
    assert |all| == |Digits(left, b)| + |low|;
    assert all[|Digits(left, b)|..] == part;
  }

  /**
   * kutoa writes the numeral from index `buf` on, without a NUL, and returns where it ends. If
   * it does not fit below `end`, only its least significant digits are written.
   */
  method Kutoa(mem: array<u8>, buf: nat, end: nat, value: u64, base: int, upper: bool) returns (rev: nat)
    requires buf <= mem.Length && end <= mem.Length && base <= 16
    modifies mem
    ensures base <= 1 ==> rev == buf && mem[..] == if buf < end then old(mem[..])[buf := 0] else old(mem[..])
    ensures base >= 2 ==>
              var text := Last(Text(value, base, upper), end - buf);
              rev == buf + |text| <= mem.Length && mem[..] == Put(old(mem[..]), buf, text)
  {
    rev := buf;
    if base <= 1 {
      if buf < end {
        mem[buf] := 0;
      }
      return;
    }
    if value == 0 {
      ZeroText(base, upper);
      if buf < end {
        mem[buf] := 48;
        rev := buf + 1;
      }
      return;
    }
    rev := PositiveText(mem, buf, end, value, base, upper);
  }

  lemma ZeroText(base: nat, upper: bool)
    requires 2 <= base <= 16
    ensures Text(0, base, upper) == [48]
  {
  }

  /** kutoa's digit loop and the reversal, on a positive number. */
  method PositiveText(mem: array<u8>, buf: nat, end: nat, value: u64, base: int, upper: bool) returns (rev: nat)
    requires buf <= mem.Length && end <= mem.Length && 2 <= base <= 16 && value != 0
    modifies mem
    ensures var text := Last(Text(value, base, upper), end - buf);
            rev == buf + |text| <= mem.Length && mem[..] == Put(old(mem[..]), buf, text)
  {
    ghost var was, low, left := mem[..], [], 0;
    rev, low, left := LowDigits(mem, buf, end, value, base, upper);
    ghost var w := mem[..];
    ReversedText(value, base, upper, low, left, end - buf);
    assert w[buf..rev] == Chars(low, upper);
    ReverseInPlace(mem, buf, rev);
    PutTwice(was, w, buf, Chars(low, upper), Reversed(Chars(low, upper)));
  }

  lemma PutTwice(m: seq<u8>, w: seq<u8>, i: nat, s: seq<u8>, t: seq<u8>)
    requires i + |s| <= |m| && |t| == |s| && w == Put(m, i, s)
    ensures Put(w, i, t) == Put(m, i, t)
  {
  }
}
