/** kvsnprintf: the bounded formatter. */
module Format {
  import opened Machine
  import opened Numerals
  import opened Parsing

  const PERCENT: u8 := 37
  const SPACE: u8 := 32
  /** sizeof(temp) */
  const TEMP := 32

  /** What a caller passes: a machine word, or a string without its NUL. */
  datatype Arg = Word(bits: u64) | Str(text: seq<u8>)

  // ---- Directives ----

  datatype Directive = Directive(left: bool, width: nat, longLong: bool, conv: u8, next: nat)

  /** The decimal number at index `p`, continuing `w`, and where it ends. */
  function WidthAt(f: seq<u8>, p: nat, w: nat): (nat, nat)
    decreases |f| - p
  {
    if 48 <= At(f, p) <= 57 then WidthAt(f, p + 1, w * 10 + (f[p] - 48)) else (w, p)
  }

  lemma {:induction false} WidthForward(f: seq<u8>, p: nat, w: nat)
    ensures WidthAt(f, p, w).1 >= p
    decreases |f| - p
  {
    if 48 <= At(f, p) <= 57 {
      WidthForward(f, p + 1, w * 10 + (f[p] - 48));
    }
  }

  /** The directive whose percent sign is in front of index `p`. */
  function DirectiveAt(f: seq<u8>, p: nat): (d: Directive)
    ensures d.next > p
  {
    var left := At(f, p) == 45;
    var q := if left then p + 1 else p;
    WidthForward(f, q, 0);
    var (width, w) := WidthAt(f, q, 0);
    var ll := At(f, w) == 108 && At(f, w + 1) == 108;
    var c := if ll then w + 2 else w;
    Directive(left, width, ll, At(f, c), c + 1)
  }

  predicate TakesWord(conv: u8) {
    conv == 99 || conv == 100 || conv == 117 || conv == 120 || conv == 88
  }

  predicate TakesText(conv: u8) { conv == 115 }

  /** The arguments left after the directive. */
  function Left(d: Directive, args: seq<Arg>): seq<Arg> {
    if (TakesWord(d.conv) || TakesText(d.conv)) && args != [] then args[1..] else args
  }

  /**
   * The format has no dangling percent sign and no width beyond int, and an argument of the right
   * kind for every directive.
   */
  predicate Supplied(f: seq<u8>, p: nat, args: seq<Arg>)
    decreases |f| - p
  {
    if p >= |f| then true
    else if f[p] != PERCENT then f[p] != 0 && Supplied(f, p + 1, args)
    else
      var d := DirectiveAt(f, p + 1);
      && d.conv != 0 && d.next <= |f| && d.width <= INT_MAX
      && (TakesWord(d.conv) ==> args != [] && args[0].Word?)
      && (TakesText(d.conv) ==> args != [] && args[0].Str? && 0 !in args[0].text)
      && Supplied(f, d.next, Left(d, args))
  }

  // ---- The unbounded rendering ----

  function Signed32(bits: u64): int { AsInt(bits) }

  function Signed64(bits: u64): int { Wrap(bits) }

  function SignedText(v: int): seq<u8> {
    if v < 0 then [MINUS] + Text(-v, 10, false) else Text(v, 10, false)
  }

  /** A string is cut to what the 32-byte scratch buffer holds. */
  function Cut31(s: seq<u8>): (t: seq<u8>)
    ensures |s| <= 31 ==> t == s
    ensures |t| <= 31
  {
    if |s| <= TEMP - 1 then s else s[..TEMP - 1]
  }

  /** What a directive makes of its argument, before padding. */
  function Converted(d: Directive, args: seq<Arg>): seq<u8>
    requires TakesWord(d.conv) ==> args != [] && args[0].Word?
    requires TakesText(d.conv) ==> args != [] && args[0].Str?
  {
    if d.conv == 115 then Cut31(args[0].text)
    else if d.conv == 99 then [args[0].bits % 256]
    else if d.conv == 100 then SignedText(if d.longLong then Signed64(args[0].bits) else Signed32(args[0].bits))
    else if d.conv == 117 then Text(if d.longLong then args[0].bits else args[0].bits % TWO_32, 10, false)
    else if d.conv == 120 then Text(args[0].bits % TWO_32, 16, false)
    else if d.conv == 88 then Text(args[0].bits % TWO_32, 16, true)
    else if d.conv == PERCENT then [PERCENT]
    else [PERCENT, d.conv]
  }

  function Spaces(n: int): (s: seq<u8>)
    ensures |s| == if n > 0 then n else 0
  {
    seq(if n > 0 then n else 0, i => SPACE)
  }

  function Padded(d: Directive, s: seq<u8>): seq<u8> {
    if d.left then s + Spaces(d.width - |s|) else Spaces(d.width - |s|) + s
  }

  /** The text the format and its arguments stand for, however long. */
  function Render(f: seq<u8>, p: nat, args: seq<Arg>): seq<u8>
    requires Supplied(f, p, args)
    decreases |f| - p
  {
    if p >= |f| then []
    else if f[p] != PERCENT then [f[p]] + Render(f, p + 1, args)
    else
      var d := DirectiveAt(f, p + 1);
      Padded(d, Converted(d, args)) + Render(f, d.next, Left(d, args))
  }

  // ---- Output below a bound ----

  /** The buffer holds as much of `done` as fits below index `cap`, and `out` is where it ends. */
  ghost predicate Holding(was: seq<u8>, now: seq<u8>, done: seq<u8>, cap: nat, out: int) {
    && cap < |was| == |now| && out == Least(|done|, cap)
    && now[..out] == done[..out] && Same(was, now, out, |was|)
  }

  /** Characters are stored until `s` or the room ends. */
  method Emit(buf: array<u8>, out: nat, end: nat, s: seq<u8>, ghost was: seq<u8>,
      ghost done: seq<u8>) returns (next: nat)
    requires end < buf.Length && Holding(was, buf[..], done, end, out)
    modifies buf
    ensures Holding(was, buf[..], done + s, end, next)
  {
    next := out;
    var i := 0;
    assert done + s[..0] == done;
    while i < |s| && next < end
      invariant 0 <= i <= |s| && 0 <= next <= end
      invariant Holding(was, buf[..], done + s[..i], end, next)
    {
      ghost var w := buf[..];
      buf[next] := s[i];
      HoldMore(was, w, buf[..], done + s[..i], s[i], end, next);
      assert done + s[..i] + [s[i]] == done + s[..i + 1];
      next, i := next + 1, i + 1;
    }
    HoldRest(was, buf[..], done + s[..i], s[i..], end, next);
    assert done + s[..i] + s[i..] == done + s;
  }

  lemma HoldMore(was: seq<u8>, w: seq<u8>, now: seq<u8>, done: seq<u8>, c: u8, cap: nat, out: int)
    requires Holding(was, w, done, cap, out) && out < cap && now == w[out := c]
    ensures Holding(was, now, done + [c], cap, out + 1)
  {
  }

  /** Once the buffer is full, or nothing is left, the rest of the text does not matter. */
  lemma HoldRest(was: seq<u8>, now: seq<u8>, done: seq<u8>, rest: seq<u8>, cap: nat, out: int)
    requires Holding(was, now, done, cap, out) && (rest == [] || out >= cap)
    ensures Holding(was, now, done + rest, cap, out)
  {
    if rest == [] {
      assert done + rest == done;
    }
  }

  // ---- kvsnprintf ----

  /** The flag, the width, the length modifier and the conversion character. */
  method ParseDirective(f: seq<u8>, p0: nat) returns (d: Directive)
    ensures d == DirectiveAt(f, p0)
  {
    var p, left := p0, false;
    if At(f, p) == 45 {
      left := true;
      p := p + 1;
    }
    ghost var start := p;
    var width := 0;
    while 48 <= At(f, p) <= 57
      invariant 0 <= width && WidthAt(f, start, 0) == WidthAt(f, p, width)
      decreases |f| - p
    {
      var digit: int := f[p] - 48;
      width := width * 10 + digit;
      p := p + 1;
    }
    var ll := false;
    if At(f, p) == 108 && At(f, p + 1) == 108 {
      ll := true;
      p := p + 2;
    }
    d := Directive(left, width, ll, At(f, p), p + 1);
  }

  /** The calls of kutoa, with `t` characters already in the scratch buffer. */
  method PutNumber(temp: array<u8>, t: nat, value: u64, base: nat, upper: bool) returns (end: nat)
    requires temp.Length == TEMP && t <= 1 && (base == 10 || (base == 16 && value < TWO_32))
    modifies temp
    ensures end <= TEMP && temp[..end] == old(temp[..t]) + Text(value, base, upper)
  {
    TextFits(value, base, upper, TEMP - 1 - t);
    ghost var was := temp[..];
    end := Kutoa(temp, t, TEMP - 1, value, base, upper);
    PutEnds(was, t, Text(value, base, upper));
  }

  /** The scratch buffer has room for every numeral. */
  lemma TextFits(value: u64, base: nat, upper: bool, room: nat)
    requires (base == 10 || (base == 16 && value < TWO_32)) && room >= TEMP - 2
    ensures |Text(value, base, upper)| <= 20 && Last(Text(value, base, upper), room) == Text(value, base, upper)
  {
    WordDigits(value);
  }

  lemma PutEnds(was: seq<u8>, t: nat, text: seq<u8>)
    requires t + |text| <= |was|
    ensures Put(was, t, text)[..t + |text|] == was[..t] + text
  {
  }

  method PutSigned(temp: array<u8>, val: int) returns (end: nat)
    requires temp.Length == TEMP && LONG_MIN <= val <= LONG_MAX
    modifies temp
    ensures end <= TEMP && temp[..end] == SignedText(val)
  {
    if val < 0 {
      temp[0] := MINUS;
      end := PutNumber(temp, 1, -val, 10, false);
    } else {
      end := PutNumber(temp, 0, val, 10, false);
    }
  }

  /** Copies the string into the scratch buffer, as long as the index stays below its last byte. */
  method PutText(temp: array<u8>, s: seq<u8>) returns (t: nat)
    requires temp.Length == TEMP && 0 !in s
    modifies temp
    ensures t <= TEMP && temp[..t] == Cut31(s)
  {
    t := 0;
    while At(s, t) != 0 && t < TEMP - 1
      invariant t <= |s| && t <= TEMP - 1 && temp[..t] == s[..t]
      decreases TEMP - t
    {
      temp[t] := s[t];
      assert temp[..t + 1] == temp[..t] + [s[t]] && s[..t + 1] == s[..t] + [s[t]];
      t := t + 1;
    }
    if t < |s| {
      assert s[t] in s;
    }
    assert s[..|s|] == s;
  }

  /** The switch over the conversion character, into the scratch buffer. */
  method Fill(temp: array<u8>, d: Directive, args: seq<Arg>) returns (t: nat)
    requires temp.Length == TEMP
    requires TakesWord(d.conv) ==> args != [] && args[0].Word?
    requires TakesText(d.conv) ==> args != [] && args[0].Str? && 0 !in args[0].text
    modifies temp
    ensures t <= TEMP && temp[..t] == Converted(d, args)
  {
    if d.conv == 115 {
      t := PutText(temp, args[0].text);
    } else if d.conv == 99 {
      temp[0] := args[0].bits % 256;
      t := 1;
    } else if d.conv == 100 {
      t := PutSigned(temp, if d.longLong then Signed64(args[0].bits) else Signed32(args[0].bits));
    } else if d.conv == 117 {
      t := PutNumber(temp, 0, if d.longLong then args[0].bits else args[0].bits % TWO_32, 10, false);
    } else if d.conv == 120 {
      t := PutNumber(temp, 0, args[0].bits % TWO_32, 16, false);
    } else if d.conv == 88 {
      t := PutNumber(temp, 0, args[0].bits % TWO_32, 16, true);
    } else if d.conv == PERCENT {
      temp[0] := PERCENT;
      t := 1;
    } else {
      temp[0] := PERCENT;
      temp[1] := d.conv;
      t := 2;
    }
  }

  /** The padding and the converted argument, below the bound. */
  method EmitField(buf: array<u8>, out: nat, end: nat, d: Directive, field: seq<u8>, ghost was: seq<u8>,
      ghost done: seq<u8>)
    returns (next: nat)
    requires end < buf.Length && Holding(was, buf[..], done, end, out)
    modifies buf
    ensures Holding(was, buf[..], done + Padded(d, field), end, next)
  {
    next := out;
    var pad := if d.width > |field| then d.width - |field| else 0;
    ghost var sofar := done;
    if !d.left {
      next := Emit(buf, next, end, Spaces(pad), was, done);
      sofar := done + Spaces(pad);
    }
    next := Emit(buf, next, end, field, was, sofar);
    sofar := sofar + field;
    if d.left {
      next := Emit(buf, next, end, Spaces(pad), was, sofar);
      sofar := sofar + Spaces(pad);
    }
    assert sofar == done + Padded(d, field);
  }

  /** What is done and what the rest of the format stands for are the whole rendering. */
  ghost predicate Rendering(full: seq<u8>, done: seq<u8>, f: seq<u8>, p: nat, args: seq<Arg>) {
    Supplied(f, p, args) && full == done + Render(f, p, args)
  }

  lemma PlainStep(full: seq<u8>, done: seq<u8>, f: seq<u8>, p: nat, args: seq<Arg>)
    requires Rendering(full, done, f, p, args) && p < |f| && f[p] != PERCENT
    ensures Rendering(full, done + [f[p]], f, p + 1, args)
  {
  }

  lemma FieldStep(full: seq<u8>, done: seq<u8>, f: seq<u8>, p: nat, args: seq<Arg>)
    requires Rendering(full, done, f, p, args) && p < |f| && f[p] == PERCENT
    ensures var d := DirectiveAt(f, p + 1);
            && (TakesWord(d.conv) ==> args != [] && args[0].Word?)
            && (TakesText(d.conv) ==> args != [] && args[0].Str? && 0 !in args[0].text)
            && Rendering(full, done + Padded(d, Converted(d, args)), f, d.next, Left(d, args))
  {
  }

  /**
   * kvsnprintf: the buffer gets the first size - 1 characters of the rendering, or all of it,
   * then a NUL, and nothing behind; the result is the number of characters stored.
   */
  method Kvsnprintf(buf: array<u8>, size: nat, f: seq<u8>, args: seq<Arg>) returns (r: int)
    requires 1 <= size <= buf.Length && Supplied(f, 0, args)
    modifies buf
    ensures var full := Render(f, 0, args); var n := Least(|full|, size - 1);
            && buf[..n] == full[..n] && buf[n] == 0 && Same(old(buf[..]), buf[..], n + 1, buf.Length)
            && r == AsInt(n)
  {
    ghost var was, full, done := buf[..], Render(f, 0, args), [];
    var out, end, p, rest := 0, size - 1, 0, args;
    while p < |f| && out < end
      invariant 0 <= out && Rendering(full, done, f, p, rest) && Holding(was, buf[..], done, end, out)
      decreases |f| - p
    {
      if f[p] != PERCENT {
        PlainStep(full, done, f, p, rest);
        ghost var w := buf[..];
        buf[out] := f[p];
        HoldMore(was, w, buf[..], done, f[p], end, out);
        done := done + [f[p]];
        out, p := out + 1, p + 1;
      } else {
        FieldStep(full, done, f, p, rest);
        var d := ParseDirective(f, p + 1);
        out := Field(buf, out, end, d, rest, was, done);
        done := done + Padded(d, Converted(d, rest));
        p, rest := d.next, Left(d, rest);
      }
    }
    HoldRest(was, buf[..], done, Render(f, p, rest), end, out);
    buf[out] := 0;
    r := AsInt(out);
  }

  /** One directive: its argument is converted in a scratch buffer and put out with its padding. */
  method Field(buf: array<u8>, out: nat, end: nat, d: Directive, args: seq<Arg>, ghost was: seq<u8>,
      ghost done: seq<u8>)
    returns (next: nat)
    requires end < buf.Length && Holding(was, buf[..], done, end, out)
    requires TakesWord(d.conv) ==> args != [] && args[0].Word?
    requires TakesText(d.conv) ==> args != [] && args[0].Str? && 0 !in args[0].text
    modifies buf
    ensures Holding(was, buf[..], done + Padded(d, Converted(d, args)), end, next)
  {
    var temp := new u8[TEMP];
    var t := Fill(temp, d, args);
    next := EmitField(buf, out, end, d, temp[..t], was, done);
  }

  // ---- Printing an int and reading it back ----

  /** "%d" */
  const PERCENT_D: seq<u8> := [37, 100]

  lemma IntRendering(bits: u64)
    ensures Supplied(PERCENT_D, 0, [Word(bits)])
    ensures Render(PERCENT_D, 0, [Word(bits)]) == SignedText(AsInt(bits))
  {
    assert DirectiveAt(PERCENT_D, 1) == Directive(false, 0, false, 100, 2);
    var s := SignedText(AsInt(bits));
    assert Padded(Directive(false, 0, false, 100, 2), s) == s;
    assert Render(PERCENT_D, 2, []) == [];
  }

  lemma TextDecimal(v: nat)
    requires v < TWO_32
    ensures Text(v, 10, false) != [] && |Text(v, 10, false)| <= 10
    ensures DecimalOf(Text(v, 10, false)) == Decimal(false, Numeral(v, 10))
    ensures DecimalOf([MINUS] + Text(v, 10, false)) == Decimal(true, Numeral(v, 10))
  {
    WordDigits(v);
    TextRun(v, 10, false);
    var s := Text(v, 10, false);
    assert s[0] == DigitChar(Numeral(v, 10)[0], false);
    ShiftedRun(s, 0, 10);
  }

  lemma {:induction false} ShiftedRun(s: seq<u8>, i: nat, b: nat)
    requires b <= 36 && i <= |s|
    ensures Run([MINUS] + s, i + 1, b) == Run(s, i, b)
    decreases |s| - i
  {
    if i < |s| {
      ShiftedRun(s, i + 1, b);
    }
  }

  lemma IntText(v: int)
    requires INT_MIN <= v <= INT_MAX
    ensures |SignedText(v)| <= 11
    ensures var n := DecimalOf(SignedText(v)); n.digits != [] && Signed(n.negative, Value(n.digits, 10)) == v
  {
    var size: nat := if v < 0 then -v else v;
    TextDecimal(size);
    NumeralValue(size, 10);
  }

  /** When the rendering fits, the buffer holds all of it and the result is its length. */
  method StoreWhole(buf: array<u8>, size: nat, f: seq<u8>, args: seq<Arg>) returns (r: nat)
    requires size <= buf.Length && Supplied(f, 0, args) && |Render(f, 0, args)| < size <= INT_MAX
    modifies buf
    ensures r == |Render(f, 0, args)| && buf[..r] == Render(f, 0, args) && buf[r] == 0
  {
    ghost var full := Render(f, 0, args);
    var n := Kvsnprintf(buf, size, f, args);
    SmallInt(|full|);
    r := n;
    assert full[..r] == full;
  }

  lemma SmallInt(n: nat)
    requires n <= INT_MAX
    ensures AsInt(n) == n
  {
  }

  /** ksnprintf with the format "%d" and the argument `v`. */
  method FormatInt(buf: array<u8>, size: nat, bits: u64) returns (r: nat)
    requires 12 <= size <= buf.Length && size <= INT_MAX
    modifies buf
    ensures r < size && buf[..r] == SignedText(AsInt(bits)) && buf[r] == 0
  {
    IntRendering(bits);
    IntText(AsInt(bits));
    r := StoreWhole(buf, size, PERCENT_D, [Word(bits)]);
  }

  /** katoi gives back every int that "%d" printed into a buffer that holds it. */
  method PrintInt(buf: array<u8>, size: nat, bits: u64) returns (back: int, kerrno: int)
    requires 12 <= size <= buf.Length && size <= INT_MAX
    modifies buf
    ensures back == AsInt(bits) && kerrno == 0
  {
    var r := FormatInt(buf, size, bits);
    IntText(AsInt(bits));
    back, kerrno := Katoi(buf[..r]);
  }
}
