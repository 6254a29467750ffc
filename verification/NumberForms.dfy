/** The forms of numbers kstrtol and katoi accept: white space, signs, base marks and digits. */
module NumberForms {
  import opened Machine
  import opened Numerals
  import opened Parsing

  // ---- One more character in front ----

  lemma {:induction false} SpacesBehind(c: u8, s: seq<u8>, i: nat)
    ensures SkipSpaces([c] + s, i + 1) == SkipSpaces(s, i) + 1
    decreases |s| - i
  {
    if IsSpace(At(s, i)) {
      SpacesBehind(c, s, i + 1);
    }
  }

  lemma {:induction false} RunBehind(c: u8, s: seq<u8>, i: nat, b: nat)
    requires b <= 36 && i <= |s|
    ensures Run([c] + s, i + 1, b) == Run(s, i, b)
    decreases |s| - i
  {
    if i < |s| {
      RunBehind(c, s, i + 1, b);
    }
  }

  /** White space in front changes nothing but the place where the digits begin. */
  lemma SpaceInFront(c: u8, s: seq<u8>, base: nat)
    requires c in [32, 9, 10, 11, 12, 13] && (base == 0 || 2 <= base <= 36)
    ensures IntroOf([c] + s, base) == var t := IntroOf(s, base); Intro(t.neg, t.base, t.start + 1)
    ensures DecimalOf([c] + s) == DecimalOf(s)
  {
    SpaceIntro(c, s, base);
    SpaceDecimal(c, s);
  }

  lemma SpaceIntro(c: u8, s: seq<u8>, base: nat)
    requires IsSpace(c) && (base == 0 || 2 <= base <= 36)
    ensures IntroOf([c] + s, base) == var t := IntroOf(s, base); Intro(t.neg, t.base, t.start + 1)
  {
    SpacesBehind(c, s, 0);
    var i := SkipSpaces(s, 0);
    assert SkipSpaces([c] + s, 0) == i + 1;
    assert At([c] + s, i + 1) == At(s, i) && At([c] + s, i + 2) == At(s, i + 1);
    assert At([c] + s, i + 3) == At(s, i + 2);
  }

  lemma SpaceDecimal(c: u8, s: seq<u8>)
    requires IsSpace(c)
    ensures DecimalOf([c] + s) == DecimalOf(s)
  {
    SpacesBehind(c, s, 0);
    SpacesInside(s, 0);
    var i := SkipSpaces(s, 0);
    assert SkipSpaces([c] + s, 0) == i + 1;
    RunBehind(c, s, if At(s, i) == PLUS || At(s, i) == MINUS then i + 1 else i, 10);
  }

  /** The text begins with neither white space nor a sign. */
  predicate Bare(s: seq<u8>) {
    !IsSpace(At(s, 0)) && At(s, 0) != MINUS && At(s, 0) != PLUS
  }

  /** A sign in front of a number says whether it is negative. */
  lemma SignInFront(c: u8, s: seq<u8>, base: nat)
    requires c in [43, 45] && Bare(s) && (base == 0 || 2 <= base <= 36)
    ensures IntroOf([c] + s, base) == var t := IntroOf(s, base); Intro(c == 45, t.base, t.start + 1)
    ensures DecimalOf([c] + s) == Decimal(c == 45, DecimalOf(s).digits) && !DecimalOf(s).negative
  {
    assert SkipSpaces([c] + s, 0) == 0 && SkipSpaces(s, 0) == 0;
    assert At([c] + s, 1) == At(s, 0) && At([c] + s, 2) == At(s, 1);
    RunBehind(c, s, 0, 10);
  }

  // ---- Digits ----

  /** Ten figures and twice 26 letters are digits, and nothing else is. */
  lemma DigitCharacters(d: nat)
    ensures d < 10 ==> DigitOf(48 + d) == d
    ensures d < 26 ==> DigitOf(65 + d) == 10 + d && DigitOf(97 + d) == 10 + d
    ensures forall c: u8 :: DigitOf(c) == 36 <==> !(48 <= c < 58 || 65 <= c < 91 || 97 <= c < 123)
  {
  }

  // ---- Base 0 ----

  /** What kstrtol may answer for `s`. */
  ghost predicate Answers(s: seq<u8>, base: nat, acc: int, end: nat, range: bool)
    requires base == 0 || 2 <= base <= 36
  {
    var t := IntroOf(s, base);
    var ds := Run(s, t.start, t.base);
    end == t.start + |ds| && Converts(t.neg, t.base, ds, acc, range)
  }

  /** Without a mark the base is ten, and behind "0" it is eight. */
  lemma PlainForms(v: u64, s: seq<u8>, acc: int, end: nat, range: bool)
    requires v <= LONG_MAX && Answers(s, 0, acc, end, range)
    requires s == Text(v, 10, false) || s == [48] + Text(v, 8, false)
    ensures acc == v && end == |s| && !range
  {
    if s == Text(v, 10, false) {
      DecimalForm(v, s);
    } else {
      OctalForm(v, s);
    }
  }

  /** "0x" and "0X" mark base sixteen, and may be there when it is asked for. */
  lemma HexForm(v: u64, x: u8, upper: bool, s: seq<u8>, base: nat, acc: int, end: nat, range: bool)
    requires v <= LONG_MAX && (x == 120 || x == 88) && s == [48, x] + Text(v, 16, upper)
    requires (base == 0 || base == 16) && Answers(s, base, acc, end, range)
    ensures acc == v && end == |s| && !range
  {
    HexMarked(s, base);
    HexDigits(v, x, upper, s);
  }

  lemma HexMarked(s: seq<u8>, base: nat)
    requires |s| >= 2 && s[0] == 48 && (s[1] == 120 || s[1] == 88) && (base == 0 || base == 16)
    ensures IntroOf(s, base) == Intro(false, 16, 2)
  {
    assert SkipSpaces(s, 0) == 0;
  }

  lemma HexDigits(v: u64, x: u8, upper: bool, s: seq<u8>)
    requires s == [48, x] + Text(v, 16, upper)
    ensures 2 + |Run(s, 2, 16)| == |s| && Value(Run(s, 2, 16), 16) == v
  {
    var text := Text(v, 16, upper);
    Digitwise(v, 16, upper);
    TwoInFront(48, x, text, 16);
  }

  lemma TwoInFront(c: u8, d: u8, s: seq<u8>, b: nat)
    requires b <= 36
    ensures Run([c, d] + s, 2, b) == Run(s, 0, b)
  {
    RunBehind(d, s, 0, b);
    RunBehind(c, [d] + s, 1, b);
    assert [c, d] + s == [c] + ([d] + s);
  }

  lemma Digitwise(v: u64, b: nat, upper: bool)
    requires 2 <= b <= 16
    ensures Run(Text(v, b, upper), 0, b) == Numeral(v, b) && Value(Numeral(v, b), b) == v
    ensures |Text(v, b, upper)| == |Numeral(v, b)| > 0
  {
    TextRun(v, b, upper);
    NumeralValue(v, b);
  }

  /** A number but 0 does not begin with the digit 0. */
  lemma {:induction false} FirstDigit(v: nat)
    requires v > 0
    ensures Digits(v, 10) != [] && Digits(v, 10)[0] != 0
    decreases v
  {
    if v < 10 {
      assert Digits(v / 10, 10) == [];
    } else {
      FirstDigit(v / 10);
    }
  }

  lemma DecimalForm(v: u64, s: seq<u8>)
    requires s == Text(v, 10, false)
    ensures var t := IntroOf(s, 0); !t.neg && t.start + |Run(s, t.start, t.base)| == |s|
    ensures var t := IntroOf(s, 0); Value(Run(s, t.start, t.base), t.base) == v
  {
    if v == 0 {
      ZeroForm(s);
    } else {
      Digitwise(v, 10, false);
      FirstCharacter(v, s);
      Unmarked(s);
    }
  }

  lemma FirstCharacter(v: nat, s: seq<u8>)
    requires v > 0 && s == Text(v, 10, false)
    ensures s != [] && 49 <= s[0] <= 57
  {
    FirstDigit(v);
    FirstIs(Numeral(v, 10), s);
  }

  lemma FirstIs(ds: seq<nat>, s: seq<u8>)
    requires ds != [] && ds[0] != 0 && (forall d :: d in ds ==> d < 10) && s == Chars(ds, false)
    ensures s != [] && 49 <= s[0] <= 57
  {
    assert ds[0] in ds;
  }

  lemma ZeroForm(s: seq<u8>)
    requires s == [48]
    ensures IntroOf(s, 0) == Intro(false, 8, 1) && Run(s, 1, 8) == []
    ensures Value(Run(s, 1, 8), 8) == 0
  {
    assert SkipSpaces(s, 0) == 0;
  }

  lemma Unmarked(s: seq<u8>)
    requires s != [] && 49 <= s[0] <= 57
    ensures IntroOf(s, 0) == Intro(false, 10, 0)
  {
    assert SkipSpaces(s, 0) == 0;
  }

  lemma OctalForm(v: u64, s: seq<u8>)
    requires s == [48] + Text(v, 8, false)
    ensures IntroOf(s, 0) == Intro(false, 8, 1) && 1 + |Run(s, 1, 8)| == |s|
    ensures Value(Run(s, 1, 8), 8) == v
  {
    var text := Text(v, 8, false);
    Digitwise(v, 8, false);
    RunBehind(48, text, 0, 8);
    assert s[1] == DigitChar(Numeral(v, 8)[0], false);
    assert SkipSpaces(s, 0) == 0;
  }

  /** The mark alone, or with no digit behind it, is taken whole and counts as 0. */
  lemma MarkAlone(s: seq<u8>, acc: int, end: nat, range: bool)
    requires |s| >= 2 && s[0] == 48 && (s[1] == 120 || s[1] == 88) && DigitOf(At(s, 2)) >= 16
    requires Answers(s, 0, acc, end, range)
    ensures acc == 0 && end == 2 && !range
  {
    assert SkipSpaces(s, 0) == 0;
    assert Run(s, 2, 16) == [];
  }

  // ---- Ranges ----

  /** What a number out of range becomes: the nearest int for katoi, and the largest long for kstrtol without a sign. */
  lemma OutOfRange(v: int, s: seq<u8>, base: nat, acc: int, end: nat, range: bool)
    requires (base == 0 || 2 <= base <= 36) && Answers(s, base, acc, end, range)
    ensures KEINVAL == 22 && KERANGE == 34
    ensures v > 2_147_483_647 ==> ToInt(v) == 2_147_483_647
    ensures v < -2_147_483_648 ==> ToInt(v) == -2_147_483_648
    ensures -2_147_483_648 <= v <= 2_147_483_647 ==> ToInt(v) == v
    ensures var t := IntroOf(s, base);
            var w := Value(Run(s, t.start, t.base), t.base);
            && (!t.neg && w <= 9_223_372_036_854_775_807 ==> acc == w && !range)
            && (!t.neg && w > 9_223_372_036_854_775_807 ==> acc == 9_223_372_036_854_775_807 && range)
  {
  }
}
