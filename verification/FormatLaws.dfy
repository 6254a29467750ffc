/** What the conversions of kvsnprintf print: case, padding, width of the argument, and the other characters. */
module FormatLaws {
  import opened Machine
  import opened Numerals
  import opened Parsing
  import opened Format

  // ---- Padding ----

  /** A field is as wide as asked for, with the text at its left or right end and blanks beside it. */
  lemma PaddedField(d: Directive, s: seq<u8>)
    ensures var t := Padded(d, s); var n := |t| - |s|;
            && n == (if d.width > |s| then d.width - |s| else 0)
            && (if d.left then t[..|s|] == s else t[n..] == s)
            && forall i :: 0 <= i < |t| && !(if d.left then i < |s| else i >= n) ==> t[i] == 32
  {
  }

  // ---- Digits in two cases ----

  predicate HexDigit(c: u8, upper: bool) {
    48 <= c <= 57 || (if upper then 65 <= c <= 70 else 97 <= c <= 102)
  }

  /** Hexadecimal numerals use letters of one case only. */
  lemma HexCase(v: nat, upper: bool)
    ensures forall c :: c in Text(v, 16, upper) ==> HexDigit(c, upper)
  {
    forall c | c in Text(v, 16, upper)
      ensures HexDigit(c, upper)
    {
      var i :| 0 <= i < |Text(v, 16, upper)| && Text(v, 16, upper)[i] == c;
      assert Numeral(v, 16)[i] in Numeral(v, 16);
    }
  }

  // ---- One directive ----

  /** A format that is one directive renders as its field. */
  lemma Alone(f: seq<u8>, d: Directive, args: seq<Arg>)
    requires f != [] && f[0] == 37 && DirectiveAt(f, 1) == d && d.next == |f| && d.conv != 0 && d.width <= INT_MAX
    requires TakesWord(d.conv) ==> args != [] && args[0].Word?
    requires TakesText(d.conv) ==> args != [] && args[0].Str? && 0 !in args[0].text
    ensures Supplied(f, 0, args) && Render(f, 0, args) == Padded(d, Converted(d, args))
  {
    assert Render(f, |f|, Left(d, args)) == [];
  }

  lemma NotPadded(ll: bool, conv: u8, next: nat, s: seq<u8>)
    ensures Padded(Directive(false, 0, ll, conv, next), s) == s
  {
  }

  /** A percent sign and one character, which is no flag and no figure. */
  lemma Plain(c: u8, args: seq<Arg>)
    requires c != 0 && c != 45 && !(48 <= c <= 57) && c != 108
    requires TakesWord(c) ==> args != [] && args[0].Word?
    requires TakesText(c) ==> args != [] && args[0].Str? && 0 !in args[0].text
    ensures Supplied([37, c], 0, args)
    ensures Render([37, c], 0, args) == Converted(Directive(false, 0, false, c, 2), args)
  {
    var d := Directive(false, 0, false, c, 2);
    assert DirectiveAt([37, c], 1) == d;
    Alone([37, c], d, args);
    NotPadded(false, c, 2, Converted(d, args));
  }

  /** "%x" and "%X" print the low 32 bits, and kstrtol reads them back in base sixteen. */
  lemma HexRendering(bits: u64, upper: bool)
    ensures var f := if upper then [37, 88] else [37, 120];
            var s := Render(f, 0, [Word(bits)]);
            && Supplied(f, 0, [Word(bits)])
            && (forall c :: c in s ==> HexDigit(c, upper))
            && IntroOf(s, 16) == Intro(false, 16, 0)
            && |Run(s, 0, 16)| == |s| > 0 && Value(Run(s, 0, 16), 16) == bits % 0x1_0000_0000
  {
    HexForm(bits, upper);
    HexText(bits % TWO_32, upper);
  }

  lemma HexForm(bits: u64, upper: bool)
    ensures var f := if upper then [37, 88] else [37, 120];
            Supplied(f, 0, [Word(bits)]) && Render(f, 0, [Word(bits)]) == Text(bits % TWO_32, 16, upper)
  {
    if upper {
      Plain(88, [Word(bits)]);
    } else {
      Plain(120, [Word(bits)]);
    }
  }

  lemma HexText(v: nat, upper: bool)
    ensures var s := Text(v, 16, upper);
            && (forall c :: c in s ==> HexDigit(c, upper))
            && IntroOf(s, 16) == Intro(false, 16, 0)
            && |Run(s, 0, 16)| == |s| > 0 && Value(Run(s, 0, 16), 16) == v
  {
    HexCase(v, upper);
    TextRun(v, 16, upper);
    NumeralValue(v, 16);
  }

  /** "%u" prints the low 32 bits, "%llu" all 64, in decimal. */
  lemma UnsignedRendering(bits: u64, long: bool)
    ensures var f := if long then [37, 108, 108, 117] else [37, 117];
            var s := Render(f, 0, [Word(bits)]);
            && Supplied(f, 0, [Word(bits)]) && IntroOf(s, 10) == Intro(false, 10, 0)
            && |Run(s, 0, 10)| == |s| > 0
            && Value(Run(s, 0, 10), 10) == if long then bits else bits % 0x1_0000_0000
  {
    var v: nat := if long then bits else bits % TWO_32;
    if long {
      LongForm(117, bits);
    } else {
      Plain(117, [Word(bits)]);
    }
    TextRun(v, 10, false);
    NumeralValue(v, 10);
  }

  /** "%lld" prints all 64 bits as a signed number. */
  lemma LongRendering(bits: u64)
    ensures var f := [37, 108, 108, 100];
            var s := Render(f, 0, [Word(bits)]);
            && Supplied(f, 0, [Word(bits)])
            && if bits < 0x8000_0000_0000_0000 then s == Text(bits, 10, false)
               else s == [45] + Text(0x1_0000_0000_0000_0000 - bits, 10, false)
  {
    LongForm(100, bits);
    SignedLong(bits);
    assert Converted(Directive(false, 0, true, 100, 4), [Word(bits)]) == SignedText(Signed64(bits));
  }

  lemma SignedLong(bits: u64)
    ensures SignedText(Signed64(bits)) ==
            if bits < 0x8000_0000_0000_0000 then Text(bits, 10, false)
            else [45] + Text(0x1_0000_0000_0000_0000 - bits, 10, false)
  {
    assert Signed64(bits) == if bits < 0x8000_0000_0000_0000 then bits else bits - 0x1_0000_0000_0000_0000;
  }

  lemma LongForm(c: u8, bits: u64)
    requires c == 100 || c == 117
    ensures Supplied([37, 108, 108, c], 0, [Word(bits)])
    ensures var d := Directive(false, 0, true, c, 4);
            Render([37, 108, 108, c], 0, [Word(bits)]) == Converted(d, [Word(bits)])
  {
    var d := Directive(false, 0, true, c, 4);
    assert DirectiveAt([37, 108, 108, c], 1) == d;
    Alone([37, 108, 108, c], d, [Word(bits)]);
    NotPadded(true, c, 4, Converted(d, [Word(bits)]));
  }

  /** "%c" prints one byte, "%%" a percent sign, and a directive that is none is printed as it stands. */
  lemma CharacterRendering(bits: u64, c: u8)
    requires c !in [0, 45, 99, 100, 108, 115, 117, 120, 88] && !(48 <= c <= 57)
    ensures Supplied([37, 99], 0, [Word(bits)]) && Render([37, 99], 0, [Word(bits)]) == [bits % 256]
    ensures Supplied([37, c], 0, []) && Render([37, c], 0, []) == if c == 37 then [37] else [37, c]
  {
    Plain(99, [Word(bits)]);
    Plain(c, []);
  }

  /** "%s" prints a string of up to 31 characters, and the first 31 of a longer one. */
  lemma TextRendering(s: seq<u8>)
    requires 0 !in s
    ensures Supplied([37, 115], 0, [Str(s)])
    ensures Render([37, 115], 0, [Str(s)]) == if |s| <= 31 then s else s[..31]
  {
    Plain(115, [Str(s)]);
  }

  /** "%4c" and "%-12c": figures behind the flag are the width. */
  lemma WidthRendering(c: u8)
    ensures Supplied([37, 52, 99], 0, [Word(c)]) && Supplied([37, 45, 49, 50, 99], 0, [Word(c)])
    ensures Render([37, 52, 99], 0, [Word(c)]) == [32, 32, 32, c]
    ensures Render([37, 45, 49, 50, 99], 0, [Word(c)]) == [c] + seq(11, i => 32)
  {
    RightOf(c);
    LeftOf(c);
  }

  lemma RightOf(c: u8)
    ensures Supplied([37, 52, 99], 0, [Word(c)]) && Render([37, 52, 99], 0, [Word(c)]) == [32, 32, 32, c]
  {
    var f, d := [37, 52, 99], Directive(false, 4, false, 99, 3);
    WidthFour(f);
    Alone(f, d, [Word(c)]);
    assert Spaces(3) == [32, 32, 32];
  }

  lemma WidthFour(f: seq<u8>)
    requires f == [37, 52, 99]
    ensures DirectiveAt(f, 1) == Directive(false, 4, false, 99, 3)
  {
    assert WidthAt(f, 2, 4) == (4, 2);
  }

  lemma LeftOf(c: u8)
    ensures var f: seq<u8> := [37, 45, 49, 50, 99];
            Supplied(f, 0, [Word(c)]) && Render(f, 0, [Word(c)]) == [c] + seq(11, i => 32)
  {
    var f: seq<u8>, d := [37, 45, 49, 50, 99], Directive(true, 12, false, 99, 5);
    WidthTwelve(f);
    Alone(f, d, [Word(c)]);
  }

  lemma WidthTwelve(f: seq<u8>)
    requires f == [37, 45, 49, 50, 99]
    ensures DirectiveAt(f, 1) == Directive(true, 12, false, 99, 5)
  {
    assert WidthAt(f, 4, 12) == (12, 4);
    assert WidthAt(f, 3, 1) == (12, 4);
  }

  // ---- One format after another ----

  /** A text without percent signs in front of a format is printed in front of it. */
  lemma {:induction false} TextInFront(text: seq<u8>, f: seq<u8>, p: nat, q: nat, args: seq<Arg>)
    requires q == p + |text| <= |f| && f[p..q] == text && 37 !in text && 0 !in text
    requires Supplied(f, q, args)
    ensures Supplied(f, p, args) && Render(f, p, args) == text + Render(f, q, args)
    decreases |text|
  {
    var rest := Render(f, q, args);
    if text == [] {
      assert text + rest == rest;
    } else {
      CharacterBehind(text, f, p, q);
      TextInFront(text[1..], f, p + 1, q, args);
      CharacterInFront(text[0], f, p, args);
      Longer(text, rest);
    }
  }

  lemma Longer(text: seq<u8>, rest: seq<u8>)
    requires text != []
    ensures text + rest == [text[0]] + (text[1..] + rest)
  {
  }

  lemma CharacterBehind(text: seq<u8>, f: seq<u8>, p: nat, q: nat)
    requires text != [] && q == p + |text| <= |f| && f[p..q] == text && 37 !in text && 0 !in text
    ensures f[p] == text[0] != 37 && text[0] != 0 && f[p + 1..q] == text[1..]
    ensures 37 !in text[1..] && 0 !in text[1..]
  {
  }

  lemma CharacterInFront(c: u8, f: seq<u8>, p: nat, args: seq<Arg>)
    requires p < |f| && f[p] == c && c != 37 && c != 0 && Supplied(f, p + 1, args)
    ensures Supplied(f, p, args) && Render(f, p, args) == [c] + Render(f, p + 1, args)
  {
  }
}
