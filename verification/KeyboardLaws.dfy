/** The keyboard's layout row by row, and what a row of key presses leaves. */
module KeyboardLaws {
  import opened Machine
  import opened Keyboard

  // ---- The layout ----

  /** The keys from scancode `first` on bear these characters. */
  predicate Row(first: nat, plain: string, shifted: string)
    requires |plain| == |shifted| && first + |plain| <= 128
  {
    forall i :: 0 <= i < |plain| ==> Us(first + i) == plain[i] as int && UsShift(first + i) == shifted[i] as int
  }

  /** The scancodes of the four rows. */
  predicate InRow(scancode: u8) {
    2 <= scancode < 14 || 16 <= scancode < 28 || 30 <= scancode < 42 || 43 <= scancode < 54
  }

  /** The US layout: four rows, and the keys that are the same with and without shift. */
  lemma Layout(scancode: u8)
    ensures Row(2, "1234567890-=", "!@#$%^&*()_+")
    ensures Row(16, "qwertyuiop[]", "QWERTYUIOP{}")
    ensures Row(30, "asdfghjkl;'`", "ASDFGHJKL:\"~")
    ensures Row(43, "\\zxcvbnm,./", "|ZXCVBNM<>?")
    ensures !InRow(scancode) ==>
              Us(scancode) == UsShift(scancode) ==
              match scancode
              case 1 => 27
              case 14 => 8
              case 15 => 9
              case 28 => 10
              case 55 => 42
              case 57 => 32
              case 73 => 45
              case _ => 0
  {
    NumberRow();
    TopRow();
    HomeRow();
    BottomRow();
  }

  lemma NumberRow()
    ensures Row(2, "1234567890-=", "!@#$%^&*()_+")
  {
  }

  lemma TopRow()
    ensures Row(16, "qwertyuiop[]", "QWERTYUIOP{}")
  {
  }

  lemma HomeRow()
    ensures Row(30, "asdfghjkl;'`", "ASDFGHJKL:\"~")
  {
  }

  lemma BottomRow()
    ensures Row(43, "\\zxcvbnm,./", "|ZXCVBNM<>?")
  {
  }

  // ---- Rows of scancodes ----

  /** The state after the handler took these scancodes, one after the other. */
  function After(s: State, codes: seq<u8>): (t: State)
    requires |s.buf| == SIZE && s.head < SIZE
    ensures |t.buf| == SIZE && t.head < SIZE
    decreases |codes|
  {
    if codes == [] then s else Handled(After(s, codes[..|codes| - 1]), codes[|codes| - 1])
  }

  predicate ShiftCode(c: u8) { c in [0x2A, 0x36, 0xAA, 0xB6] }

  function CapsPresses(codes: seq<u8>): nat {
    multiset(codes)[0x3A]
  }

  /** Shift is what the last shift key did, pressed or released. */
  lemma {:induction false} ShiftAfter(s: State, codes: seq<u8>, i: nat)
    requires |s.buf| == SIZE && s.head < SIZE
    requires i <= |codes| && forall j :: i <= j < |codes| ==> !ShiftCode(codes[j])
    requires i == 0 || ShiftCode(codes[i - 1])
    ensures After(s, codes).shift == if i == 0 then s.shift else codes[i - 1] in [0x2A, 0x36]
    decreases |codes|
  {
    if codes != [] {
      var k := |codes| - 1;
      if i <= k {
        ShiftAfter(s, codes[..k], i);
      }
      OneCode(After(s, codes[..k]), codes[k]);
    }
  }

  /** Caps lock is turned over by every press, however often the key is released. */
  lemma {:induction false} CapsAfter(s: State, codes: seq<u8>)
    requires |s.buf| == SIZE && s.head < SIZE
    ensures After(s, codes).caps == if CapsPresses(codes) % 2 == 0 then s.caps else !s.caps
    decreases |codes|
  {
    if codes != [] {
      var k := |codes| - 1;
      assert codes == codes[..k] + [codes[k]];
      CapsAfter(s, codes[..k]);
      OneCode(After(s, codes[..k]), codes[k]);
    }
  }

  lemma OneCode(s: State, c: u8)
    requires |s.buf| == SIZE && s.head < SIZE
    ensures var t := Handled(s, c);
            && t.shift == (if ShiftCode(c) then c in [0x2A, 0x36] else s.shift)
            && t.caps == (if c == 0x3A then !s.caps else s.caps)
            && (ShiftCode(c) || c == 0x3A || c >= 128 ==> t.accepted == s.accepted && t.head == s.head)
  {
  }

  // ---- Typing ----

  /** A character key: what it bears goes behind what was typed, while there is room. */
  lemma Press(s: State, c: u8)
    requires |s.buf| == SIZE && s.head < SIZE && s.tail < SIZE && (s.head + 1) % SIZE != s.tail
    requires c < 128 && !ShiftCode(c) && c != 0x3A && KeyChar(c, s.shift, s.caps) != 0
    ensures var t := Handled(s, c);
            && t.accepted == s.accepted + [KeyChar(c, s.shift, s.caps)]
            && t.head == (s.head + 1) % SIZE && t.tail == s.tail && t.shift == s.shift && t.caps == s.caps
  {
  }

  /** The variables of the keyboard after these scancodes, from a start with nothing pressed or typed. */
  ghost predicate Shows(s: State, codes: seq<u8>, shift: bool, caps: bool, text: seq<u8>)
    requires |s.buf| == SIZE && s.head < SIZE
  {
    var t := After(s, codes);
    t.head == |text| && t.tail == 0 && t.shift == shift && t.caps == caps && t.accepted == text
  }

  lemma Key(s: State, codes: seq<u8>, shift: bool, caps: bool, text: seq<u8>, next: seq<u8>, longer: seq<u8>)
    requires |s.buf| == SIZE && s.head < SIZE && Shows(s, codes, shift, caps, text)
    requires 0 < |next| && codes == next[..|next| - 1] && 0 < |longer| < SIZE && text == longer[..|longer| - 1]
    requires var code := next[|next| - 1];
             && code < 128 && !ShiftCode(code) && code != 0x3A
             && KeyChar(code, shift, caps) == longer[|longer| - 1] != 0
    ensures Shows(s, next, shift, caps, longer)
  {
    Press(After(s, codes), next[|next| - 1]);
    assert longer == text + [longer[|longer| - 1]];
  }

  lemma Modifier(s: State, codes: seq<u8>, shift: bool, caps: bool, text: seq<u8>, next: seq<u8>)
    requires |s.buf| == SIZE && s.head < SIZE && Shows(s, codes, shift, caps, text)
    requires 0 < |next| && codes == next[..|next| - 1]
    requires var code := next[|next| - 1]; ShiftCode(code) || code == 0x3A || code >= 128
    ensures var code := next[|next| - 1];
            Shows(s, next, if ShiftCode(code) then code < 128 else shift, if code == 0x3A then !caps else caps, text)
  {
    var code := next[|next| - 1];
    OneCode(After(s, codes), code);
    assert Handled(After(s, codes), code).tail == After(s, codes).tail;
  }

  lemma TypedShift(s: State)
    requires |s.buf| == SIZE && s.head < SIZE && Shows(s, [], false, false, [])
    ensures Shows(s, [0x2A, 0x1E, 0x9E, 0xAA, 0x1E], false, false, [65, 97])
  {
    Modifier(s, [], false, false, [], [0x2A]);
    Key(s, [0x2A], true, false, [], [0x2A, 0x1E], [65]);
    Modifier(s, [0x2A, 0x1E], true, false, [65], [0x2A, 0x1E, 0x9E]);
    Modifier(s, [0x2A, 0x1E, 0x9E], true, false, [65], [0x2A, 0x1E, 0x9E, 0xAA]);
    Key(s, [0x2A, 0x1E, 0x9E, 0xAA], false, false, [65], [0x2A, 0x1E, 0x9E, 0xAA, 0x1E], [65, 97]);
  }

  lemma TypedCaps(s: State)
    requires |s.buf| == SIZE && s.head < SIZE && Shows(s, [], false, false, [])
    ensures Shows(s, [0x3A, 0xBA, 0x1E, 0x36, 0x1E, 0x02], true, true, [65, 97, 33])
  {
    Modifier(s, [], false, false, [], [0x3A]);
    Modifier(s, [0x3A], false, true, [], [0x3A, 0xBA]);
    Key(s, [0x3A, 0xBA], false, true, [], [0x3A, 0xBA, 0x1E], [65]);
    Modifier(s, [0x3A, 0xBA, 0x1E], false, true, [65], [0x3A, 0xBA, 0x1E, 0x36]);
    Key(s, [0x3A, 0xBA, 0x1E, 0x36], true, true, [65], [0x3A, 0xBA, 0x1E, 0x36, 0x1E], [65, 97]);
    Key(s, [0x3A, 0xBA, 0x1E, 0x36, 0x1E], true, true, [65, 97], [0x3A, 0xBA, 0x1E, 0x36, 0x1E, 0x02], [65, 97, 33]);
  }

  /**
   * Shift, the key A, both released, and A again, is "Aa". Caps lock, the key A, the right shift
   * key, and the keys A and 1, is "Aa!".
   */
  lemma Typed()
    ensures After(INITIAL, [0x2A, 0x1E, 0x9E, 0xAA, 0x1E]).accepted == [65, 97]
    ensures After(INITIAL, [0x3A, 0xBA, 0x1E, 0x36, 0x1E, 0x02]).accepted == [65, 97, 33]
  {
    TypedShift(INITIAL);
    TypedCaps(INITIAL);
  }
}
