/** The keyboard ring buffer: the interrupt handler as producer, getchar as consumer. */
module Keyboard {
  import opened Machine
  import opened Wrappers

  const SIZE := 256

  // ---- From scancodes to characters ----

  /** kbd_us; all entries that are not listed are 0. */
  function Us(scancode: u8): u8 {
    match scancode
    case 1 => 27 case 2 => 49 case 3 => 50 case 4 => 51 case 5 => 52 case 6 => 53 case 7 => 54
    case 8 => 55 case 9 => 56 case 10 => 57 case 11 => 48 case 12 => 45 case 13 => 61 case 14 => 8
    case 15 => 9 case 16 => 113 case 17 => 119 case 18 => 101 case 19 => 114 case 20 => 116 case 21 => 121
    case 22 => 117 case 23 => 105 case 24 => 111 case 25 => 112 case 26 => 91 case 27 => 93 case 28 => 10
    case 30 => 97 case 31 => 115 case 32 => 100 case 33 => 102 case 34 => 103 case 35 => 104 case 36 => 106
    case 37 => 107 case 38 => 108 case 39 => 59 case 40 => 39 case 41 => 96 case 43 => 92 case 44 => 122
    case 45 => 120 case 46 => 99 case 47 => 118 case 48 => 98 case 49 => 110 case 50 => 109 case 51 => 44
    case 52 => 46 case 53 => 47 case 55 => 42 case 57 => 32 case 73 => 45
    case _ => 0
  }

  /** kbd_us_shift */
  function UsShift(scancode: u8): u8 {
    match scancode
    case 1 => 27 case 2 => 33 case 3 => 64 case 4 => 35 case 5 => 36 case 6 => 37 case 7 => 94
    case 8 => 38 case 9 => 42 case 10 => 40 case 11 => 41 case 12 => 95 case 13 => 43 case 14 => 8
    case 15 => 9 case 16 => 81 case 17 => 87 case 18 => 69 case 19 => 82 case 20 => 84 case 21 => 89
    case 22 => 85 case 23 => 73 case 24 => 79 case 25 => 80 case 26 => 123 case 27 => 125 case 28 => 10
    case 30 => 65 case 31 => 83 case 32 => 68 case 33 => 70 case 34 => 71 case 35 => 72 case 36 => 74
    case 37 => 75 case 38 => 76 case 39 => 58 case 40 => 34 case 41 => 126 case 43 => 124 case 44 => 90
    case 45 => 88 case 46 => 67 case 47 => 86 case 48 => 66 case 49 => 78 case 50 => 77 case 51 => 60
    case 52 => 62 case 53 => 63 case 55 => 42 case 57 => 32 case 73 => 45
    case _ => 0
  }

  predicate IsLower(c: u8) { 97 <= c <= 122 }

  predicate IsUpper(c: u8) { 65 <= c <= 90 }

  /** k_adjust_case */
  function AdjustCase(c: u8, shift: bool, caps: bool): u8 {
    if caps && !shift && IsLower(c) then c - 32
    else if caps && shift && IsUpper(c) then c + 32
    else c
  }

  /** The character a key press stands for, 0 for none. */
  function KeyChar(scancode: u8, shift: bool, caps: bool): u8 {
    AdjustCase(if shift then UsShift(scancode) else Us(scancode), shift, caps)
  }

  /** The two tables agree: a letter has its capital in the other table, and only there are capitals. */
  lemma TablesAgree(scancode: u8)
    ensures var a, b := Us(scancode), UsShift(scancode);
            && !IsUpper(a) && !IsLower(b) && (IsLower(a) <==> IsUpper(b)) && (IsLower(a) ==> b == a - 32)
            && (a == 0 <==> b == 0)
  {
  }

  /**
   * Letters are capitals exactly when one of shift and caps lock is on, and not both; caps lock
   * changes no other key.
   */
  lemma CapsInvertsShift(scancode: u8, shift: bool, caps: bool)
    ensures var c, plain := KeyChar(scancode, shift, caps), Us(scancode);
            if IsLower(plain) then c == if shift != caps then plain - 32 else plain
            else c == KeyChar(scancode, shift, false)
  {
    TablesAgree(scancode);
  }

  // ---- The ring ----

  /** The characters from index `tail` up to `head`, around the end of the buffer. */
  function Pending(buf: seq<u8>, head: nat, tail: nat): seq<u8>
    requires |buf| == SIZE && head < SIZE && tail < SIZE
  {
    if tail <= head then buf[tail..head] else buf[tail..] + buf[..head]
  }

  lemma PendingCount(buf: seq<u8>, head: nat, tail: nat)
    requires |buf| == SIZE && head < SIZE && tail < SIZE
    ensures |Pending(buf, head, tail)| == (head - tail) % SIZE
    ensures Pending(buf, head, tail) == [] <==> head == tail
    ensures |Pending(buf, head, tail)| == SIZE - 1 <==> (head + 1) % SIZE == tail
  {
  }

  /** Storing at the head appends, while a slot is left. */
  lemma Appended(buf: seq<u8>, head: nat, tail: nat, c: u8)
    requires |buf| == SIZE && head < SIZE && tail < SIZE && (head + 1) % SIZE != tail
    ensures Pending(buf[head := c], (head + 1) % SIZE, tail) == Pending(buf, head, tail) + [c]
  {
    if head == SIZE - 1 {
      StoredLast(buf, tail, c);
    } else if tail <= head {
      assert buf[head := c][tail..head + 1] == buf[tail..head] + [c];
    } else {
      StoredBehind(buf, head, tail, c);
    }
  }

  lemma StoredLast(buf: seq<u8>, tail: nat, c: u8)
    requires |buf| == SIZE && 0 < tail < SIZE
    ensures buf[SIZE - 1 := c][tail..] + buf[SIZE - 1 := c][..0] == buf[tail..SIZE - 1] + [c]
    ensures buf[SIZE - 1 := c][0..0] == []
  {
  }

  lemma StoredBehind(buf: seq<u8>, head: nat, tail: nat, c: u8)
    requires |buf| == SIZE && head < tail < SIZE
    ensures buf[head := c][tail..] + buf[head := c][..head + 1] == buf[tail..] + buf[..head] + [c]
  {
    assert buf[head := c][..head + 1] == buf[..head] + [c];
    assert buf[head := c][tail..] == buf[tail..];
  }

  lemma NextIndex(i: nat)
    requires i < SIZE
    ensures (i + 1) % SIZE == if i == SIZE - 1 then 0 else i + 1
  {
  }

  /** Advancing the tail takes the oldest character off. */
  lemma Taken(buf: seq<u8>, head: nat, tail: nat)
    requires |buf| == SIZE && head < SIZE && tail < SIZE && head != tail
    ensures Pending(buf, head, tail) == [buf[tail]] + Pending(buf, head, (tail + 1) % SIZE)
  {
    NextIndex(tail);
    TakenFrom(buf, tail, SIZE);
    if tail < head {
      TakenFrom(buf, tail, head);
    } else if tail < SIZE - 1 {
      TakenWrapped(buf, head, tail);
    } else {
      TakenLast(buf, head);
    }
  }

  lemma TakenLast(buf: seq<u8>, head: nat)
    requires |buf| == SIZE && head < SIZE - 1
    ensures buf[SIZE - 1..] + buf[..head] == [buf[SIZE - 1]] + buf[0..head]
  {
  }

  lemma TakenWrapped(buf: seq<u8>, head: nat, tail: nat)
    requires |buf| == SIZE && head < tail < SIZE - 1
    ensures buf[tail..] + buf[..head] == [buf[tail]] + (buf[tail + 1..] + buf[..head])
  {
    assert buf[tail..] == [buf[tail]] + buf[tail + 1..];
  }

  lemma TakenFrom(buf: seq<u8>, i: nat, j: nat)
    requires i < j <= |buf|
    ensures buf[i..j] == [buf[i]] + buf[i + 1..j]
  {
  }

  // ---- The steps of producer and consumer ----

  /** Where getchar is: before its check, past it, with interrupts off, and with the character read. */
  datatype Phase = Waiting | Passed | Masked | Holds(c: u8)

  /**
   * The static variables, the phase of getchar, the characters put into the buffer and those
   * returned so far.
   */
  datatype State = State(buf: seq<u8>, head: nat, tail: nat, shift: bool, caps: bool,
                         phase: Phase, accepted: seq<u8>, returned: seq<u8>)

  datatype Event =
    | Interrupt(scancode: u8)
    | Check
    | DisableInterrupts
    | Load
    | AdvanceAndReturn

  /** Behind `returned`, the ring holds what remains of `accepted`. */
  ghost predicate Ring(buf: seq<u8>, head: nat, tail: nat, accepted: seq<u8>, returned: seq<u8>) {
    |buf| == SIZE && head < SIZE && tail < SIZE && accepted == returned + Pending(buf, head, tail)
  }

  ghost predicate Ok(s: State) {
    && Ring(s.buf, s.head, s.tail, s.accepted, s.returned)
    && (!s.phase.Waiting? ==> s.head != s.tail)
    && (s.phase.Holds? ==> s.phase.c == s.buf[s.tail])
  }

  const INITIAL := State(seq(SIZE, i => 0), 0, 0, false, false, Waiting, [], [])

  /** An interrupt is delivered while interrupts are on; getchar's steps follow one another. */
  predicate Enabled(s: State, e: Event) {
    match e
    case Interrupt(_) => s.phase.Waiting? || s.phase.Passed?
    case Check => s.phase.Waiting?
    case DisableInterrupts => s.phase.Passed?
    case Load => s.phase.Masked?
    case AdvanceAndReturn => s.phase.Holds?
  }

  /** The handler's effect on the variables it shares with getchar. */
  function Enqueue(s: State, c: u8): State
    requires |s.buf| == SIZE && s.head < SIZE
  {
    if c != 0 && (s.head + 1) % SIZE != s.tail
    then s.(buf := s.buf[s.head := c], head := (s.head + 1) % SIZE, accepted := s.accepted + [c])
    else s
  }

  /** k_handler */
  function Handled(s: State, scancode: u8): State
    requires |s.buf| == SIZE && s.head < SIZE
  {
    if scancode == 0x3A then s.(caps := !s.caps)
    else if scancode == 0x2A || scancode == 0x36 then s.(shift := true)
    else if scancode == 0xAA || scancode == 0xB6 then s.(shift := false)
    else if scancode < 128 then Enqueue(s, KeyChar(scancode, s.shift, s.caps))
    else s
  }

  function Next(s: State, e: Event): State
    requires |s.buf| == SIZE && s.head < SIZE && s.tail < SIZE && Enabled(s, e)
  {
    match e
    case Interrupt(scancode) => Handled(s, scancode)
    case Check => if s.head == s.tail then s else s.(phase := Passed)
    case DisableInterrupts => s.(phase := Masked)
    case Load => s.(phase := Holds(s.buf[s.tail]))
    case AdvanceAndReturn => s.(tail := (s.tail + 1) % SIZE, returned := s.returned + [s.phase.c], phase := Waiting)
  }

  lemma Put1(buf: seq<u8>, head: nat, tail: nat, accepted: seq<u8>, returned: seq<u8>, c: u8)
    requires Ring(buf, head, tail, accepted, returned) && (head + 1) % SIZE != tail
    ensures Ring(buf[head := c], (head + 1) % SIZE, tail, accepted + [c], returned)
    ensures head != tail ==> buf[head := c][tail] == buf[tail]
  {
    Appended(buf, head, tail, c);
  }

  lemma Take1(buf: seq<u8>, head: nat, tail: nat, accepted: seq<u8>, returned: seq<u8>)
    requires Ring(buf, head, tail, accepted, returned) && head != tail
    ensures Ring(buf, head, (tail + 1) % SIZE, accepted, returned + [buf[tail]])
  {
    Taken(buf, head, tail);
  }

  lemma EnqueueKeeps(s: State, c: u8)
    requires Ok(s) && (s.phase.Waiting? || s.phase.Passed?)
    ensures Ok(Enqueue(s, c))
  {
    if (s.head + 1) % SIZE != s.tail {
      Put1(s.buf, s.head, s.tail, s.accepted, s.returned, c);
    }
  }

  lemma HandlerKeeps(s: State, scancode: u8)
    requires Ok(s) && (s.phase.Waiting? || s.phase.Passed?)
    ensures Ok(Handled(s, scancode))
  {
    var c := KeyChar(scancode, s.shift, s.caps);
    EnqueueKeeps(s, c);
    ModifiersKeep(s);
    assert Handled(s, scancode) in {s, s.(caps := !s.caps), s.(shift := true), s.(shift := false), Enqueue(s, c)};
  }

  lemma ModifiersKeep(s: State)
    requires Ok(s)
    ensures Ok(s.(caps := !s.caps)) && Ok(s.(shift := true)) && Ok(s.(shift := false))
  {
  }

  lemma ReturnKeeps(s: State)
    requires Ok(s) && s.phase.Holds?
    ensures Ok(s.(tail := (s.tail + 1) % SIZE, returned := s.returned + [s.phase.c], phase := Waiting))
  {
    Take1(s.buf, s.head, s.tail, s.accepted, s.returned);
  }

  lemma StepKeeps(s: State, e: Event)
    requires Ok(s) && Enabled(s, e)
    ensures Ok(Next(s, e))
  {
    match e
    case Interrupt(scancode) =>
      HandlerKeeps(s, scancode);
    case AdvanceAndReturn =>
      ReturnKeeps(s);
    case _ =>
  }

  /** The states of a run. */
  ghost predicate Run(ss: seq<State>, es: seq<Event>) {
    && |ss| == |es| + 1 && Ok(ss[0])
    && forall i :: 0 <= i < |es| ==> Follows(ss[i], es[i], ss[i + 1])
  }

  ghost predicate Follows(s: State, e: Event, t: State) {
    |s.buf| == SIZE && s.head < SIZE && s.tail < SIZE && Enabled(s, e) && t == Next(s, e)
  }

  lemma RunStep(ss: seq<State>, es: seq<Event>, i: nat)
    requires Run(ss, es) && i < |es|
    ensures Follows(ss[i], es[i], ss[i + 1])
  {
  }

  lemma FollowsKeeps(s: State, e: Event, t: State)
    requires Ok(s) && Follows(s, e, t)
    ensures Ok(t)
  {
    StepKeeps(s, e);
  }

  lemma PrefixOf(s: State)
    requires Ok(s)
    ensures s.returned <= s.accepted
  {
  }

  /**
   * Under every interleaving the characters returned are a prefix of those accepted, in order:
   * none is lost, duplicated or overwritten on the way.
   */
  lemma {:induction false} EveryInterleaving(ss: seq<State>, es: seq<Event>, n: nat)
    requires Run(ss, es) && n <= |es|
    ensures Ok(ss[n]) && ss[n].returned <= ss[n].accepted
    decreases n
  {
    if n > 0 {
      EveryInterleaving(ss, es, n - 1);
      RunStep(ss, es, n - 1);
      FollowsKeeps(ss[n - 1], es[n - 1], ss[n]);
    }
    PrefixOf(ss[n]);
  }

  /** A key's character is accepted, unless 255 characters are waiting. */
  lemma DroppedOnlyWhenFull(s: State, scancode: u8)
    requires Ok(s) && Enabled(s, Interrupt(scancode)) && scancode < 128
    requires scancode != 0x3A && scancode != 0x2A && scancode != 0x36
    ensures var c, t := KeyChar(scancode, s.shift, s.caps), Next(s, Interrupt(scancode));
            && t.returned == s.returned
            && t.accepted ==
               if c == 0 || |Pending(s.buf, s.head, s.tail)| == 255 then s.accepted else s.accepted + [c]
  {
    PendingCount(s.buf, s.head, s.tail);
  }

  /** When nothing is waiting, everything accepted has been returned. */
  lemma DrainedWhenEmpty(s: State)
    requires Ok(s)
    ensures s.head == s.tail <==> s.returned == s.accepted
  {
    PendingCount(s.buf, s.head, s.tail);
  }

  // ---- The driver ----

  class Driver {
    const buffer: array<u8>
    var head: nat
    var tail: nat
    var shift: bool
    var caps: bool
    ghost var accepted: seq<u8>
    ghost var returned: seq<u8>

    ghost function Now(phase: Phase): State
      reads this, buffer
    {
      State(buffer[..], head, tail, shift, caps, phase, accepted, returned)
    }

    ghost predicate Valid()
      reads this, buffer
    {
      Ok(Now(Waiting))
    }

    constructor ()
      ensures Valid() && fresh(buffer) && Now(Waiting) == INITIAL
    {
      buffer := new u8[SIZE](i => 0);
      head, tail, shift, caps := 0, 0, false, false;
      accepted, returned := [], [];
    }

    /** k_handler, for the scancode the controller delivers. */
    method KHandler(scancode: u8)
      requires Valid()
      modifies this, buffer
      ensures Valid() && Now(Waiting) == Handled(old(Now(Waiting)), scancode)
    {
      if scancode == 0x3A {
        caps := !caps;
        return;
      }
      if scancode == 0x2A || scancode == 0x36 {
        shift := true;
        return;
      }
      if scancode == 0xAA || scancode == 0xB6 {
        shift := false;
        return;
      }
      if scancode < 128 {
        var c := if shift then UsShift(scancode) else Us(scancode);
        Store(AdjustCase(c, shift, caps));
      }
    }

    /** The end of k_handler: the character goes into the ring, if there is one and a slot is left. */
    method Store(c: u8)
      requires Valid()
      modifies this, buffer
      ensures Valid() && Now(Waiting) == Enqueue(old(Now(Waiting)), c)
    {
      EnqueueKeeps(Now(Waiting), c);
      if c != 0 {
        if (head + 1) % SIZE != tail {
          buffer[head] := c;
          head := (head + 1) % SIZE;
          accepted := accepted + [c];
        }
      }
    }

    /**
     * getchar. `scancodes` are what the interrupts deliver while it waits, one at a time; None
     * stands for a wait that has not ended with the last of them.
     */
    method Getchar(scancodes: seq<u8>) returns (c: Option<u8>, ghost used: nat)
      requires Valid()
      modifies this, buffer
      ensures Valid() && used <= |scancodes|
      ensures forall k :: 0 <= k < used ==> Drained(HandledAll(old(Now(Waiting)), scancodes[..k]))
      ensures var s := HandledAll(old(Now(Waiting)), scancodes[..used]);
              if c == None then Drained(s) && used == |scancodes| && Now(Waiting) == s
              else Oldest(s, c.value, Now(Waiting))
    {
      used := Await(scancodes);
      if head == tail {
        return None, used;
      }
      var oldest := Take();
      c := Some(oldest);
    }

    /** The wait: interrupts are handled until a character is there. */
    method Await(scancodes: seq<u8>) returns (ghost used: nat)
      requires Valid()
      modifies this, buffer
      ensures Valid() && Waited(old(Now(Waiting)), scancodes, used, Now(Waiting))
      ensures head == tail ==> used == |scancodes|
    {
      var i := 0;
      ghost var s0 := Now(Waiting);
      while head == tail && i < |scancodes|
        invariant 0 <= i <= |scancodes| && Valid() && Waited(s0, scancodes, i, Now(Waiting))
      {
        WaitedMore(s0, scancodes, i, Now(Waiting));
        KHandler(scancodes[i]);
        i := i + 1;
      }
      used := i;
    }

    /** The end of getchar, with a character in the ring. */
    method Take() returns (c: u8)
      requires Valid() && head != tail
      modifies this
      ensures Valid() && Oldest(old(Now(Waiting)), c, Now(Waiting))
    {
      OldestTaken(Now(Waiting));
      c := buffer[tail];
      tail := (tail + 1) % SIZE;
      returned := returned + [c];
    }
  }

  /** The state `t` after the oldest waiting character of `s`, which is `c`, was taken out and returned. */
  ghost predicate Oldest(s: State, c: u8, t: State)
    requires |s.buf| == |t.buf| == SIZE && s.head < SIZE && s.tail < SIZE && t.head < SIZE && t.tail < SIZE
  {
    && t.returned == s.returned + [c] && t.accepted == s.accepted
    && Pending(s.buf, s.head, s.tail) == [c] + Pending(t.buf, t.head, t.tail)
  }

  lemma OldestTaken(s: State)
    requires Ok(s) && s.phase.Waiting? && s.head != s.tail
    ensures var t := s.(tail := (s.tail + 1) % SIZE, returned := s.returned + [s.buf[s.tail]]);
            Ok(t) && Oldest(s, s.buf[s.tail], t)
  {
    Taken(s.buf, s.head, s.tail);
    Take1(s.buf, s.head, s.tail, s.accepted, s.returned);
  }

  /** Nothing is waiting in the ring. */
  predicate Drained(s: State) { s.head == s.tail }

  /** A row of interrupts. */
  function HandledAll(s: State, scancodes: seq<u8>): (t: State)
    requires |s.buf| == SIZE && s.head < SIZE
    ensures |t.buf| == SIZE && t.head < SIZE && t.tail == s.tail
    decreases |scancodes|
  {
    if scancodes == [] then s
    else Handled(HandledAll(s, scancodes[..|scancodes| - 1]), scancodes[|scancodes| - 1])
  }

  /** The wait has taken `i` interrupts, and nothing was there before the last of them. */
  ghost predicate Waited(s: State, scancodes: seq<u8>, i: nat, t: State)
    requires |s.buf| == SIZE && s.head < SIZE
  {
    && i <= |scancodes| && t == HandledAll(s, scancodes[..i])
    && forall k :: 0 <= k < i ==> Drained(HandledAll(s, scancodes[..k]))
  }

  lemma WaitedMore(s: State, scancodes: seq<u8>, i: nat, t: State)
    requires |s.buf| == SIZE && s.head < SIZE && i < |scancodes|
    requires Waited(s, scancodes, i, t) && Drained(t)
    ensures Waited(s, scancodes, i + 1, Handled(t, scancodes[i]))
  {
    assert scancodes[..i + 1][..i] == scancodes[..i];
  }
}
