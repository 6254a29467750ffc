/** C strings, and kstrtok with its resume pointer. */
module Tokens {
  import opened Machine

  const SLASH: u8 := 47
  /** The size of the buffers that hold a path. */
  const BUFFER := 256

  /** The C string at index `i`: the bytes up to the first NUL. */
  function CString(a: seq<u8>, i: nat): seq<u8>
    decreases |a| - i
  {
    if i < |a| && a[i] != 0 then [a[i]] + CString(a, i + 1) else []
  }

  /** Some byte from `i` on is a NUL. */
  predicate Terminated(a: seq<u8>, i: nat)
    decreases |a| - i
  {
    i < |a| && (a[i] == 0 || Terminated(a, i + 1))
  }

  lemma {:induction false} CStringEnd(a: seq<u8>, i: nat) returns (n: nat)
    requires Terminated(a, i)
    ensures n == |CString(a, i)| && i + n < |a| && a[i + n] == 0 && CString(a, i) == a[i..i + n]
    ensures forall k :: i <= k < i + n ==> a[k] != 0
    decreases |a| - i
  {
    if a[i] == 0 {
      n := 0;
    } else {
      n := CStringEnd(a, i + 1);
      n := n + 1;
      assert a[i..i + n] == [a[i]] + a[i + 1..i + n];
    }
  }

  /** The C string is what lies before the first NUL. */
  lemma {:induction false} CStringIs(a: seq<u8>, i: nat, n: nat)
    requires i + n < |a| && a[i + n] == 0 && forall k :: i <= k < i + n ==> a[k] != 0
    ensures Terminated(a, i) && CString(a, i) == a[i..i + n]
    decreases n
  {
    if n != 0 {
      CStringIs(a, i + 1, n - 1);
      assert a[i..i + n] == [a[i]] + a[i + 1..i + n];
    }
  }

  /** What lies behind index `i` decides the C string there. */
  lemma {:induction false} CStringSame(a: seq<u8>, b: seq<u8>, i: nat)
    requires |a| == |b| && forall k :: i <= k < |a| ==> a[k] == b[k]
    ensures CString(a, i) == CString(b, i) && (Terminated(a, i) <==> Terminated(b, i))
    decreases |a| - i
  {
    if i < |a| {
      CStringSame(a, b, i + 1);
    }
  }

  /** A string and its NUL are what they were if no byte of them changed. */
  lemma CStringKept(a: seq<u8>, b: seq<u8>, i: nat)
    requires Terminated(a, i) && |a| == |b| && forall k :: i <= k <= i + |CString(a, i)| && k < |a| ==> b[k] == a[k]
    ensures Terminated(b, i) && CString(b, i) == CString(a, i)
  {
    var n := CStringEnd(a, i);
    CStringIs(b, i, n);
    assert a[i..i + n] == b[i..i + n];
  }

  /** How far `s` goes before its first delimiter. */
  function Extent(s: seq<u8>, delim: seq<u8>): (n: nat)
    ensures n <= |s| && (forall i :: 0 <= i < n ==> s[i] !in delim) && (n < |s| ==> s[n] in delim)
  {
    if s == [] || s[0] in delim then 0 else 1 + Extent(s[1..], delim)
  }

  lemma ExtentIs(s: seq<u8>, delim: seq<u8>, n: nat)
    requires n <= |s| && (forall i :: 0 <= i < n ==> s[i] !in delim) && (n < |s| ==> s[n] in delim)
    ensures Extent(s, delim) == n
  {
  }

  /** The non-empty pieces between delimiters. */
  function Components(s: seq<u8>, delim: seq<u8>): seq<seq<u8>>
    decreases |s|
  {
    if s == [] then []
    else if s[0] in delim then Components(s[1..], delim)
    else [s[..Extent(s, delim)]] + Components(s[Extent(s, delim)..], delim)
  }

  lemma {:induction false} FirstComponent(s: seq<u8>, delim: seq<u8>)
    ensures Components(s, delim) != [] ==> Components(s, delim)[0] != []
    decreases |s|
  {
    if s != [] && s[0] in delim {
      FirstComponent(s[1..], delim);
    }
  }

  class Tokenizer {
    /** strtok_save: an index into `text`, or nothing when `text` is null. */
    var text: array?<u8>
    var save: nat

    constructor ()
      ensures text == null
    {
      text := null;
      save := 0;
    }

    /** A later call can resume: there is a NUL ahead. */
    ghost predicate Ready()
      reads this, text
    {
      text != null ==> Terminated(text[..], save)
    }

    /** What the next call with a null string would cut up. */
    ghost function Rest(): seq<u8>
      reads this, text
    {
      if text == null then [] else CString(text[..], save)
    }

    /** kstrtok(str, delim) */
    method Start(str: array<u8>, delim: seq<u8>) returns (tok: int)
      requires Terminated(str[..], 0)
      modifies this, str
      ensures Ready() && (text == null || text == str)
      ensures Cut(old(CString(str[..], 0)), delim, old(str[..]), str[..], tok, Rest())
      ensures tok >= 0 && text != null ==> tok + |CString(str[..], tok)| < save
    {
      text, save := str, 0;
      tok := Token(str, delim);
    }

    /** kstrtok(KNULL, delim) */
    method Next(delim: seq<u8>) returns (tok: int)
      requires Ready()
      modifies this, text
      ensures Ready() && (text == null || text == old(text))
      ensures old(text) == null ==> tok == -1 && text == null
      ensures old(text) != null ==>
                && Cut(old(Rest()), delim, old(text[..]), old(text)[..], tok, Rest())
                && (forall k :: 0 <= k < old(save) && k < old(text).Length ==> old(text)[k] == old(text[k]))
                && (tok >= 0 && text != null ==> tok + |CString(text[..], tok)| < save)
    {
      if text == null {
        return -1;
      }
      tok := Token(text, delim);
    }

    /** The scan from `save`. */
    method Token(str: array<u8>, delim: seq<u8>) returns (tok: int)
      requires text == str && Terminated(str[..], save)
      modifies this, str
      ensures Ready() && (text == null || text == str)
      ensures Cut(old(CString(str[..], save)), delim, old(str[..]), str[..], tok, Rest())
      ensures forall k :: 0 <= k < old(save) && k < str.Length ==> str[k] == old(str[k])
      ensures tok >= 0 && text != null ==> tok + |CString(str[..], tok)| < save
    {
      SkipDelimiters(str, delim);
      if str[save] == 0 {
        text := null;
        return -1;
      }
      tok := save;
      EndToken(str, delim);
    }

    method SkipDelimiters(str: array<u8>, delim: seq<u8>)
      requires text == str && Terminated(str[..], save)
      modifies `save
      ensures old(save) <= save && Terminated(str[..], save) && (str[save] == 0 || str[save] !in delim)
      ensures Components(CString(str[..], save), delim) == Components(old(CString(str[..], save)), delim)
    {
      while str[save] != 0 && str[save] in delim
        invariant Terminated(str[..], save) && old(save) <= save
        invariant Components(CString(str[..], save), delim) == Components(old(CString(str[..], save)), delim)
        decreases str.Length - save
      {
        assert CString(str[..], save) == [str[save]] + CString(str[..], save + 1);
        save := save + 1;
      }
    }

    /** From the first byte of a token to behind it, with a NUL put at its end. */
    method EndToken(str: array<u8>, delim: seq<u8>)
      requires text == str && Terminated(str[..], save) && str[save] != 0 && str[save] !in delim
      modifies this, str
      ensures Ready() && (text == null || text == str)
      ensures Cut(old(CString(str[..], save)), delim, old(str[..]), str[..], old(save), Rest())
      ensures forall k :: 0 <= k < old(save) && k < str.Length ==> str[k] == old(str[k])
      ensures text != null ==> old(save) + |CString(str[..], old(save))| < save
    {
      ghost var tok, was := save, str[..];
      FindEnd(str, delim);
      EndCut(was, tok, save, delim);
      if str[save] != 0 {
        str[save] := 0;
        assert str[..] == was[save := 0];
        save := save + 1;
      } else {
        text := null;
      }
    }

    method FindEnd(str: array<u8>, delim: seq<u8>)
      requires Terminated(str[..], save) && str[save] != 0 && str[save] !in delim
      modifies `save
      ensures old(save) < save < str.Length && (str[save] == 0 || str[save] in delim)
      ensures forall k :: old(save) <= k < save ==> str[k] != 0 && str[k] !in delim
    {
      ghost var tok := save;
      while str[save] != 0 && !(str[save] in delim)
        invariant Terminated(str[..], save) && tok <= save
        invariant forall k :: tok <= k < save ==> str[k] != 0 && str[k] !in delim
        invariant tok < save || (str[save] != 0 && str[save] !in delim)
        decreases str.Length - save
      {
        save := save + 1;
      }
    }
  }

  /** Ending the token between `tok` and `end` with a NUL cuts it off. */
  lemma EndCut(was: seq<u8>, tok: nat, end: nat, delim: seq<u8>)
    requires tok < end < |was| && Terminated(was, tok)
    requires forall k :: tok <= k < end ==> was[k] != 0 && was[k] !in delim
    requires was[end] == 0 || was[end] in delim
    ensures was[end] == 0 ==> Cut(CString(was, tok), delim, was, was, tok, [])
    ensures was[end] != 0 ==> Cut(CString(was, tok), delim, was, was[end := 0], tok, CString(was[end := 0], end + 1))
    ensures was[end] != 0 ==> Terminated(was[end := 0], end + 1) && |CString(was[end := 0], tok)| == end - tok
  {
    TokenCut(was, tok, end, delim);
    if was[end] == 0 {
      CStringIs(was, tok, end - tok);
    } else {
      CStringIs(was[end := 0], tok, end - tok);
      CStringSame(was, was[end := 0], end + 1);
      TerminatedAfter(was, tok, end);
    }
  }

  lemma {:induction false} TerminatedAfter(a: seq<u8>, i: nat, j: nat)
    requires i <= j < |a| && Terminated(a, i) && forall k :: i <= k < j ==> a[k] != 0
    ensures Terminated(a, j)
    decreases j - i
  {
    if i < j {
      TerminatedAfter(a, i + 1, j);
    }
  }

  /**
   * What one call does: it returns the first component of `s`, leaves the others for later
   * calls, and stores nothing but a NUL behind the component.
   */
  ghost predicate Cut(s: seq<u8>, delim: seq<u8>, was: seq<u8>, now: seq<u8>, tok: int, rest: seq<u8>) {
    && |now| == |was|
    && (if Components(s, delim) == [] then tok == -1 && rest == [] && now == was
        else && 0 <= tok < |now|
             && Terminated(now, tok) && CString(now, tok) == Components(s, delim)[0]
             && Components(rest, delim) == Components(s, delim)[1..]
             && forall k :: 0 <= k < |now| && k != tok + |CString(now, tok)| ==> now[k] == was[k])
  }

  /** The token between `tok` and `end` is the first component, and what follows it holds the others. */
  lemma TokenCut(a: seq<u8>, tok: nat, end: nat, delim: seq<u8>)
    requires tok < end && Terminated(a, tok) && end < |a|
    requires forall k :: tok <= k < end ==> a[k] != 0 && a[k] !in delim
    requires a[end] == 0 || a[end] in delim
    ensures var all := Components(CString(a, tok), delim);
            && all != [] && all[0] == a[tok..end]
            && all[1..] == if a[end] == 0 then [] else Components(CString(a, end + 1), delim)
  {
    var s := CString(a, tok);
    CStringTail(a, tok, end);
    var n := end - tok;
    assert forall i :: 0 <= i < n ==> s[i] == a[tok + i];
    ExtentIs(s, delim, n);
    assert s[..n] == a[tok..end] && s[n..] == CString(a, end);
    if a[end] != 0 {
      assert CString(a, end) == [a[end]] + CString(a, end + 1);
    }
  }

  lemma {:induction false} CStringTail(a: seq<u8>, i: nat, j: nat)
    requires i <= j < |a| && forall k :: i <= k < j ==> a[k] != 0
    ensures CString(a, i) == a[i..j] + CString(a, j)
    decreases j - i
  {
    if i < j {
      CStringTail(a, i + 1, j);
      assert a[i..j] == [a[i]] + a[i + 1..j];
      assert a[i..j] + CString(a, j) == [a[i]] + (a[i + 1..j] + CString(a, j));
    }
  }

  /** Calling kstrtok until it returns null yields all components, in order. */
  method AllTokens(str: array<u8>, delim: seq<u8>) returns (toks: seq<seq<u8>>)
    requires Terminated(str[..], 0)
    modifies str
    ensures toks == Components(old(CString(str[..], 0)), delim)
  {
    var t := new Tokenizer();
    ghost var all := Components(CString(str[..], 0), delim);
    var tok := t.Start(str, delim);
    toks := [];
    while tok >= 0
      invariant t.Ready() && (t.text == null || t.text == str)
      invariant Collected(all, toks, str[..], tok, Components(t.Rest(), delim))
      decreases |all| - |toks|
    {
      ghost var a, was, s, open := str[..], tok, t.Rest(), t.text != null;
      toks := toks + [CString(str[..], tok)];
      tok := t.Next(delim);
      CollectedStep(all, toks, a, was, s, delim, str[..], tok, t.Rest(), open);
    }
  }

  lemma CollectedStep(all: seq<seq<u8>>, toks: seq<seq<u8>>, a: seq<u8>, was: nat, s: seq<u8>, delim: seq<u8>,
                      now: seq<u8>, tok: int, rest: seq<u8>, open: bool)
    requires was < |a| && toks != [] && toks[|toks| - 1] == CString(a, was)
    requires Collected(all, toks[..|toks| - 1], a, was, Components(s, delim))
    requires if open then Cut(s, delim, a, now, tok, rest) else s == [] && tok == -1
    ensures Collected(all, toks, now, tok, Components(rest, delim))
  {
    assert toks == toks[..|toks| - 1] + [CString(a, was)];
  }

  /** The tokens so far, the current one, and those to come are all of them. */
  ghost predicate Collected(all: seq<seq<u8>>, toks: seq<seq<u8>>, a: seq<u8>, tok: int, rest: seq<seq<u8>>) {
    if tok < 0 then toks == all
    else tok < |a| && all == toks + [CString(a, tok)] + rest
  }
}
