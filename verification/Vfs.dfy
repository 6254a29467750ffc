/** vfs_normalize_path, and the text vfs_resolve gives it. */
module Vfs {
  import opened Machine
  import opened Tokens
  import opened VfsPath
  import opened Format
  import KString

  // ---- The buffer and the stack it spells ----

  /** `t` is the path of the stack, with or without a slash for the next name. */
  ghost predicate Spells(t: seq<u8>, stack: seq<seq<u8>>) {
    t == Join(stack) || t == Under(stack)
  }

  ghost predicate PlainStack(stack: seq<seq<u8>>) {
    forall i :: 0 <= i < |stack| ==> Plain(stack[i])
  }

  lemma {:induction false} UnderEnds(stack: seq<seq<u8>>)
    ensures Under(stack) != [] && Under(stack)[|Under(stack)| - 1] == SLASH && Under(stack)[0] == SLASH
    ensures stack != [] ==> Under(stack) == Join(stack) + [SLASH]
    decreases |stack|
  {
    if stack != [] {
      UnderEnds(stack[..|stack| - 1]);
    }
  }

  lemma JoinEnds(stack: seq<seq<u8>>)
    requires PlainStack(stack)
    ensures Join(stack) != [] && Join(stack)[0] == SLASH
    ensures stack == [] <==> |Join(stack)| == 1
    ensures stack != [] ==> Join(stack)[|Join(stack)| - 1] != SLASH
    ensures stack == [] ==> Join(stack) == Under(stack) == [SLASH]
  {
    if stack != [] {
      UnderEnds(stack[..|stack| - 1]);
      assert Plain(stack[|stack| - 1]);
    }
  }

  /** The buffer's first `pos` characters, and the stack they spell. */
  ghost predicate Buffered(tmp: array<u8>, pos: nat, stack: seq<seq<u8>>)
    reads tmp
  {
    && tmp.Length == BUFFER && 0 < pos <= BUFFER && |Join(stack)| < BUFFER
    && PlainStack(stack) && Spells(tmp[..pos], stack)
  }

  /** A ".." : back to the slash before the last name. */
  method Pop(tmp: array<u8>, pos0: nat, ghost comp: seq<u8>, ghost stack: seq<seq<u8>>) returns (pos: nat)
    requires Buffered(tmp, pos0, stack) && IsDotDot(comp)
    ensures 0 < pos <= pos0 && Buffered(tmp, pos, Apply(stack, comp))
  {
    pos := pos0;
    ghost var t := tmp[..pos];
    if pos > 1 {
      ghost var u, name := LastName(t, stack);
      if tmp[pos - 1] == SLASH {
        pos := pos - 1;
        assert tmp[..pos] == t[..pos] == u + name;
      }
      pos := BackToSlash(tmp, pos, u, name);
    } else {
      OnlyRoot(t, stack);
    }
  }

  lemma OnlyRoot(t: seq<u8>, stack: seq<seq<u8>>)
    requires Spells(t, stack) && PlainStack(stack) && |t| == 1
    ensures stack == []
  {
    UnderEnds(stack);
    JoinEnds(stack);
  }

  /** The text in front of the last name, which spells what remains when that goes. */
  lemma LastName(t: seq<u8>, stack: seq<seq<u8>>) returns (u: seq<u8>, name: seq<u8>)
    requires Spells(t, stack) && PlainStack(stack) && |t| > 1 && |Join(stack)| < BUFFER
    ensures stack != [] && Plain(name) && u != [] && u[|u| - 1] == SLASH
    ensures t == if t[|t| - 1] == SLASH then u + name + [SLASH] else u + name
    ensures var front := stack[..|stack| - 1]; PlainStack(front) && Spells(u, front) && |Join(front)| < BUFFER
  {
    UnderEnds(stack);
    JoinEnds(stack);
    var front := stack[..|stack| - 1];
    UnderEnds(front);
    JoinEnds(front);
    u, name := Under(front), stack[|stack| - 1];
    assert Plain(name);
    assert (u + name)[|u + name| - 1] == name[|name| - 1];
  }

  method BackToSlash(tmp: array<u8>, pos0: nat, ghost u: seq<u8>, ghost name: seq<u8>) returns (pos: nat)
    requires pos0 <= tmp.Length && tmp[..pos0] == u + name && u != [] && u[|u| - 1] == SLASH && Plain(name)
    ensures pos == |u| && tmp[..pos] == u
  {
    pos := pos0;
    while pos > 0 && tmp[pos - 1] != SLASH
      invariant |u| <= pos <= |u| + |name|
    {
      assert tmp[|u| - 1] == tmp[..pos0][|u| - 1];
      pos := pos - 1;
    }
    NoSlashInside(tmp[..pos0], u, name, pos);
    assert tmp[..pos] == tmp[..pos0][..pos];
  }

  lemma NoSlashInside(t: seq<u8>, u: seq<u8>, name: seq<u8>, pos: nat)
    requires t == u + name && Plain(name) && |u| <= pos <= |t| && pos > 0
    ensures t[pos - 1] == SLASH ==> pos == |u|
  {
    if pos > |u| {
      assert t[pos - 1] == name[pos - 1 - |u|];
    }
  }

  /** The name is one that goes onto the stack, but its path would fill the buffer. */
  predicate Overflows(stack: seq<seq<u8>>, name: seq<u8>) {
    !IsDot(name) && !IsDotDot(name) && |Under(stack)| + |name| >= BUFFER
  }

  /** The buffer with a slash at its end. */
  method AddSlash(tmp: array<u8>, pos0: nat, ghost stack: seq<seq<u8>>) returns (pos: nat)
    requires Buffered(tmp, pos0, stack)
    modifies tmp
    ensures pos == |Under(stack)| <= BUFFER && tmp[..pos] == Under(stack)
  {
    pos := pos0;
    ghost var t := tmp[..pos];
    UnderOf(t, stack);
    if pos > 1 && tmp[pos - 1] != SLASH {
      tmp[pos] := SLASH;
      pos := pos + 1;
      assert tmp[..pos] == t + [SLASH];
    }
  }

  lemma UnderOf(t: seq<u8>, stack: seq<seq<u8>>)
    requires Spells(t, stack) && PlainStack(stack)
    ensures t != []
    ensures if |t| > 1 && t[|t| - 1] != SLASH then t == Join(stack) && t + [SLASH] == Under(stack)
            else t == Under(stack)
  {
    UnderEnds(stack);
    JoinEnds(stack);
  }

  /** A name: behind a slash, which is added if there is none, unless it does not fit. */
  method Push(tmp: array<u8>, pos0: nat, comp: seq<u8>, ghost stack: seq<seq<u8>>) returns (pos: nat, fits: bool)
    requires Buffered(tmp, pos0, stack) && Proper(comp)
    modifies tmp
    ensures fits <==> !Overflows(stack, comp)
    ensures Buffered(tmp, pos, if fits then Apply(stack, comp) else stack)
  {
    pos := AddSlash(tmp, pos0, stack);
    ghost var w := tmp[..];
    fits := pos + |comp| < BUFFER;
    if fits {
      KString.PutBytes(tmp, pos, comp);
      PushSpells(w, tmp[..], pos, stack, comp);
      pos := pos + |comp|;
    }
  }

  lemma PushSpells(w: seq<u8>, now: seq<u8>, pos: nat, stack: seq<seq<u8>>, comp: seq<u8>)
    requires pos + |comp| <= |w| && w[..pos] == Under(stack) && now == Put(w, pos, comp) && Proper(comp)
    ensures now[..pos + |comp|] == Join(Apply(stack, comp)) && |Join(Apply(stack, comp))| == pos + |comp|
  {
    assert now[..pos + |comp|] == w[..pos] + comp;
    assert (stack + [comp])[..|stack|] == stack;
  }

  // ---- The walk along the path ----

  /** The fold of the names as the code computes it: it stops at the first name that does not fit the buffer. */
  function FoldFit(stack: seq<seq<u8>>, names: seq<seq<u8>>): seq<seq<u8>>
    decreases |names|
  {
    if names == [] || Overflows(stack, names[0]) then stack else FoldFit(Apply(stack, names[0]), names[1..])
  }

  /** No name is longer than the buffer a name is copied to. */
  predicate Short(names: seq<seq<u8>>) {
    forall i :: 0 <= i < |names| ==> |names[i]| < BUFFER
  }

  /** What the path from index `p` on still does to the stack gives what the whole path gives. */
  ghost predicate Onward(path: seq<u8>, p: nat, stack: seq<seq<u8>>)
    requires p <= |path|
  {
    FoldFit(stack, Names(path[p..])) == FoldFit([], Names(path)) && Short(Names(path[p..]))
  }

  lemma SkipSlash(path: seq<u8>, p: nat, stack: seq<seq<u8>>)
    requires p < |path| && path[p] == SLASH && Onward(path, p, stack)
    ensures Onward(path, p + 1, stack)
  {
    NamesStep(path[p..]);
    assert path[p..][1..] == path[p + 1..];
  }

  /** The name between `start` and `p` comes next. */
  lemma NextName(path: seq<u8>, start: nat, p: nat, stack: seq<seq<u8>>)
    requires start < p <= |path| && NoNul(path) && Onward(path, start, stack)
    requires (forall k :: start <= k < p ==> path[k] != SLASH) && (p < |path| ==> path[p] == SLASH)
    ensures Plain(path[start..p]) && Reached(path, p, stack, path[start..p])
  {
    var s, n := path[start..], p - start;
    NamesStep(s);
    assert [SLASH][0] == SLASH;
    ExtentIs(s, [SLASH], n);
    assert s[..n] == path[start..p] && s[n..] == path[p..];
    FirstName(stack, path[start..p], Names(path[p..]), Names(s));
  }

  lemma FirstName(stack: seq<seq<u8>>, name: seq<u8>, rest: seq<seq<u8>>, names: seq<seq<u8>>)
    requires names == [name] + rest && Short(names)
    ensures |name| < BUFFER && Short(rest)
    ensures FoldFit(stack, names) == if Overflows(stack, name) then stack else FoldFit(Apply(stack, name), rest)
  {
    assert names[0] == name && names[1..] == rest;
    assert forall i :: 0 <= i < |rest| ==> rest[i] == names[i + 1];
  }

  /** Behind `name`, the path goes on from index `p`, or ends there because the name does not fit. */
  ghost predicate Reached(path: seq<u8>, p: nat, stack: seq<seq<u8>>, name: seq<u8>)
    requires p <= |path|
  {
    && |name| < BUFFER
    && if Overflows(stack, name) then FoldFit([], Names(path)) == stack else Onward(path, p, Apply(stack, name))
  }

  /** The bounds of the next name: behind the slashes at `p0`, up to the next slash or the end. */
  method NextComponent(path: seq<u8>, p0: nat, ghost stack: seq<seq<u8>>) returns (start: nat, p: nat)
    requires p0 < |path| && NoNul(path) && Onward(path, p0, stack)
    ensures p0 <= start <= p <= |path| && p0 < p && (p < |path| ==> path[p] == SLASH)
    ensures start == p ==> p == |path| && Onward(path, p, stack)
    ensures start < p ==> Plain(path[start..p]) && Reached(path, p, stack, path[start..p])
  {
    start := SkipSlashes(path, p0, stack);
    p := start;
    if p == |path| {
      return;
    }
    while p < |path| && path[p] != SLASH
      invariant start <= p <= |path| && forall k :: start <= k < p ==> path[k] != SLASH
    {
      p := p + 1;
    }
    NextName(path, start, p, stack);
  }

  method SkipSlashes(path: seq<u8>, p0: nat, ghost stack: seq<seq<u8>>) returns (p: nat)
    requires p0 < |path| && Onward(path, p0, stack)
    ensures p0 <= p <= |path| && Onward(path, p, stack) && (p < |path| ==> path[p] != SLASH)
  {
    p := p0;
    while p < |path| && path[p] == SLASH
      invariant p0 <= p <= |path| && Onward(path, p, stack)
    {
      SkipSlash(path, p, stack);
      p := p + 1;
    }
  }

  /** A copy of the C string `src`, cut or filled with NULs to `n` characters. */
  function Clip(src: seq<u8>, n: nat): (s: seq<u8>)
    ensures |s| == n
  {
    seq(n, i requires 0 <= i < n => if i < |src| then src[i] else 0)
  }

  /** kstrncpy */
  method Kstrncpy(dest: array<u8>, src: seq<u8>, n: nat)
    requires n <= dest.Length
    modifies dest
    ensures dest[..] == Put(old(dest[..]), 0, Clip(src, n))
  {
    ghost var was := dest[..];
    for i := 0 to n
      invariant forall k :: 0 <= k < dest.Length ==> dest[k] == if k < i then Clip(src, n)[k] else was[k]
    {
      dest[i] := if i < |src| then src[i] else 0;
    }
  }

  /** What vfs_normalize_path makes of a path: only absolute paths are changed, and none is empty. */
  function Normalized(path: seq<u8>): seq<u8> {
    if path == [] then [SLASH] else if path[0] != SLASH then path else Join(FoldFit([], Names(path)))
  }

  /** An absolute path that fits the callers' buffers is normalised whole: no name is dropped. */
  lemma NormalizedWhole(path: seq<u8>)
    requires path != [] && path[0] == SLASH && |path| < BUFFER
    ensures Short(Names(path)) && Normalized(path) == Normal(path)
  {
    NamesShorter(path);
    NamesShort(Names(path));
    FoldFits([], Names(path));
  }

  lemma {:induction false} NamesShort(names: seq<seq<u8>>)
    requires Length(names) < BUFFER
    ensures Short(names)
    decreases |names|
  {
    if names != [] {
      assert names == [names[0]] + names[1..];
      LengthCons(names[0], names[1..]);
      NamesShort(names[1..]);
      assert forall i :: 0 < i < |names| ==> names[i] == names[1..][i - 1];
    }
  }

  lemma {:induction false} FoldFits(stack: seq<seq<u8>>, names: seq<seq<u8>>)
    requires Length(stack) + Length(names) < BUFFER
    ensures FoldFit(stack, names) == Fold(stack, names)
    decreases |names|
  {
    if names != [] {
      assert names == [names[0]] + names[1..];
      LengthCons(names[0], names[1..]);
      UnderLength(stack);
      LengthSnoc(stack, names[0]);
      FoldFits(Apply(stack, names[0]), names[1..]);
    }
  }

  /** vfs_normalize_path, for paths whose names fit the buffer they are copied to. */
  method NormalizePath(path: seq<u8>, out: array<u8>, size: nat)
    requires NoNul(path) && size <= out.Length
    requires path != [] && path[0] == SLASH ==> Short(Names(path))
    modifies out
    ensures out[..] == Put(old(out[..]), 0, Clip(Normalized(path), size))
  {
    if path == [] {
      Kstrncpy(out, [SLASH], size);
      return;
    }
    if path[0] != SLASH {
      Kstrncpy(out, path, size);
      return;
    }
    var result := Collapse(path);
    Kstrncpy(out, result, size);
  }

  /** The loop over the names of an absolute path, and the text it leaves in the buffer. */
  method Collapse(path: seq<u8>) returns (result: seq<u8>)
    requires NoNul(path) && path != [] && path[0] == SLASH && Short(Names(path))
    ensures result == Normalized(path)
  {
    var tmp := new u8[BUFFER](i => 0);
    var pos, p, full := 1, 1, false;
    tmp[0] := SLASH;
    ghost var stack: seq<seq<u8>> := [];
    Started(path, tmp[..1]);
    while p < |path| && !full
      invariant Buffered(tmp, pos, stack) && p <= |path|
      invariant if full then FoldFit([], Names(path)) == stack else Onward(path, p, stack)
      decreases |path| - p
    {
      pos, p, full, stack := Round(path, tmp, pos, p, stack);
    }
    if !full {
      Ended(path, stack);
    }
    result := Finish(tmp, pos, stack);
  }

  /** One name of the path, or the slashes at its end. */
  method Round(path: seq<u8>, tmp: array<u8>, pos0: nat, p0: nat, ghost stack0: seq<seq<u8>>)
    returns (pos: nat, p: nat, full: bool, ghost stack: seq<seq<u8>>)
    requires NoNul(path) && p0 < |path| && Buffered(tmp, pos0, stack0) && Onward(path, p0, stack0)
    modifies tmp
    ensures p0 < p <= |path| && Buffered(tmp, pos, stack)
    ensures if full then FoldFit([], Names(path)) == stack else Onward(path, p, stack)
  {
    var start, end := NextComponent(path, p0, stack0);
    pos, p, full, stack := pos0, end, false, stack0;
    if start == end {
      return;
    }
    var name := Component(path[start..end]);
    pos, full := Step(tmp, pos, name, stack);
    if !full {
      stack := Apply(stack, name);
    }
  }

  /** A name, through the buffer it is copied to. */
  method Component(name: seq<u8>) returns (copy: seq<u8>)
    requires |name| < BUFFER
    ensures copy == name
  {
    var comp := new u8[BUFFER];
    KString.PutBytes(comp, 0, name);
    comp[|name|] := 0;
    copy := comp[..|name|];
  }

  /** What one name does to the buffer. */
  method Step(tmp: array<u8>, pos0: nat, comp: seq<u8>, ghost stack: seq<seq<u8>>) returns (pos: nat, full: bool)
    requires Buffered(tmp, pos0, stack) && Plain(comp)
    modifies tmp
    ensures full <==> Overflows(stack, comp)
    ensures Buffered(tmp, pos, if full then stack else Apply(stack, comp))
  {
    pos, full := pos0, false;
    if IsDotDot(comp) {
      pos := Pop(tmp, pos, comp, stack);
    } else if !IsDot(comp) {
      var fits;
      pos, fits := Push(tmp, pos, comp, stack);
      full := !fits;
    }
  }

  lemma Ended(path: seq<u8>, stack: seq<seq<u8>>)
    requires Onward(path, |path|, stack)
    ensures FoldFit([], Names(path)) == stack
  {
    assert path[|path|..] == [];
  }

  lemma Started(path: seq<u8>, t: seq<u8>)
    requires path != [] && path[0] == SLASH && t == [SLASH] && Short(Names(path))
    ensures Spells(t, []) && Onward(path, 1, [])
  {
    NamesStep(path);
  }

  /** The trailing slash goes, unless it is the root, and a NUL is stored behind the path. */
  method Finish(tmp: array<u8>, pos0: nat, ghost stack: seq<seq<u8>>) returns (result: seq<u8>)
    requires Buffered(tmp, pos0, stack)
    modifies tmp
    ensures result == Join(stack)
  {
    var pos := pos0;
    ghost var t := tmp[..pos];
    UnderOf(t, stack);
    JoinEnds(stack);
    if pos > 1 && tmp[pos - 1] == SLASH {
      pos := pos - 1;
      UnderEnds(stack);
      assert tmp[..pos] == t[..pos];
    }
    assert tmp[..pos] == Join(stack);
    tmp[pos] := 0;
    result := tmp[..pos];
  }

  // ---- vfs_resolve ----

  const PERCENT_S_SLASH_S: seq<u8> := [37, 115, 47, 37, 115]
  const SLASH_PERCENT_S: seq<u8> := [47, 37, 115]

  /** The text vfs_resolve normalises; "%s" passes no more than 31 characters. */
  function Joined(cwd: seq<u8>, path: seq<u8>): seq<u8> {
    if path == [] then cwd
    else if path[0] == SLASH then path
    else if cwd == [SLASH] then [SLASH] + Cut31(path)
    else Cut31(cwd) + [SLASH] + Cut31(path)
  }

  function Resolved(cwd: seq<u8>, path: seq<u8>): seq<u8> {
    Normal(Joined(cwd, path))
  }

  lemma OneName(path: seq<u8>)
    requires NoNul(path)
    ensures Supplied(SLASH_PERCENT_S, 0, [Str(path)])
    ensures Render(SLASH_PERCENT_S, 0, [Str(path)]) == [SLASH] + Cut31(path)
  {
    assert DirectiveAt(SLASH_PERCENT_S, 2) == Directive(false, 0, false, 115, 3);
    NothingPadded(Cut31(path));
    assert Render(SLASH_PERCENT_S, 3, []) == [];
    assert Supplied(SLASH_PERCENT_S, 1, [Str(path)]);
  }

  lemma NothingPadded(s: seq<u8>)
    ensures Padded(Directive(false, 0, false, 115, 3), s) == s
    ensures Padded(Directive(false, 0, false, 115, 2), s) == s
    ensures Padded(Directive(false, 0, false, 115, 5), s) == s
  {
  }

  lemma TwoNames(cwd: seq<u8>, path: seq<u8>)
    requires NoNul(cwd) && NoNul(path)
    ensures Supplied(PERCENT_S_SLASH_S, 0, [Str(cwd), Str(path)])
    ensures Render(PERCENT_S_SLASH_S, 0, [Str(cwd), Str(path)]) == Cut31(cwd) + [SLASH] + Cut31(path)
  {
    var f := PERCENT_S_SLASH_S;
    assert DirectiveAt(f, 1) == Directive(false, 0, false, 115, 2);
    assert DirectiveAt(f, 4) == Directive(false, 0, false, 115, 5);
    NothingPadded(Cut31(cwd));
    NothingPadded(Cut31(path));
    assert [Str(cwd), Str(path)][1..] == [Str(path)];
    assert Supplied(f, 5, []) && Render(f, 5, []) == [];
    assert Supplied(f, 3, [Str(path)]) && Render(f, 3, [Str(path)]) == Cut31(path);
    assert Supplied(f, 2, [Str(path)]) && Render(f, 2, [Str(path)]) == [SLASH] + Cut31(path);
  }
}
