/** Paths as stacks of names, and the normal form of a path. */
module VfsPath {
  import opened Machine
  import opened Tokens

  const DOT: u8 := 46

  /** The names a path is made of. */
  function Names(s: seq<u8>): seq<seq<u8>> {
    Components(s, [SLASH])
  }

  predicate IsDot(name: seq<u8>) { name == [DOT] }

  predicate IsDotDot(name: seq<u8>) { name == [DOT, DOT] }

  /** What one name does to the stack of names. */
  function Apply(stack: seq<seq<u8>>, name: seq<u8>): seq<seq<u8>> {
    if IsDot(name) then stack
    else if IsDotDot(name) then if stack == [] then [] else stack[..|stack| - 1]
    else stack + [name]
  }

  function Fold(stack: seq<seq<u8>>, names: seq<seq<u8>>): seq<seq<u8>>
    decreases |names|
  {
    if names == [] then stack else Fold(Apply(stack, names[0]), names[1..])
  }

  /** The path of a stack; the root is a single slash. */
  function Join(stack: seq<seq<u8>>): seq<u8> {
    if stack == [] then [SLASH] else Under(stack[..|stack| - 1]) + stack[|stack| - 1]
  }

  /** The path of a stack, ready for another name: it ends in a slash. */
  function Under(stack: seq<seq<u8>>): seq<u8>
    decreases |stack|
  {
    if stack == [] then [SLASH] else Under(stack[..|stack| - 1]) + stack[|stack| - 1] + [SLASH]
  }

  function Normal(path: seq<u8>): seq<u8> {
    Join(Fold([], Names(path)))
  }

  /** A name: some characters, none of them a slash or a NUL. */
  predicate Plain(name: seq<u8>) {
    name != [] && forall i :: 0 <= i < |name| ==> name[i] != SLASH && name[i] != 0
  }

  predicate NoNul(s: seq<u8>) {
    forall i :: 0 <= i < |s| ==> s[i] != 0
  }

  /** A name that stays on the stack. */
  predicate Proper(name: seq<u8>) {
    Plain(name) && !IsDot(name) && !IsDotDot(name)
  }

  predicate ProperStack(stack: seq<seq<u8>>) {
    forall i :: 0 <= i < |stack| ==> Proper(stack[i])
  }

  /** A path in normal form. */
  ghost predicate InNormalForm(path: seq<u8>) {
    exists stack :: ProperStack(stack) && path == Join(stack)
  }

  /** One name at a time: leading slashes go, then the characters up to the next slash. */
  lemma NamesStep(s: seq<u8>)
    requires s != []
    ensures s[0] == SLASH ==> Names(s) == Names(s[1..])
    ensures s[0] != SLASH ==> var n := Extent(s, [SLASH]); n > 0 && Names(s) == [s[..n]] + Names(s[n..])
    ensures forall i :: 0 <= i < Extent(s, [SLASH]) ==> s[i] != SLASH
  {
    assert [SLASH][0] == SLASH;
    assert SLASH in [SLASH];
  }

  /** Names of a path have no slash and are not empty. */
  lemma {:induction false} NamesPlain(s: seq<u8>)
    requires NoNul(s)
    ensures forall i :: 0 <= i < |Names(s)| ==> Plain(Names(s)[i])
    decreases |s|
  {
    if s != [] {
      NamesStep(s);
      if s[0] == SLASH {
        NamesPlain(s[1..]);
      } else {
        var n := Extent(s, [SLASH]);
        NamesPlain(s[n..]);
        assert Plain(s[..n]);
      }
    }
  }

  lemma {:induction false} FoldProper(stack: seq<seq<u8>>, names: seq<seq<u8>>)
    requires ProperStack(stack)
    requires forall i :: 0 <= i < |names| ==> Plain(names[i])
    ensures ProperStack(Fold(stack, names))
    decreases |names|
  {
    if names != [] {
      FoldProper(Apply(stack, names[0]), names[1..]);
    }
  }

  /** Normalising gives a path in normal form. */
  lemma NormalIsNormal(path: seq<u8>)
    requires NoNul(path)
    ensures InNormalForm(Normal(path))
  {
    NamesPlain(path);
    FoldProper([], Names(path));
  }

  /** A stack of proper names is what its path's names fold to. */
  lemma {:induction false} FoldPlain(stack: seq<seq<u8>>, names: seq<seq<u8>>)
    requires ProperStack(names)
    ensures Fold(stack, names) == stack + names
    decreases |names|
  {
    if names != [] {
      FoldPlain(stack + [names[0]], names[1..]);
      assert stack + [names[0]] + names[1..] == stack + names;
    } else {
      assert stack + names == stack;
    }
  }

  /** The names in front of a slash and the names behind it are the names of the whole. */
  lemma {:induction false} NamesConcat(s: seq<u8>, t: seq<u8>)
    requires s == [] || s[|s| - 1] == SLASH || t == [] || t[0] == SLASH
    ensures Names(s + t) == Names(s) + Names(t)
    decreases |s|
  {
    if s == [] {
      assert s + t == t;
    } else if s[0] == SLASH {
      assert (s + t)[1..] == s[1..] + t;
      NamesConcat(s[1..], t);
    } else {
      var n := Extent(s, [SLASH]);
      ExtentConcat(s, t, n);
      assert (s + t)[..n] == s[..n] && (s + t)[n..] == s[n..] + t;
      NamesConcat(s[n..], t);
      assert [s[..n]] + (Names(s[n..]) + Names(t)) == [s[..n]] + Names(s[n..]) + Names(t);
    }
  }

  lemma ExtentConcat(s: seq<u8>, t: seq<u8>, n: nat)
    requires n == Extent(s, [SLASH]) && s != [] && s[0] != SLASH
    requires s[|s| - 1] == SLASH || t == [] || t[0] == SLASH
    ensures Extent(s + t, [SLASH]) == n
  {
    ExtentIs(s + t, [SLASH], n);
  }

  lemma NameAlone(name: seq<u8>)
    requires Plain(name)
    ensures Names(name) == [name]
  {
    NamesStep(name);
    ExtentIs(name, [SLASH], |name|);
    assert name[..|name|] == name && name[|name|..] == [];
  }

  lemma {:induction false} NamesOfUnder(stack: seq<seq<u8>>)
    requires ProperStack(stack)
    ensures Names(Under(stack)) == stack && Under(stack) != [] && Under(stack)[|Under(stack)| - 1] == SLASH
    decreases |stack|
  {
    SlashAlone();
    if stack != [] {
      var front, name := stack[..|stack| - 1], stack[|stack| - 1];
      NamesOfUnder(front);
      UnderMore(Under(front), name);
      assert stack == front + [name];
    }
  }

  lemma UnderMore(u: seq<u8>, name: seq<u8>)
    requires u != [] && u[|u| - 1] == SLASH && Plain(name)
    ensures Names(u + name + [SLASH]) == Names(u) + [name]
  {
    NamesConcat(u, name);
    NameAlone(name);
    NamesConcat(u + name, [SLASH]);
    SlashAlone();
  }

  lemma SlashAlone()
    ensures Names([SLASH]) == []
  {
    NamesStep([SLASH]);
    assert [SLASH][1..] == [];
  }

  /** Splitting undoes joining. */
  lemma NamesOfJoin(stack: seq<seq<u8>>)
    requires ProperStack(stack)
    ensures Names(Join(stack)) == stack
  {
    if stack == [] {
      SlashAlone();
    } else {
      var front, name := stack[..|stack| - 1], stack[|stack| - 1];
      NamesOfUnder(front);
      NamesConcat(Under(front), name);
      NameAlone(name);
      assert stack == front + [name];
    }
  }

  /** A path in normal form is its own normal form. */
  lemma NormalFixed(path: seq<u8>)
    requires InNormalForm(path)
    ensures Normal(path) == path
  {
    var stack :| ProperStack(stack) && path == Join(stack);
    NamesOfJoin(stack);
    FoldPlain([], stack);
    assert [] + stack == stack;
  }

  /** Normalising twice is normalising once. */
  lemma NormalIdempotent(path: seq<u8>)
    requires NoNul(path)
    ensures Normal(Normal(path)) == Normal(path)
  {
    NormalIsNormal(path);
    NormalFixed(Normal(path));
  }

  // ---- Lengths ----

  /** The length of a stack's path, with the root counted as empty. */
  function Length(stack: seq<seq<u8>>): nat {
    if stack == [] then 0 else Length(stack[..|stack| - 1]) + |stack[|stack| - 1]| + 1
  }

  lemma {:induction false} UnderLength(stack: seq<seq<u8>>)
    ensures |Under(stack)| == Length(stack) + 1
    decreases |stack|
  {
    if stack != [] {
      UnderLength(stack[..|stack| - 1]);
    }
  }

  lemma JoinLength(stack: seq<seq<u8>>)
    ensures |Join(stack)| == if stack == [] then 1 else Length(stack)
  {
    if stack != [] {
      UnderLength(stack[..|stack| - 1]);
    }
  }

  lemma LengthSnoc(stack: seq<seq<u8>>, name: seq<u8>)
    ensures Length(stack + [name]) == Length(stack) + |name| + 1
  {
    assert (stack + [name])[..|stack|] == stack;
  }

  lemma {:induction false} LengthCons(name: seq<u8>, stack: seq<seq<u8>>)
    ensures Length([name] + stack) == |name| + 1 + Length(stack)
    decreases |stack|
  {
    if stack == [] {
      assert [name] + stack == [] + [name];
      LengthSnoc([], name);
    } else {
      var front, last := stack[..|stack| - 1], stack[|stack| - 1];
      assert [name] + stack == ([name] + front) + [last];
      LengthSnoc([name] + front, last);
      LengthCons(name, front);
    }
  }

  lemma {:induction false} LengthConcat(xs: seq<seq<u8>>, ys: seq<seq<u8>>)
    ensures Length(xs + ys) == Length(xs) + Length(ys)
    decreases |xs|
  {
    if xs == [] {
      assert xs + ys == ys;
    } else {
      assert xs == [xs[0]] + xs[1..] && xs + ys == [xs[0]] + (xs[1..] + ys);
      LengthCons(xs[0], xs[1..]);
      LengthCons(xs[0], xs[1..] + ys);
      LengthConcat(xs[1..], ys);
    }
  }

  lemma {:induction false} FoldShorter(stack: seq<seq<u8>>, names: seq<seq<u8>>)
    ensures Length(Fold(stack, names)) <= Length(stack) + Length(names)
    decreases |names|
  {
    if names != [] {
      assert names == [names[0]] + names[1..];
      LengthCons(names[0], names[1..]);
      LengthSnoc(stack, names[0]);
      FoldShorter(Apply(stack, names[0]), names[1..]);
    }
  }

  lemma {:induction false} NamesShorter(s: seq<u8>)
    ensures Length(Names(s)) <= |s| + if s != [] && s[0] != SLASH then 1 else 0
    decreases |s|
  {
    if s != [] {
      NamesStep(s);
      if s[0] == SLASH {
        NamesShorter(s[1..]);
      } else {
        var n := Extent(s, [SLASH]);
        NamesShorter(s[n..]);
        BehindName(s, n);
        LengthCons(s[..n], Names(s[n..]));
      }
    }
  }

  lemma BehindName(s: seq<u8>, n: nat)
    requires n == Extent(s, [SLASH])
    ensures n < |s| ==> s[n..][0] == SLASH
  {
  }

  /** The normal form of an absolute path is never longer than the path. */
  lemma NormalShorter(path: seq<u8>)
    requires path != [] && path[0] == SLASH
    ensures 0 < |Normal(path)| <= |path|
  {
    NamesShorter(path);
    FoldShorter([], Names(path));
    JoinLength(Fold([], Names(path)));
  }
}
