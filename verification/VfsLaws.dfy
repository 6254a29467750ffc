/** What ".", "..", slashes and names do to the normal form of a path, one component at a time. */
module VfsLaws {
  import opened Machine
  import opened Tokens
  import opened VfsPath
  import opened Vfs
  import EL = Ext2Layout
  import VC = VfsCwd

  const UP: seq<u8> := [DOT, DOT]

  lemma {:induction false} FoldConcat(stack: seq<seq<u8>>, xs: seq<seq<u8>>, ys: seq<seq<u8>>)
    ensures Fold(stack, xs + ys) == Fold(Fold(stack, xs), ys)
    decreases |xs|
  {
    if xs == [] {
      assert xs + ys == ys;
    } else {
      assert (xs + ys)[0] == xs[0] && (xs + ys)[1..] == xs[1..] + ys;
      FoldConcat(Apply(stack, xs[0]), xs[1..], ys);
    }
  }

  /** A component behind a slash is one more name. */
  lemma OneMore(p: seq<u8>, name: seq<u8>)
    requires Plain(name)
    ensures Names(p + [SLASH] + name) == Names(p) + [name]
    ensures Fold([], Names(p + [SLASH] + name)) == Apply(Fold([], Names(p)), name)
  {
    var s := [SLASH] + name;
    NamesConcat(p, s);
    NamesStep(s);
    assert s[1..] == name && p + [SLASH] + name == p + s;
    NameAlone(name);
    FoldConcat([], Names(p), [name]);
  }

  /** The path of `name` in the directory `dir`. */
  function Child(dir: seq<u8>, name: seq<u8>): seq<u8> {
    if dir == [SLASH] then [SLASH] + name else dir + [SLASH] + name
  }

  /** A proper name leads one level down. */
  lemma Down(p: seq<u8>, name: seq<u8>)
    requires NoNul(p) && Proper(name)
    ensures Normal(p + [SLASH] + name) == Child(Normal(p), name)
  {
    var stack := Fold([], Names(p));
    OneMore(p, name);
    NamesPlain(p);
    FoldProper([], Names(p));
    JoinMore(stack, name);
  }

  lemma JoinMore(stack: seq<seq<u8>>, name: seq<u8>)
    requires ProperStack(stack)
    ensures Join(stack + [name]) == Child(Join(stack), name)
  {
    assert (stack + [name])[..|stack|] == stack;
    if stack != [] {
      UnderLength(stack[..|stack| - 1]);
      assert Proper(stack[|stack| - 1]);
    }
  }

  /** A single dot leads nowhere. */
  lemma Stay(p: seq<u8>)
    ensures Normal(p + [SLASH] + [DOT]) == Normal(p)
  {
    OneMore(p, [DOT]);
  }

  /** Two dots take back exactly one name. */
  lemma DownAndUp(p: seq<u8>, name: seq<u8>)
    requires Proper(name)
    ensures Normal(p + [SLASH] + name + [SLASH] + UP) == Normal(p)
  {
    var stack := Fold([], Names(p));
    OneMore(p, name);
    OneMore(p + [SLASH] + name, UP);
    assert (stack + [name])[..|stack|] == stack;
  }

  /** Above the root is the root. */
  lemma UpFromRoot(p: seq<u8>)
    requires p == [] || p[0] == SLASH
    ensures Normal([SLASH] + UP + p) == Normal(p)
  {
    NamesConcat([SLASH] + UP, p);
    NamesStep([SLASH] + UP);
    assert ([SLASH] + UP)[1..] == UP;
    NameAlone(UP);
    FoldConcat([], [UP], Names(p));
  }

  /** More slashes say nothing, inside the path or behind it. */
  lemma MoreSlashes(p: seq<u8>, q: seq<u8>)
    requires q == [] || q[0] == SLASH
    ensures Normal(p + [SLASH] + q) == Normal(p + q)
  {
    NamesConcat(p, [SLASH] + q);
    NamesConcat(p, q);
    NamesStep([SLASH] + q);
    assert ([SLASH] + q)[1..] == q && p + [SLASH] + q == p + ([SLASH] + q);
  }

  /** Nothing at all, and the root, are the root. */
  lemma Roots()
    ensures Normal([]) == [SLASH] && Normal([SLASH]) == [SLASH]
  {
    SlashAlone();
  }

  // ---- Paths that do not fit ----

  /** The path that normalising has reached after `k` names. */
  function Reach(stack: seq<seq<u8>>, names: seq<seq<u8>>, k: nat): seq<seq<u8>>
    requires k <= |names|
  {
    Fold(stack, names[..k])
  }

  /**
   * Names are taken up to the first one that, with its slash, would make a path of 256
   * characters or more; none behind that is looked at.
   */
  lemma {:induction false} FirstOverflow(stack: seq<seq<u8>>, names: seq<seq<u8>>) returns (k: nat)
    ensures k <= |names| && FoldFit(stack, names) == Reach(stack, names, k)
    ensures forall j :: 0 <= j < k ==> !TooLong(Reach(stack, names, j), names[j])
    ensures k < |names| ==> TooLong(Reach(stack, names, k), names[k])
    decreases |names|
  {
    if names == [] || TooLong(stack, names[0]) {
      k := 0;
      FitsNow(stack, names);
    } else {
      FitsNow(stack, names);
      var n := FirstOverflow(Apply(stack, names[0]), names[1..]);
      k := n + 1;
      ReachLater(stack, names, n);
      forall j | 0 <= j < k
        ensures !TooLong(Reach(stack, names, j), names[j])
      {
        if j != 0 {
          ReachLater(stack, names, j - 1);
        }
      }
    }
  }

  lemma ReachLater(stack: seq<seq<u8>>, names: seq<seq<u8>>, j: nat)
    requires j < |names|
    ensures Reach(stack, names, j + 1) == Reach(Apply(stack, names[0]), names[1..], j)
  {
    assert names[..j + 1] == [names[0]] + names[1..][..j];
  }

  /** A name whose path would have 256 characters or more. */
  predicate TooLong(stack: seq<seq<u8>>, name: seq<u8>) {
    name != [DOT] && name != [DOT, DOT] && |Join(stack + [name])| >= 256
  }

  lemma FitsNow(stack: seq<seq<u8>>, names: seq<seq<u8>>)
    ensures names != [] ==> (Overflows(stack, names[0]) <==> TooLong(stack, names[0]))
    ensures Reach(stack, names, 0) == stack
  {
    if names != [] {
      assert (stack + [names[0]])[..|stack|] == stack;
    }
  }

  /** A text shorter than the buffer is followed by NULs; of another the first characters are kept, and no NUL. */
  lemma ClipIs(src: seq<u8>, n: nat)
    ensures Clip(src, n) == if |src| <= n then src + Repeat(0, n - |src|) else src[..n]
  {
  }

  // ---- vfs_chdir ----

  /** vfs_chdir returns -1 for what is no directory, 0 for a directory, and else the code of ext2_open. */
  lemma ChdirCodes(n: EL.Inode, p: nat, code: int, r: int)
    requires p < 0x1000
    ensures EL.Mode(n) == 0x4000 + p ==> (VC.ChdirResult(EL.Found(n), r) <==> r == 0)
    ensures EL.Mode(n) == 0x8000 + p ==> (VC.ChdirResult(EL.Found(n), r) <==> r == -1)
    ensures VC.ChdirResult(EL.Failed(code), r) <==> r == code
  {
  }

  /** No path is the directory itself, and an absolute one does not depend on it. */
  lemma Elsewhere(cwd: seq<u8>, path: seq<u8>)
    ensures InNormalForm(cwd) && path == [] ==> Resolved(cwd, path) == cwd
    ensures path != [] && path[0] == SLASH ==> Resolved(cwd, path) == Normal(path)
    ensures Normalized([]) == [SLASH]
    ensures path != [] && path[0] != SLASH ==> Normalized(path) == path
  {
    if InNormalForm(cwd) {
      NormalFixed(cwd);
    }
  }

  /** Entering a directory and going up again leads back, while the names fit. */
  lemma ThereAndBack(cwd: seq<u8>, name: seq<u8>)
    requires InNormalForm(cwd) && Proper(name) && |cwd| + 1 + |name| <= 31
    ensures Resolved(Resolved(cwd, name), UP) == cwd
  {
    var stack :| ProperStack(stack) && cwd == Join(stack);
    VC.JoinNoNul(stack);
    VC.ResolveExact(cwd, name);
    NormalFixed(cwd);
    Down(cwd, name);
    NormalIsNormal(cwd + [SLASH] + name);
    VC.ResolveExact(Child(cwd, name), UP);
    UpFromChild(cwd, name);
  }

  lemma UpFromChild(cwd: seq<u8>, name: seq<u8>)
    requires Normal(cwd) == cwd && Proper(name)
    ensures Normal(Child(cwd, name) + [SLASH] + UP) == cwd
  {
    if cwd == [SLASH] {
      DownAndUp([], name);
      assert [] + [SLASH] + name == [SLASH] + name;
      Roots();
    } else {
      DownAndUp(cwd, name);
    }
  }
}
