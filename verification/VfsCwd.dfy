/** The current directory: vfs_getcwd, vfs_resolve and vfs_chdir. */
module VfsCwd {
  import opened Machine
  import opened Tokens
  import opened VfsPath
  import opened Vfs
  import opened Format
  import KString
  import EL = Ext2Layout
  import EB = Ext2Blocks
  import EF = Ext2Files
  import EP = Ext2Paths

  class WorkingDirectory {
    /** cwd_path, a C string */
    const cwd: array<u8>

    ghost function Text(): seq<u8>
      reads cwd
    {
      CString(cwd[..], 0)
    }

    ghost predicate Valid()
      reads cwd
    {
      cwd.Length == BUFFER && Terminated(cwd[..], 0) && InNormalForm(Text())
    }

    constructor ()
      ensures Valid() && fresh(cwd) && Text() == [SLASH]
    {
      cwd := new u8[BUFFER](i => if i == 0 then SLASH else 0);
      new;
      CStringIs(cwd[..], 0, 1);
      RootNormal();
    }

    /** vfs_getcwd */
    method Getcwd(out: array<u8>, size: nat)
      requires Valid() && size <= out.Length && out != cwd
      modifies out
      ensures Valid() && out[..] == Put(old(out[..]), 0, Clip(Text(), size))
    {
      Kstrncpy(out, CString(cwd[..], 0), size);
    }

    /** vfs_resolve: the normal form of the path, seen from the current directory. */
    method Resolve(path: seq<u8>, out: array<u8>, size: nat)
      requires Valid() && NoNul(path) && (path != [] && path[0] == SLASH ==> |path| < BUFFER)
      requires size <= out.Length && out != cwd
      modifies out
      ensures out[..] == Put(old(out[..]), 0, Clip(Resolved(Text(), path), size))
      ensures 0 < |Resolved(Text(), path)| < BUFFER
      ensures NoNul(Resolved(Text(), path)) && InNormalForm(Resolved(Text(), path))
    {
      CwdFacts(cwd[..]);
      var text := JoinText(CString(cwd[..], 0), path);
      NormalShorter(text);
      NormalNoNul(text);
      NormalIsNormal(text);
      NormalizedWhole(text);
      NormalizePath(text, out, size);
    }

    /** vfs_chdir: the new directory is the resolved path, if that leads to a directory. */
    method Chdir(rd: EB.Reader, path: seq<u8>) returns (r: int)
      requires Valid() && rd.Ready() && cwd != rd.heap.mem
      requires NoNul(path) && (path != [] && path[0] == SLASH ==> |path| < BUFFER)
      modifies cwd, rd.device, rd.heap, rd.heap.mem
      ensures Valid() && rd.Ready() && rd.heap.blocks == old(rd.heap.blocks)
      ensures Text() == if r == 0 then Resolved(old(Text()), path) else old(Text())
      ensures !EP.Undisturbed(rd, old(rd.device.faults)) ==> r == -1
      ensures EP.Undisturbed(rd, old(rd.device.faults)) && EP.InsidePath(rd.Vol(), Resolved(old(Text()), path)) ==>
                ChdirResult(EL.Opened(rd.Vol(), Resolved(old(Text()), path)), r)
    {
      var text := ResolvedText(path);
      r := OpenDir(rd, text);
      if r == 0 {
        Enter(text);
      }
    }

    /** The resolved path, through the buffer it is resolved into. */
    method ResolvedText(path: seq<u8>) returns (text: seq<u8>)
      requires Valid() && NoNul(path) && (path != [] && path[0] == SLASH ==> |path| < BUFFER)
      ensures text == Resolved(Text(), path)
      ensures |text| < BUFFER && NoNul(text) && InNormalForm(text)
    {
      var resolved := new u8[BUFFER](i => 0);
      Resolve(path, resolved, BUFFER);
      ClippedString(resolved[..], Resolved(Text(), path));
      text := CString(resolved[..], 0);
    }

    /** The resolved path becomes the current directory. */
    method Enter(text: seq<u8>)
      requires cwd.Length == BUFFER && |text| < BUFFER && NoNul(text) && InNormalForm(text)
      modifies cwd
      ensures Valid() && Text() == text
    {
      KString.PutBytes(cwd, 0, text + [0]);
      StoredString(cwd[..], text);
    }
  }

  /** vfs_chdir's call of ext2_open, and its check that the path leads to a directory. */
  method OpenDir(rd: EB.Reader, text: seq<u8>) returns (r: int)
    requires rd.Ready() && NoNul(text)
    modifies rd.device, rd.heap, rd.heap.mem
    ensures rd.Ready() && rd.heap.blocks == old(rd.heap.blocks)
    ensures !EP.Undisturbed(rd, old(rd.device.faults)) && |text| < BUFFER ==> r == -1
    ensures EP.Undisturbed(rd, old(rd.device.faults)) && EP.InsidePath(rd.Vol(), text) ==>
              ChdirResult(EL.Opened(rd.Vol(), text), r)
  {
    var dir := new EF.File(Repeat(0, 128));
    NoNulIn(text);
    r := EP.Ext2Open(rd, text, dir);
    if r == 0 && !EL.IsDir(dir.inode.bytes) {
      r := -1;
    }
  }

  /** What vfs_chdir returns for what opening the resolved path gives. */
  ghost predicate ChdirResult(o: EL.Outcome, r: int) {
    match o
    case Found(n) => r == if EL.IsDir(n) then 0 else -1
    case Failed(code) => r == code
  }

  lemma RootNormal()
    ensures InNormalForm([SLASH])
  {
    assert Join([]) == [SLASH] && ProperStack([]);
  }

  lemma NoNulIn(s: seq<u8>)
    requires NoNul(s)
    ensures 0 !in s
  {
  }

  /** A path in normal form is absolute. */
  lemma NormalAbsolute(path: seq<u8>)
    requires InNormalForm(path)
    ensures path != [] && path[0] == SLASH
  {
    var stack :| ProperStack(stack) && path == Join(stack);
    if stack != [] {
      UnderEnds(stack[..|stack| - 1]);
    }
  }

  lemma CwdFacts(a: seq<u8>)
    requires |a| == BUFFER && Terminated(a, 0) && InNormalForm(CString(a, 0))
    ensures var s := CString(a, 0); 0 < |s| < BUFFER && s[0] == SLASH && NoNul(s)
  {
    NormalAbsolute(CString(a, 0));
    var n := CStringEnd(a, 0);
  }

  /** The three cases of vfs_resolve; a relative path is joined to the current directory by ksnprintf. */
  method JoinText(cwd: seq<u8>, path: seq<u8>) returns (text: seq<u8>)
    requires 0 < |cwd| < BUFFER && cwd[0] == SLASH && NoNul(cwd) && NoNul(path)
    requires path != [] && path[0] == SLASH ==> |path| < BUFFER
    ensures text == Joined(cwd, path) && 0 < |text| < BUFFER && text[0] == SLASH && NoNul(text)
  {
    if path == [] {
      return cwd;
    }
    if path[0] == SLASH {
      return path;
    }
    if cwd == [SLASH] {
      text := PrintOne(path);
    } else {
      text := PrintTwo(cwd, path);
    }
  }

  /** A path below the root, printed. */
  method PrintOne(path: seq<u8>) returns (text: seq<u8>)
    requires NoNul(path)
    ensures text == [SLASH] + Cut31(path) && NoNul(text)
  {
    var temp := new u8[BUFFER](i => 0);
    OneName(path);
    var n := StoreWhole(temp, BUFFER, SLASH_PERCENT_S, [Str(path)]);
    text := temp[..n];
  }

  /** A path below another directory, printed. */
  method PrintTwo(cwd: seq<u8>, path: seq<u8>) returns (text: seq<u8>)
    requires NoNul(cwd) && NoNul(path)
    ensures text == Cut31(cwd) + [SLASH] + Cut31(path) && NoNul(text)
  {
    var temp := new u8[BUFFER](i => 0);
    TwoNames(cwd, path);
    var n := StoreWhole(temp, BUFFER, PERCENT_S_SLASH_S, [Str(cwd), Str(path)]);
    text := temp[..n];
  }

  lemma {:induction false} JoinNoNul(stack: seq<seq<u8>>)
    requires ProperStack(stack)
    ensures NoNul(Under(stack)) && NoNul(Join(stack))
    decreases |stack|
  {
    if stack != [] {
      JoinNoNul(stack[..|stack| - 1]);
      assert Proper(stack[|stack| - 1]);
    }
  }

  lemma NormalNoNul(path: seq<u8>)
    requires NoNul(path)
    ensures NoNul(Normal(path))
  {
    NamesPlain(path);
    FoldProper([], Names(path));
    JoinNoNul(Fold([], Names(path)));
  }

  lemma ClippedString(a: seq<u8>, s: seq<u8>)
    requires |a| == BUFFER && |s| < BUFFER && NoNul(s) && a == Clip(s, BUFFER)
    ensures Terminated(a, 0) && CString(a, 0) == s
  {
    CStringIs(a, 0, |s|);
    assert a[0..|s|] == s;
  }

  lemma StoredString(a: seq<u8>, s: seq<u8>)
    requires |s| < |a| && a[..|s| + 1] == s + [0] && NoNul(s)
    ensures Terminated(a, 0) && CString(a, 0) == s
  {
    assert forall k :: 0 <= k < |s| ==> a[k] == (s + [0])[k];
    assert a[|s|] == (s + [0])[|s|];
    CStringIs(a, 0, |s|);
    assert a[0..|s|] == s;
  }

  // ---- Any sequence of vfs_chdir calls ----

  /** A call of vfs_chdir, and whether it succeeded. */
  datatype Move = Move(path: seq<u8>, entered: bool)

  function CwdAfter(cwd: seq<u8>, moves: seq<Move>): seq<u8>
    decreases |moves|
  {
    if moves == [] then cwd
    else CwdAfter(if moves[0].entered then Resolved(cwd, moves[0].path) else cwd, moves[1..])
  }

  /** The current directory is in normal form after every sequence of calls. */
  lemma {:induction false} CwdAlwaysNormal(cwd: seq<u8>, moves: seq<Move>)
    requires InNormalForm(cwd) && forall i :: 0 <= i < |moves| ==> NoNul(moves[i].path)
    ensures InNormalForm(CwdAfter(cwd, moves))
    decreases |moves|
  {
    if moves != [] {
      assert NoNul(moves[0].path);
      ResolvedNormal(cwd, moves[0].path);
      CwdAlwaysNormal(if moves[0].entered then Resolved(cwd, moves[0].path) else cwd, moves[1..]);
    }
  }

  lemma ResolvedNormal(cwd: seq<u8>, path: seq<u8>)
    requires InNormalForm(cwd) && NoNul(path)
    ensures InNormalForm(Resolved(cwd, path))
  {
    var stack :| ProperStack(stack) && cwd == Join(stack);
    JoinNoNul(stack);
    NormalIsNormal(Joined(cwd, path));
  }

  // ---- When a relative path resolves as one expects ----

  /** Up to 31 characters on both sides nothing is cut. */
  lemma ResolveExact(cwd: seq<u8>, path: seq<u8>)
    requires InNormalForm(cwd) && path != [] && path[0] != SLASH && |cwd| <= 31 && |path| <= 31
    ensures Resolved(cwd, path) == Normal(cwd + [SLASH] + path)
  {
    if cwd == [SLASH] {
      assert [SLASH] + [SLASH] + path == [SLASH] + ([SLASH] + path);
      NamesStep([SLASH] + ([SLASH] + path));
      assert ([SLASH] + ([SLASH] + path))[1..] == [SLASH] + path;
    }
  }

  /**
   * A path of proper names, with a single slash between them, resolves below the current
   * directory as it should exactly when neither exceeds 31 characters: anything that is cut
   * makes the result shorter than it should be.
   */
  lemma ResolveNamesExact(cwd: seq<u8>, path: seq<u8>, names: seq<seq<u8>>)
    requires InNormalForm(cwd) && names != [] && ProperStack(names) && Join(names) == [SLASH] + path
    ensures Resolved(cwd, path) == Normal(cwd + [SLASH] + path) <==> |cwd| <= 31 && |path| <= 31
  {
    var stack :| ProperStack(stack) && cwd == Join(stack);
    NormalAbsolute(cwd);
    RelativePath(path, names);
    if |cwd| <= 31 && |path| <= 31 {
      ResolveExact(cwd, path);
    } else {
      assert cwd + [SLASH] + path == cwd + Join(names);
      NormalOfBoth(cwd, stack, names);
      JoinLength(stack);
      JoinLength(names);
      NormalShorter(Joined(cwd, path));
    }
  }

  /** The text between the slashes is not empty and begins with none. */
  lemma RelativePath(path: seq<u8>, names: seq<seq<u8>>)
    requires names != [] && ProperStack(names) && Join(names) == [SLASH] + path
    ensures path != [] && path[0] != SLASH
  {
    NamesOfJoin(names);
    SlashAlone();
    assert ([SLASH] + path)[1..] == path;
    NamesStep([SLASH] + path);
    NoDoubleSlash(path, names);
  }

  /** A stack's path is no longer than its names need, so it has no second slash in front. */
  lemma NoDoubleSlash(path: seq<u8>, names: seq<seq<u8>>)
    requires names != [] && Join(names) == [SLASH] + path && Names(path) == names
    ensures path == [] || path[0] != SLASH
  {
    NamesShorter(path);
    JoinLength(names);
  }

  /** The names below a directory in normal form: its own, and then they. */
  lemma NormalOfBoth(cwd: seq<u8>, stack: seq<seq<u8>>, names: seq<seq<u8>>)
    requires ProperStack(stack) && cwd == Join(stack) && names != [] && ProperStack(names)
    ensures Normal(cwd + Join(names)) == Join(stack + names)
    ensures |Join(stack + names)| == Length(stack) + Length(names)
  {
    NamesOfJoin(stack);
    NamesOfJoin(names);
    NormalAbsolute(Join(names));
    NamesConcat(cwd, Join(names));
    FoldPlain([], stack + names);
    assert [] + (stack + names) == stack + names;
    LengthConcat(stack, names);
    JoinLength(stack + names);
  }
}
