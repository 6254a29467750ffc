/** Two laws that together say what the components of a string are, for any delimiters. */
module TokenLaws {
  import opened Machine
  import opened Tokens

  /** A string without a delimiter is one component, and the empty one none. */
  lemma Undivided(s: seq<u8>, delim: seq<u8>)
    requires forall i :: 0 <= i < |s| ==> s[i] !in delim
    ensures Components(s, delim) == if s == [] then [] else [s]
  {
    if s != [] {
      ExtentIs(s, delim, |s|);
      assert s[..|s|] == s && s[|s|..] == [];
    }
  }

  /** A delimiter separates: the components in front of it and those behind it are all. */
  lemma {:induction false} Divided(s: seq<u8>, d: u8, t: seq<u8>, delim: seq<u8>)
    requires d in delim
    ensures Components(s + [d] + t, delim) == Components(s, delim) + Components(t, delim)
    decreases |s|
  {
    var whole := s + [d] + t;
    if s == [] {
      assert whole[1..] == t;
    } else if s[0] in delim {
      assert whole[1..] == s[1..] + [d] + t;
      Divided(s[1..], d, t, delim);
    } else {
      var n := Extent(s, delim);
      ExtentStays(s, d, t, delim, n);
      assert whole[..n] == s[..n] && whole[n..] == s[n..] + [d] + t;
      Divided(s[n..], d, t, delim);
      Grouped([s[..n]], Components(s[n..], delim), Components(t, delim));
    }
  }

  lemma ExtentStays(s: seq<u8>, d: u8, t: seq<u8>, delim: seq<u8>, n: nat)
    requires d in delim && n == Extent(s, delim)
    ensures Extent(s + [d] + t, delim) == n
  {
    var whole := s + [d] + t;
    assert forall i :: 0 <= i < n ==> whole[i] == s[i];
    ExtentIs(whole, delim, n);
  }

  lemma Grouped<T>(xs: seq<T>, ys: seq<T>, zs: seq<T>)
    ensures xs + (ys + zs) == xs + ys + zs
  {
  }
}
