/** Lists of distinct small numbers are short. */
module Pigeonhole {
  ghost predicate Distinct(list: seq<nat>) {
    forall i, j :: 0 <= i < j < |list| ==> list[i] != list[j]
  }

  /** Pigeonhole: distinct numbers below `n` are at most `n`. */
  lemma {:induction false} AtMost(list: seq<nat>, n: nat)
    requires Distinct(list) && forall i :: i in list ==> i < n
    ensures |list| <= n
    decreases n
  {
    if list != [] {
      assert list[0] in list;
      if n - 1 in list {
        var k :| 0 <= k < |list| && list[k] == n - 1;
        var rest := list[..k] + list[k + 1..];
        assert forall i :: i in rest ==> i in list && i != n - 1;
        AtMost(rest, n - 1);
      } else {
        AtMost(list, n - 1);
      }
    }
  }
}
