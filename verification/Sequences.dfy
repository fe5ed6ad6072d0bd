/** Facts about sequences of indices that several modules use. */
module Sequences {

  lemma {:induction false} Pigeonhole(s: seq<nat>, n: nat)
    requires forall k | 0 <= k < |s| :: s[k] < n
    requires forall j, k | 0 <= j < k < |s| :: s[j] != s[k]
    ensures |s| <= n
    decreases n
  {
    if s == [] {
    } else if exists k :: 0 <= k < |s| && s[k] == n - 1 {
      var k :| 0 <= k < |s| && s[k] == n - 1;
      Pigeonhole(s[..k] + s[k + 1..], n - 1);
    } else {
      assert s[0] < n;
      Pigeonhole(s, n - 1);
    }
  }
}
