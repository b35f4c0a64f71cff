/** Exact sums of weight vectors, shared by the sampler and the Grover post-processing. */
module Sums {

  /** Sum of a sequence of reals, peeled from the last element (so prefix sums unfold one step at a time). */
  function Sum(s: seq<real>): real
  {
    if |s| == 0 then 0.0 else Sum(s[..|s| - 1]) + s[|s| - 1]
  }

  /** Adding x to one entry adds x to the total. */
  lemma {:induction false} SumAddAt(s: seq<real>, p: nat, x: real)
    requires p < |s|
    ensures Sum(s[p := s[p] + x]) == Sum(s) + x
  {
    var t := s[p := s[p] + x];
    var n := |s| - 1;
    if p < n {
      assert t[..n] == s[..n][p := s[p] + x];
      SumAddAt(s[..n], p, x);
    } else {
      assert t[..n] == s[..n];
    }
  }
}
