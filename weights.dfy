/** The per-character distribution `probs(iteration, targetIndex)` of the flicker scripts. */
module Weights {
  import opened Alphabet
  import opened Sums

  /** The weight every non-target symbol receives: the rest of the mass split over the 127 others. */
  function LowWeight(high: real): real
  {
    (1.0 - high) / (Size - 1) as real
  }

  /**
   * `probs(iteration, targetIndex)`: one weight per alphabet symbol; the target code carries
   * the schedule's confidence for this iteration, every other code the low weight.
   */
  function Probs(schedule: seq<real>, iteration: nat, targetIndex: nat): (ps: seq<real>)
    requires iteration < |schedule|
    ensures |ps| == Size
    ensures targetIndex < Size ==> ps[targetIndex] == schedule[iteration]
    ensures forall i :: 0 <= i < Size && i != targetIndex ==> ps[i] == LowWeight(schedule[iteration])
  {
    seq(Size, i requires 0 <= i < Size =>
      if i == targetIndex then schedule[iteration] else LowWeight(schedule[iteration]))
  }

  /** Closed form of every prefix sum of a distribution. */
  lemma {:induction false} ProbsPrefixSum(schedule: seq<real>, iteration: nat, targetIndex: nat, k: nat)
    requires iteration < |schedule| && k <= Size
    ensures var high := schedule[iteration];
      Sum(Probs(schedule, iteration, targetIndex)[..k]) ==
        if targetIndex < k then high + (k - 1) as real * LowWeight(high)
        else k as real * LowWeight(high)
  {
    var ps := Probs(schedule, iteration, targetIndex);
    var low := LowWeight(schedule[iteration]);
    if k > 0 {
      ProbsPrefixSum(schedule, iteration, targetIndex, k - 1);
      assert ps[..k][..k - 1] == ps[..k - 1];
      assert (k - 1) as real * low + low == k as real * low;
      if targetIndex < k - 1 {
        assert (k - 2) as real * low + low == (k - 1) as real * low;
      }
    }
  }

  /** For a target inside the alphabet the weights sum to exactly 1, whatever the confidence. */
  lemma ProbsSumToOne(schedule: seq<real>, iteration: nat, targetIndex: nat)
    requires iteration < |schedule| && targetIndex < Size
    ensures Sum(Probs(schedule, iteration, targetIndex)) == 1.0
  {
    var ps := Probs(schedule, iteration, targetIndex);
    ProbsPrefixSum(schedule, iteration, targetIndex, Size);
    assert ps[..Size] == ps;
  }

  /**
   * For a target code outside the alphabet (a non-ASCII character of the word) no symbol gets
   * the confidence: all 128 symbols get the low weight and the total is 128 low weights.
   */
  lemma NonAsciiTargetGetsNoHighWeight(schedule: seq<real>, iteration: nat, targetIndex: nat)
    requires iteration < |schedule| && targetIndex >= Size
    ensures var ps := Probs(schedule, iteration, targetIndex);
      (forall i :: 0 <= i < Size ==> ps[i] == LowWeight(schedule[iteration]))
      && Sum(ps) == Size as real * LowWeight(schedule[iteration])
  {
    var ps := Probs(schedule, iteration, targetIndex);
    ProbsPrefixSum(schedule, iteration, targetIndex, Size);
    assert ps[..Size] == ps;
  }
}
