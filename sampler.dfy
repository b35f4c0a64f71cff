/** `weightedRandom`: inverse-CDF sampling over the alphabet, with the uniform draw passed in as `r`. */
module Sampler {
  import opened Alphabet
  import opened Sums
  import opened Weights

  /** The cumulative weight up to and including index j reaches the draw r. */
  predicate Reaches(ps: seq<real>, r: real, j: nat)
    requires j < |ps|
  {
    r <= Sum(ps[..j + 1])
  }

  /**
   * Reference definition of the sampled index: the first index from i on whose cumulative
   * weight reaches r, or the last alphabet index when none does.
   */
  function FirstReachingFrom(ps: seq<real>, r: real, i: nat): (k: nat)
    requires i <= |ps| <= Size
    ensures k < Size
    decreases |ps| - i
  {
    if i == |ps| then Size - 1
    else if Reaches(ps, r, i) then i
    else FirstReachingFrom(ps, r, i + 1)
  }

  /** The index `weightedRandom(ps)` picks for the draw r. */
  function SampleIndex(ps: seq<real>, r: real): (k: nat)
    requires |ps| <= Size
    ensures k < Size
  {
    FirstReachingFrom(ps, r, 0)
  }

  lemma {:induction false} FirstReachingFromIsLeast(ps: seq<real>, r: real, i: nat)
    requires i <= |ps| <= Size
    ensures var k := FirstReachingFrom(ps, r, i);
      || (i <= k < |ps| && Reaches(ps, r, k) && forall j :: i <= j < k ==> !Reaches(ps, r, j))
      || (k == Size - 1 && forall j :: i <= j < |ps| ==> !Reaches(ps, r, j))
    decreases |ps| - i
  {
    if i < |ps| && !Reaches(ps, r, i) {
      FirstReachingFromIsLeast(ps, r, i + 1);
    }
  }

  /**
   * The sampled index is the least k whose cumulative weight ps[0] + ... + ps[k] reaches r;
   * when no prefix reaches r it is the last symbol, code 127.
   */
  lemma SampleIndexIsLeastReaching(ps: seq<real>, r: real)
    requires |ps| <= Size
    ensures var k := SampleIndex(ps, r);
      || (k < |ps| && Reaches(ps, r, k) && forall j :: 0 <= j < k ==> !Reaches(ps, r, j))
      || (k == Size - 1 && forall j :: 0 <= j < |ps| ==> !Reaches(ps, r, j))
  {
    FirstReachingFromIsLeast(ps, r, 0);
  }

  /**
   * `weightedRandom(probs)` with `Math.random()` replaced by the draw r: accumulate the weights
   * and return the first symbol whose running total reaches r, else the last symbol.
   */
  method WeightedRandom(ps: seq<real>, r: real) returns (c: char)
    requires |ps| <= Size
    ensures c == AsciiChars()[SampleIndex(ps, r)]
    ensures c in AsciiChars()
  {
    var acc := 0.0;
    for i := 0 to |ps|
      invariant acc == Sum(ps[..i])
      invariant FirstReachingFrom(ps, r, i) == SampleIndex(ps, r)
    {
      acc := acc + ps[i];
      assert ps[..i + 1][..i] == ps[..i];
      if r <= acc {
        return AsciiChars()[i];
      }
    }
    return AsciiChars()[Size - 1];
  }

  /**
   * With a distribution from `probs` for an ASCII target and a draw r <= 1, exact weights
   * always reach r, so the loop returns from inside and the fallback is never taken.
   */
  lemma FallbackUnreachable(schedule: seq<real>, iteration: nat, targetIndex: nat, r: real)
    requires iteration < |schedule| && targetIndex < Size && r <= 1.0
    ensures var ps := Probs(schedule, iteration, targetIndex);
      SampleIndex(ps, r) < |ps| && Reaches(ps, r, SampleIndex(ps, r))
  {
    var ps := Probs(schedule, iteration, targetIndex);
    ProbsSumToOne(schedule, iteration, targetIndex);
    assert ps[..Size] == ps;
    assert Reaches(ps, r, Size - 1);
    SampleIndexIsLeastReaching(ps, r);
  }

  /** Full confidence and a positive draw always yield the target code. */
  lemma CertainConfidencePicksTarget(schedule: seq<real>, iteration: nat, targetIndex: nat, r: real)
    requires iteration < |schedule| && schedule[iteration] == 1.0
    requires targetIndex < Size && 0.0 < r <= 1.0
    ensures SampleIndex(Probs(schedule, iteration, targetIndex), r) == targetIndex
  {
    var ps := Probs(schedule, iteration, targetIndex);
    assert LowWeight(schedule[iteration]) == 0.0;
    forall j | 0 <= j < targetIndex
      ensures !Reaches(ps, r, j)
    {
      ProbsPrefixSum(schedule, iteration, targetIndex, j + 1);
    }
    ProbsPrefixSum(schedule, iteration, targetIndex, targetIndex + 1);
    assert Reaches(ps, r, targetIndex);
    SampleIndexIsLeastReaching(ps, r);
  }

  /** Zero confidence and a positive draw never yield the target code. */
  lemma ZeroConfidenceNeverPicksTarget(schedule: seq<real>, iteration: nat, targetIndex: nat, r: real)
    requires iteration < |schedule| && schedule[iteration] == 0.0
    requires targetIndex < Size && 0.0 < r <= 1.0
    ensures SampleIndex(Probs(schedule, iteration, targetIndex), r) != targetIndex
  {
    var ps := Probs(schedule, iteration, targetIndex);
    FallbackUnreachable(schedule, iteration, targetIndex, r);
    SampleIndexIsLeastReaching(ps, r);
    ProbsPrefixSum(schedule, iteration, targetIndex, targetIndex + 1);
    if targetIndex > 0 {
      ProbsPrefixSum(schedule, iteration, targetIndex, targetIndex);
      assert Reaches(ps, r, targetIndex) == Reaches(ps, r, targetIndex - 1);
    }
  }

  /**
   * For a non-ASCII target the weights fall short of 1 whenever the confidence exceeds 1/128,
   * and every draw above the total falls through to the last symbol (code 127).
   */
  lemma NonAsciiTargetFallsBack(schedule: seq<real>, iteration: nat, targetIndex: nat, r: real)
    requires iteration < |schedule| && targetIndex >= Size
    requires Size as real * LowWeight(schedule[iteration]) < r
    requires schedule[iteration] <= 1.0
    ensures var ps := Probs(schedule, iteration, targetIndex);
      SampleIndex(ps, r) == Size - 1 && !Reaches(ps, r, Size - 1)
  {
    var ps := Probs(schedule, iteration, targetIndex);
    var low := LowWeight(schedule[iteration]);
    SampleIndexIsLeastReaching(ps, r);
    forall j | 0 <= j < Size
      ensures !Reaches(ps, r, j)
    {
      ProbsPrefixSum(schedule, iteration, targetIndex, j + 1);
      assert Sum(ps[..j + 1]) == (j + 1) as real * low;
      assert low >= 0.0;
      assert (j + 1) as real * low <= Size as real * low;
    }
  }
}
