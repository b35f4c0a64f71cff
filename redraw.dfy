/** One redraw of the flicker: every character of the word replaced by a sample for the current iteration. */
module Redraw {
  import opened Alphabet
  import opened Weights
  import opened Sampler

  /** The last iteration index the scripts sample at; the redraw tick finishes once `iteration > 12`. */
  const LastIteration: nat := 12

  /** Shape of `probs.json` that a run relies on: a confidence for every iteration 0..12, each in [0,1]. */
  predicate ValidSchedule(schedule: seq<real>)
  {
    && |schedule| > LastIteration
    && forall i :: 0 <= i < |schedule| ==> 0.0 <= schedule[i] <= 1.0
  }

  /**
   * The text one redraw writes: position j holds the symbol sampled with draw rs[j] from the
   * distribution centred on the code of word[j] at the given iteration.
   */
  function Frame(word: seq<char>, schedule: seq<real>, iteration: nat, rs: seq<real>): (s: seq<char>)
    requires iteration < |schedule| && |rs| == |word|
    ensures |s| == |word|
    ensures forall j :: 0 <= j < |s| ==> s[j] in AsciiChars()
  {
    seq(|word|, j requires 0 <= j < |word| =>
      AsciiChars()[SampleIndex(Probs(schedule, iteration, word[j] as int), rs[j])])
  }

  /**
   * The `[...word].map(...).join("")` expression of the redraw callback: one call of
   * `weightedRandom(probs(iteration, word.charCodeAt(index)))` per character, in order.
   */
  method RenderFrame(word: seq<char>, schedule: seq<real>, iteration: nat, rs: seq<real>) returns (s: seq<char>)
    requires iteration < |schedule| && |rs| == |word|
    ensures s == Frame(word, schedule, iteration, rs)
  {
    s := [];
    for j := 0 to |word|
      invariant s == Frame(word, schedule, iteration, rs)[..j]
    {
      var c := WeightedRandom(Probs(schedule, iteration, word[j] as int), rs[j]);
      s := s + [c];
    }
  }

  /**
   * Convergence: at full confidence every draw in (0,1] reproduces an all-ASCII word exactly.
   */
  lemma FrameAtFullConfidence(word: seq<char>, schedule: seq<real>, iteration: nat, rs: seq<real>)
    requires iteration < |schedule| && schedule[iteration] == 1.0 && |rs| == |word|
    requires forall j :: 0 <= j < |word| ==> word[j] as int < Size
    requires forall j :: 0 <= j < |rs| ==> 0.0 < rs[j] <= 1.0
    ensures Frame(word, schedule, iteration, rs) == word
  {
    var s := Frame(word, schedule, iteration, rs);
    forall j | 0 <= j < |word|
      ensures s[j] == word[j]
    {
      CertainConfidencePicksTarget(schedule, iteration, word[j] as int, rs[j]);
      assert AsciiChars()[word[j] as int] as int == word[j] as int;
    }
  }

  /** At zero confidence and positive draws, no position shows its own character. */
  lemma FrameAtZeroConfidence(word: seq<char>, schedule: seq<real>, iteration: nat, rs: seq<real>)
    requires iteration < |schedule| && schedule[iteration] == 0.0 && |rs| == |word|
    requires forall j :: 0 <= j < |word| ==> word[j] as int < Size
    requires forall j :: 0 <= j < |rs| ==> 0.0 < rs[j] <= 1.0
    ensures var s := Frame(word, schedule, iteration, rs);
      forall j :: 0 <= j < |word| ==> s[j] != word[j]
  {
    var s := Frame(word, schedule, iteration, rs);
    forall j | 0 <= j < |word|
      ensures s[j] != word[j]
    {
      var k := SampleIndex(Probs(schedule, iteration, word[j] as int), rs[j]);
      ZeroConfidenceNeverPicksTarget(schedule, iteration, word[j] as int, rs[j]);
      assert s[j] as int == k;
    }
  }
}
