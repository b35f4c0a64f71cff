/**
 * The unguarded flicker of the home page: `show_flicker` without a re-entrancy flag, called
 * once at load time. The two interval callbacks share the captured `iteration` counter.
 */
module SiteFlicker {
  import opened Wrappers
  import opened Alphabet
  import opened Redraw

  class Flicker {
    /** `output.textContent` of the title element. */
    var output: seq<char>
    var word: seq<char>
    var schedule: seq<real>
    /** The captured `iteration` counter. */
    var iteration: int
    /** Whether `iterTimer` and `outputTimer` are still scheduled. */
    var iterTimerOn: bool
    var outputTimerOn: bool

    ghost predicate Valid()
      reads this
    {
      && 0 <= iteration <= LastIteration + 1
      && (outputTimerOn ==> ValidSchedule(schedule))
      && (iterTimerOn <==> outputTimerOn && iteration <= LastIteration)
    }

    /**
     * The single top-level `show_flicker(w)`. The title keeps its initial text until the first
     * redraw; a rejected fetch (None) starts no timer.
     */
    constructor ShowFlicker(initialText: seq<char>, w: seq<char>, fetched: Option<seq<real>>)
      requires fetched.Some? ==> ValidSchedule(fetched.value)
      ensures Valid()
      ensures output == initialText && iteration == 0
      ensures fetched.Some? ==> word == w && schedule == fetched.value && iterTimerOn && outputTimerOn
      ensures fetched.None? ==> !iterTimerOn && !outputTimerOn
    {
      output := initialText;
      iteration := 0;
      if fetched.Some? {
        word := w;
        schedule := fetched.value;
        iterTimerOn := true;
        outputTimerOn := true;
      } else {
        word := [];
        schedule := [];
        iterTimerOn := false;
        outputTimerOn := false;
      }
    }

    /** `iterTimer`: advance the iteration and cancel itself once it passes the last one. */
    method IterTick()
      requires Valid() && iterTimerOn
      modifies this`iteration, this`iterTimerOn
      ensures Valid()
      ensures iteration == old(iteration) + 1 <= LastIteration + 1
      ensures iterTimerOn <==> iteration <= LastIteration
    {
      iteration := iteration + 1;
      if iteration > LastIteration {
        iterTimerOn := false;
      }
    }

    /**
     * `outputTimer`: after the last iteration, write the exact word and cancel itself; before
     * it, show a freshly sampled frame, rs holding one draw per character.
     */
    method RedrawTick(rs: seq<real>)
      requires Valid() && outputTimerOn && |rs| == |word|
      modifies this`output, this`outputTimerOn
      ensures Valid()
      ensures iteration > LastIteration ==> output == word && !outputTimerOn
      ensures iteration <= LastIteration ==> output == Frame(word, schedule, iteration, rs) && outputTimerOn
    {
      if iteration > LastIteration {
        output := word;
        outputTimerOn := false;
        return;
      }
      output := RenderFrame(word, schedule, iteration, rs);
    }
  }

  /** A started run settles on the exact word after at most thirteen iteration ticks. */
  method RunToCompletion(f: Flicker)
    requires f.Valid() && f.outputTimerOn
    modifies f
    ensures f.Valid()
    ensures f.output == old(f.word) && f.word == old(f.word)
    ensures !f.iterTimerOn && !f.outputTimerOn && f.iteration == LastIteration + 1
  {
    while f.iterTimerOn
      invariant f.Valid() && f.outputTimerOn && f.word == old(f.word)
      decreases LastIteration + 1 - f.iteration
    {
      f.IterTick();
    }
    f.RedrawTick(seq(|f.word|, _ => 0.0));
  }
}
