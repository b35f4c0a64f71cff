/**
 * The guarded flicker of the projects page: `show_flicker`, its module-level `isAnimating`
 * flag, and the two interval callbacks that share the captured `iteration` counter.
 * Each callback runs to completion on the event loop, so each tick is one atomic method,
 * and the ticks may be called in any interleaving.
 */
module ProjectsFlicker {
  import opened Wrappers
  import opened Alphabet
  import opened Redraw

  class Flicker {
    /** `isAnimating`: set when a run starts, cleared only when the redraw tick finishes. */
    var isAnimating: bool
    /** `output.textContent` of the title element. */
    var output: seq<char>
    /** The word and schedule the current run captured. */
    var word: seq<char>
    var schedule: seq<real>
    /** The captured `iteration` counter of the current run. */
    var iteration: int
    /** Whether `iterTimer` and `outputTimer` are still scheduled. */
    var iterTimerOn: bool
    var outputTimerOn: bool

    ghost predicate Valid()
      reads this
    {
      && 0 <= iteration <= LastIteration + 1
      && (outputTimerOn ==> isAnimating && ValidSchedule(schedule))
      && (iterTimerOn <==> outputTimerOn && iteration <= LastIteration)
    }

    /** The page before any call: idle, the title showing its initial text. */
    constructor (initialText: seq<char>)
      ensures Valid()
      ensures !isAnimating && !iterTimerOn && !outputTimerOn
      ensures output == initialText && iteration == 0
    {
      isAnimating := false;
      output := initialText;
      word := [];
      schedule := [];
      iteration := 0;
      iterTimerOn := false;
      outputTimerOn := false;
    }

    /**
     * `show_flicker(w)`. `fetched` is what awaiting `fetch` and `response.json()` yields;
     * None stands for a rejection, which escapes the async function after the flag was set.
     */
    method ShowFlicker(w: seq<char>, fetched: Option<seq<real>>)
      requires Valid()
      requires fetched.Some? ==> ValidSchedule(fetched.value)
      modifies this
      ensures Valid()
      ensures old(isAnimating) ==> unchanged(this)
      ensures !old(isAnimating) ==> isAnimating && output == []
      ensures !old(isAnimating) && fetched.Some? ==>
        && word == w && schedule == fetched.value
        && iteration == 0 && iterTimerOn && outputTimerOn
      ensures !old(isAnimating) && fetched.None? ==>
        && !iterTimerOn && !outputTimerOn
        && word == old(word) && schedule == old(schedule) && iteration == old(iteration)
    {
      if isAnimating {
        return;
      }
      isAnimating := true;
      output := [];
      if fetched.None? {
        return;
      }
      word := w;
      schedule := fetched.value;
      iteration := 0;
      iterTimerOn := true;
      outputTimerOn := true;
    }

    /** `iterTimer`: advance the iteration and cancel itself once it passes the last one. */
    method IterTick()
      requires Valid() && iterTimerOn
      modifies this`iteration, this`iterTimerOn
      ensures Valid()
      ensures iteration == old(iteration) + 1 <= LastIteration + 1
      ensures iterTimerOn <==> iteration <= LastIteration
    {
      iteration := iteration + 1;
      if iteration > LastIteration {
        iterTimerOn := false;
      }
    }

    /**
     * `outputTimer`: after the last iteration, write the exact word, release the flag and
     * cancel itself; before it, show a freshly sampled frame, rs holding one draw per character.
     */
    method RedrawTick(rs: seq<real>)
      requires Valid() && outputTimerOn && |rs| == |word|
      modifies this`output, this`isAnimating, this`outputTimerOn
      ensures Valid()
      ensures iteration > LastIteration ==> output == word && !isAnimating && !outputTimerOn
      ensures iteration <= LastIteration ==>
        && output == Frame(word, schedule, iteration, rs)
        && isAnimating && outputTimerOn
    {
      if iteration > LastIteration {
        output := word;
        isAnimating := false;
        outputTimerOn := false;
        return;
      }
      output := RenderFrame(word, schedule, iteration, rs);
    }
  }

  /**
   * Bounded convergence of a started run: at most thirteen iteration ticks end the iteration
   * timer, after which the next redraw shows the exact word and leaves the page idle, ready
   * for a fresh `show_flicker`.
   */
  method RunToCompletion(f: Flicker)
    requires f.Valid() && f.outputTimerOn
    modifies f
    ensures f.Valid()
    ensures f.output == old(f.word) && f.word == old(f.word)
    ensures !f.isAnimating && !f.iterTimerOn && !f.outputTimerOn
    ensures f.iteration == LastIteration + 1
  {
    while f.iterTimerOn
      invariant f.Valid() && f.outputTimerOn && f.word == old(f.word)
      decreases LastIteration + 1 - f.iteration
    {
      f.IterTick();
    }
    f.RedrawTick(seq(|f.word|, _ => 0.0));
  }
}
