# Flicker convergence, modelled in Dafny

This project models the "decryption" title flicker of a personal web site. Given a target word
and a schedule of confidences (`probs.json`, one value per iteration), the page shows random
strings that converge on the word. Two interval callbacks drive it. A slow one advances the
iteration. A fast one redraws every character from a weighted distribution centred on the
right character. Once the iteration passes 12, the exact word is shown and both timers stop.

Two scripts run this animation:

- `projects/script.js` guards re-entry with a module-level `isAnimating` flag. A click restarts it.
- `script.js` has no guard and is called once at load time.

The project also models the integer helpers of `scripts/cryptic.py`, the Grover-search script
that produces the schedule: `get_anti_controls`, `get_largest`, and the index folding in `get_probs`.

Modules:

- Alphabet: `asciiChars`, the 128 characters with codes 0 to 127.
- Sums: exact sums of real-valued weight vectors.
- Weights: `probs(iteration, targetIndex)`.
- Sampler: `weightedRandom`, with the `Math.random()` draw `r` passed in. `SampleIndex` is its
  reference definition: the first index whose prefix sum reaches `r`, else 127.
- Redraw: one redraw. `Frame` is its specification and `RenderFrame` the per-character loop.
- `ProjectsFlicker`, `SiteFlicker`: one class per script. Each class holds the flag (projects
  page only), the title text, the run's word, schedule and `iteration`, and which timers are
  still scheduled. Each interval callback is one atomic method, because the event loop runs
  each callback to completion. The methods may be called in any interleaving that the
  live-timer preconditions allow.
- Cryptic: the helpers of `scripts/cryptic.py`.

The two JavaScript files have identical `probs` and `weightedRandom` (`script.js:14-31` and
`projects/script.js:19-36`). Both scripts share the one definition in `Weights` and `Sampler`.

Where the intended design and the code differ, the model follows the code:

- A rejected `fetch` or `response.json()` leaves `isAnimating` set forever on the projects
  page, so the page never animates again. The design asks that the flag be released in that
  case. `ProjectsFlicker.Flicker.ShowFlicker` models the code: with `fetched == None` the flag
  stays set and no timer starts, and only `RedrawTick`, which needs a live timer, ever clears it.
- The iteration bound is the literal `12`, not derived from the schedule's length.
  `Redraw.LastIteration` is that constant. A run relies on the schedule having at least 13
  entries. `scripts/cryptic.py` writes 1 + floor(pi/4 * sqrt(2^8)) = 13 values.
- The design leaves characters outside codes 0-127 undefined. The code still handles them:
  `charCodeAt` yields a code of 128 or more, and `probs` then gives every symbol the low weight.
  The weights then sum to 128/127 * (1 - confidence). The sampler's fallback, the last
  alphabet symbol (code 127), is then taken for every draw above that total. Two lemmas state
  this behaviour: `Weights.NonAsciiTargetGetsNoHighWeight` and `Sampler.NonAsciiTargetFallsBack`.

## Model

| member | source | states |
|---|---|---|
| `Alphabet.AsciiChars` | script.js:2 | the alphabet has 128 entries and entry i is the character with code i |
| `Alphabet.AlphabetMembers` | projects/script.js:14 | a character is in the alphabet exactly when its code is below 128, and then it sits at the position equal to its code |
| `Weights.Probs` | projects/script.js:19-25 | the distribution has one weight per alphabet symbol. The target code carries the iteration's confidence. Every other code carries the same low weight (1 - confidence)/127 |
| `Weights.ProbsPrefixSum` | projects/script.js:19-25 | closed form of the sum of the first k weights, depending on whether the target lies among them |
| `Weights.ProbsSumToOne` | projects/script.js:21-24 | for a target code below 128 the weights sum to exactly 1 over the reals, for any confidence |
| `Weights.NonAsciiTargetGetsNoHighWeight` | script.js:14-20 | for a target code of 128 or more, no symbol receives the confidence. All 128 get the low weight and the total is 128 low weights |
| `Sampler.SampleIndexIsLeastReaching` | script.js:23-31 | the sampled index is the least k with ps[0]+...+ps[k] >= r. When no prefix reaches r it is the last symbol, 127 |
| `Sampler.WeightedRandom` | projects/script.js:28-36 | the accumulating loop returns the alphabet symbol at the reference sampled index. The result is always an alphabet member, never undefined |
| `Sampler.FallbackUnreachable` | projects/script.js:22-35 | with a distribution from `probs` for an ASCII target and r <= 1, some prefix sum reaches r, so the return after the loop is never taken |
| `Sampler.CertainConfidencePicksTarget` | projects/script.js:21-33 | confidence 1 and a draw in (0,1] always sample the target code |
| `Sampler.ZeroConfidenceNeverPicksTarget` | projects/script.js:21-33 | confidence 0 and a draw in (0,1] never sample the target code |
| `Sampler.NonAsciiTargetFallsBack` | script.js:16-30 | for a non-ASCII target, a draw above the total weight falls through every prefix and yields the last symbol |
| `Redraw.Frame` | projects/script.js:55-59 | a redraw writes a string of the same length as the word, every character an alphabet member |
| `Redraw.RenderFrame` | script.js:51-55 | the per-character map, one `weightedRandom(probs(iteration, code))` per position in order, yields exactly `Frame` |
| `Redraw.FrameAtFullConfidence` | projects/script.js:55-59 | at confidence 1 with positive draws, a redraw of an all-ASCII word shows the word itself |
| `Redraw.FrameAtZeroConfidence` | script.js:51-55 | at confidence 0 with positive draws, no position of an all-ASCII word shows its own character |
| `ProjectsFlicker.Flicker.constructor` | projects/script.js:1 | the page starts idle: flag clear, no timers, the title showing its initial text |
| `ProjectsFlicker.Flicker.ShowFlicker` | projects/script.js:3-16 | a call while animating changes nothing. Otherwise it sets the flag and clears the title. After a successful fetch it captures the word and schedule, resets `iteration` to 0 and starts both timers. After a rejected fetch it starts nothing and the flag stays set |
| `ProjectsFlicker.Flicker.IterTick` | projects/script.js:39-45 | `iteration` grows by exactly 1 and never passes 13. The timer stays live exactly while `iteration <= 12`. Nothing else changes |
| `ProjectsFlicker.Flicker.RedrawTick` | projects/script.js:48-60 | past iteration 12 it writes exactly the word, clears the flag and stops; this is the only place the flag is cleared. Otherwise it writes `Frame` for the current iteration, which reads the schedule only at indices 0..12. The timer invariant is kept |
| `ProjectsFlicker.RunToCompletion` | projects/script.js:39-53 | a started run ends after at most 13 iteration ticks and one redraw. It then shows exactly the word and is idle with iteration 13, so a new `show_flicker` starts over |
| `SiteFlicker.Flicker.ShowFlicker` | script.js:4-11 | the single call keeps the title's initial text. After a successful fetch it starts both timers at iteration 0 with the word and schedule; after a rejection it starts none |
| `SiteFlicker.Flicker.IterTick` | script.js:34-41 | `iteration` grows by exactly 1 and stays within 0..13. The timer stays live exactly while `iteration <= 12` |
| `SiteFlicker.Flicker.RedrawTick` | script.js:45-56 | past iteration 12 it writes exactly the word and stops. Otherwise it writes `Frame` for the current iteration |
| `SiteFlicker.RunToCompletion` | script.js:34-50 | a started run settles on exactly the word after at most 13 iteration ticks and one redraw |
| `Cryptic.GetAntiControls` | scripts/cryptic.py:63-75 | the loop returns the reference list. It holds exactly the positions below the bit length whose bit is 0, in strictly increasing order. Its length plus the popcount is the bit length, and code 0 gives the empty list |
| `Cryptic.AntiControlsSpec` | scripts/cryptic.py:67-75 | index k is an anti-control iff k < bit_length(n) and bit k of n is 0. The indices strictly increase. Count plus popcount equals the bit length |
| `Cryptic.HighestBitIsSet` | scripts/cryptic.py:70-74 | for a positive code, bit `bit_length - 1` is 1, so "below the bit length" means "below the highest set bit" |
| `Cryptic.GetLargest` | scripts/cryptic.py:96-100 | on a non-empty list the result pairs an actual entry with its index, and every `(p, i)` pair is at most the result in Python's tuple order |
| `Cryptic.GetLargestIsLastMaximum` | scripts/cryptic.py:100 | the result is the largest probability, and on ties the largest index carrying it wins |
| `Cryptic.LowMaskIsMod` | scripts/cryptic.py:92 | `i & ((1 << k) - 1)` equals `i mod 2^k` for every non-negative i |
| `Cryptic.FoldProbabilities` | scripts/cryptic.py:90-93 | the fold yields 2^(n-1) slots. Slot j holds the sum of the input probabilities at indices congruent to j modulo 2^(n-1), and the total mass equals the input's |
| `Cryptic.FoldedPreservesMass` | scripts/cryptic.py:90-92 | folding the probabilities onto 2^(n-1) slots preserves their sum exactly |

## Left out

- DOM access is not modelled: `document.getElementById`, the click listener and the top-level calls (`projects/script.js:7, 64-68`, `script.js:44, 60`). The title element is the `output` field.
- Fetching and parsing `probs.json` is not modelled. Its outcome is an `Option<seq<real>>` argument, and the await is not modelled as a suspension. A successful result must hold at least 13 values, each in [0,1]. A shorter array would make `maxProbs[iteration]` undefined and every weight NaN; that is not modelled.
- Timer periods (250 ms and 20 ms), wall-clock time and which interleavings are likely are not modelled. The ticks are methods that may be called in any order while their timer is live.
- `Math.random()` is not modelled. Each draw is a parameter: `r` for one sample, and `rs` with one draw per character for one redraw. Frequencies and statistical properties are not modelled.
- Sampler.WeightedRandom: the weights are exact reals, not IEEE doubles. Rounding shortfalls that make the fallback reachable in the page for ASCII targets are therefore not captured; the fallback branch itself is modelled.
- Redraw.Frame: each Dafny `char` is one Unicode scalar value. For characters outside the Basic Multilingual Plane, `[...word]` (code points) and `word.charCodeAt(index)` (UTF-16 units) disagree in the source. That mismatch is not modelled.
- `console.log` calls (`script.js:9, 36`) are not modelled.
- Overlapping runs of `script.js` are not modelled. It has no guard but is called exactly once, so its class starts its run in the constructor.
- The Qiskit parts of `scripts/cryptic.py` are not modelled, because they are calls into a foreign quantum-simulation library: circuit construction in `apply_oracle` and `diffuse`, the statevector run in `get_probs` (lines 84-87), and `main`'s loop over them. `to_probability` (complex modulus) is left out too. The fold takes its per-basis-state probabilities as input.
- From `scripts/cryptic.py`, the floating-point `num_repeats` formula, the JSON write to `assets/probs.json` and `print` are not modelled.
- Cryptic.GetLargest: Python floats, NaN included, are modelled as reals.
- Cryptic.FoldProbabilities: `n >= 1` is required. For `n == 0`, Python raises on the negative shift count; `main` always passes `n = 8`.
