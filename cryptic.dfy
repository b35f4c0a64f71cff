/**
 * The integer helpers of the Grover script that produces the confidence schedule:
 * `get_anti_controls`, `get_largest`, and the index folding at the end of `get_probs`.
 * The quantum simulation itself is not modelled; its per-basis-state probabilities are an input.
 */
module Cryptic {
  import opened Sums

  // ---------------------------------------------------------------------------
  // Bits of a natural number, as Python's int sees them

  /** `int.bit_length()`: the number of binary digits, 0 for 0. */
  function BitLength(n: nat): nat
  {
    if n == 0 then 0 else 1 + BitLength(n / 2)
  }

  /** Bit i of n (`(n >> i) & 1`). */
  function Bit(n: nat, i: nat): nat
  {
    if i == 0 then n % 2 else Bit(n / 2, i - 1)
  }

  /** Number of 1-bits of n. */
  function Popcount(n: nat): nat
  {
    if n == 0 then 0 else n % 2 + Popcount(n / 2)
  }

  /** The top binary digit of a positive number is a 1. */
  lemma {:induction false} HighestBitIsSet(n: nat)
    requires n > 0
    ensures Bit(n, BitLength(n) - 1) == 1
  {
    if n / 2 > 0 {
      HighestBitIsSet(n / 2);
    }
  }

  // ---------------------------------------------------------------------------
  // get_anti_controls

  /** The positions, offset by i, of the 0-digits of m, least significant first. */
  function ZeroBitsFrom(m: nat, i: nat): seq<nat>
  {
    if m == 0 then []
    else (if m % 2 == 0 then [i] else []) + ZeroBitsFrom(m / 2, i + 1)
  }

  /** What `get_anti_controls` returns for a character whose code is n. */
  function AntiControls(n: nat): seq<nat>
  {
    ZeroBitsFrom(n, 0)
  }

  lemma {:induction false} ZeroBitsFromMembers(m: nat, i: nat, k: nat)
    ensures k in ZeroBitsFrom(m, i) <==> i <= k < i + BitLength(m) && Bit(m, k - i) == 0
  {
    if m > 0 {
      ZeroBitsFromMembers(m / 2, i + 1, k);
      if k > i {
        assert Bit(m, k - i) == Bit(m / 2, k - i - 1);
      }
    }
  }

  lemma {:induction false} ZeroBitsFromIncreasing(m: nat, i: nat)
    ensures forall a :: 0 <= a < |ZeroBitsFrom(m, i)| ==> i <= ZeroBitsFrom(m, i)[a]
    ensures forall a, b :: 0 <= a < b < |ZeroBitsFrom(m, i)| ==> ZeroBitsFrom(m, i)[a] < ZeroBitsFrom(m, i)[b]
  {
    if m > 0 {
      var head: seq<nat> := if m % 2 == 0 then [i] else [];
      var rest := ZeroBitsFrom(m / 2, i + 1);
      var z := head + rest;
      ZeroBitsFromIncreasing(m / 2, i + 1);
      assert ZeroBitsFrom(m, i) == z;
      forall a | |head| <= a < |z|
        ensures i < z[a]
      {
        assert z[a] == rest[a - |head|];
      }
      forall a, b | 0 <= a < b < |z|
        ensures z[a] < z[b]
      {
        if a >= |head| {
          assert z[a] == rest[a - |head|] && z[b] == rest[b - |head|];
        }
      }
    }
  }

  lemma {:induction false} ZeroBitsFromCount(m: nat, i: nat)
    ensures |ZeroBitsFrom(m, i)| + Popcount(m) == BitLength(m)
  {
    if m > 0 {
      ZeroBitsFromCount(m / 2, i + 1);
    }
  }

  /**
   * Index k is an anti-control exactly when bit k of n is 0 and k is below the bit length
   * (so below the highest set bit); the indices ascend strictly; and together with the 1-bits
   * they account for every binary digit of n.
   */
  lemma AntiControlsSpec(n: nat)
    ensures forall k: nat :: k in AntiControls(n) <==> k < BitLength(n) && Bit(n, k) == 0
    ensures forall a, b :: 0 <= a < b < |AntiControls(n)| ==> AntiControls(n)[a] < AntiControls(n)[b]
    ensures |AntiControls(n)| + Popcount(n) == BitLength(n)
  {
    forall k: nat
      ensures k in AntiControls(n) <==> k < BitLength(n) && Bit(n, k) == 0
    {
      ZeroBitsFromMembers(n, 0, k);
    }
    ZeroBitsFromIncreasing(n, 0);
    ZeroBitsFromCount(n, 0);
  }

  /**
   * `get_anti_controls(char)`: repeatedly divide the code by 2, recording the position of
   * every remainder 0; the loop stops when the code is used up.
   */
  method GetAntiControls(c: char) returns (result: seq<nat>)
    ensures result == AntiControls(c as int)
    ensures forall k: nat :: k in result <==> k < BitLength(c as int) && Bit(c as int, k) == 0
    ensures forall a, b :: 0 <= a < b < |result| ==> result[a] < result[b]
    ensures |result| + Popcount(c as int) == BitLength(c as int)
  {
    var curr: nat := c as int;
    var i: nat := 0;
    result := [];
    while curr > 0
      invariant result + ZeroBitsFrom(curr, i) == AntiControls(c as int)
      decreases curr
    {
      var mod := curr % 2;
      curr := curr / 2;
      if mod == 0 {
        result := result + [i];
      }
      i := i + 1;
    }
    AntiControlsSpec(c as int);
  }

  // ---------------------------------------------------------------------------
  // get_largest

  /** Python's ordering of `(probability, index)` pairs: by probability, then by index. */
  predicate PairAtMost(a: (real, nat), b: (real, nat))
  {
    a.0 < b.0 || (a.0 == b.0 && a.1 <= b.1)
  }

  /**
   * `get_largest(probs)`: the maximum of the pairs `(p, i)`. It names a real entry, no entry is
   * larger, and on a tie the larger index wins.
   */
  function GetLargest(ps: seq<real>): (r: (real, nat))
    requires |ps| > 0
    ensures r.1 < |ps| && ps[r.1] == r.0
    ensures forall j :: 0 <= j < |ps| ==> PairAtMost((ps[j], j), r)
  {
    if |ps| == 1 then (ps[0], 0)
    else
      var best := GetLargest(ps[..|ps| - 1]);
      if ps[|ps| - 1] >= best.0 then (ps[|ps| - 1], |ps| - 1) else best
  }

  /** The tuple maximum is the largest probability, carried by the last index that has it. */
  lemma GetLargestIsLastMaximum(ps: seq<real>)
    requires |ps| > 0
    ensures var r := GetLargest(ps);
      && (forall j :: 0 <= j < |ps| ==> ps[j] <= r.0)
      && (forall j :: r.1 < j < |ps| ==> ps[j] < r.0)
  {
    var r := GetLargest(ps);
    forall j | 0 <= j < |ps|
      ensures ps[j] <= r.0 && (r.1 < j ==> ps[j] < r.0)
    {
      assert PairAtMost((ps[j], j), r);
    }
  }

  // ---------------------------------------------------------------------------
  // the folding loop of get_probs

  function Pow2(k: nat): (p: nat)
    ensures p >= 1
  {
    if k == 0 then 1 else 2 * Pow2(k - 1)
  }

  /** Python's `a & b` on non-negative integers, digit by digit. */
  function BitAnd(a: nat, b: nat): nat
    decreases a
  {
    if a == 0 || b == 0 then 0
    else 2 * BitAnd(a / 2, b / 2) + (if a % 2 == 1 && b % 2 == 1 then 1 else 0)
  }

  lemma {:induction false} MulAtLeast(d: int, x: int)
    requires d > 0 && x >= 1
    ensures d * x >= d
  {
    if x > 1 {
      MulAtLeast(d, x - 1);
      assert d * x == d * (x - 1) + d;
    }
  }

  /** Euclidean remainders are unique: a decomposition i == d * q + s with 0 <= s < d fixes i % d. */
  lemma ModOfDecomposition(i: int, d: int, q: int, s: int)
    requires d > 0 && i == d * q + s && 0 <= s < d
    ensures i % d == s
  {
    var q' := i / d;
    var s' := i % d;
    assert i == d * q' + s';
    assert d * (q - q') == d * q - d * q';
    assert d * (q - q') == s' - s;
    if q > q' {
      MulAtLeast(d, q - q');
    } else if q < q' {
      assert d * (q' - q) == s - s';
      MulAtLeast(d, q' - q);
    }
  }

  /** The remainder modulo 2p is twice the remainder of the half modulo p, plus the last digit. */
  lemma HalvingRemainder(i: nat, p: nat)
    requires p > 0
    ensures i % (2 * p) == 2 * ((i / 2) % p) + i % 2
  {
    var s := (i / 2) % p;
    var q := (i / 2) / p;
    assert i / 2 == p * q + s;
    assert i == 2 * (i / 2) + i % 2;
    assert (2 * p) * q == 2 * (p * q);
    assert i == (2 * p) * q + (2 * s + i % 2);
    ModOfDecomposition(i, 2 * p, q, 2 * s + i % 2);
  }

  /** Masking with `(1 << k) - 1` keeps the k low digits: the same as the remainder modulo 2^k. */
  lemma {:induction false} LowMaskIsMod(i: nat, k: nat)
    ensures BitAnd(i, Pow2(k) - 1) == i % Pow2(k)
  {
    if k == 0 {
      assert Pow2(k) == 1;
    } else if i == 0 {
      assert BitAnd(i, Pow2(k) - 1) == 0;
    } else {
      var p := Pow2(k - 1);
      var mask := 2 * p - 1;
      assert Pow2(k) - 1 == mask;
      assert mask != 0 && mask / 2 == p - 1 && mask % 2 == 1;
      assert BitAnd(i, mask) == 2 * BitAnd(i / 2, p - 1) + i % 2;
      LowMaskIsMod(i / 2, k - 1);
      HalvingRemainder(i, p);
    }
  }

  /** The mass folded onto slot j: every input probability at an index congruent to j modulo m. */
  function FoldedMass(xs: seq<real>, m: nat, j: nat): real
    requires m > 0
  {
    if |xs| == 0 then 0.0
    else FoldedMass(xs[..|xs| - 1], m, j) + (if (|xs| - 1) % m == j then xs[|xs| - 1] else 0.0)
  }

  function Folded(xs: seq<real>, m: nat): seq<real>
    requires m > 0
  {
    seq(m, j requires 0 <= j < m => FoldedMass(xs, m, j))
  }

  /** Folding moves probability between slots but neither creates nor loses any. */
  lemma {:induction false} FoldedPreservesMass(xs: seq<real>, m: nat)
    requires m > 0
    ensures Sum(Folded(xs, m)) == Sum(xs)
  {
    if |xs| == 0 {
      SumOfZeros(Folded(xs, m));
    } else {
      var n := |xs| - 1;
      var before := Folded(xs[..n], m);
      var p := n % m;
      FoldedPreservesMass(xs[..n], m);
      assert Folded(xs, m) == before[p := before[p] + xs[n]];
      SumAddAt(before, p, xs[n]);
    }
  }

  lemma {:induction false} SumOfZeros(s: seq<real>)
    requires forall j :: 0 <= j < |s| ==> s[j] == 0.0
    ensures Sum(s) == 0.0
  {
    if |s| > 0 {
      SumOfZeros(s[..|s| - 1]);
    }
  }

  /**
   * The folding loop of `get_probs(qc, n)`: `2^(n-1)` slots, and the probability of basis state
   * i added to slot `i & ((1 << (n-1)) - 1)`, dropping the top (auxiliary) qubit.
   */
  method FoldProbabilities(probabilities: seq<real>, n: nat) returns (probs: seq<real>)
    requires n >= 1
    ensures |probs| == Pow2(n - 1)
    ensures forall j :: 0 <= j < |probs| ==> probs[j] == FoldedMass(probabilities, Pow2(n - 1), j)
    ensures Sum(probs) == Sum(probabilities)
  {
    var m := Pow2(n - 1);
    var a := new real[m](_ => 0.0);
    for i := 0 to |probabilities|
      invariant forall j :: 0 <= j < m ==> a[j] == FoldedMass(probabilities[..i], m, j)
    {
      var slot := BitAnd(i, m - 1);
      LowMaskIsMod(i, n - 1);
      assert probabilities[..i + 1][..i] == probabilities[..i];
      a[slot] := a[slot] + probabilities[i];
    }
    probs := a[..];
    assert probabilities[..|probabilities|] == probabilities;
    assert probs == Folded(probabilities, m);
    FoldedPreservesMass(probabilities, m);
  }
}
