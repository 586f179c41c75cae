/** The seeded generator of crates/dl-core/src/rng.rs and the integer probabilities of crates/dl-core/src/prob.rs. */
module Rng {
  import opened Words
  import opened Fixed
  import opened Bits

  /** The state increment and the two mixing constants of SplitMix64, with their inverses modulo 2^64. */
  const GAMMA: u64 := 0x9E37_79B9_7F4A_7C15
  const MIX1: u64 := 0xBF58_476D_1CE4_E5B9
  const MIX2: u64 := 0x94D0_49BB_1331_11EB
  const GAMMA_INVERSE: u64 := 0xF1DE_83E1_9937_733D
  const MIX1_INVERSE: u64 := 0x96DE_1B17_3F11_9089
  const MIX2_INVERSE: u64 := 0x3196_42B2_D24D_8EC3

  /** 1.0 on the probability scale. */
  const PROB_SCALE: u128 := 1_000_000_000_000_000_000

  /** The output mixer: two rounds of xor-shift and multiply, and a last xor-shift. */
  function Mix(z: u64): u64 {
    XorShiftFits(z, 30);
    var z1: u64 := WrappingMul(XorShift(z, 30), MIX1);
    XorShiftFits(z1, 27);
    var z2: u64 := WrappingMul(XorShift(z1, 27), MIX2);
    XorShiftFits(z2, 31);
    XorShift(z2, 31)
  }

  function Unmix(y: u64): u64 {
    UnXorShiftFits(y, 31);
    var z2: u64 := UnXorShift(y, 31);
    var w2: u64 := WrappingMul(z2, MIX2_INVERSE);
    UnXorShiftFits(w2, 27);
    var z1: u64 := UnXorShift(w2, 27);
    var w1: u64 := WrappingMul(z1, MIX1_INVERSE);
    UnXorShiftFits(w1, 30);
    UnXorShift(w1, 30)
  }

  /** The mixer is a bijection on 64-bit words. */
  lemma MixBijective(z: u64)
    ensures Unmix(Mix(z)) == z && Mix(Unmix(z)) == z
  {
    MixUnmixes(z);
    UnmixMixes(z);
  }

  lemma MixUnmixes(z: u64)
    ensures Unmix(Mix(z)) == z
  {
    XorShiftFits(z, 30);
    var x1: u64 := XorShift(z, 30);
    var z1: u64 := WrappingMul(x1, MIX1);
    XorShiftFits(z1, 27);
    var x2: u64 := XorShift(z1, 27);
    var z2: u64 := WrappingMul(x2, MIX2);
    InverseXorShift(z2, 31);
    WrappingMulInverse(x2, MIX2, MIX2_INVERSE, 2077064247507883091);
    InverseXorShift(z1, 27);
    WrappingMulInverse(x1, MIX1, MIX1_INVERSE, 8125545580553827436);
    InverseXorShift(z, 30);
  }

  lemma UnmixMixes(y: u64)
    ensures Mix(Unmix(y)) == y
  {
    UnXorShiftFits(y, 31);
    var z2: u64 := UnXorShift(y, 31);
    var w2: u64 := WrappingMul(z2, MIX2_INVERSE);
    UnXorShiftFits(w2, 27);
    var z1: u64 := UnXorShift(w2, 27);
    var w1: u64 := WrappingMul(z1, MIX1_INVERSE);
    XorShiftInverse(w1, 30);
    WrappingMulInverse(z1, MIX1_INVERSE, MIX1, 8125545580553827436);
    XorShiftInverse(w2, 27);
    WrappingMulInverse(z2, MIX2_INVERSE, MIX2, 2077064247507883091);
    XorShiftInverse(y, 31);
  }

  lemma ShiftsOfMix()
    ensures Pow2(27) == 0x800_0000 && Pow2(30) == 0x4000_0000 && Pow2(31) == 0x8000_0000
  {
    assert Pow2(9) == 0x200;
    Pow2Adds(9, 9);
    Pow2Adds(18, 9);
    Pow2Adds(27, 3);
    Pow2Adds(27, 4);
  }

  /** The mixer as the published equations: `z ^= z >> 30`, times the first constant; `z ^= z >> 27`, times the
      second; `z ^ z >> 31`, modulo 2^64. */
  lemma MixEquations(z: u64, z1: nat, z2: nat)
    requires z1 == Xor(z, z / 0x4000_0000) * 0xBF58_476D_1CE4_E5B9 % 0x1_0000_0000_0000_0000
    requires z2 == Xor(z1, z1 / 0x800_0000) * 0x94D0_49BB_1331_11EB % 0x1_0000_0000_0000_0000
    ensures Mix(z) == Xor(z2, z2 / 0x8000_0000)
  {
    ShiftsOfMix();
    ShrIsDivision(z, 30);
    ShrIsDivision(z1, 27);
    ShrIsDivision(z2, 31);
  }

  /** The `n`-th draw mixes the seed advanced by `n` increments. */
  lemma DrawEquation(seed: u64, n: nat)
    ensures Draw(seed, n) == Mix((seed + n * 0x9E37_79B9_7F4A_7C15) % 0x1_0000_0000_0000_0000)
  {
    StateClosedForm(seed, n);
  }

  /** The state after `n` draws. */
  function StateAfter(seed: u64, n: nat): u64 {
    if n == 0 then seed else (StateAfter(seed, n - 1) + GAMMA) % TWO64
  }

  /** The `n`-th draw from `seed`, counted from 1. */
  function Draw(seed: u64, n: nat): u64 {
    Mix(StateAfter(seed, n))
  }

  lemma AddThenReduce(x: int, g: int)
    ensures (x % TWO64 + g) % TWO64 == (x + g) % TWO64
  {
  }

  lemma {:induction false} StateClosedForm(seed: u64, n: nat)
    ensures StateAfter(seed, n) == (seed + n * GAMMA) % TWO64
  {
    if n > 0 {
      StateClosedForm(seed, n - 1);
      AddThenReduce(seed + (n - 1) * GAMMA, GAMMA);
    }
  }

  /** The odd increment has full period. */
  lemma FullPeriod(seed: int, m: nat, n: nat)
    requires m <= n && (seed + m * GAMMA) % TWO64 == (seed + n * GAMMA) % TWO64
    ensures (n - m) % TWO64 == 0
  {
    var d := n - m;
    var j := (seed + n * GAMMA) / TWO64 - (seed + m * GAMMA) / TWO64;
    assert d * GAMMA == j * TWO64;
    assert d == (j * GAMMA_INVERSE - d * 10771413168148108919) * TWO64;
    ModAddsMultiples(0, j * GAMMA_INVERSE - d * 10771413168148108919);
  }

  lemma StatesDistinct(seed: u64, m: nat, n: nat)
    requires m < n < m + TWO64
    ensures StateAfter(seed, m) != StateAfter(seed, n)
  {
    StateClosedForm(seed, m);
    StateClosedForm(seed, n);
    if StateAfter(seed, m) == StateAfter(seed, n) {
      FullPeriod(seed, m, n);
      assert false;
    }
  }

  lemma MixInjective(y: u64, z: u64)
    ensures Mix(y) == Mix(z) ==> y == z
  {
    MixUnmixes(y);
    MixUnmixes(z);
  }

  /** The generator never repeats: any 2^64 consecutive draws from any seed are pairwise distinct. */
  lemma DrawsDistinct(seed: u64, m: nat, n: nat)
    requires m < n < m + TWO64
    ensures Draw(seed, m) != Draw(seed, n)
  {
    StatesDistinct(seed, m, n);
    MixInjective(StateAfter(seed, m), StateAfter(seed, n));
  }

  /** Every state is reached within any 2^64 consecutive steps. */
  lemma StatesCover(seed: u64, m: nat, target: u64) returns (n: nat)
    ensures m < n <= m + TWO64 && StateAfter(seed, n) == target
  {
    // the step count, modulo 2^64, whose closed form is the target state
    var steps := (target - seed) * GAMMA_INVERSE;
    var t;
    n, t := NextCongruent(steps, m);
    StateClosedForm(seed, n);
    SolveSteps(target - seed, t, n);
    ModAddsMultiples(target, (target - seed) * 10771413168148108919 - t * GAMMA);
  }

  /** The number congruent to `x` modulo 2^64 among the 2^64 that follow `m`. */
  lemma NextCongruent(x: int, m: nat) returns (n: nat, t: int)
    ensures m < n <= m + TWO64 && n == x - t * TWO64
  {
    var y := x - m - 1;
    t := y / TWO64;
    n := m + 1 + y % TWO64;
  }

  lemma SolveSteps(d: int, t: int, n: int)
    requires n == d * GAMMA_INVERSE - t * TWO64
    ensures n * GAMMA == d + (d * 10771413168148108919 - t * GAMMA) * TWO64
  {
  }

  /** ... and it reaches every word: each value is drawn within any 2^64 consecutive draws. */
  lemma DrawsCover(seed: u64, m: nat, v: u64) returns (n: nat)
    ensures m < n <= m + TWO64 && Draw(seed, n) == v
  {
    n := StatesCover(seed, m, Unmix(v));
    UnmixMixes(v);
  }

  // ----- Lemire's multiply-shift

  /** `x * bound >> 64`. */
  function Below(x: u64, bound: u64): (r: u64)
    ensures bound > 0 ==> r < bound
  {
    MulMonotone(x, TWO64 - 1, bound);
    MulMonotone(0, x, bound);
    x * bound / TWO64
  }

  function CeilDiv(n: nat, d: nat): nat
    requires d > 0
  {
    (n + d - 1) / d
  }

  /** A raw draw maps below `v` exactly when it is below the ceiling of `v * 2^64 / bound`. */
  lemma BelowThreshold(x: u64, bound: u64, v: nat)
    requires bound > 0
    ensures Below(x, bound) < v <==> x < CeilDiv(v * TWO64, bound)
  {
    var c := CeilDiv(v * TWO64, bound);
    CeilBounds(v * TWO64, bound);
    if x < c { MulMonotone(x, c - 1, bound); } else { MulMonotone(c, x, bound); }
  }

  lemma CeilBounds(n: nat, d: nat)
    requires d > 0
    ensures CeilDiv(n, d) * d >= n && (CeilDiv(n, d) - 1) * d < n
  {
    var c := CeilDiv(n, d);
    assert n + d - 1 == c * d + (n + d - 1) % d;
    assert (c - 1) * d == c * d - d;
  }

  /** The raw draws in `[lo, hi)`. */
  ghost function Interval(lo: int, hi: int): set<int>
    decreases hi - lo
  {
    if lo >= hi then {} else Interval(lo, hi - 1) + {hi - 1}
  }

  lemma {:induction false} IntervalSize(lo: int, hi: int)
    requires lo <= hi
    ensures forall x :: x in Interval(lo, hi) <==> lo <= x < hi
    ensures |Interval(lo, hi)| == hi - lo
    decreases hi - lo
  {
    if lo < hi { IntervalSize(lo, hi - 1); }
  }

  ghost function DrawsBelow(bound: u64, v: u64): set<int> {
    set x: int | 0 <= x < TWO64 && Below(x, bound) == v
  }

  /** Each value below `bound` has the floor or the ceiling of 2^64 / bound preimages: multiply-shift is as
      uniform as 2^64 raw draws can be. */
  lemma BelowIsBalanced(bound: u64, v: u64)
    requires v < bound
    ensures TWO64 / bound <= |DrawsBelow(bound, v)| <= CeilDiv(TWO64, bound)
  {
    var lo, hi := CeilDiv(v * TWO64, bound), CeilDiv((v + 1) * TWO64, bound);
    CeilBounds(v * TWO64, bound);
    CeilBounds((v + 1) * TWO64, bound);
    CeilBounds(TWO64, bound);
    StepBounds(v, bound, lo, hi);
    IntervalSize(lo, hi);
    forall x ensures x in DrawsBelow(bound, v) <==> x in Interval(lo, hi) {
      if 0 <= x < TWO64 {
        BelowThreshold(x, bound, v);
        BelowThreshold(x, bound, v + 1);
      }
    }
    assert DrawsBelow(bound, v) == Interval(lo, hi);
  }

  lemma StepBounds(v: nat, bound: nat, lo: nat, hi: nat)
    requires v < bound
    requires v * TWO64 <= lo * bound && (lo - 1) * bound < v * TWO64
    requires (v + 1) * TWO64 <= hi * bound && (hi - 1) * bound < (v + 1) * TWO64
    ensures lo <= hi <= TWO64
    ensures TWO64 / bound <= hi - lo <= CeilDiv(TWO64, bound)
  {
    CeilBounds(TWO64, bound);
    assert TWO64 == TWO64 / bound * bound + TWO64 % bound;
    WidthAtLeast(v * TWO64, bound, lo, hi, TWO64 / bound);
    WidthAtMost(v * TWO64, bound, lo, hi, CeilDiv(TWO64, bound));
    if hi > TWO64 { MulMonotone(TWO64, hi - 1, bound); }
  }

  lemma WidthAtLeast(n: int, bound: int, lo: int, hi: int, f: int)
    requires bound > 0 && (lo - 1) * bound < n && n + TWO64 <= hi * bound && f * bound <= TWO64
    ensures f <= hi - lo
  {
    assert (hi - lo + 1) * bound == hi * bound - (lo - 1) * bound;
    CancelFactor(f, hi - lo, bound);
  }

  lemma WidthAtMost(n: int, bound: int, lo: int, hi: int, c: int)
    requires bound > 0 && n <= lo * bound && (hi - 1) * bound < n + TWO64 && TWO64 <= c * bound
    ensures hi - lo <= c
  {
    assert (hi - lo - 1) * bound == (hi - 1) * bound - lo * bound;
    assert (hi - lo) * bound == (hi - lo - 1) * bound + bound && (c + 1) * bound == c * bound + bound;
    CancelFactor(hi - lo, c, bound);
  }

  // ----- Bernoulli trials

  /** The outcome of a trial whose raw draw, if it takes one, is `x`. */
  predicate Succeeds(p: u128, x: u64) {
    if p >= PROB_SCALE then true
    else if p == 0 then false
    else Below(x, PROB_SCALE) < p
  }

  /** A trial succeeds exactly if the draw, as a fraction of 2^64, lies below the probability as a fraction of
      1e18. */
  lemma TrialDecides(p: u128, x: u64)
    ensures Succeeds(p, x) <==> p >= 1_000_000_000_000_000_000 || x * 1_000_000_000_000_000_000 < p * TWO64
  {
    if 0 < p < PROB_SCALE {
      BelowThreshold(x, PROB_SCALE, p);
      CeilBounds(p * TWO64, PROB_SCALE);
    }
  }

  ghost function Successes(p: u128): set<int> {
    set x: int | 0 <= x < TWO64 && Succeeds(p, x)
  }

  /** Of the 2^64 raw draws exactly the ceiling of p * 2^64 / 1e18 succeed: the trial has the probability
      it is given, to within one raw draw. */
  lemma TrialIsExact(p: u128)
    requires p <= PROB_SCALE
    ensures |Successes(p)| == CeilDiv(p * TWO64, PROB_SCALE)
  {
    var c := CeilDiv(p * TWO64, PROB_SCALE);
    assert c <= TWO64;
    IntervalSize(0, c);
    forall x ensures x in Successes(p) <==> x in Interval(0, c) {
      if 0 <= x < TWO64 { BelowThreshold(x, PROB_SCALE, p); }
    }
    assert Successes(p) == Interval(0, c);
  }

  /** The steps of the full period behind step `m` whose draw makes the trial succeed. */
  ghost function SuccessfulSteps(seed: u64, m: nat, p: u128): set<nat> {
    set n: nat | m < n <= m + TWO64 && Succeeds(p, Draw(seed, n))
  }

  /** The words drawn at the given steps. */
  ghost function DrawnAt(seed: u64, steps: set<nat>): set<int> {
    set n | n in steps :: Draw(seed, n)
  }

  /** Steps of one period draw pairwise different words. */
  lemma {:induction false} AsManyDrawsAsSteps(seed: u64, m: nat, steps: set<nat>)
    requires forall n :: n in steps ==> m < n <= m + TWO64
    ensures |DrawnAt(seed, steps)| == |steps|
  {
    if n :| n in steps {
      var rest := steps - {n};
      assert Draw(seed, n) !in DrawnAt(seed, rest) by {
        forall k | k in rest ensures Draw(seed, k) != Draw(seed, n) {
          if k < n { DrawsDistinct(seed, k, n); } else { DrawsDistinct(seed, n, k); }
        }
      }
      assert DrawnAt(seed, steps) == DrawnAt(seed, rest) + {Draw(seed, n)};
      AsManyDrawsAsSteps(seed, m, rest);
    }
  }

  /** From any seed, in any 2^64 consecutive draws of the generator exactly the ceiling of p * 2^64 / 1e18 trials
      with probability p succeed. */
  lemma TrialsOverAPeriod(seed: u64, m: nat, p: u128)
    requires p <= PROB_SCALE
    ensures |SuccessfulSteps(seed, m, p)| == CeilDiv(p * TWO64, PROB_SCALE)
  {
    var steps := SuccessfulSteps(seed, m, p);
    forall x | x in Successes(p) ensures x in DrawnAt(seed, steps) {
      var n := DrawsCover(seed, m, x);
      assert n in steps;
    }
    assert DrawnAt(seed, steps) == Successes(p);
    AsManyDrawsAsSteps(seed, m, steps);
    TrialIsExact(p);
  }

  class SeededRng {
    var state: u64

    constructor (seed: u64)
      ensures state == seed
    {
      state := seed;
    }

    /** Advances the state by one step and returns its mix. */
    method NextU64() returns (r: u64)
      modifies this
      ensures state == (old(state) + GAMMA) % TWO64
      ensures r == Mix(state)
    {
      state := (state + GAMMA) % TWO64;
      var z := state;
      XorShiftFits(z, 30);
      z := WrappingMul(XorShift(z, 30), MIX1);
      XorShiftFits(z, 27);
      z := WrappingMul(XorShift(z, 27), MIX2);
      XorShiftFits(z, 31);
      r := XorShift(z, 31);
    }

    /** A value below `bound`; a zero bound gives 0 and takes no draw. */
    method NextBelow(bound: u64) returns (r: u64)
      modifies this
      ensures bound == 0 ==> r == 0 && state == old(state)
      ensures bound > 0 ==> r < bound && r == Below(Mix(state), bound) && state == (old(state) + GAMMA) % TWO64
    {
      if bound == 0 { return 0; }
      var x := NextU64();
      r := Below(x, bound);
    }

    method NextProb() returns (r: u128)
      modifies this
      ensures r < PROB_SCALE && r == Below(Mix(state), PROB_SCALE) && state == (old(state) + GAMMA) % TWO64
    {
      r := NextBelow(PROB_SCALE);
    }

    /** A Bernoulli trial; a certain outcome takes no draw. */
    method Trial(p: u128) returns (r: bool)
      modifies this
      ensures r == Succeeds(p, Mix(state))
      ensures state == if 0 < p < PROB_SCALE then (old(state) + GAMMA) % TWO64 else old(state)
    {
      if p >= PROB_SCALE { return true; }
      if p == 0 { return false; }
      var draw := NextProb();
      r := draw < p;
    }
  }

  /** Drawing `n` times in a row yields the first `n` draws. */
  method Draws(rng: SeededRng, n: nat) returns (values: seq<u64>)
    modifies rng
    ensures |values| == n && rng.state == StateAfter(old(rng.state), n)
    ensures forall k :: 0 <= k < n ==> values[k] == Draw(old(rng.state), k + 1)
  {
    values := [];
    ghost var seed := rng.state;
    for k := 0 to n
      invariant |values| == k && rng.state == StateAfter(seed, k)
      invariant forall j :: 0 <= j < k ==> values[j] == Draw(seed, j + 1)
    {
      var v := rng.NextU64();
      assert rng.state == StateAfter(seed, k + 1) && v == Draw(seed, k + 1);
      values := values + [v];
    }
  }
}
