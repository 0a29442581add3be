/** The linear-congruential generator that picks pivot indices
    (src/b_rand.rs). Its state is `curr`; the multiplier, increment and
    modulus are fixed when it is created and never change. All four are
    `usize` in the library, so the step `curr * mul + inc` is computed in
    64-bit unsigned arithmetic, where it must not overflow. */
module Rand {

  const MUL: nat := 56394237
  const INC: nat := 34642349
  const MODULO: nat := 9384434935

  /** One more than the largest `usize` value on a 64-bit target. */
  const USIZE_LIMIT: nat := 0x1_0000_0000_0000_0000

  /** Seed of the library's process-wide generator. */
  const DEFAULT_SEED: nat := 34052

  /** Largest state whose step `curr * MUL + INC` still fits in a `usize`. */
  const MAX_SAFE_STATE: nat := 327103354083

  /** The step from `curr` to the next state does not overflow a `usize`. */
  predicate NoOverflow(curr: nat) {
    curr * MUL + INC < USIZE_LIMIT
  }

  /** The next state of the generator. */
  function Next(curr: nat): (n: nat)
    ensures n < MODULO
  {
    (curr * MUL + INC) % MODULO
  }

  /** The value handed out when the generator in state `curr` is asked for
      a number below `max`. */
  function Draw(curr: nat, max: nat): (r: nat)
    requires max > 0
    ensures r < max
  {
    Next(curr) % max
  }

  /** The outputs of a generator in state `curr` asked successively for
      numbers below each bound in `maxes`. */
  function Outputs(curr: nat, maxes: seq<nat>): (r: seq<nat>)
    requires forall i :: 0 <= i < |maxes| ==> maxes[i] > 0
    ensures |r| == |maxes|
    ensures forall i :: 0 <= i < |r| ==> r[i] < maxes[i]
    decreases |maxes|
  {
    if maxes == [] then [] else [Draw(curr, maxes[0])] + Outputs(Next(curr), maxes[1..])
  }

  /** The state after those draws. */
  function After(curr: nat, maxes: seq<nat>): (n: nat)
    ensures maxes != [] ==> n < MODULO
    decreases |maxes|
  {
    if maxes == [] then curr else After(Next(curr), maxes[1..])
  }

  /** Exactly the states up to MAX_SAFE_STATE can be stepped without overflow. */
  lemma NoOverflowBound(curr: nat)
    ensures NoOverflow(curr) <==> curr <= MAX_SAFE_STATE
  {
  }

  /** Every state the generator reaches by stepping is below the modulus and
      therefore safe to step again: once it has drawn, it never overflows. */
  lemma NextNoOverflow(curr: nat)
    ensures NoOverflow(Next(curr))
  {
    NoOverflowBound(Next(curr));
  }

  class RandGen {
    var curr: nat
    const mul: nat
    const inc: nat
    const modulo: nat

    /** The constants are the library's, and the next step cannot overflow. */
    ghost predicate Valid()
      reads this
    {
      mul == MUL && inc == INC && modulo == MODULO && NoOverflow(curr)
    }

    /** `RandGen::new`: the state starts at the seed. Any `usize` seed is
        accepted; only seeds up to MAX_SAFE_STATE leave it Valid. */
    constructor (seed: nat)
      requires seed < USIZE_LIMIT
      ensures curr == seed
      ensures mul == MUL && inc == INC && modulo == MODULO
      ensures Valid() <==> seed <= MAX_SAFE_STATE
    {
      curr := seed;
      mul := 56394237;
      inc := 34642349;
      modulo := 9384434935;
      NoOverflowBound(seed);
    }

    /** `RandGen::gen`: step the state, then reduce it below `max`. A zero
        `max` is a division by zero in the library, so callers must not pass
        it. */
    method Gen(max: nat) returns (r: nat)
      requires Valid()
      requires max > 0
      modifies this`curr
      ensures Valid()
      ensures curr == Next(old(curr)) && curr < modulo
      ensures r == Draw(old(curr), max) && r < max
    {
      curr := (curr * mul + inc) % modulo;
      r := curr % max;
      NextNoOverflow(old(curr));
    }

    /** Draw once for every bound in `maxes`, in order. */
    method GenAll(maxes: seq<nat>) returns (outs: seq<nat>)
      requires Valid()
      requires forall i :: 0 <= i < |maxes| ==> maxes[i] > 0
      modifies this`curr
      ensures Valid()
      ensures outs == Outputs(old(curr), maxes)
      ensures curr == After(old(curr), maxes)
    {
      outs := [];
      var i := 0;
      while i < |maxes|
        invariant 0 <= i <= |maxes|
        invariant Valid()
        invariant outs + Outputs(curr, maxes[i..]) == Outputs(old(curr), maxes)
        invariant After(curr, maxes[i..]) == After(old(curr), maxes)
      {
        assert maxes[i..][1..] == maxes[i + 1..];
        var r := Gen(maxes[i]);
        outs := outs + [r];
        i := i + 1;
      }
    }
  }

  /** The library's process-wide generator starts in a state that can be
      stepped, so every later draw is safe too. */
  lemma DefaultSeedSafe()
    ensures DEFAULT_SEED <= MAX_SAFE_STATE && NoOverflow(DEFAULT_SEED)
  {
  }

  /** The largest `usize` seed is accepted by the constructor but its very
      first step overflows. */
  lemma LargestSeedOverflows()
    ensures USIZE_LIMIT - 1 > MAX_SAFE_STATE && !NoOverflow(USIZE_LIMIT - 1)
  {
  }

  /** Two generators created with the same seed and asked for the same
      bounds hand out the same numbers: the outputs depend only on the seed
      and the bounds. */
  method SameSeedSameOutputs(seed: nat, maxes: seq<nat>) returns (outs1: seq<nat>, outs2: seq<nat>)
    requires seed <= MAX_SAFE_STATE
    requires forall i :: 0 <= i < |maxes| ==> maxes[i] > 0
    ensures outs1 == outs2 == Outputs(seed, maxes)
  {
    var g1 := new RandGen(seed);
    var g2 := new RandGen(seed);
    outs1 := g1.GenAll(maxes);
    outs2 := g2.GenAll(maxes);
  }

  /** The library's generator test: a generator seeded 12 asked a hundred
      times for a number below 100 never hands out more than 100. */
  method HundredDraws() returns (outs: seq<nat>)
    ensures |outs| == 100
    ensures forall i :: 0 <= i < |outs| ==> outs[i] <= 100
  {
    var g := new RandGen(12);
    outs := [];
    var n := 0;
    while n < 100
      invariant 0 <= n <= 100 && |outs| == n
      invariant g.Valid()
      invariant forall i :: 0 <= i < |outs| ==> outs[i] <= 100
    {
      var v := g.Gen(100);
      outs := outs + [v];
      n := n + 1;
    }
  }
}
