/**
 * The xorshift64 generator (src/rand.c): one 64-bit state word, updated by
 * three xor-shifts with shift amounts 13, 7 and 17.
 */
module Rand {

  /** The three in-place updates of `xorsh`, in order. */
  function Step13(x: bv64): bv64 { x ^ (x << 13) }
  function Step7(x: bv64): bv64 { x ^ (x >> 7) }
  function Step17(x: bv64): bv64 { x ^ (x << 17) }

  /** One step of `xorsh`, modulo 2^64. */
  function XorShift(x: bv64): bv64 {
    Step17(Step7(Step13(x)))
  }

  /** Zero is a fixed point of the generator. */
  lemma ZeroStaysZero()
    ensures XorShift(0) == 0
  {
  }

  /** A left xor-shift keeps the lowest set bit, so a non-zero word stays non-zero. */
  lemma Step13NonZero(x: bv64)
    requires x != 0
    ensures Step13(x) != 0
  {
  }

  /** A right xor-shift keeps the highest set bit. */
  lemma Step7NonZero(x: bv64)
    requires x != 0
    ensures Step7(x) != 0
  {
  }

  lemma Step17NonZero(x: bv64)
    requires x != 0
    ensures Step17(x) != 0
  {
  }

  /** A non-zero state never reaches zero, so a non-zero seed never sticks at the fixed point. */
  lemma NonZeroStaysNonZero(x: bv64)
    requires x != 0
    ensures XorShift(x) != 0
  {
    Step13NonZero(x);
    Step7NonZero(Step13(x));
    Step17NonZero(Step7(Step13(x)));
  }

  /** The outputs of `n` calls to `xorsh` from state `s`: each call returns the step of the previous state. */
  function Outputs(s: bv64, n: nat): (r: seq<bv64>)
    ensures |r| == n
    ensures n > 0 ==> r[0] == XorShift(s)
    ensures forall i :: 0 < i < n ==> r[i] == XorShift(r[i - 1])
    decreases n
  {
    if n == 0 then []
    else
      var before := Outputs(s, n - 1);
      before + [XorShift(if n == 1 then s else before[n - 2])]
  }

  /** Every state drawn from a non-zero seed is non-zero. */
  lemma {:induction false} OutputsNonZero(s: bv64, n: nat)
    requires s != 0
    ensures forall i :: 0 <= i < n ==> Outputs(s, n)[i] != 0
    decreases n
  {
    if n > 0 {
      OutputsNonZero(s, n - 1);
      var before := Outputs(s, n - 1);
      var prev := if n == 1 then s else before[n - 2];
      NonZeroStaysNonZero(prev);
      assert Outputs(s, n) == before + [XorShift(prev)];
    }
  }

  /**
   * `xorsh_0_1`: an output divided by `(double)~(uint64_t)0`, which rounds
   * to 2^64; the rounding of the numerator is not modelled.
   */
  function Unit(x: bv64): (r: real)
    ensures 0.0 <= r < 1.0
  {
    x as int as real / 18446744073709551616.0
  }

  /** The generator object: the global `state` and the two functions that touch it. */
  class Generator {
    var state: bv64

    /**
     * `__init_xorsh`, run before `main`: `sxorsh` with the clock reading
     * `seed`, then one `xorsh` whose output is discarded.
     */
    constructor (seed: bv64)
      ensures state == XorShift(seed)
    {
      state := seed;
      new;
      var _ := Next();
    }

    /** `sxorsh`: the state becomes exactly the seed. */
    method Seed(s: bv64)
      modifies this
      ensures state == s
    {
      state := s;
    }

    /** `xorsh`: advance the state and return the new state. */
    method Next() returns (x: bv64)
      modifies this
      ensures x == XorShift(old(state)) && state == x
    {
      x := state;
      x := Step13(x);
      x := Step7(x);
      x := Step17(x);
      state := x;
    }

    /** `xorsh_0_1`: one step of the generator, scaled into [0, 1). */
    method NextUnit() returns (r: real)
      modifies this
      ensures state == XorShift(old(state)) && r == Unit(state)
    {
      var x := Next();
      r := Unit(x);
    }

    /** `n` successive calls to `xorsh`: after `sxorsh(s)` they are `Outputs(s, n)`, so equal seeds give equal runs. */
    method Draw(n: nat) returns (r: seq<bv64>)
      modifies this
      ensures r == Outputs(old(state), n)
      ensures n > 0 ==> state == r[n - 1]
      ensures n == 0 ==> state == old(state)
    {
      r := [];
      ghost var s0 := state;
      while |r| < n
        invariant |r| <= n
        invariant r == Outputs(s0, |r|)
        invariant |r| > 0 ==> state == r[|r| - 1]
        invariant |r| == 0 ==> state == s0
      {
        var x := Next();
        r := r + [x];
      }
    }
  }
}
