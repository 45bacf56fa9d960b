/** The sandbox crate: a plain 32-bit addition and the 64-bit PCG generator
    `Pcg64Si` (an LCG with the MMIX constants, followed by the RXS-M-XS output
    permutation). All `u64` arithmetic is `bv64`, which wraps modulo 2^64 as
    `wrapping_mul` and `wrapping_add` do. */
module Sandbox {

  newtype i32 = x: int | -0x8000_0000 <= x < 0x8000_0000

  /** `add`: Rust's `+` on `i32` panics on overflow, so the sum must fit. */
  function Add(a: i32, b: i32): (r: i32)
    requires -0x8000_0000 <= a as int + b as int < 0x8000_0000
    ensures r as int == a as int + b as int
  {
    a + b
  }

  // ---------------------------------------------------------------------------
  // The state transition

  /** The LCG step `state * 6364136223846793005 + 1442695040888963407`. */
  function Lcg(s: bv64): bv64
  {
    s * 6364136223846793005 + 1442695040888963407
  }

  /** The step backwards; 13877824140714322085 is the inverse of the multiplier
      modulo 2^64. */
  function LcgBack(s: bv64): bv64
  {
    (s - 1442695040888963407) * 13877824140714322085
  }

  /** The LCG step is a permutation of the 2^64 states. */
  lemma LcgRoundTrip(s: bv64)
    ensures LcgBack(Lcg(s)) == s
    ensures Lcg(LcgBack(s)) == s
  {
    BackAfterStep(s);
    StepAfterBack(s);
  }

  lemma BackAfterStep(s: bv64)
    ensures LcgBack(Lcg(s)) == s
  {
    assert Lcg(s) == s * 6364136223846793005 + 1442695040888963407;
    assert LcgBack(Lcg(s)) == LcgBack(s * 6364136223846793005 + 1442695040888963407);
    assert LcgBack(s * 6364136223846793005 + 1442695040888963407)
        == (s * 6364136223846793005 + 1442695040888963407 - 1442695040888963407) * 13877824140714322085;
    assert s * 6364136223846793005 + 1442695040888963407 - 1442695040888963407 == s * 6364136223846793005 by {
      AddCancel(s * 6364136223846793005);
    }
    assert s * 6364136223846793005 * 13877824140714322085 == s by {
      MulCancel(s);
    }
  }

  /** 13877824140714322085 is the inverse of the multiplier modulo 2^64. */
  lemma MulCancel(x: bv64)
    ensures x * 6364136223846793005 * 13877824140714322085 == x
  {
  }

  lemma AddCancel(x: bv64)
    ensures x + 1442695040888963407 - 1442695040888963407 == x
  {
  }

  lemma StepAfterBack(s: bv64)
    ensures Lcg(LcgBack(s)) == s
  {
    assert LcgBack(s) == (s - 1442695040888963407) * 13877824140714322085;
    assert Lcg(LcgBack(s)) == Lcg((s - 1442695040888963407) * 13877824140714322085);
    assert Lcg((s - 1442695040888963407) * 13877824140714322085)
        == (s - 1442695040888963407) * 13877824140714322085 * 6364136223846793005 + 1442695040888963407;
    assert (s - 1442695040888963407) * 13877824140714322085 * 6364136223846793005 == s - 1442695040888963407 by {
      MulCancelBack(s - 1442695040888963407);
    }
    assert s - 1442695040888963407 + 1442695040888963407 == s by {
      SubCancel(s);
    }
  }

  lemma MulCancelBack(x: bv64)
    ensures x * 13877824140714322085 * 6364136223846793005 == x
  {
  }

  lemma SubCancel(x: bv64)
    ensures x - 1442695040888963407 + 1442695040888963407 == x
  {
  }

  /** The state after `n` steps. */
  function Iterate(s: bv64, n: nat): bv64
    decreases n
  {
    if n == 0 then s else Iterate(Lcg(s), n - 1)
  }

  lemma {:induction false} IterateBack(s: bv64, n: nat)
    ensures Iterate(s, n + 1) == Lcg(Iterate(s, n))
    decreases n
  {
    if n > 0 {
      IterateBack(Lcg(s), n - 1);
    }
  }

  // ---------------------------------------------------------------------------
  // The output permutation

  /** The data-dependent shift `(old_state >> 59) + 5`; it never reaches 64. */
  function ShiftAmount(s: bv64): (k: bv64)
    ensures 5 <= k <= 36
  {
    (s >> 59) + 5
  }

  /** The first xorshift, by the amount the top five bits select. */
  function XorShift(s: bv64): bv64
  {
    (s >> ShiftAmount(s)) ^ s
  }

  /** `word`: the xorshifted state times 12605985483714917081. */
  function Word(s: bv64): bv64
  {
    XorShift(s) * 12605985483714917081
  }

  /** The final xorshift `(word >> 43) ^ word`. */
  function Mix(w: bv64): bv64
  {
    (w >> 43) ^ w
  }

  /** The value `next_u64` returns for the state `s`. */
  function Output(s: bv64): bv64
  {
    Mix(Word(s))
  }

  /** The top five bits survive the first xorshift, so its amount can be read
      back from the result. */
  lemma XorShiftKeepsTop(s: bv64)
    ensures XorShift(s) >> 59 == s >> 59
    ensures ShiftAmount(XorShift(s)) == ShiftAmount(s)
  {
  }

  /** The final xorshift undoes itself, since 2 * 43 >= 64. */
  lemma MixInvolution(w: bv64)
    ensures Mix(Mix(w)) == w
  {
    assert Mix(w) == (w >> 43) ^ w;
    assert Mix(Mix(w)) == Mix((w >> 43) ^ w);
    assert Mix((w >> 43) ^ w) == (((w >> 43) ^ w) >> 43) ^ ((w >> 43) ^ w);
    assert (((w >> 43) ^ w) >> 43) ^ ((w >> 43) ^ w) == w;
  }

  /** Multiplication by 15009553638781119849, the inverse of the output
      multiplier modulo 2^64. */
  function Unmultiply(w: bv64): bv64
  {
    w * 15009553638781119849
  }

  /** The multiplication loses nothing: the word determines the xorshifted
      state. */
  lemma UnmultiplyWord(s: bv64)
    ensures Unmultiply(Word(s)) == XorShift(s)
  {
    assert Word(s) == XorShift(s) * 12605985483714917081;
    assert Unmultiply(Word(s)) == Unmultiply(XorShift(s) * 12605985483714917081);
    assert Unmultiply(XorShift(s) * 12605985483714917081)
        == XorShift(s) * 12605985483714917081 * 15009553638781119849;
    assert XorShift(s) * 12605985483714917081 * 15009553638781119849 == XorShift(s);
  }

  /** The output determines the xorshifted state, and with it the shift amount
      of the state: only the first xorshift is left to undo. */
  lemma OutputRecoversXorShift(s: bv64)
    ensures Unmultiply(Mix(Output(s))) == XorShift(s)
    ensures ShiftAmount(Unmultiply(Mix(Output(s)))) == ShiftAmount(s)
  {
    assert Output(s) == Mix(Word(s));
    MixInvolution(Word(s));
    UnmultiplyWord(s);
    XorShiftKeepsTop(s);
  }

  /** The outputs of `n` calls of `next_u64` from the state `s`. */
  function Outputs(s: bv64, n: nat): (out: seq<bv64>)
    ensures |out| == n
    decreases n
  {
    if n == 0 then [] else [Output(s)] + Outputs(Lcg(s), n - 1)
  }

  /** `m + n` calls give the outputs of the first `m`, then those of `n` calls
      from the state the first `m` reached. */
  lemma {:induction false} OutputsSplit(s: bv64, m: nat, n: nat)
    ensures Outputs(s, m + n) == Outputs(s, m) + Outputs(Iterate(s, m), n)
    decreases m
  {
    if m > 0 {
      OutputsSplit(Lcg(s), m - 1, n);
    }
  }

  /** Call `n + 1` returns the output of the state reached after `n` calls,
      and leaves the state one LCG step further. */
  lemma OutputsLast(s: bv64, n: nat)
    ensures Outputs(s, n + 1) == Outputs(s, n) + [Output(Iterate(s, n))]
    ensures Iterate(s, n + 1) == Lcg(Iterate(s, n))
  {
    OutputsSplit(s, n, 1);
    IterateBack(s, n);
  }

  // ---------------------------------------------------------------------------
  // The generator object

  class Pcg64Si {
    var state: bv64

    constructor (seed: bv64)
      ensures state == seed
    {
      state := seed;
    }

    /** `next_u64`: advance the state and return the output of the old state. */
    method NextU64() returns (r: bv64)
      modifies this
      ensures state == Lcg(old(state))
      ensures r == Output(old(state))
      ensures forall n: nat :: Outputs(old(state), n + 1) == [r] + Outputs(state, n)
    {
      var oldState := state;
      state := Lcg(state);
      r := Output(oldState);
    }
  }
}
