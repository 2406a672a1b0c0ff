/**
 The pseudo-random numbers handed to the PTP daemon: `RandomNumber` is a
 32-bit linear congruential generator over the file's own
 `g_ulRandomSeed`, and `getRand` returns the low 16 bits of its next value.
 */
module Random {
  import opened Word

  /** A `UInteger16` value. */
  type U16 = x: int | 0 <= x < 0x1_0000

  const LCG_MUL: int := 1664525
  const LCG_ADD: int := 1013904223
  /** The inverse of `LCG_MUL` modulo 2^32 (it exists because `LCG_MUL` is odd). */
  const LCG_MUL_INV: int := 4276115653

  /** One generator step on the 32-bit seed. */
  function Lcg(seed: U32): (r: U32)
    ensures (r - (seed * LCG_MUL + LCG_ADD)) % MOD32 == 0
  {
    Wrap(seed * LCG_MUL + LCG_ADD)
  }

  /** The step backwards: the seed that `Lcg` maps to `next`. */
  function Unlcg(next: U32): U32
  {
    Wrap((next - LCG_ADD) * LCG_MUL_INV)
  }

  lemma MulInverse()
    ensures LCG_MUL * LCG_MUL_INV == 1657219 * MOD32 + 1
  {
  }

  /** Every seed is recovered from its successor. */
  lemma {:induction false} UnlcgLcg(seed: U32)
    ensures Unlcg(Lcg(seed)) == seed
  {
    var next := Lcg(seed);
    var q := (seed * LCG_MUL + LCG_ADD) / MOD32;
    assert next == seed * LCG_MUL + LCG_ADD - q * MOD32;
    MulInverse();
    assert (next - LCG_ADD) * LCG_MUL_INV
           == seed * (1657219 * MOD32 + 1) - q * MOD32 * LCG_MUL_INV;
    assert (next - LCG_ADD) * LCG_MUL_INV
           == seed + (seed * 1657219 - q * LCG_MUL_INV) * MOD32;
    DivModUnique((next - LCG_ADD) * LCG_MUL_INV, MOD32, seed * 1657219 - q * LCG_MUL_INV, seed);
  }

  /** Every value is the successor of some seed. */
  lemma {:induction false} LcgUnlcg(next: U32)
    ensures Lcg(Unlcg(next)) == next
  {
    var seed := Unlcg(next);
    var q := ((next - LCG_ADD) * LCG_MUL_INV) / MOD32;
    assert seed == (next - LCG_ADD) * LCG_MUL_INV - q * MOD32;
    MulInverse();
    assert seed * LCG_MUL + LCG_ADD
           == (next - LCG_ADD) * (1657219 * MOD32 + 1) - q * MOD32 * LCG_MUL + LCG_ADD;
    assert seed * LCG_MUL + LCG_ADD
           == next + ((next - LCG_ADD) * 1657219 - q * LCG_MUL) * MOD32;
    DivModUnique(seed * LCG_MUL + LCG_ADD, MOD32, (next - LCG_ADD) * 1657219 - q * LCG_MUL, next);
  }

  /** `RandomNumber()`: advance `g_ulRandomSeed` and return its new value.
      The result is the new seed, and it determines the old one. */
  function RandomNumber(seed: U32): (r: (U32, U32))
    ensures r.1 == r.0
    ensures Unlcg(r.0) == seed
  {
    UnlcgLcg(seed);
    (Lcg(seed), Lcg(seed))
  }

  /** No two seeds lead to the same number, and every number is reached:
      the generator permutes the 2^32 seeds. */
  lemma RandomNumberBijective(a: U32, b: U32, next: U32)
    ensures a != b ==> RandomNumber(a).0 != RandomNumber(b).0
    ensures RandomNumber(Unlcg(next)).0 == next
  {
    LcgUnlcg(next);
  }

  /** `x & 0xFFFF`: the low 16 bits of a word, the part a `UInteger16` keeps. */
  function Low16(x: U32): (r: U16)
    ensures (x - r) % 0x1_0000 == 0
  {
    DivModUnique(x - x % 0x1_0000, 0x1_0000, x / 0x1_0000, 0);
    x % 0x1_0000
  }

  /** `getRand(seed)`: the entropy is handed to `RandomAddEntropy` and then
      `RandomSeed()` is called; both are defined in another file and cannot
      write this file's static `g_ulRandomSeed`, which only the generator step
      assigns. The draw is the low 16 bits of the next generator value.
      Returns the new seed and the 16-bit result. */
  function GetRand(seed: U32, entropy: U32): (r: (U32, U16))
    ensures r.0 == RandomNumber(seed).0
    ensures (r.0 - r.1) % 0x1_0000 == 0
  {
    var next := RandomNumber(seed).1;
    (next, Low16(next))
  }

  /** As written, the entropy argument of `getRand` has no effect on the draw
      or on the generator's state. */
  lemma GetRandIgnoresEntropy(seed: U32, e1: U32, e2: U32)
    ensures GetRand(seed, e1) == GetRand(seed, e2)
  {
  }

  /** The comment on `g_ulRandomSeed` says the seed is set from the value
      `RandomSeed()` derives from the entropy. With that assignment
      (`reseed` is the seed `RandomSeed()` derives from the entropy) the
      draw starts from the reseeded value: it no longer depends on the old
      seed, and distinct reseeds leave distinct generator states. */
  function GetRandReseeded(seed: U32, reseed: U32): (r: (U32, U16))
    ensures Unlcg(r.0) == reseed
    ensures (r.0 - r.1) % 0x1_0000 == 0
  {
    var next := RandomNumber(reseed).1;
    (next, Low16(next))
  }

  /** With the reseed, the old seed no longer matters, and distinct reseeds
      give distinct generator states after the draw. */
  lemma ReseedReachesState(s1: U32, s2: U32, r1: U32, r2: U32)
    ensures GetRandReseeded(s1, r1) == GetRandReseeded(s2, r1)
    ensures r1 != r2 ==> GetRandReseeded(s1, r1).0 != GetRandReseeded(s1, r2).0
  {
  }
}
