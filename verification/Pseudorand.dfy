/** Model of kern/dev/generic/pseudorand.c: the generator of Park and Miller (CACM, October 1988), in the form by
    Schrage that needs no more than 32 bits. */
module Pseudorand {

  const MULTIPLIER: int := 16807
  const MODULUS: int := 0x7fffffff
  const K1: int := 127773
  const K2: int := 2836

  predicate IsInt32(x: int) { -0x8000_0000 <= x < 0x8000_0000 }

  predicate IsSeed(s: int) { 1 <= s <= MODULUS - 1 }

  /** The generator by its definition. */
  function Next(s: int): int { MULTIPLIER * s % MODULUS }

  /** The inverse of the multiplier modulo 2^31 - 1, and the step backwards. */
  const INVERSE: int := 1407677000

  function Previous(s: int): int { INVERSE * s % MODULUS }

  lemma Congruent(x: int, s: int, k: int)
    requires 0 <= s < MODULUS && x == s + MODULUS * k
    ensures x % MODULUS == s
  {
  }

  /** The step is a bijection on 1..2^31 - 2: it stays there, and Previous undoes it on either side. */
  lemma Bijection(s: int)
    requires IsSeed(s)
    ensures IsSeed(Next(s)) && IsSeed(Previous(s)) && Previous(Next(s)) == s && Next(Previous(s)) == s
  {
    var q, p := MULTIPLIER * s / MODULUS, INVERSE * s / MODULUS;
    assert MULTIPLIER * INVERSE == 1 + MODULUS * 11017;
    Congruent(INVERSE * Next(s), s, 11017 * s - INVERSE * q);
    Congruent(MULTIPLIER * Previous(s), s, 11017 * s - MULTIPLIER * p);
  }

  class Softc {
    var seed: int

    /** pseudoattach_pseudorand */
    constructor ()
      ensures seed == 305824 && IsSeed(seed)
    {
      seed := 305824;
    }

    /** pseudorand_random */
    method Random() returns (r: int)
      requires IsSeed(seed)
      modifies this
      ensures seed == Next(old(seed)) && IsSeed(seed) && r == seed - 1 && 0 <= r <= MODULUS - 2
    {
      Bijection(seed);
      var hi := seed / K1;
      var lo := seed % K1;
      assert IsInt32(MULTIPLIER * lo) && IsInt32(K2 * hi) && IsInt32(MULTIPLIER * lo - K2 * hi);
      var tmp := MULTIPLIER * lo - K2 * hi;
      assert tmp == MULTIPLIER * seed - MODULUS * hi;
      Reduced(seed, hi, tmp);
      if tmp <= 0 {
        tmp := tmp + MODULUS;
        assert IsInt32(tmp);
      }
      seed := tmp;
      return seed - 1;
    }
  }

  /** What Schrage's difference leaves to do: nothing if it is positive, one MODULUS more otherwise. */
  lemma Reduced(s: int, hi: int, tmp: int)
    requires IsSeed(s) && tmp == MULTIPLIER * s - MODULUS * hi && -MODULUS < tmp < MODULUS
    ensures Next(s) == if tmp <= 0 then tmp + MODULUS else tmp
  {
    Bijection(s);
    if tmp > 0 {
      Congruent(MULTIPLIER * s, tmp, hi);
    } else if tmp < 0 {
      Congruent(MULTIPLIER * s, tmp + MODULUS, hi - 1);
    } else {
      Congruent(MULTIPLIER * s, 0, hi);
    }
  }
}
