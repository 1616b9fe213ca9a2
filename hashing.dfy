/** The default hash functor of both maps (swl/hash.hpp): an integral key
    hashes to itself converted to std::size_t, a 64-bit unsigned integer. */
module Hashing {

  const SizeTModulus: nat := 0x1_0000_0000_0000_0000

  /** The conversion of an integer to std::size_t: the value modulo 2^64, so
      a negative key hashes to its two's-complement bit pattern. */
  function IntegralHash(v: int): (h: nat)
    ensures h < SizeTModulus
    ensures (v - h) % SizeTModulus == 0
  {
    v % SizeTModulus
  }

  /** A negative key of a 64-bit signed type hashes to v + 2^64. */
  lemma HashOfNegative(v: int)
    requires -0x8000_0000_0000_0000 <= v < 0
    ensures IntegralHash(v) == v + SizeTModulus
  {
  }
}
