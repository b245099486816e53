/** 32-bit rotations, written the way the transform writes them: an OR of
    two opposite shifts. */
module Bits {

  /** Rotate left by `n` bits: `(x << n) | (x >> (32 - n))`. */
  function Rotl(x: bv32, n: bv32): bv32
    requires 0 < n < 32
  {
    (x << n) | (x >> (32 - n))
  }

  /** Rotate right by `n` bits: `(x >> n) | (x << (32 - n))`. */
  function Rotr(x: bv32, n: bv32): bv32
    requires 0 < n < 32
  {
    (x >> n) | (x << (32 - n))
  }

  /** XOR with the same word twice is the identity. */
  lemma XorTwice(x: bv32, y: bv32)
    ensures (x ^ y) ^ y == x
  {
  }

  /** A one-bit right rotation undoes a one-bit left rotation, and back. */
  lemma RotateOneInverse(x: bv32)
    ensures Rotr(Rotl(x, 1), 1) == x
    ensures Rotl(Rotr(x, 1), 1) == x
  {
  }
}
