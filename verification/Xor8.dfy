/** Exclusive or on bytes. */
module Xor8 {
  function Xor(x: bv8, y: bv8): bv8 {
    x ^ y
  }

  lemma XorIsZero(x: bv8, y: bv8)
    ensures x ^ y == 0 <==> x == y
  {
  }

  lemma XorCancels(x: bv8, y: bv8, z: bv8)
    ensures x ^ y == x ^ z <==> y == z
  {
  }

  lemma XorLowBit(x: bv8, y: bv8)
    ensures (x ^ y) & 1 == 1 <==> (x & 1 == 1) != (y & 1 == 1)
  {
  }

  lemma XorHighBit(x: bv8, y: bv8)
    ensures (x ^ y) & 0x80 == 0x80 <==> (x & 0x80 == 0x80) != (y & 0x80 == 0x80)
  {
  }

  lemma XorRight(x: bv8, y: bv8)
    ensures (x ^ y) >> 1 == (x >> 1) ^ (y >> 1)
  {
  }

  lemma XorLeft(x: bv8, y: bv8)
    ensures (x ^ y) << 1 == (x << 1) ^ (y << 1)
  {
  }
}
