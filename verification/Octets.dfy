/** Bytes as eight-bit words, and the numbers they stand for. */
module Octets {
  type Bytes = seq<bv8>

  // The low byte of a number, as a C cast to uint8_t keeps it.
  function Byte(v: nat): bv8 {
    (v % 256) as bv8
  }

  lemma NextByte(b: bv8)
    requires b != 255
    ensures (b + 1) as nat == b as nat + 1
  {
  }

  lemma {:induction false} ByteRound(v: nat)
    requires v < 256
    ensures (v as bv8) as nat == v
  {
    if v > 0 {
      ByteRound(v - 1);
      NextByte((v - 1) as bv8);
    }
  }

  lemma ByteIs(v: nat)
    ensures Byte(v) as nat == v % 256
  {
    ByteRound(v % 256);
  }
}
