/** Bytes and the bits of a byte, as the raster encoder sets them. */
module Bytes {
  type Byte = bv8

  /** The bit of pixel k of a byte's eight: the leftmost pixel is the most significant bit. */
  function BitMask(k: nat): Byte
    requires k < 8
  {
    match k
    case 0 => 0x80
    case 1 => 0x40
    case 2 => 0x20
    case 3 => 0x10
    case 4 => 0x08
    case 5 => 0x04
    case 6 => 0x02
    case 7 => 0x01
  }

  /** `1 << bitIndex` is the bit of pixel 7 - bitIndex, as the source computes it. */
  lemma ShiftIsBitMask(bitIndex: nat)
    requires bitIndex < 8
    ensures (1 as Byte) << bitIndex == BitMask(7 - bitIndex)
  {
  }

  predicate HasBit(v: Byte, k: nat)
    requires k < 8
  {
    v & BitMask(k) != 0
  }

  lemma HasBitOr(u: Byte, v: Byte, k: nat)
    requires k < 8
    ensures HasBit(u | v, k) <==> HasBit(u, k) || HasBit(v, k)
  {
  }

  lemma HasBitMask(j: nat, k: nat)
    requires j < 8 && k < 8
    ensures HasBit(BitMask(j), k) <==> j == k
  {
  }

  lemma NoBitInZero(k: nat)
    requires k < 8
    ensures !HasBit(0, k)
  {
  }
}
