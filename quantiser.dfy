/** Channel quantiser: `reduceByte` and `enduceByte` (Colourful_LOR.user.js, lines 44-52).
    Channel bytes are `bv8`, so that the source's shifts and masks read as they are written. */
module Quantiser {
  import opened NibbleMap

  /** `reduceByte`: keep bits 3-6 of a channel byte and permute the resulting nibble. */
  function ReduceByte(v: bv8): Nibble {
    Forth(((v >> 3) & 15) as int)
  }

  /** `enduceByte`: undo the permutation and move the nibble back to bits 3-6. */
  function EnduceByte(n: Nibble): bv8 {
    (Back(n) as bv8) << 3
  }

  /** A value below 256 survives the trip through a byte. */
  lemma ByteRoundTrip(k: int)
    requires 0 <= k < 256
    ensures (k as bv8) as int == k
  {
    assert k % 256 == k;
  }

  /** Quantising then dequantising keeps exactly bits 3-6: bits 0-2 and bit 7 are lost. */
  lemma Lossiness(v: bv8)
    ensures EnduceByte(ReduceByte(v)) == v & 0x78
  {
    var b := (v >> 3) & 15;
    ForthBackInverse(b as int);
    assert (b as int) as bv8 == b;
    assert (b << 3) == v & 0x78;
  }

  /** A dequantised value has no bits outside 3-6: a multiple of 8, at most 120 (0x78). */
  lemma DequantisedRange(n: Nibble)
    ensures EnduceByte(n) & 0x87 == 0
    ensures EnduceByte(n) as int % 8 == 0 && EnduceByte(n) <= 120
  {
  }

  /** Re-quantising a dequantised value gives back the nibble. */
  lemma RequantiseNibble(n: Nibble)
    ensures ReduceByte(EnduceByte(n)) == n
  {
    var b := Back(n);
    assert ((((b as bv8) << 3) >> 3) & 15) as int == b;
    ForthBackInverse(n);
  }

  /** `reduceByte(enduceByte(reduceByte(v))) == reduceByte(v)` for every byte: the quantiser
      is stable on its own reconstructions. */
  lemma RequantiseStable(v: bv8)
    ensures ReduceByte(EnduceByte(ReduceByte(v))) == ReduceByte(v)
  {
    RequantiseNibble(ReduceByte(v));
  }

  /** A byte whose only set bits are among 3-6 survives the quantiser round trip exactly. */
  lemma ExactOnMiddleBits(v: bv8)
    requires v & 0x87 == 0
    ensures EnduceByte(ReduceByte(v)) == v
  {
    Lossiness(v);
  }
}
