/** Glyph packer and unpacker: `bytesToBraile` and `braileToBytes`
    (Colourful_LOR.user.js, lines 54-69). One character of the Unicode Braille Patterns block
    U+2800..U+28FF carries two quantised nibbles: the first in dots 1-3 and 7 (bits 0-2 and 6
    of the offset), the second in dots 4-6 and 8 (bits 3-5 and 7). */
module Glyph {
  import opened NibbleMap
  import opened Quantiser

  const BrailleBase: int := 0x2800

  /** A character of the Braille Patterns block: the class `[⠀-⣿]` of the detection regex. */
  predicate IsBraille(c: char) {
    BrailleBase <= c as int <= BrailleBase + 0xFF
  }

  /** The four summands of the code point offset, each in its own bits. */
  function DotOffset(n1: Nibble, n2: Nibble): (d: int)
    ensures 0 <= d < 256
  {
    var b1, b2 := n1 as bv8, n2 as bv8;
    ((b2 & 8) << 4) as int + ((b1 & 8) << 3) as int + ((b2 & 7) << 3) as int + (b1 & 7) as int
  }

  /** The character `String.fromCharCode` yields for two already quantised nibbles
      (line 57). */
  function PackNibbles(n1: Nibble, n2: Nibble): (c: char)
    ensures IsBraille(c)
  {
    (BrailleBase + DotOffset(n1, n2)) as char
  }

  /** `bytesToBraile`: quantise both bytes, then pack. */
  function BytesToBraile(byte1: bv8, byte2: bv8): (c: char)
    ensures IsBraille(c)
  {
    PackNibbles(ReduceByte(byte1), ReduceByte(byte2))
  }

  /** The low byte of `symbol.charCodeAt(0) - 0x2800`. The masks the source applies are all
      below 256, and on a JS 32-bit integer such a mask sees only its two's-complement low
      byte, which is the Euclidean remainder modulo 256 (also for a character below U+2800,
      whose offset is negative). */
  function LowByte(c: char): bv8 {
    ((c as int - BrailleBase) % 256) as bv8
  }

  /** The two nibbles `braileToBytes` extracts (lines 61-63). */
  function UnpackNibbles(c: char): (Nibble, Nibble) {
    var s := LowByte(c);
    (((s & 7) + ((s & 64) >> 3)) as int, (((s & 56) >> 3) + ((s & 128) >> 4)) as int)
  }

  /** `braileToBytes`: unpack, then dequantise both nibbles. */
  function BraileToBytes(c: char): (bv8, bv8) {
    var (n1, n2) := UnpackNibbles(c);
    (EnduceByte(n1), EnduceByte(n2))
  }

  /** The dot pattern of two nibbles as a byte: the summands of `DotOffset` as a bitwise
      union. */
  function DotByte(b1: bv8, b2: bv8): bv8 {
    ((b2 & 8) << 4) | ((b1 & 8) << 3) | ((b2 & 7) << 3) | (b1 & 7)
  }

  /** A byte survives the trip through an integer. */
  lemma IntByteRoundTrip(b: bv8)
    ensures (b as int) as bv8 == b
  {
  }

  /** The summands occupy disjoint bits, so their integer sum is their bitwise union. */
  lemma DotOffsetBits(n1: Nibble, n2: Nibble)
    ensures DotOffset(n1, n2) == DotByte(n1 as bv8, n2 as bv8) as int
    ensures DotOffset(n1, n2) as bv8 == DotByte(n1 as bv8, n2 as bv8)
  {
    assert DotOffset(n1, n2) == DotByte(n1 as bv8, n2 as bv8) as int;
  }

  /** The low byte of a code point in the Braille block is its offset from U+2800. */
  lemma LowByteOffset(d: int)
    requires 0 <= d < 256
    ensures LowByte((BrailleBase + d) as char) == d as bv8
  {
    assert ((BrailleBase + d) as char) as int - BrailleBase == d;
  }

  /** `braileToBytes` reads its nibbles from the low byte only. */
  lemma UnpackLowByte(c: char, b1: bv8, b2: bv8)
    requires b1 < 16 && b2 < 16
    requires var s := LowByte(c);
      (s & 7) + ((s & 64) >> 3) == b1 && ((s & 56) >> 3) + ((s & 128) >> 4) == b2
    ensures UnpackNibbles(c) == (b1 as int, b2 as int)
  {
  }

  /** The masks of `braileToBytes` undo the shifts of `bytesToBraile`, bit by bit. */
  lemma ExtractBits(n1: Nibble, n2: Nibble)
    ensures var s := DotByte(n1 as bv8, n2 as bv8);
      (s & 7) + ((s & 64) >> 3) == n1 as bv8 && ((s & 56) >> 3) + ((s & 128) >> 4) == n2 as bv8
  {
  }

  /** The low byte of a packed glyph is its dot pattern. */
  lemma LowBytePack(n1: Nibble, n2: Nibble)
    ensures LowByte(PackNibbles(n1, n2)) == DotByte(n1 as bv8, n2 as bv8)
  {
    DotOffsetBits(n1, n2);
    LowByteOffset(DotOffset(n1, n2));
  }

  /** Unpacking a packed glyph gives back both nibbles: packing is injective on
      0..15 x 0..15. */
  lemma UnpackPack(n1: Nibble, n2: Nibble)
    ensures UnpackNibbles(PackNibbles(n1, n2)) == (n1, n2)
  {
    LowBytePack(n1, n2);
    ExtractBits(n1, n2);
    ByteRoundTrip(n1);
    ByteRoundTrip(n2);
    UnpackLowByte(PackNibbles(n1, n2), n1 as bv8, n2 as bv8);
  }

  /** Regrouping the unpacked nibbles' bits gives the byte back. */
  lemma RepackBits(s: bv8)
    ensures DotByte((s & 7) + ((s & 64) >> 3), ((s & 56) >> 3) + ((s & 128) >> 4)) == s
  {
  }

  /** On the Braille block the low byte is the whole offset. */
  lemma LowByteOfBraille(c: char)
    requires IsBraille(c)
    ensures LowByte(c) as int == c as int - BrailleBase
  {
    var k := c as int - BrailleBase;
    assert k % 256 == k;
    ByteRoundTrip(k);
  }

  /** Every Braille character is the packing of the nibbles it unpacks to: packing is onto
      the Braille block. */
  lemma PackUnpack(c: char)
    requires IsBraille(c)
    ensures PackNibbles(UnpackNibbles(c).0, UnpackNibbles(c).1) == c
  {
    var s := LowByte(c);
    var b1, b2 := (s & 7) + ((s & 64) >> 3), ((s & 56) >> 3) + ((s & 128) >> 4);
    var (n1, n2) := UnpackNibbles(c);
    assert n1 as bv8 == b1 && n2 as bv8 == b2 by {
      IntByteRoundTrip(b1);
      IntByteRoundTrip(b2);
    }
    assert DotOffset(n1, n2) == DotByte(b1, b2) as int by {
      DotOffsetBits(n1, n2);
    }
    assert DotByte(b1, b2) == s by {
      RepackBits(s);
    }
    assert s as int == c as int - BrailleBase by {
      LowByteOfBraille(c);
    }
  }

  /** `braileToBytes(bytesToBraile(x, y))` is `[x & 0x78, y & 0x78]`: the glyph round trip
      loses exactly what the quantiser loses. */
  lemma GlyphRoundTrip(x: bv8, y: bv8)
    ensures BraileToBytes(BytesToBraile(x, y)) == (x & 0x78, y & 0x78)
  {
    UnpackPack(ReduceByte(x), ReduceByte(y));
    Lossiness(x);
    Lossiness(y);
  }
}
