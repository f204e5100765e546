/** The pure part of `encodeImage` (Colourful_LOR.user.js, lines 88-110): a walk over a flat
    RGBA byte array, four bytes per pixel, that emits a row marker at the start of every image
    row and two glyphs per pixel. Where the bytes come from (an image drawn onto a canvas) is
    not part of this model: the input is the byte array and the image width. */
module Encoder {
  import opened Quantiser
  import opened Glyph
  import opened Framing

  /** The text the encoder writes before each row; the forum turns `[br]` into a line break. */
  const RowMarker: string := "[br]\n"

  /** The alpha subcarrier (lines 97-102): the top bit of alpha lands in bit 3, of red in
      bit 6, of green in bit 5 and of blue in bit 4. */
  function Subcarrier(r: bv8, g: bv8, b: bv8, a: bv8): bv8 {
    ((a & 128) >> 4) | ((r & 128) >> 1) | ((g & 128) >> 2) | ((b & 128) >> 3)
  }

  /** The subcarrier sets only bits 3-6, each from one channel's top bit, so it is zero exactly
      when all four top bits are clear, and the quantiser carries it through unchanged. */
  lemma SubcarrierBits(r: bv8, g: bv8, b: bv8, a: bv8)
    ensures var s := Subcarrier(r, g, b, a);
      && s & 0x87 == 0
      && (s & 8 != 0 <==> a & 128 != 0)
      && (s & 64 != 0 <==> r & 128 != 0)
      && (s & 32 != 0 <==> g & 128 != 0)
      && (s & 16 != 0 <==> b & 128 != 0)
      && (s == 0 <==> (r | g | b | a) & 128 == 0)
      && EnduceByte(ReduceByte(s)) == s
  {
    ExactOnMiddleBits(Subcarrier(r, g, b, a));
  }

  /** The two glyphs of one pixel: red with green, then blue with the subcarrier. */
  function PixelGlyphs(r: bv8, g: bv8, b: bv8, a: bv8): (t: string)
    ensures |t| == 2 && IsBraille(t[0]) && IsBraille(t[1])
  {
    [BytesToBraile(r, g), BytesToBraile(b, Subcarrier(r, g, b, a))]
  }

  /** The glyph pair of every pixel of the byte array, in pixel order. */
  function Cells(data: seq<bv8>): (cells: seq<string>)
    requires |data| % 4 == 0
    ensures |cells| == |data| / 4 && AllPairs(cells)
  {
    seq(|data| / 4, p requires 0 <= p < |data| / 4 =>
      PixelGlyphs(data[4 * p], data[4 * p + 1], data[4 * p + 2], data[4 * p + 3]))
  }

  /** Pixel `p`'s entry is the glyph pair of its four bytes. */
  lemma CellAt(data: seq<bv8>, p: nat)
    requires |data| % 4 == 0 && p < |data| / 4
    ensures 4 * p + 4 <= |data|
    ensures Cells(data)[p][0] == BytesToBraile(data[4 * p], data[4 * p + 1])
    ensures Cells(data)[p][1]
         == BytesToBraile(data[4 * p + 2], Subcarrier(data[4 * p], data[4 * p + 1], data[4 * p + 2], data[4 * p + 3]))
  {
  }

  /** The text `encodeImage` builds from a byte array and a width. */
  function Encoded(data: seq<bv8>, width: nat): string
    requires |data| % 4 == 0
  {
    Stream(Cells(data), width, RowMarker, |data| / 4)
  }

  /** `encodeImage`, from the byte array on. The subcarrier is built in place in `a`, as the
      source does it. */
  method EncodeImage(data: seq<bv8>, width: nat) returns (text: string)
    requires |data| % 4 == 0
    ensures text == Encoded(data, width)
  {
    text := "";
    var bytesWidth := width * 4;
    var i := 0;
    ghost var p: nat := 0;
    while i < |data|
      invariant i == 4 * p <= |data|
      invariant text == Stream(Cells(data), width, RowMarker, p)
    {
      var r, g, b, a := data[i], data[i + 1], data[i + 2], data[i + 3];
      a := a & 128;
      a := a >> 4;
      a := a | ((r & 128) >> 1);
      a := a | ((g & 128) >> 2);
      a := a | ((b & 128) >> 3);
      assert a == Subcarrier(r, g, b, data[i + 3]);
      EncodedStep(data, width, p, i);
      MarkerAtIndex(i, width, bytesWidth);

      if bytesWidth == 0 || i % bytesWidth == 0 {
        text := text + RowMarker;
      }
      text := text + [BytesToBraile(r, g)];
      text := text + [BytesToBraile(b, a)];
      i, p := i + 4, p + 1;
    }
    Quarter(|data|, p);
  }

  /** The source's test `!(i % bytesWidth)`, with `bytesWidth == width * 4`. */
  lemma MarkerAtIndex(i: nat, width: nat, bytesWidth: nat)
    requires bytesWidth == width * 4
    ensures (bytesWidth == 0 || i % bytesWidth == 0) == MarkerAt(i, width)
  {
  }

  /** The loop stops after a quarter of the bytes, one pixel per four. */
  lemma Quarter(n: nat, p: nat)
    requires 4 * p == n
    ensures p == n / 4
  {
  }

  /** One more pixel, whose bytes start at index `i`: the marker if the pixel starts a row,
      then its red/green glyph and its blue/subcarrier glyph. */
  lemma EncodedStep(data: seq<bv8>, width: nat, p: nat, i: nat)
    requires |data| % 4 == 0 && p < |data| / 4 && i == 4 * p
    ensures i + 4 <= |data|
    ensures MarkerAt(i, width) ==>
              Stream(Cells(data), width, RowMarker, p + 1)
              == Stream(Cells(data), width, RowMarker, p) + RowMarker
                 + [BytesToBraile(data[i], data[i + 1])]
                 + [BytesToBraile(data[i + 2], Subcarrier(data[i], data[i + 1], data[i + 2], data[i + 3]))]
    ensures !MarkerAt(i, width) ==>
              Stream(Cells(data), width, RowMarker, p + 1)
              == Stream(Cells(data), width, RowMarker, p)
                 + [BytesToBraile(data[i], data[i + 1])]
                 + [BytesToBraile(data[i + 2], Subcarrier(data[i], data[i + 1], data[i + 2], data[i + 3]))]
  {
    var before := Stream(Cells(data), width, RowMarker, p);
    var glyphs := Cells(data)[p];
    CellAt(data, p);
    assert glyphs == [glyphs[0]] + [glyphs[1]];
    if MarkerAt(i, width) {
      assert before + RowMarker + glyphs == before + RowMarker + [glyphs[0]] + [glyphs[1]];
    } else {
      assert before + [] + glyphs == before + [glyphs[0]] + [glyphs[1]];
    }
  }

  /** For a positive width and a whole image, the text is one framed row per image row:
      the marker, then the row's glyph pairs. */
  lemma EncodedIsRows(data: seq<bv8>, width: nat, height: nat)
    requires width > 0 && |data| == 4 * (height * width)
    ensures Encoded(data, width) == Rows(Cells(data), width, height, RowMarker)
  {
    StreamIsRows(Cells(data), width, height, RowMarker);
  }

  /** Each image row takes `5 + 2 * width` characters of the text. */
  lemma EncodedLength(data: seq<bv8>, width: nat, height: nat)
    requires width > 0 && |data| == 4 * (height * width)
    ensures |Encoded(data, width)| == height * (|RowMarker| + 2 * width)
  {
    EncodedIsRows(data, width, height);
    RowsLength(Cells(data), width, height, RowMarker);
  }

  /** Row `y` of the text starts at `y * (5 + 2 * width)` with the marker. */
  lemma EncodedRowStart(data: seq<bv8>, width: nat, height: nat, y: nat)
    requires width > 0 && |data| == 4 * (height * width) && y < height
    ensures var start := y * (|RowMarker| + 2 * width);
      && start + |RowMarker| <= |Encoded(data, width)|
      && Encoded(data, width)[start..start + |RowMarker|] == RowMarker
  {
    EncodedIsRows(data, width, height);
    RowsAt(Cells(data), width, height, RowMarker, y);
  }

  /** Pixel `(x, y)`'s glyph pair (see `CellAt`) follows its row's marker at offset `2 * x`. */
  lemma EncodedPixel(data: seq<bv8>, width: nat, height: nat, y: nat, x: nat)
    requires |data| == 4 * (height * width) && y < height && x < width
    ensures y * width + x < |Cells(data)|
    ensures var at := y * (|RowMarker| + 2 * width) + |RowMarker| + 2 * x;
      && at + 1 < |Encoded(data, width)|
      && Encoded(data, width)[at] == Cells(data)[y * width + x][0]
      && Encoded(data, width)[at + 1] == Cells(data)[y * width + x][1]
  {
    EncodedIsRows(data, width, height);
    RowsPixelAt(Cells(data), width, height, RowMarker, y, x);
  }

  /** With a zero width, the remainder is NaN and every pixel gets its own marker: seven
      characters per pixel, and the text starts with a marker as soon as there is a pixel.
      In the script this case has no bytes at all, since an image of width 0 has an empty
      `ImageData` (and `getImageData` refuses a zero width); it is kept only to pin down the
      `!(i % 0)` branch. */
  lemma EncodedZeroWidth(data: seq<bv8>)
    requires |data| % 4 == 0
    ensures |Encoded(data, 0)| == (|data| / 4) * (|RowMarker| + 2)
    ensures |data| > 0 ==> Encoded(data, 0)[..|RowMarker|] == RowMarker
  {
    StreamZeroWidth(Cells(data), RowMarker, |data| / 4);
  }
}
