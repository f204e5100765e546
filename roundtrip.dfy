/** The codec as a whole: the text `encodeImage` posts, once the forum has turned each row
    marker into one or more line breaks, decodes back to the image with every channel
    quantised to its bits 3-6 and the alpha subcarrier as the fourth component
    (Colourful_LOR.user.js, lines 88-110 against lines 144-172). */
module RoundTrip {
  import opened Glyph
  import opened Framing
  import opened Encoder
  import opened Decoder

  /** A non-empty run of line feeds: what a row marker becomes in the paragraph's text. */
  predicate LineFeeds(m: string) {
    |m| > 0 && forall k :: 0 <= k < |m| ==> m[k] == '\n'
  }

  /** An empty text has no lines. */
  lemma LinesOfEmpty()
    ensures Lines("") == []
  {
    assert Split("", '\n') == [""];
  }

  /** A line feed between two texts separates their lines. */
  lemma LinesAround(a: string, b: string)
    ensures Lines(a + "\n" + b) == Lines(a) + Lines(b)
  {
    SplitAround(a, '\n', b);
    NonEmptyAppend(Split(a, '\n'), Split(b, '\n'));
  }

  /** Any run of line feeds separates lines the same way one does: the empty lines between
      them are filtered out. */
  lemma {:induction false} LinesAcrossFeeds(a: string, m: string, b: string)
    requires LineFeeds(m)
    ensures Lines(a + m + b) == Lines(a) + Lines(b)
    decreases |m|
  {
    assert a + m + b == a + "\n" + (m[1..] + b);
    LinesAround(a, m[1..] + b);
    if |m| > 1 {
      LinesAcrossFeeds("", m[1..], b);
      assert "" + m[1..] + b == m[1..] + b;
      LinesOfEmpty();
    } else {
      assert m[1..] + b == b;
    }
  }

  /** A non-empty text without line feeds is one line. */
  lemma LinesOfLine(line: string)
    requires |line| > 0 && '\n' !in line
    ensures Lines(line) == [line]
  {
    SplitWhole(line, '\n');
    assert [line][..0] == [];
    assert NonEmpty([line][..0]) == [];
  }

  /** The rows of the image, each its glyph pairs run together, without markers. */
  function RowSpans(cells: seq<string>, width: nat, height: nat): (spans: seq<string>)
    requires height * width <= |cells|
    ensures |spans| == height
  {
    if height == 0 then []
    else
      RowBounds(height - 1, width);
      RowSpans(cells, width, height - 1) + [Span(cells, (height - 1) * width, (height - 1) * width + width)]
  }

  /** Row `y` of `RowSpans` is pixels `y * width` to `y * width + width - 1`. */
  lemma {:induction false} RowSpansAt(cells: seq<string>, width: nat, height: nat, y: nat)
    requires height * width <= |cells| && y < height
    ensures y * width + width <= |cells|
    ensures RowSpans(cells, width, height)[y] == Span(cells, y * width, y * width + width)
  {
    RowBounds(height - 1, width);
    RowBounds(y, width);
    if y < height - 1 {
      RowSpansAt(cells, width, height - 1, y);
    }
  }

  /** Every cell is a pair of Braille characters. */
  predicate BraillePairs(cells: seq<string>) {
    AllPairs(cells) && forall p :: 0 <= p < |cells| ==> IsBraille(cells[p][0]) && IsBraille(cells[p][1])
  }

  /** A span of Braille pairs holds no line feed. This is the fact `Lines` needs; `Gate` states
      the same span as all Braille for the regex. Each derives it from `SpanAt` on its own,
      which keeps both proofs small. */
  lemma SpanHasNoFeed(cells: seq<string>, lo: nat, hi: nat)
    requires lo <= hi <= |cells| && BraillePairs(cells)
    ensures '\n' !in Span(cells, lo, hi)
  {
    var span := Span(cells, lo, hi);
    SpanAt(cells, lo, hi);
    forall k | 0 <= k < |span|
      ensures span[k] != '\n'
    {
      var x := k / 2;
      assert k == 2 * x || k == 2 * x + 1;
      assert IsBraille(span[k]);
    }
  }

  /** Rows of Braille separated by runs of line feeds are exactly the decoder's lines. */
  lemma {:induction false} LinesOfRows(cells: seq<string>, width: nat, height: nat, m: string)
    requires width > 0 && height * width <= |cells| && BraillePairs(cells) && LineFeeds(m)
    ensures Lines(Rows(cells, width, height, m)) == RowSpans(cells, width, height)
  {
    if height == 0 {
      LinesOfEmpty();
    } else {
      var lo := (height - 1) * width;
      RowBounds(height - 1, width);
      MulNonNegative(height - 1, width);
      var span := Span(cells, lo, lo + width);
      var before := Rows(cells, width, height - 1, m);
      assert Rows(cells, width, height, m) == before + m + span;
      assert Lines(before) == RowSpans(cells, width, height - 1) by {
        LinesOfRows(cells, width, height - 1, m);
      }
      assert Lines(span) == [span] by {
        SpanLength(cells, lo, lo + width);
        SpanHasNoFeed(cells, lo, lo + width);
        LinesOfLine(span);
      }
      LinesAcrossFeeds(before, m, span);
    }
  }

  /** The fill the decoder recovers for one pixel: each colour channel cut to its bits 3-6,
      and the alpha subcarrier as the fourth component. */
  function Quantised(r: bv8, g: bv8, b: bv8, a: bv8): (px: Rgba)
    ensures px.a & 0x87 == 0
  {
    SubcarrierBits(r, g, b, a);
    Rgba(r & 0x78, g & 0x78, b & 0x78, Subcarrier(r, g, b, a))
  }

  /** One pixel round trip: decoding the two glyphs the encoder writes for a pixel gives its
      quantised fill. */
  lemma PixelRoundTrip(r: bv8, g: bv8, b: bv8, a: bv8)
    ensures DecodePixel(BytesToBraile(r, g), BytesToBraile(b, Subcarrier(r, g, b, a)))
         == Quantised(r, g, b, a)
  {
    var s := Subcarrier(r, g, b, a);
    GlyphRoundTrip(r, g);
    GlyphRoundTrip(b, s);
    SubcarrierBits(r, g, b, a);
    assert s & 0x78 == s;
  }

  /** A pure red, fully opaque pixel comes back as red 120 (`15 << 3`), no green or blue, and
      the subcarrier's bits for red and alpha (64 and 8) as the fourth component. */
  lemma OpaqueRedPixel()
    ensures Subcarrier(255, 0, 0, 255) == 72
    ensures BraileToBytes(BytesToBraile(255, 0)) == (120, 0)
    ensures DecodePixel(BytesToBraile(255, 0), BytesToBraile(0, Subcarrier(255, 0, 0, 255)))
         == Rgba(120, 0, 0, 72)
  {
    PixelRoundTrip(255, 0, 0, 255);
    GlyphRoundTrip(255, 0);
  }

  /** `rgba()` clamps its alpha to [0, 1]: a zero fourth component paints nothing, any other
      integer paints fully opaque. */
  predicate Opaque(px: Rgba) {
    px.a != 0
  }

  /** A decoded pixel is opaque exactly when the top bit of at least one of its four source
      channels was set. */
  lemma OpaqueIffTopBit(r: bv8, g: bv8, b: bv8, a: bv8)
    ensures Opaque(Quantised(r, g, b, a)) <==> (r | g | b | a) & 128 != 0
  {
    SubcarrierBits(r, g, b, a);
  }

  /** The quantised fill of pixel `p` of the byte array. */
  function PixelFill(data: seq<bv8>, p: nat): Rgba
    requires 4 * p + 4 <= |data|
  {
    Quantised(data[4 * p], data[4 * p + 1], data[4 * p + 2], data[4 * p + 3])
  }

  /** The quantised fills of pixels `lo` to `lo + width - 1`. */
  function RowFill(data: seq<bv8>, lo: nat, width: nat): (row: seq<Option<Rgba>>)
    requires 4 * (lo + width) <= |data|
    ensures |row| == width
  {
    seq(width, x requires 0 <= x < width => Some(PixelFill(data, lo + x)))
  }

  /** Row `y` of the image as the decoder should paint it. */
  function ExpectedRow(data: seq<bv8>, width: nat, height: nat, y: nat): (row: seq<Option<Rgba>>)
    requires |data| == 4 * (height * width) && y < height
    ensures |row| == width
  {
    MulNonNegative(y, width);
    MulAtMost(y, height, width);
    RowFill(data, y * width, width)
  }

  /** Row `y` is within the image. */
  lemma MulAtMost(y: nat, height: nat, width: nat)
    requires y < height
    ensures y * width + width <= height * width
  {
    RowBounds(y, width);
    assert (y + 1) * width <= height * width;
  }

  /** The canvas the decoder should paint for a `width` by `height` image. */
  function ExpectedCanvas(data: seq<bv8>, width: nat, height: nat): Canvas
    requires |data| == 4 * (height * width)
  {
    Canvas(width, height, seq(height, y requires 0 <= y < height => ExpectedRow(data, width, height, y)))
  }

  /** The encoder writes only Braille glyph pairs. */
  lemma CellsAreBraille(data: seq<bv8>)
    requires |data| % 4 == 0
    ensures BraillePairs(Cells(data))
  {
  }

  /** Decoding the line of the pixels `lo` to `lo + width - 1` paints their quantised
      fills. */
  lemma SpanRoundTrip(data: seq<bv8>, lo: nat, width: nat)
    requires |data| % 4 == 0 && lo + width <= |data| / 4
    ensures 4 * (lo + width) <= |data|
    ensures |Span(Cells(data), lo, lo + width)| == 2 * width
    ensures Painted(Span(Cells(data), lo, lo + width), width, width) == RowFill(data, lo, width)
  {
    var span := Span(Cells(data), lo, lo + width);
    SpanLength(Cells(data), lo, lo + width);
    var painted := Painted(span, width, width);
    var expected := RowFill(data, lo, width);
    forall x | 0 <= x < width
      ensures painted[x] == expected[x]
    {
      PixelOfSpan(data, lo, width, x);
    }
    assert painted == expected;
  }

  /** Cell `x` of the painted span is pixel `lo + x`'s quantised fill. */
  lemma PixelOfSpan(data: seq<bv8>, lo: nat, width: nat, x: nat)
    requires |data| % 4 == 0 && lo + width <= |data| / 4 && x < width
    ensures 4 * (lo + width) <= |data|
    ensures |Span(Cells(data), lo, lo + width)| == 2 * width
    ensures Painted(Span(Cells(data), lo, lo + width), width, width)[x] == RowFill(data, lo, width)[x]
  {
    var cells := Cells(data);
    var p := lo + x;
    PaintedSpanAt(cells, lo, width, x);
    assert DecodePixel(cells[p][0], cells[p][1]) == PixelFill(data, p) by {
      CellDecodes(data, p);
    }
    assert RowFill(data, lo, width)[x] == Some(PixelFill(data, p));
  }

  /** Decoding one row's line paints the row's quantised pixels. */
  lemma RowRoundTrip(data: seq<bv8>, width: nat, height: nat, y: nat)
    requires |data| == 4 * (height * width) && y < height
    ensures y * width + width <= |Cells(data)|
    ensures var span := Span(Cells(data), y * width, y * width + width);
      && |span| == 2 * width
      && Painted(span, width, width) == ExpectedRow(data, width, height, y)
  {
    MulNonNegative(y, width);
    MulAtMost(y, height, width);
    SpanRoundTrip(data, y * width, width);
  }

  /** Painting a span of glyph pairs decodes pixel `lo + x`'s pair into cell `x`. */
  lemma PaintedSpanAt(cells: seq<string>, lo: nat, width: nat, x: nat)
    requires AllPairs(cells) && lo + width <= |cells| && x < width
    ensures |Span(cells, lo, lo + width)| == 2 * width
    ensures Painted(Span(cells, lo, lo + width), width, width)[x]
         == Some(DecodePixel(cells[lo + x][0], cells[lo + x][1]))
  {
    SpanAt(cells, lo, lo + width);
  }

  /** The glyph pair the encoder writes for pixel `p` decodes to its quantised fill. */
  lemma CellDecodes(data: seq<bv8>, p: nat)
    requires |data| % 4 == 0 && p < |data| / 4
    ensures 4 * p + 4 <= |data|
    ensures DecodePixel(Cells(data)[p][0], Cells(data)[p][1]) == PixelFill(data, p)
  {
    CellAt(data, p);
    PixelRoundTrip(data[4 * p], data[4 * p + 1], data[4 * p + 2], data[4 * p + 3]);
  }

  /** All lines have `2 * width` glyphs, so the decoder's canvas is `width` cells wide. */
  lemma WidthOfRows(lines: seq<string>, width: nat)
    requires |lines| > 0 && forall y :: 0 <= y < |lines| ==> |lines[y]| == 2 * width
    ensures AllPaired(lines) && MaxHalfLength(lines) == width
  {
    var w := MaxHalfLength(lines);
    MaxHalfLengthBounds(lines);
    MaxHalfLengthReached(lines);
    var y :| 0 <= y < |lines| && |lines[y]| / 2 == w;
  }

  /** The codec round trip: the encoder's rows, with each marker shown as a run of line
      feeds, decode to the image quantised pixel by pixel, on a canvas of the image's size. */
  lemma {:induction false} EncodeDecode(data: seq<bv8>, width: nat, height: nat, m: string)
    requires width > 0 && height > 0 && |data| == 4 * (height * width) && LineFeeds(m)
    ensures Decoded(Rows(Cells(data), width, height, m)) == Ok(ExpectedCanvas(data, width, height))
  {
    var cells := Cells(data);
    CellsAreBraille(data);
    LinesOfRows(cells, width, height, m);
    var lines := Lines(Rows(cells, width, height, m));
    assert lines == RowSpans(cells, width, height);
    forall y | 0 <= y < height
      ensures |lines[y]| == 2 * width
      ensures Painted(lines[y], width, |lines[y]| / 2) == ExpectedRow(data, width, height, y)
    {
      RowSpansAt(cells, width, height, y);
      RowRoundTrip(data, width, height, y);
    }
    WidthOfRows(lines, width);
    var grid := PaintedGrid(lines, width);
    var expected := ExpectedCanvas(data, width, height).pixels;
    forall y | 0 <= y < height
      ensures grid[y] == expected[y]
    {
    }
    assert grid == expected;
  }

  /** The same for the text exactly as the encoder builds it, once each row marker is
      shown as a run of line feeds. */
  lemma EncodedDecodes(data: seq<bv8>, width: nat, height: nat, m: string)
    requires width > 0 && height > 0 && |data| == 4 * (height * width) && LineFeeds(m)
    ensures Encoded(data, width) == Rows(Cells(data), width, height, RowMarker)
    ensures Decoded(Rows(Cells(data), width, height, m)) == Ok(ExpectedCanvas(data, width, height))
  {
    EncodedIsRows(data, width, height);
    EncodeDecode(data, width, height, m);
  }
}
