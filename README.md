# Colourful LOR: the Braille image codec

This project models the codec at the core of the `Colourful_LOR.user.js` user script, and
proves properties of the model. The script lets a forum user post pixel art as text, and lets
readers see that text as a picture again.

- **Encoding.** Each pixel becomes two characters of the Unicode Braille Patterns block
  (U+2800..U+28FF). The first carries red and green. The second carries blue and a
  "subcarrier" byte that collects the top bits of all four channels. Each channel is cut
  to its bits 3-6 and sent through a fixed permutation of nibbles (`forthMap`).
- **Rows.** Each image row is preceded by the marker `[br]\n`.
- **Decoding.** A paragraph is decoded only when the regular expression `/^[⠀-⣿]+$/m`
  finds a line made only of Braille characters. The text is split into non-empty lines.
  Each glyph pair of a line paints one cell of a canvas. The cell's `rgba(...)` fill is red
  and green from the first glyph, and blue and the dequantised subcarrier from the second.

The modules follow the script's structure:

| module | file | what it holds |
|---|---|---|
| `NibbleMap` | `nibble_map.dfy` | `forthMap` and `backMap`, and the guarded lookups around them |
| `Quantiser` | `quantiser.dfy` | `reduceByte` and `enduceByte` |
| `Glyph` | `glyph.dfy` | `bytesToBraile` and `braileToBytes` |
| `Framing` | `framing.dfy` | the row framing of the encoder's output, stated over any per-pixel text |
| `Encoder` | `encoder.dfy` | the subcarrier and the `encodeImage` loop, as a method proved against `Encoded` |
| `Decoder` | `decoder.dfy` | splitting, filtering and sizing, plus the `decodeImage` loops as methods proved against `Decoded` |
| `Gate` | `gate.dfy` | `braileRegex.test` under the multiline flag |
| `RoundTrip` | `roundtrip.dfy` | encoder output, with each marker shown as line breaks, decodes to the quantised image |

Channel bytes are `bv8`, so the script's shifts and masks read as written. Code points stay
`int`. The script's integers never leave 0..255 except the code point, so nothing wraps.

## Model

| member | source | states |
|---|---|---|
| NibbleMap.ForthMap | Colourful_LOR.user.js:12-24 | the `forthMap` object literal, entry for entry: 3→8, 4→3, 5→6, 6→9, 7→13, 8→4, 9→5, 10→7, 11→12, 12→10, 13→11 |
| NibbleMap.BackMap | Colourful_LOR.user.js:26-38 | the `backMap` object literal, entry for entry: 3→4, 4→8, 5→9, 6→5, 7→10, 8→3, 9→6, 10→12, 11→13, 12→11, 13→7 |
| NibbleMap.Forth | Colourful_LOR.user.js:46 | the nibble itself outside 3..13, `ForthMap` inside it |
| NibbleMap.Back | Colourful_LOR.user.js:50 | the nibble itself outside 3..13, `BackMap` inside it |
| NibbleMap.TablesInverse | Colourful_LOR.user.js:12-38 | both tables are defined on 3..13 and take values in 3..13; each undoes the other; neither has a fixed point |
| NibbleMap.TablesDomain | Colourful_LOR.user.js:12-38 | neither table has a key outside 3..13 |
| NibbleMap.ForthBackInverse | Colourful_LOR.user.js:44-52 | the guarded lookups `byte < 3 \|\| byte > 13 ? byte : map[byte]` are mutual inverses on every nibble |
| NibbleMap.FixedPoints | Colourful_LOR.user.js:44-52 | inside 3..13 both lookups move every nibble and stay in range; 0, 1, 2, 14 and 15 are left unchanged |
| NibbleMap.ForthInjective | Colourful_LOR.user.js:44-47 | the forward permutation maps distinct nibbles to distinct nibbles |
| Quantiser.ReduceByte | Colourful_LOR.user.js:44-47 | `Forth((v >> 3) & 15)`: bits 3-6 of the byte as a nibble, then permuted |
| Quantiser.EnduceByte | Colourful_LOR.user.js:49-52 | `Back(n) << 3`: the nibble un-permuted and moved back to bits 3-6 |
| Quantiser.Lossiness | Colourful_LOR.user.js:44-52 | `enduceByte(reduceByte(v)) == v & 0x78`: exactly bits 0-2 and bit 7 are lost |
| Quantiser.DequantisedRange | Colourful_LOR.user.js:49-52 | a dequantised value has no bits outside 3-6, is a multiple of 8 and is at most 120 |
| Quantiser.RequantiseNibble | Colourful_LOR.user.js:44-52 | `reduceByte(enduceByte(n)) == n` for every nibble |
| Quantiser.RequantiseStable | Colourful_LOR.user.js:44-52 | re-quantising a reconstructed value gives the same nibble |
| Quantiser.ExactOnMiddleBits | Colourful_LOR.user.js:44-52 | a byte whose set bits all lie in 3-6 survives quantising and dequantising exactly |
| Glyph.DotOffset | Colourful_LOR.user.js:57 | the four summands added to 0x2800 stay below 256 |
| Glyph.PackNibbles | Colourful_LOR.user.js:57 | the character built from two nibbles lies in the Braille Patterns block |
| Glyph.BytesToBraile | Colourful_LOR.user.js:54-58 | `bytesToBraile` of any two bytes is a Braille character |
| Glyph.LowByte | Colourful_LOR.user.js:60 | the low byte of `charCodeAt(0) - 0x2800`, taken modulo 256, which is all the int32 masks of lines 61-62 see, also for a character below U+2800 |
| Glyph.UnpackNibbles | Colourful_LOR.user.js:60-62 | bits 0-2 and 6 of the low byte as the first nibble, bits 3-5 and 7 as the second |
| Glyph.BraileToBytes | Colourful_LOR.user.js:59-69 | `EnduceByte` of each of the two unpacked nibbles, in order |
| Glyph.UnpackPack | Colourful_LOR.user.js:54-69 | unpacking a packed glyph gives back both nibbles, so packing is injective |
| Glyph.PackUnpack | Colourful_LOR.user.js:54-69 | every Braille character is the packing of the nibbles it unpacks to, so packing is onto the block |
| Glyph.LowByteOfBraille | Colourful_LOR.user.js:61-63 | on the Braille block, the low byte that the masks see is the whole offset from U+2800 |
| Glyph.GlyphRoundTrip | Colourful_LOR.user.js:54-69 | `braileToBytes(bytesToBraile(x, y)) == [x & 0x78, y & 0x78]` |
| Framing.MarkerAt | Colourful_LOR.user.js:89-104 | `!(i % bytesWidth)` with `bytesWidth == 4 * width`: true when `i` is a multiple of the row's byte width, and always true for width 0, where the remainder is NaN |
| Framing.Stream | Colourful_LOR.user.js:91-109 | the text after `n` pixels: the text after `n - 1` pixels, the marker when `MarkerAt` holds for the pixel, then the pixel's text |
| Framing.Rows | Colourful_LOR.user.js:91-109 | `height` image rows in order, each one marker followed by the texts of its `width` pixels |
| Framing.MarkerAtColumn | Colourful_LOR.user.js:89-106 | for a positive width, a marker is written before a pixel exactly when it is the first of its row |
| Framing.StreamAtRowStart | Colourful_LOR.user.js:91-109 | after `y` whole rows the text is those `y` framed rows |
| Framing.StreamInRow | Colourful_LOR.user.js:91-109 | partway through row `y`, the text is the earlier rows, one marker, and the row's pixels so far |
| Framing.StreamIsRows | Colourful_LOR.user.js:88-110 | for a positive width and whole rows, the text is one marker-prefixed row per image row |
| Framing.StreamZeroWidth | Colourful_LOR.user.js:89-106 | with width 0, `i % 0` is NaN, so every pixel gets its own marker |
| Framing.SpanAt | Colourful_LOR.user.js:107-108 | a row's glyph pairs sit at offsets `2x` and `2x + 1` |
| Framing.RowsLength | Colourful_LOR.user.js:104-108 | each framed row adds its marker and `2 * width` characters |
| Framing.RowsPrefix | Colourful_LOR.user.js:91-109 | the text for fewer rows is a prefix of the text for more rows |
| Framing.RowsAt | Colourful_LOR.user.js:104-108 | row `y` starts at `y * (m + 2 * width)`, `m` the marker's length, with the marker, then its glyph pairs |
| Framing.RowsPixelAt | Colourful_LOR.user.js:104-108 | pixel `(x, y)`'s pair sits `2 * x` characters after row `y`'s marker |
| Encoder.RowMarker | Colourful_LOR.user.js:105 | the text `[br]\n` written before each row |
| Encoder.Subcarrier | Colourful_LOR.user.js:97-102 | the top bit of alpha in bit 3, of red in bit 6, of green in bit 5 and of blue in bit 4, nothing else |
| Encoder.SubcarrierBits | Colourful_LOR.user.js:97-102 | the subcarrier sets only bits 3-6, one per channel's top bit; it is zero exactly when all four top bits are clear; it passes through the quantiser unchanged |
| Encoder.PixelGlyphs | Colourful_LOR.user.js:107-108 | each pixel is written as exactly two Braille characters |
| Encoder.Cells | Colourful_LOR.user.js:91-109 | one glyph pair per four bytes |
| Encoder.CellAt | Colourful_LOR.user.js:92-108 | pixel `p`'s pair is `bytesToBraile(r, g)`, then `bytesToBraile(b, subcarrier)` |
| Encoder.Encoded | Colourful_LOR.user.js:91-109 | `Stream` of the pixels' glyph pairs with marker `RowMarker`: the text the loop builds |
| Encoder.EncodeImage | Colourful_LOR.user.js:88-110 | the loop, with its in-place subcarrier and its `!(i % bytesWidth)` test, builds exactly `Encoded(data, width)` |
| Encoder.MarkerAtIndex | Colourful_LOR.user.js:89-104 | the source's test `!(i % bytesWidth)` agrees with `MarkerAt` for width 0 as well |
| Encoder.EncodedStep | Colourful_LOR.user.js:91-109 | one loop turn appends the marker when a row starts, then the pixel's two glyphs |
| Encoder.EncodedIsRows | Colourful_LOR.user.js:88-110 | for a positive width, the encoded text is one framed row per image row |
| Encoder.EncodedLength | Colourful_LOR.user.js:88-110 | the text has `height * (5 + 2 * width)` characters |
| Encoder.EncodedRowStart | Colourful_LOR.user.js:104-106 | row `y` starts with `[br]\n` at offset `y * (5 + 2 * width)` |
| Encoder.EncodedPixel | Colourful_LOR.user.js:107-108 | pixel `(x, y)`'s glyph pair follows its row's marker at offset `2 * x` |
| Encoder.EncodedZeroWidth | Colourful_LOR.user.js:89-106 | with width 0, each pixel takes seven characters and the text starts with a marker |
| Decoder.Split | Colourful_LOR.user.js:148 | `split('\n')` always yields at least one piece |
| Decoder.JoinSplit | Colourful_LOR.user.js:148 | joining the pieces with the separator gives back the text |
| Decoder.SplitPiecesFree | Colourful_LOR.user.js:148 | no piece contains the separator |
| Decoder.SplitWhole | Colourful_LOR.user.js:148 | text without the separator is a single piece |
| Decoder.SplitAround | Colourful_LOR.user.js:148 | a separator between two texts splits them apart |
| Decoder.SplitJoin | Colourful_LOR.user.js:148 | separator-free pieces come back from splitting their join |
| Decoder.NonEmpty | Colourful_LOR.user.js:148 | the pieces that are not `''`, in their order |
| Decoder.Lines | Colourful_LOR.user.js:148 | the pieces of `Split(text, '\n')` that are not empty |
| Decoder.NonEmptyKept | Colourful_LOR.user.js:148 | the filter keeps only non-empty pieces, each one of the input pieces |
| Decoder.NonEmptyAppend | Colourful_LOR.user.js:148 | filtering distributes over concatenation |
| Decoder.MaxHalfLength | Colourful_LOR.user.js:150-152 | the largest `line.length / 2` over the lines, rounded down, and 0 with no lines |
| Decoder.MaxHalfLengthBounds | Colourful_LOR.user.js:150-152 | the canvas width bounds every line's number of glyph pairs, and is 0 with no lines |
| Decoder.MaxHalfLengthReached | Colourful_LOR.user.js:150-152 | some line reaches the canvas width |
| Decoder.DecodePixel | Colourful_LOR.user.js:157-166 | every `rgba` component has no bits outside 3-6 |
| Decoder.Painted | Colourful_LOR.user.js:156-171 | a row of `width` cells whose first `n` hold `DecodePixel` of glyphs `2x` and `2x + 1` and whose others are unpainted |
| Decoder.PaintedGrid | Colourful_LOR.user.js:155-172 | one `Painted` row per line, each painted for all of its glyph pairs |
| Decoder.Decoded | Colourful_LOR.user.js:148-172 | `Err(UnpairedGlyph)` when some line has odd length, otherwise a canvas `MaxHalfLength` cells wide and one row per line, holding `PaintedGrid` |
| Decoder.DecodedCell | Colourful_LOR.user.js:148-172 | a decoded canvas has one row per line, each as wide as the canvas; cell `x` of row `y` is painted from line `y`'s `x`-th pair, and cells past a shorter line stay unpainted |
| Decoder.PaintedStep | Colourful_LOR.user.js:156-172 | painting the next pair extends the painted prefix of the row by one cell |
| Decoder.PaintLine | Colourful_LOR.user.js:155-173 | the per-line callback paints exactly row `y` from the line's pairs; a line of odd length throws |
| Decoder.PartlyPaintedStep | Colourful_LOR.user.js:155-173 | running the callback on line `y` turns blank row `y` into its painted row and changes nothing else |
| Decoder.DecodeImage | Colourful_LOR.user.js:144-173 | the method computes `Decoded(text)`: the painted canvas sized from the lines, or the error when some line has an odd length |
| Decoder.UnpairedLine | Colourful_LOR.user.js:156-161 | one odd-length line is enough for decoding to fail |
| Decoder.PairedPrefix | Colourful_LOR.user.js:155-173 | the lines seen so far stay paired when the next one is |
| Gate.MatchesAt | Colourful_LOR.user.js:40 | `s[p..q]` is non-empty, all Braille, starts at the text's start or after a line terminator, and ends at the text's end or before one |
| Gate.BraileRegexTest | Colourful_LOR.user.js:183 | some `p < q` with `MatchesAt(s, p, q)` |
| Gate.BrailleIsNotTerminator | Colourful_LOR.user.js:40 | no character of the class `[⠀-⣿]` is a line terminator |
| Gate.MatchIsWholeLine | Colourful_LOR.user.js:40 | a match holds no line terminator and cannot be extended on either side |
| Gate.NoBrailleRejected | Colourful_LOR.user.js:40 | a text without Braille characters never passes the gate |
| Gate.BrailleLineAccepted | Colourful_LOR.user.js:40 | one non-empty Braille line between line terminators (or the ends) passes the gate, whatever the other lines hold |
| Gate.GateIffBrailleLine | Colourful_LOR.user.js:40 | the gate passes exactly when some whole line of the text, bounded by line terminators or the text's ends, is a non-empty run of Braille characters |
| Gate.SpanIsBraille | Colourful_LOR.user.js:107-108 | a row of Braille glyph pairs is all Braille, two characters per pixel |
| Gate.SomeLineNonEmpty | Colourful_LOR.user.js:148 | a text with some character other than the separator leaves a piece after the filter |
| Gate.NonEmptyHolds | Colourful_LOR.user.js:148 | a non-empty piece survives the filter |
| Gate.NonEmptyFrom | Colourful_LOR.user.js:148 | whatever survives the filter came from a non-empty piece |
| Gate.AcceptedHasLines | Colourful_LOR.user.js:148-153 | a paragraph that passes the gate gives the decoder at least one line, so the canvas has at least one row |
| Gate.FramedRowsAccepted | Colourful_LOR.user.js:104-108 | framed Braille rows whose marker ends in a line feed pass the gate |
| RoundTrip.LinesOfEmpty | Colourful_LOR.user.js:148 | an empty text has no lines |
| RoundTrip.LinesAround | Colourful_LOR.user.js:148 | a line feed between two texts separates their lines |
| RoundTrip.LinesAcrossFeeds | Colourful_LOR.user.js:148 | any run of line feeds separates lines as one does: the empty lines between them are dropped |
| RoundTrip.LinesOfLine | Colourful_LOR.user.js:148 | a non-empty text without line feeds is one line |
| RoundTrip.RowSpans | Colourful_LOR.user.js:104-108 | one span per image row |
| RoundTrip.RowSpansAt | Colourful_LOR.user.js:104-108 | row `y`'s span holds pixels `y * width` to `y * width + width - 1` |
| RoundTrip.SpanHasNoFeed | Colourful_LOR.user.js:107-108 | a span of Braille pairs holds no line feed |
| RoundTrip.LinesOfRows | Colourful_LOR.user.js:104-108 | rows of Braille separated by runs of line feeds are exactly the decoder's lines |
| RoundTrip.Quantised | Colourful_LOR.user.js:97-102 | the recovered fourth component has no bits outside 3-6 |
| RoundTrip.PixelRoundTrip | Colourful_LOR.user.js:97-108 | decoding a pixel's two glyphs gives each colour channel cut to bits 3-6, and the subcarrier unchanged as the fourth component |
| RoundTrip.OpaqueRedPixel | Colourful_LOR.user.js:97-108 | pixel (255, 0, 0, 255) comes back as `rgba(120, 0, 0, 72)` |
| RoundTrip.OpaqueIffTopBit | Colourful_LOR.user.js:97-102 | a decoded cell is opaque exactly when one of its pixel's four top bits was set |
| RoundTrip.RowFill | Colourful_LOR.user.js:157-171 | one quantised fill per pixel of the row |
| RoundTrip.ExpectedRow | Colourful_LOR.user.js:157-171 | a row of the expected canvas is `width` cells |
| RoundTrip.CellDecodes | Colourful_LOR.user.js:107-108 | the glyph pair written for pixel `p` decodes to `p`'s quantised fill |
| RoundTrip.PaintedSpanAt | Colourful_LOR.user.js:156-171 | painting a span of pairs decodes pixel `lo + x`'s pair into cell `x` |
| RoundTrip.PixelOfSpan | Colourful_LOR.user.js:156-171 | cell `x` of a painted span is pixel `lo + x`'s quantised fill |
| RoundTrip.SpanRoundTrip | Colourful_LOR.user.js:156-171 | decoding a row's span paints every cell with its pixel's quantised fill |
| RoundTrip.RowRoundTrip | Colourful_LOR.user.js:155-172 | decoding row `y`'s line paints that image row |
| RoundTrip.WidthOfRows | Colourful_LOR.user.js:150-152 | lines of `2 * width` glyphs give a canvas `width` cells wide |
| RoundTrip.EncodeDecode | Colourful_LOR.user.js:88-172 | encoded rows with each marker shown as line feeds decode to the image quantised pixel by pixel, on a canvas of the image's size |
| RoundTrip.EncodedDecodes | Colourful_LOR.user.js:88-172 | the same for the text as `encodeImage` builds it, with each `[br]\n` shown as line feeds |

## Behaviour worth noting

- **Alpha.** The decoder passes the dequantised subcarrier (0..120) straight to `rgba(...)`
  as the fourth component (`Colourful_LOR.user.js:160-170`). CSS clamps alpha to [0, 1], so a cell is
  transparent exactly when the subcarrier is 0, that is, when none of the pixel's four top
  bits was set (`OpaqueIffTopBit`).
- **Non-Braille characters.** The gate (`Colourful_LOR.user.js:40` and `:183`) asks for only one Braille line in
  the paragraph. Every character of every line is then decoded through its low byte
  (`LowByte`), whatever block it comes from.
- **Lines.** The decoder splits only on `'\n'` and drops only empty lines (`Colourful_LOR.user.js:148`). A
  `[br]` left as text is decoded like any other characters.

## Left out

- Reading the file, loading the image and drawing it onto a canvas (lines 81-86 and
  113-142) are left out. The encoder starts from the RGBA byte array and the image width.
- `insertText` (lines 71-79) and the page's event wiring (lines 190-203) are left out.
- Canvas drawing, `PIXEL_SCALE` and replacing the paragraph (lines 145-146, 152-153,
  168-171, 175-176) are left out. The decoder's result is the grid of cell fills, and the
  canvas size is given in cells.
- How the forum renders `[br]` is outside the script. The round trip assumes each marker
  becomes a non-empty run of line feeds (`LineFeeds`).
- `decodeImages` walking the paragraphs (lines 179-188): only the per-paragraph gate is
  modelled. An exception in one paragraph also stops the paragraphs after it; the model
  does not capture that.
- Characters outside the Basic Multilingual Plane (two UTF-16 code units in JavaScript) are
  not modelled. A character is one code unit.
- Decoder.DecodeImage: a line of odd length is the error `UnpairedGlyph`. In the script,
  the rows painted before the throw stay on a canvas that is never shown, and the width in
  cells (`line.length / 2`) is a half for an odd line. The model does not keep that partial canvas.
- Encoder.EncodeImage: requires `|data| % 4 == 0`, which every `ImageData` array meets.
- RoundTrip.EncodeDecode: requires a positive width and height. An empty image encodes to
  an empty text, which the gate never passes.
