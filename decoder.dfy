/** `decodeImage` (Colourful_LOR.user.js, lines 144-172) up to the pixels it paints: the
    paragraph's text is split into lines at line feeds, empty lines are dropped, the canvas is
    as wide as the longest line has glyph pairs and as high as there are lines, and each glyph
    pair of line `y` paints one cell of row `y`. Drawing on a real canvas, its `PIXEL_SCALE`
    enlargement and the replacement of the paragraph are not part of this model: the result is
    the grid of cells, each either unpainted or painted with the `rgba(...)` components. */
module Decoder {
  import opened Quantiser
  import opened Glyph

  datatype Option<T> = None | Some(value: T)

  /** The only way `decodeImage` fails: a line of odd length, whose last glyph has no partner;
      `braileToBytes(undefined)` then throws. */
  datatype DecodeError = UnpairedGlyph

  datatype Result<T> = Ok(value: T) | Err(error: DecodeError)

  /** The four numbers passed to `rgba(...)` as the fill style of one cell. */
  datatype Rgba = Rgba(r: bv8, g: bv8, b: bv8, a: bv8)

  /** The canvas size in cells and, row by row, the fill of every cell. */
  datatype Canvas = Canvas(width: nat, height: nat, pixels: seq<seq<Option<Rgba>>>)

  /** `String.prototype.split` with a one-character separator: the pieces between the
      separators, an empty piece where two separators meet or at either end, so there is
      always at least one piece. */
  function Split(s: string, sep: char): (parts: seq<string>)
    ensures |parts| >= 1
  {
    if |s| == 0 then [""]
    else
      var rest := Split(s[1..], sep);
      if s[0] == sep then [""] + rest else [[s[0]] + rest[0]] + rest[1..]
  }

  /** The inverse of `Split`: the pieces with the separator between each two. */
  function Join(parts: seq<string>, sep: char): string
    requires |parts| >= 1
  {
    if |parts| == 1 then parts[0] else parts[0] + [sep] + Join(parts[1..], sep)
  }

  /** Joining the pieces gives back the text. */
  lemma {:induction false} JoinSplit(s: string, sep: char)
    ensures Join(Split(s, sep), sep) == s
  {
    if |s| > 0 {
      var rest := Split(s[1..], sep);
      JoinSplit(s[1..], sep);
      if s[0] == sep {
        assert [sep] + Join(rest, sep) == s;
      } else if |rest| == 1 {
        assert [s[0]] + rest[0] == s;
      } else {
        assert Join(rest, sep) == rest[0] + [sep] + Join(rest[1..], sep);
        assert Join(Split(s, sep), sep) == [s[0]] + Join(rest, sep);
      }
    }
  }

  /** No piece contains the separator. */
  lemma {:induction false} SplitPiecesFree(s: string, sep: char)
    ensures forall k :: 0 <= k < |Split(s, sep)| ==> sep !in Split(s, sep)[k]
  {
    if |s| > 0 {
      SplitPiecesFree(s[1..], sep);
      var rest := Split(s[1..], sep);
      if s[0] != sep {
        assert sep !in [s[0]] + rest[0];
        assert forall k :: 0 <= k < |rest| - 1 ==> rest[1..][k] == rest[k + 1];
      }
    }
  }

  /** Text without the separator is one piece. */
  lemma {:induction false} SplitWhole(s: string, sep: char)
    requires sep !in s
    ensures Split(s, sep) == [s]
  {
    if |s| > 0 {
      SplitWhole(s[1..], sep);
      assert [s[0]] + s[1..] == s;
    }
  }

  /** A separator between two texts splits them apart. */
  lemma {:induction false} SplitAround(a: string, sep: char, b: string)
    ensures Split(a + [sep] + b, sep) == Split(a, sep) + Split(b, sep)
  {
    var s := a + [sep] + b;
    if |a| == 0 {
      assert s[1..] == b;
    } else {
      assert s[1..] == a[1..] + [sep] + b;
      SplitAround(a[1..], sep, b);
    }
  }

  /** Pieces that are free of the separator come back from splitting their join. */
  lemma {:induction false} SplitJoin(parts: seq<string>, sep: char)
    requires |parts| >= 1 && forall k :: 0 <= k < |parts| ==> sep !in parts[k]
    ensures Split(Join(parts, sep), sep) == parts
  {
    if |parts| == 1 {
      SplitWhole(parts[0], sep);
    } else {
      SplitJoin(parts[1..], sep);
      SplitWhole(parts[0], sep);
      SplitAround(parts[0], sep, Join(parts[1..], sep));
      assert [parts[0]] + parts[1..] == parts;
    }
  }

  /** `.filter(function(line) { return line !== ''; })`. */
  function NonEmpty(parts: seq<string>): seq<string> {
    if |parts| == 0 then []
    else if parts[|parts| - 1] == [] then NonEmpty(parts[..|parts| - 1])
    else NonEmpty(parts[..|parts| - 1]) + [parts[|parts| - 1]]
  }

  /** The filter keeps only non-empty pieces, each one of the given pieces. */
  lemma {:induction false} NonEmptyKept(parts: seq<string>)
    ensures |NonEmpty(parts)| <= |parts|
    ensures forall k :: 0 <= k < |NonEmpty(parts)| ==> NonEmpty(parts)[k] != [] && NonEmpty(parts)[k] in parts
  {
    if |parts| > 0 {
      var init := parts[..|parts| - 1];
      NonEmptyKept(init);
      assert forall q :: q in init ==> q in parts;
    }
  }

  /** Filtering keeps every non-empty piece, in order, and nothing else: it distributes over
      concatenation. */
  lemma {:induction false} NonEmptyAppend(a: seq<string>, b: seq<string>)
    ensures NonEmpty(a + b) == NonEmpty(a) + NonEmpty(b)
    decreases |b|
  {
    if |b| > 0 {
      var c := a + b;
      assert c[..|c| - 1] == a + b[..|b| - 1];
      NonEmptyAppend(a, b[..|b| - 1]);
    } else {
      assert a + b == a;
    }
  }

  /** `p.innerText.split('\n').filter(...)`. */
  function Lines(text: string): seq<string> {
    NonEmpty(Split(text, '\n'))
  }

  /** `Math.max` over `line.length / 2`, or 0 where `Math.max()` gives -Infinity, which the
      canvas stores as width 0. For lines of even length, the only ones that paint without
      throwing, the halves are whole. */
  function MaxHalfLength(lines: seq<string>): nat {
    if |lines| == 0 then 0
    else
      var w := MaxHalfLength(lines[..|lines| - 1]);
      var last := |lines[|lines| - 1]| / 2;
      if last > w then last else w
  }

  /** The width bounds every line's glyph pairs; with no lines it is 0. */
  lemma {:induction false} MaxHalfLengthBounds(lines: seq<string>)
    ensures forall y :: 0 <= y < |lines| ==> |lines[y]| / 2 <= MaxHalfLength(lines)
    ensures |lines| == 0 ==> MaxHalfLength(lines) == 0
  {
    if |lines| > 0 {
      MaxHalfLengthBounds(lines[..|lines| - 1]);
    }
  }

  /** The width is reached by some line. */
  lemma {:induction false} MaxHalfLengthReached(lines: seq<string>)
    requires |lines| > 0
    ensures exists y :: 0 <= y < |lines| && |lines[y]| / 2 == MaxHalfLength(lines)
  {
    var last := |lines| - 1;
    var init := lines[..last];
    if |init| > 0 && |lines[last]| / 2 <= MaxHalfLength(init) {
      MaxHalfLengthReached(init);
      var y :| 0 <= y < |init| && |init[y]| / 2 == MaxHalfLength(init);
      assert lines[y] == init[y];
    } else {
      assert |lines[last]| / 2 == MaxHalfLength(lines);
    }
  }

  /** One cell's fill: `braileToBytes` of the first glyph gives red and green, of the second
      blue and the fourth component. Each component is a dequantised nibble: only bits 3-6
      can be set. */
  function DecodePixel(c1: char, c2: char): (px: Rgba)
    ensures px.r & 0x87 == 0 && px.g & 0x87 == 0 && px.b & 0x87 == 0 && px.a & 0x87 == 0
  {
    var (r, g) := BraileToBytes(c1);
    var (b, a) := BraileToBytes(c2);
    DequantisedRange(UnpackNibbles(c1).0);
    DequantisedRange(UnpackNibbles(c1).1);
    DequantisedRange(UnpackNibbles(c2).0);
    DequantisedRange(UnpackNibbles(c2).1);
    Rgba(r, g, b, a)
  }

  /** A row of `width` cells of which the first `n` are painted from the glyph pairs of
      `line`. */
  function Painted(line: string, width: nat, n: nat): seq<Option<Rgba>>
    requires 2 * n <= |line|
  {
    seq(width, x requires 0 <= x < width =>
      if x < n then Some(DecodePixel(line[2 * x], line[2 * x + 1])) else None)
  }

  /** Whether every line has a partner for each of its glyphs. */
  predicate AllPaired(lines: seq<string>) {
    forall y :: 0 <= y < |lines| ==> |lines[y]| % 2 == 0
  }

  /** What `decodeImage` leaves behind for a paragraph's text: the painted canvas, or the
      error when some line has an odd number of glyphs. */
  function Decoded(text: string): Result<Canvas> {
    var lines := Lines(text);
    if !AllPaired(lines) then Err(UnpairedGlyph)
    else
      var width := MaxHalfLength(lines);
      Ok(Canvas(width, |lines|, PaintedGrid(lines, width)))
  }

  /** A decoded canvas has one row per line, each as wide as the widest line has glyph pairs;
      cell `x` of row `y` is painted from the `x`-th glyph pair of line `y`, and the cells
      past the end of a shorter line stay unpainted. */
  lemma DecodedCell(text: string, y: nat, x: nat)
    requires Decoded(text).Ok? && y < |Lines(text)| && x < Decoded(text).value.width
    ensures var canvas := Decoded(text).value;
      var line := Lines(text)[y];
      && canvas.height == |Lines(text)| == |canvas.pixels|
      && |canvas.pixels[y]| == canvas.width
      && (x < |line| / 2 ==> canvas.pixels[y][x] == Some(DecodePixel(line[2 * x], line[2 * x + 1])))
      && (x >= |line| / 2 ==> canvas.pixels[y][x] == None)
  {
    var lines := Lines(text);
    var width := MaxHalfLength(lines);
    assert Decoded(text).value == Canvas(width, |lines|, PaintedGrid(lines, width));
    var line := lines[y];
    var n := |line| / 2;
    var row := PaintedGrid(lines, width)[y];
    assert row == Painted(line, width, n);
    if x < n {
      assert 2 * x + 1 < |line|;
      assert row[x] == Some(DecodePixel(line[2 * x], line[2 * x + 1]));
    }
  }

  /** Every line painted in full, one row per line. */
  function PaintedGrid(lines: seq<string>, width: nat): (grid: seq<seq<Option<Rgba>>>)
    ensures |grid| == |lines|
  {
    seq(|lines|, y requires 0 <= y < |lines| => Painted(lines[y], width, |lines[y]| / 2))
  }

  /** A row of `width` unpainted cells, as a fresh canvas has. */
  function Blank(width: nat): (row: seq<Option<Rgba>>)
    ensures |row| == width && forall x :: 0 <= x < width ==> row[x] == None
  {
    seq(width, _ => None)
  }

  /** A blank row is one with no cell painted yet. */
  lemma PaintedNone(line: string, width: nat)
    ensures Painted(line, width, 0) == Blank(width)
  {
  }

  /** Painting the next glyph pair's cell extends the painted prefix by one. */
  lemma PaintedStep(line: string, width: nat, n: nat, i: nat)
    requires i == 2 * n && i + 2 <= |line| && n < width
    ensures Painted(line, width, n)[n := Some(DecodePixel(line[i], line[i + 1]))]
         == Painted(line, width, n + 1)
  {
  }

  /** Twice a number is even and halves back to it; one more is odd. */
  lemma Halves(n: nat)
    ensures (2 * n) % 2 == 0 && (2 * n) / 2 == n && (2 * n + 1) % 2 == 1
  {
  }

  /** The `forEach` callback of `decodeImage` for line `y`: paint one cell of row `y` per
      glyph pair. A last glyph without a partner throws, which the result reports as the
      error. */
  method PaintLine(pixels: seq<seq<Option<Rgba>>>, y: nat, line: string, width: nat)
    returns (r: Result<seq<seq<Option<Rgba>>>>)
    requires y < |pixels| && pixels[y] == Blank(width) && |line| / 2 <= width
    ensures |line| % 2 == 1 ==> r == Err(UnpairedGlyph)
    ensures |line| % 2 == 0 ==> r == Ok(pixels[y := Painted(line, width, |line| / 2)])
  {
    var canvas := pixels;
    var i := 0;
    ghost var n: nat := 0;
    PaintedNone(line, width);
    while i < |line|
      invariant i == 2 * n <= |line|
      invariant canvas == pixels[y := Painted(line, width, n)]
    {
      if i + 1 >= |line| {
        Halves(n);
        assert |line| == 2 * n + 1;
        return Err(UnpairedGlyph);
      }
      var px := DecodePixel(line[i], line[i + 1]);
      PaintedStep(line, width, n, i);
      Halves(n);
      canvas := canvas[y := canvas[y][i / 2 := Some(px)]];
      i, n := i + 2, n + 1;
    }
    Halves(n);
    r := Ok(canvas);
  }

  /** A fresh canvas: `height` rows of `width` unpainted cells. */
  function BlankGrid(height: nat, width: nat): (grid: seq<seq<Option<Rgba>>>)
    ensures |grid| == height && forall k :: 0 <= k < height ==> grid[k] == Blank(width)
  {
    seq(height, _ => Blank(width))
  }

  /** The canvas after the callback has run on the first `y` lines: those rows painted, the
      rest blank. */
  function PartlyPainted(lines: seq<string>, width: nat, y: nat): seq<seq<Option<Rgba>>>
    requires y <= |lines|
  {
    PaintedGrid(lines[..y], width) + BlankGrid(|lines| - y, width)
  }

  /** Running the callback on line `y` paints exactly row `y`, which was blank. */
  lemma PartlyPaintedStep(lines: seq<string>, width: nat, y: nat)
    requires y < |lines|
    ensures var canvas := PartlyPainted(lines, width, y);
      && |canvas| == |lines|
      && canvas[y] == Blank(width)
      && canvas[y := Painted(lines[y], width, |lines[y]| / 2)] == PartlyPainted(lines, width, y + 1)
  {
    var canvas := PartlyPainted(lines, width, y);
    var next := PartlyPainted(lines, width, y + 1);
    var row := Painted(lines[y], width, |lines[y]| / 2);
    assert canvas[y] == BlankGrid(|lines| - y, width)[0];
    forall k | 0 <= k < |lines|
      ensures canvas[y := row][k] == next[k]
    {
      if k < y {
        assert canvas[k] == PaintedGrid(lines[..y], width)[k] == Painted(lines[k], width, |lines[k]| / 2);
        assert next[k] == PaintedGrid(lines[..y + 1], width)[k];
      } else if k == y {
        assert next[k] == PaintedGrid(lines[..y + 1], width)[k];
      } else {
        assert canvas[k] == BlankGrid(|lines| - y, width)[k - y];
        assert next[k] == BlankGrid(|lines| - y - 1, width)[k - y - 1];
      }
    }
  }

  /** Before the first line the canvas is blank; after the last it is fully painted. */
  lemma PartlyPaintedEnds(lines: seq<string>, width: nat)
    ensures PartlyPainted(lines, width, 0) == BlankGrid(|lines|, width)
    ensures PartlyPainted(lines, width, |lines|) == PaintedGrid(lines, width)
  {
    assert lines[..0] == [];
    assert PaintedGrid([], width) == [];
    assert lines[..|lines|] == lines;
    assert BlankGrid(0, width) == [];
  }

  /** `decodeImage`: size the canvas from the lines, then run the callback on each line in
      turn; the first line that throws ends the decoding with the error. */
  method DecodeImage(text: string) returns (r: Result<Canvas>)
    ensures r == Decoded(text)
  {
    var lines := Lines(text);
    var width := MaxHalfLength(lines);
    MaxHalfLengthBounds(lines);
    var height := |lines|;
    var pixels := BlankGrid(height, width);
    PartlyPaintedEnds(lines, width);
    var y := 0;
    while y < |lines|
      invariant y <= |lines|
      invariant AllPaired(lines[..y])
      invariant pixels == PartlyPainted(lines, width, y)
    {
      PartlyPaintedStep(lines, width, y);
      var painted := PaintLine(pixels, y, lines[y], width);
      if painted.Err? {
        UnpairedLine(lines, y);
        return Err(UnpairedGlyph);
      }
      PairedPrefix(lines, y);
      pixels := painted.value;
      y := y + 1;
    }
    assert lines[..y] == lines;
    r := Ok(Canvas(width, height, pixels));
  }

  /** One line of odd length is enough to fail. */
  lemma UnpairedLine(lines: seq<string>, y: nat)
    requires y < |lines| && |lines[y]| % 2 == 1
    ensures !AllPaired(lines)
  {
  }

  /** The lines seen so far stay paired when the next one is. */
  lemma PairedPrefix(lines: seq<string>, y: nat)
    requires y < |lines| && AllPaired(lines[..y]) && |lines[y]| % 2 == 0
    ensures AllPaired(lines[..y + 1])
  {
    assert lines[..y + 1] == lines[..y] + [lines[y]];
  }
}
