/** Row framing of the encoder's output (Colourful_LOR.user.js, lines 88-110), stated over the
    text of each pixel and independent of how a pixel becomes glyphs: the encoder walks the
    pixels in order and writes a row marker before every pixel whose byte index is a multiple
    of the row's byte width. */
module Framing {

  /** `!(i % bytesWidth)` for byte index `i` and `bytesWidth == width * 4`. With a zero width
      the remainder is NaN, whose negation is true, so every pixel then starts a row. */
  predicate MarkerAt(i: nat, width: nat) {
    width == 0 || i % (4 * width) == 0
  }

  /** The text written for the first `n` pixels, each pixel's text in `cells`. */
  function Stream(cells: seq<string>, width: nat, marker: string, n: nat): string
    requires n <= |cells|
  {
    if n == 0 then []
    else
      Stream(cells, width, marker, n - 1)
      + (if MarkerAt(4 * (n - 1), width) then marker else [])
      + cells[n - 1]
  }

  /** The texts of pixels `lo` up to `hi`, run together. */
  function Span(cells: seq<string>, lo: nat, hi: nat): string
    requires lo <= hi <= |cells|
    decreases hi - lo
  {
    if hi == lo then [] else Span(cells, lo, hi - 1) + cells[hi - 1]
  }

  /** The first `height` rows of a `width`-pixel image, each preceded by `marker`. */
  function Rows(cells: seq<string>, width: nat, height: nat, marker: string): string
    requires height * width <= |cells|
  {
    if height == 0 then []
    else
      RowBounds(height - 1, width);
      Rows(cells, width, height - 1, marker) + marker
      + Span(cells, (height - 1) * width, (height - 1) * width + width)
  }

  /** Every pixel's text is one glyph pair. */
  predicate AllPairs(cells: seq<string>) {
    forall p :: 0 <= p < |cells| ==> |cells[p]| == 2
  }

  /** Row `y` ends where row `y + 1` begins. */
  lemma RowBounds(y: nat, width: nat)
    ensures y * width + width == (y + 1) * width
  {
  }

  /** A positive multiple of a positive number is at least that number. */
  lemma MulAtLeast(d: int, m: int)
    requires d >= 1 && m > 0
    ensures d * m >= m
  {
    assert d * m == (d - 1) * m + m;
    assert (d - 1) * m >= 0;
  }

  /** Euclidean quotient and remainder are unique. */
  lemma DivModUnique(b: int, k: int, r: int, m: int)
    requires m > 0 && 0 <= r < m && b == k * m + r
    ensures b % m == r && b / m == k
  {
    var d := k - b / m;
    assert b == (b / m) * m + b % m;
    assert d * m == b % m - r;
    if d > 0 {
      MulAtLeast(d, m);
    } else if d < 0 {
      MulAtLeast(-d, m);
    }
  }

  /** For a positive width, a marker precedes pixel `y * width + x` exactly when `x == 0`:
      once per row, before its first pixel. */
  lemma MarkerAtColumn(y: nat, x: nat, width: nat)
    requires x < width
    ensures MarkerAt(4 * (y * width + x), width) <==> x == 0
  {
    assert 4 * (y * width + x) == y * (4 * width) + 4 * x;
    DivModUnique(4 * (y * width + x), y, 4 * x, 4 * width);
  }

  /** At the start of row `y` the stream holds exactly the first `y` framed rows. */
  lemma {:induction false} StreamAtRowStart(cells: seq<string>, width: nat, marker: string, y: nat)
    requires width > 0 && y * width <= |cells|
    ensures Stream(cells, width, marker, y * width) == Rows(cells, width, y, marker)
    decreases y, 0
  {
    if y > 0 {
      var prev := (y - 1) * width;
      assert prev + width == y * width by {
        RowBounds(y - 1, width);
      }
      StreamInRow(cells, width, marker, y - 1, width);
    }
  }

  /** Inside row `y`, after its first `x` pixels, the stream holds the `y` framed rows, the
      marker, and those `x` pixels: the marker is written once, before the row's first
      pixel. */
  lemma {:induction false} StreamInRow(cells: seq<string>, width: nat, marker: string, y: nat, x: nat)
    requires 0 < x <= width && y * width + x <= |cells|
    ensures Stream(cells, width, marker, y * width + x)
         == Rows(cells, width, y, marker) + marker + Span(cells, y * width, y * width + x)
    decreases y, x + 1
  {
    var base := y * width;
    var cell := cells[base + x - 1];
    var rows := Rows(cells, width, y, marker);
    var span := Span(cells, base, base + x - 1);
    assert Span(cells, base, base + x) == span + cell;
    MarkerAtColumn(y, x - 1, width);
    if x == 1 {
      StreamAtRowStart(cells, width, marker, y);
      assert Stream(cells, width, marker, base + x) == rows + marker + cell;
      assert span == [];
    } else {
      StreamInRow(cells, width, marker, y, x - 1);
      assert Stream(cells, width, marker, base + x) == (rows + marker + span) + cell;
    }
  }

  /** For a positive width and `height` whole rows, the stream is the framed rows. */
  lemma StreamIsRows(cells: seq<string>, width: nat, height: nat, marker: string)
    requires width > 0 && |cells| == height * width
    ensures Stream(cells, width, marker, |cells|) == Rows(cells, width, height, marker)
  {
    StreamAtRowStart(cells, width, marker, height);
  }

  /** With a zero width every pixel gets its own marker. The script never has pixels with a
      zero width (an image of width 0 has no bytes); the case is stated only to pin down
      the `!(i % 0)` branch. */
  lemma {:induction false} StreamZeroWidth(cells: seq<string>, marker: string, n: nat)
    requires n <= |cells| && AllPairs(cells)
    ensures |Stream(cells, 0, marker, n)| == n * (|marker| + 2)
    ensures n > 0 ==> Stream(cells, 0, marker, n)[..|marker|] == marker
  {
    if n > 0 {
      StreamZeroWidth(cells, marker, n - 1);
      assert n * (|marker| + 2) == (n - 1) * (|marker| + 2) + |marker| + 2;
    }
  }

  /** A span of glyph pairs is twice as long as it has pixels, and pixel `lo + k`'s pair sits
      at offsets `2 * k` and `2 * k + 1`. */
  lemma {:induction false} SpanAt(cells: seq<string>, lo: nat, hi: nat)
    requires lo <= hi <= |cells| && AllPairs(cells)
    ensures |Span(cells, lo, hi)| == 2 * (hi - lo)
    ensures forall k :: 0 <= k < hi - lo ==>
      Span(cells, lo, hi)[2 * k] == cells[lo + k][0] && Span(cells, lo, hi)[2 * k + 1] == cells[lo + k][1]
    decreases hi - lo
  {
    if hi > lo {
      SpanAt(cells, lo, hi - 1);
    }
  }

  /** Each framed row contributes its marker and `2 * width` characters. */
  lemma {:induction false} RowsLength(cells: seq<string>, width: nat, height: nat, marker: string)
    requires height * width <= |cells| && AllPairs(cells)
    ensures |Rows(cells, width, height, marker)| == height * (|marker| + 2 * width)
  {
    if height > 0 {
      var lo := (height - 1) * width;
      RowBounds(height - 1, width);
      var row := Span(cells, lo, lo + width);
      assert Rows(cells, width, height, marker) == Rows(cells, width, height - 1, marker) + marker + row;
      RowsLength(cells, width, height - 1, marker);
      SpanLength(cells, lo, lo + width);
      MulPred(height, |marker| + 2 * width);
    }
  }

  /** `h` copies of `k` are `h - 1` copies and one more. */
  lemma MulPred(h: nat, k: nat)
    requires h > 0
    ensures h * k == (h - 1) * k + k
  {
  }

  /** A span of glyph pairs is twice as long as it has pixels: the first clause of `SpanAt`
      alone, for proofs that would be slowed down by its per-pixel clauses. */
  lemma {:induction false} SpanLength(cells: seq<string>, lo: nat, hi: nat)
    requires lo <= hi <= |cells| && AllPairs(cells)
    ensures |Span(cells, lo, hi)| == 2 * (hi - lo)
    decreases hi - lo
  {
    if hi > lo {
      SpanLength(cells, lo, hi - 1);
    }
  }

  /** Fewer rows frame a prefix of the text that more rows frame. */
  lemma {:induction false} RowsPrefix(cells: seq<string>, width: nat, height: nat, marker: string, k: nat)
    requires height * width <= |cells| && k <= height
    ensures k * width <= |cells|
    ensures Rows(cells, width, k, marker) <= Rows(cells, width, height, marker)
  {
    if k < height {
      RowBounds(height - 1, width);
      RowsPrefix(cells, width, height - 1, marker, k);
    }
  }

  /** Row `y` of the framed text starts at `y * (|marker| + 2 * width)` with the marker,
      followed by the glyph pairs of pixels `y * width` to `y * width + width - 1`. */
  lemma {:induction false} RowsAt(cells: seq<string>, width: nat, height: nat, marker: string, y: nat)
    requires height * width <= |cells| && AllPairs(cells) && y < height
    ensures y * width + width <= |cells|
    ensures var start := y * (|marker| + 2 * width);
      && start + |marker| + 2 * width <= |Rows(cells, width, height, marker)|
      && Rows(cells, width, height, marker)[start..start + |marker|] == marker
      && Rows(cells, width, height, marker)[start + |marker|..start + |marker| + 2 * width]
         == Span(cells, y * width, y * width + width)
  {
    var start := y * (|marker| + 2 * width);
    RowsPrefix(cells, width, height, marker, y + 1);
    RowBounds(y, width);
    var row := Span(cells, y * width, y * width + width);
    var before := Rows(cells, width, y, marker);
    var upto := Rows(cells, width, y + 1, marker);
    assert upto == before + marker + row;
    RowsLength(cells, width, y, marker);
    SpanAt(cells, y * width, y * width + width);
    assert |before| == start;
    assert upto[start..start + |marker|] == marker;
    assert upto[start + |marker|..start + |marker| + 2 * width] == row;
  }

  /** Pixel `(x, y)`'s glyph pair sits `2 * x` characters after row `y`'s marker. */
  lemma RowsPixelAt(cells: seq<string>, width: nat, height: nat, marker: string, y: nat, x: nat)
    requires height * width <= |cells| && AllPairs(cells) && y < height && x < width
    ensures y * width + x < |cells|
    ensures var at := y * (|marker| + 2 * width) + |marker| + 2 * x;
      && at + 1 < |Rows(cells, width, height, marker)|
      && Rows(cells, width, height, marker)[at] == cells[y * width + x][0]
      && Rows(cells, width, height, marker)[at + 1] == cells[y * width + x][1]
  {
    MulNonNegative(y, width);
    MulNonNegative(y, |marker| + 2 * width);
    var start: int := y * (|marker| + 2 * width);
    var lo: int := y * width;
    var text := Rows(cells, width, height, marker);
    RowsAt(cells, width, height, marker, y);
    SpanAt(cells, lo, lo + width);
    var k := start + |marker|;
    var span := Span(cells, lo, lo + width);
    SliceAt(text, k, 2 * width, span, 2 * x);
    SliceAt(text, k, 2 * width, span, 2 * x + 1);
  }

  /** An element of a slice is the element of the sequence at the shifted index. */
  lemma SliceAt(text: string, k: int, n: nat, part: string, j: nat)
    requires 0 <= k && k + n <= |text| && text[k..k + n] == part && j < n
    ensures text[k + j] == part[j]
  {
  }

  /** A product of naturals is a natural. */
  lemma MulNonNegative(a: nat, b: nat)
    ensures a * b >= 0
  {
  }
}
