/** The detection gate of `decodeImages` (Colourful_LOR.user.js, lines 40 and 180-188): a
    paragraph is decoded only when `braileRegex`, `/^[⠀-⣿]+$/m`, finds a match in its text.
    With the `m` flag, `^` and `$` match at the ends of the text and next to any line
    terminator, so the regex accepts exactly when some whole line is a non-empty run of
    Braille Patterns characters. */
module Gate {
  import opened Glyph
  import opened Framing
  import opened Decoder

  /** The line terminators of ECMAScript regular expressions: line feed, carriage return,
      line separator and paragraph separator. */
  predicate IsLineTerminator(c: char) {
    c == '\n' || c == '\r' || c == '\U{2028}' || c == '\U{2029}'
  }

  /** `^` under the `m` flag: the start of the text or just after a line terminator. */
  predicate LineStart(s: string, p: nat)
    requires p <= |s|
  {
    p == 0 || IsLineTerminator(s[p - 1])
  }

  /** `$` under the `m` flag: the end of the text or just before a line terminator. */
  predicate LineEnd(s: string, q: nat)
    requires q <= |s|
  {
    q == |s| || IsLineTerminator(s[q])
  }

  /** `[⠀-⣿]+` spans `s[p..q]`, anchored at both ends. */
  predicate MatchesAt(s: string, p: nat, q: nat) {
    p < q <= |s| && LineStart(s, p) && LineEnd(s, q)
    && forall k :: p <= k < q ==> IsBraille(s[k])
  }

  /** `braileRegex.test(s)`: some match exists. */
  predicate BraileRegexTest(s: string) {
    exists p: nat, q: nat | p < q <= |s| :: MatchesAt(s, p, q)
  }

  /** No Braille character is a line terminator. */
  lemma BrailleIsNotTerminator(c: char)
    requires IsBraille(c)
    ensures !IsLineTerminator(c)
  {
  }

  /** A match is one whole line: it holds no line terminator, and it cannot be extended to
      either side, since a character before or after it is a line terminator. */
  lemma MatchIsWholeLine(s: string, p: nat, q: nat)
    requires MatchesAt(s, p, q)
    ensures forall k :: p <= k < q ==> !IsLineTerminator(s[k])
    ensures p > 0 ==> !IsBraille(s[p - 1])
    ensures q < |s| ==> !IsBraille(s[q])
  {
  }

  /** A text with no Braille character never passes the gate. */
  lemma NoBrailleRejected(s: string)
    requires forall k :: 0 <= k < |s| ==> !IsBraille(s[k])
    ensures !BraileRegexTest(s)
  {
    forall p: nat, q: nat | p < q <= |s|
      ensures !MatchesAt(s, p, q)
    {
      assert !IsBraille(s[p]);
    }
  }

  /** `s == before + line + after` cuts out `line` as a whole line of Braille: it is non-empty,
      all Braille, and has a line terminator (or an end of the text) on either side. */
  predicate BrailleLine(before: string, line: string, after: string) {
    && |line| > 0
    && (forall k :: 0 <= k < |line| ==> IsBraille(line[k]))
    && (|before| == 0 || IsLineTerminator(before[|before| - 1]))
    && (|after| == 0 || IsLineTerminator(after[0]))
  }

  /** A non-empty line of Braille between a line terminator (or the start) and a line
      terminator (or the end) passes the gate, whatever the other lines hold. */
  lemma BrailleLineAccepted(before: string, line: string, after: string)
    requires BrailleLine(before, line, after)
    ensures BraileRegexTest(before + line + after)
  {
    var s := before + line + after;
    var p, q := |before|, |before| + |line|;
    assert forall k :: p <= k < q ==> s[k] == line[k - p];
    assert p == 0 || s[p - 1] == before[|before| - 1];
    assert q == |s| || s[q] == after[0];
    assert MatchesAt(s, p, q);
  }

  /** The gate passes exactly when some whole line of the text is a non-empty run of Braille
      characters. */
  lemma GateIffBrailleLine(s: string)
    ensures BraileRegexTest(s) <==>
      exists before, line, after :: s == before + line + after && BrailleLine(before, line, after)
  {
    if BraileRegexTest(s) {
      var p: nat, q: nat :| p < q <= |s| && MatchesAt(s, p, q);
      var before, line, after := s[..p], s[p..q], s[q..];
      assert s == before + line + after;
      assert forall k :: 0 <= k < |line| ==> line[k] == s[p + k];
      assert BrailleLine(before, line, after);
    }
    if exists before, line, after :: s == before + line + after && BrailleLine(before, line, after) {
      var before, line, after :| s == before + line + after && BrailleLine(before, line, after);
      BrailleLineAccepted(before, line, after);
    }
  }

  /** A text that holds a character other than the separator splits into at least one
      non-empty piece. */
  lemma {:induction false} SomeLineNonEmpty(s: string, sep: char, k: nat)
    requires k < |s| && s[k] != sep
    ensures |NonEmpty(Split(s, sep))| > 0
  {
    var parts := Split(s, sep);
    var rest := Split(s[1..], sep);
    if k == 0 {
      assert parts[0] != [] by {
        assert parts[0] == [s[0]] + rest[0];
      }
      NonEmptyHolds(parts, 0);
    } else {
      var j :| 0 <= j < |rest| && rest[j] != [] by {
        SomeLineNonEmpty(s[1..], sep, k - 1);
        NonEmptyFrom(rest);
      }
      var i: nat := if s[0] == sep then j + 1 else j;
      assert i < |parts| && parts[i] != [] by {
        if s[0] == sep {
          assert parts == [""] + rest;
        } else if j == 0 {
          assert parts[0] == [s[0]] + rest[0];
        } else {
          assert parts[j] == rest[j];
        }
      }
      NonEmptyHolds(parts, i);
    }
  }

  /** Filtering keeps a non-empty piece, so something survives it. */
  lemma {:induction false} NonEmptyHolds(parts: seq<string>, j: nat)
    requires j < |parts| && parts[j] != []
    ensures |NonEmpty(parts)| > 0
    decreases |parts|
  {
    var last := |parts| - 1;
    if j < last && parts[last] == [] {
      NonEmptyHolds(parts[..last], j);
    }
  }

  /** Whatever survives the filter is a non-empty piece. */
  lemma NonEmptyFrom(parts: seq<string>)
    requires |NonEmpty(parts)| > 0
    ensures exists j :: 0 <= j < |parts| && parts[j] != []
  {
    var kept := NonEmpty(parts);
    NonEmptyKept(parts);
    assert kept[0] != [] && kept[0] in parts;
  }

  /** A paragraph that passes the gate gives the decoder at least one line, so the canvas it
      sizes has at least one row. */
  lemma AcceptedHasLines(s: string)
    requires BraileRegexTest(s)
    ensures |Lines(s)| > 0
  {
    var p: nat, q: nat :| p < q <= |s| && MatchesAt(s, p, q);
    BrailleIsNotTerminator(s[p]);
    SomeLineNonEmpty(s, '\n', p);
  }

  /** Framed rows of Braille pass the gate when the marker ends in a line feed: the last row
      follows the last marker and runs to the end of the text. */
  lemma FramedRowsAccepted(cells: seq<string>, width: nat, height: nat, marker: string)
    requires width > 0 && height > 0 && height * width <= |cells| && AllPairs(cells)
    requires forall p :: 0 <= p < |cells| ==> IsBraille(cells[p][0]) && IsBraille(cells[p][1])
    requires |marker| > 0 && marker[|marker| - 1] == '\n'
    ensures BraileRegexTest(Rows(cells, width, height, marker))
  {
    var lo := (height - 1) * width;
    RowBounds(height - 1, width);
    MulNonNegative(height - 1, width);
    var row := Span(cells, lo, lo + width);
    var before := Rows(cells, width, height - 1, marker) + marker;
    SpanIsBraille(cells, lo, lo + width);
    assert before[|before| - 1] == '\n';
    assert BrailleLine(before, row, "");
    BrailleLineAccepted(before, row, "");
    assert before + row + "" == Rows(cells, width, height, marker);
  }

  /** A span of Braille glyph pairs is all Braille, two characters per pixel. The length is
      restated from `SpanAt` here so that callers need not bring its per-pixel clauses into
      their proofs. */
  lemma SpanIsBraille(cells: seq<string>, lo: nat, hi: nat)
    requires lo <= hi <= |cells| && AllPairs(cells)
    requires forall p :: 0 <= p < |cells| ==> IsBraille(cells[p][0]) && IsBraille(cells[p][1])
    ensures |Span(cells, lo, hi)| == 2 * (hi - lo)
    ensures forall k :: 0 <= k < |Span(cells, lo, hi)| ==> IsBraille(Span(cells, lo, hi)[k])
  {
    var span := Span(cells, lo, hi);
    SpanAt(cells, lo, hi);
    forall k | 0 <= k < |span|
      ensures IsBraille(span[k])
    {
      var x := k / 2;
      assert k == 2 * x || k == 2 * x + 1;
    }
  }
}
