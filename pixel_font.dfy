/** The hex crawl's built-in 5x7 bitmap font: the glyph table, the lookup
    that falls back to '?', and the measurement of a multi-line string in
    pixels. */
module PixelFont {
  import opened Wrappers
  import CombatTypes

  const GlyphWidth: int := 5
  const GlyphHeight: int := 7
  const Spacing: int := 1
  const LineSpacing: int := 2

  /** A row of a glyph, one bit per column, bit 4 the leftmost. The source
      stores rows in bytes; as five-bit vectors, a row of the table wider
      than the glyph would not type-check. */
  type GlyphRow = bv5

  /** The glyph table's lookup: each glyph is seven rows, top first, and
      bit 4 of a row is its leftmost pixel; None for a character the table
      lacks. */
  function Glyph(c: char): (r: Option<seq<GlyphRow>>)
    ensures r.Some? ==> WellFormedGlyph(r.value)
    ensures c == '?' ==> r.Some?
  {
    match c
      case 'A' => Some([0x0E, 0x11, 0x11, 0x1F, 0x11, 0x11, 0x11])
      case 'B' => Some([0x1E, 0x11, 0x11, 0x1E, 0x11, 0x11, 0x1E])
      case 'C' => Some([0x0E, 0x11, 0x10, 0x10, 0x10, 0x11, 0x0E])
      case 'D' => Some([0x1C, 0x12, 0x11, 0x11, 0x11, 0x12, 0x1C])
      case 'E' => Some([0x1F, 0x10, 0x10, 0x1E, 0x10, 0x10, 0x1F])
      case 'F' => Some([0x1F, 0x10, 0x10, 0x1E, 0x10, 0x10, 0x10])
      case 'G' => Some([0x0E, 0x11, 0x10, 0x17, 0x11, 0x11, 0x0E])
      case 'H' => Some([0x11, 0x11, 0x11, 0x1F, 0x11, 0x11, 0x11])
      case 'I' => Some([0x0E, 0x04, 0x04, 0x04, 0x04, 0x04, 0x0E])
      case 'J' => Some([0x07, 0x02, 0x02, 0x02, 0x02, 0x12, 0x0C])
      case 'K' => Some([0x11, 0x12, 0x14, 0x18, 0x14, 0x12, 0x11])
      case 'L' => Some([0x10, 0x10, 0x10, 0x10, 0x10, 0x10, 0x1F])
      case 'M' => Some([0x11, 0x1B, 0x15, 0x11, 0x11, 0x11, 0x11])
      case 'N' => Some([0x11, 0x19, 0x15, 0x13, 0x11, 0x11, 0x11])
      case 'O' => Some([0x0E, 0x11, 0x11, 0x11, 0x11, 0x11, 0x0E])
      case 'P' => Some([0x1E, 0x11, 0x11, 0x1E, 0x10, 0x10, 0x10])
      case 'Q' => Some([0x0E, 0x11, 0x11, 0x11, 0x15, 0x12, 0x0D])
      case 'R' => Some([0x1E, 0x11, 0x11, 0x1E, 0x14, 0x12, 0x11])
      case 'S' => Some([0x0F, 0x10, 0x10, 0x0E, 0x01, 0x01, 0x1E])
      case 'T' => Some([0x1F, 0x04, 0x04, 0x04, 0x04, 0x04, 0x04])
      case 'U' => Some([0x11, 0x11, 0x11, 0x11, 0x11, 0x11, 0x0E])
      case 'V' => Some([0x11, 0x11, 0x11, 0x11, 0x11, 0x0A, 0x04])
      case 'W' => Some([0x11, 0x11, 0x11, 0x11, 0x15, 0x1B, 0x11])
      case 'X' => Some([0x11, 0x11, 0x0A, 0x04, 0x0A, 0x11, 0x11])
      case 'Y' => Some([0x11, 0x11, 0x0A, 0x04, 0x04, 0x04, 0x04])
      case 'Z' => Some([0x1F, 0x01, 0x02, 0x04, 0x08, 0x10, 0x1F])
      case '0' => Some([0x0E, 0x11, 0x13, 0x15, 0x19, 0x11, 0x0E])
      case '1' => Some([0x04, 0x0C, 0x04, 0x04, 0x04, 0x04, 0x0E])
      case '2' => Some([0x0E, 0x11, 0x01, 0x02, 0x04, 0x08, 0x1F])
      case '3' => Some([0x1E, 0x01, 0x01, 0x0E, 0x01, 0x01, 0x1E])
      case '4' => Some([0x02, 0x06, 0x0A, 0x12, 0x1F, 0x02, 0x02])
      case '5' => Some([0x1F, 0x10, 0x10, 0x1E, 0x01, 0x01, 0x1E])
      case '6' => Some([0x0E, 0x10, 0x10, 0x1E, 0x11, 0x11, 0x0E])
      case '7' => Some([0x1F, 0x01, 0x02, 0x04, 0x08, 0x08, 0x08])
      case '8' => Some([0x0E, 0x11, 0x11, 0x0E, 0x11, 0x11, 0x0E])
      case '9' => Some([0x0E, 0x11, 0x11, 0x0F, 0x01, 0x01, 0x0E])
      case ':' => Some([0x00, 0x04, 0x04, 0x00, 0x04, 0x04, 0x00])
      case '.' => Some([0x00, 0x00, 0x00, 0x00, 0x00, 0x04, 0x04])
      case '-' => Some([0x00, 0x00, 0x00, 0x1F, 0x00, 0x00, 0x00])
      case '+' => Some([0x00, 0x04, 0x04, 0x1F, 0x04, 0x04, 0x00])
      case '/' => Some([0x01, 0x02, 0x04, 0x08, 0x10, 0x00, 0x00])
      case '?' => Some([0x0E, 0x11, 0x02, 0x04, 0x04, 0x00, 0x04])
      case ' ' => Some([0x00, 0x00, 0x00, 0x00, 0x00, 0x00, 0x00])
      case _ => None
  }

  /** A glyph has one row per pixel line. */
  predicate WellFormedGlyph(g: seq<GlyphRow>)
  {
    |g| == GlyphHeight
  }

  /** Every glyph of the table is well formed, and the table has a '?'
      glyph to fall back to. */
  lemma GlyphsWellFormed(c: char)
    ensures Glyph('?').Some?
    ensures Glyph(c).Some? ==> WellFormedGlyph(Glyph(c).value)
  {
  }

  /** DrawChar's lookup: the character's own glyph, or '?' for a character
      the table lacks. */
  function GlyphFor(c: char): (g: seq<GlyphRow>)
    ensures Glyph(c).Some? ==> g == Glyph(c).value
    ensures Glyph(c).None? ==> g == Glyph('?').value
    ensures WellFormedGlyph(g)
  {
    GlyphsWellFormed(c);
    GlyphsWellFormed('?');
    match Glyph(c)
    case Some(rows) => rows
    case None => Glyph('?').value
  }

  /** The lines of a text: split at every newline, the last line possibly
      empty. */
  function SplitLines(s: string): (r: seq<string>)
    ensures |r| >= 1
  {
    if |s| == 0 then [""]
    else
      var r := SplitLines(s[..|s| - 1]);
      if s[|s| - 1] == '\n' then r + [""]
      else r[..|r| - 1] + [r[|r| - 1] + [s[|s| - 1]]]
  }

  /** Lines joined back with newlines between them. */
  function Join(lines: seq<string>): string
  {
    if |lines| == 0 then ""
    else if |lines| == 1 then lines[0]
    else Join(lines[..|lines| - 1]) + "\n" + lines[|lines| - 1]
  }

  /** No line holds a newline. */
  lemma {:induction false} SplitLinesHaveNoNewline(s: string)
    ensures forall i :: 0 <= i < |SplitLines(s)| ==> '\n' !in SplitLines(s)[i]
  {
    if |s| > 0 {
      SplitLinesHaveNoNewline(s[..|s| - 1]);
    }
  }

  /** Starting a new, empty line adds one newline to the joined text. */
  lemma JoinNewLine(r: seq<string>)
    requires |r| >= 1
    ensures Join(r + [""]) == Join(r) + "\n"
  {
    assert (r + [""])[..|r|] == r;
  }

  /** Extending the last line by one character extends the joined text by
      that character. */
  lemma JoinExtendLast(r: seq<string>, c: char)
    requires |r| >= 1
    ensures Join(r[..|r| - 1] + [r[|r| - 1] + [c]]) == Join(r) + [c]
  {
    var n := |r| - 1;
    var r2 := r[..n] + [r[n] + [c]];
    assert r2[..n] == r[..n];
    if n > 0 {
      assert r[..n + 1] == r;
      assert Join(r) == Join(r[..n]) + "\n" + r[n];
      assert Join(r2) == Join(r[..n]) + "\n" + (r[n] + [c]);
    }
  }

  /** Splitting then joining gives the text back. */
  lemma {:induction false} JoinSplitLines(s: string)
    ensures Join(SplitLines(s)) == s
  {
    if |s| > 0 {
      var init := s[..|s| - 1];
      var c := s[|s| - 1];
      JoinSplitLines(init);
      assert s == init + [c];
      if c == '\n' {
        JoinNewLine(SplitLines(init));
      } else {
        JoinExtendLast(SplitLines(init), c);
      }
    }
  }

  /** The number of lines is the number of newlines plus one. */
  lemma {:induction false} SplitLinesCount(s: string)
    ensures |SplitLines(s)| == multiset(s)['\n'] + 1
  {
    if |s| > 0 {
      var init := s[..|s| - 1];
      SplitLinesCount(init);
      assert s == init + [s[|s| - 1]];
      assert multiset(s) == multiset(init) + multiset{s[|s| - 1]};
    }
  }

  /** The length of the longest line, 0 for no lines. */
  function Longest(lines: seq<string>): (r: nat)
    ensures forall i :: 0 <= i < |lines| ==> |lines[i]| <= r
    ensures |lines| > 0 ==> exists i :: 0 <= i < |lines| && |lines[i]| == r
    ensures |lines| == 0 ==> r == 0
  {
    if |lines| == 0 then 0
    else
      var init := lines[..|lines| - 1];
      var m := Longest(init);
      assert forall i :: 0 <= i < |init| ==> init[i] == lines[i];
      if m < |lines[|lines| - 1]| then |lines[|lines| - 1]| else m
  }

  /** MeasureString's counting loop over a non-empty text: the number of
      lines and the length of the longest one. */
  method CountLines(t: string) returns (maxChars: int, lines: int)
    ensures lines == |SplitLines(t)| && lines == multiset(t)['\n'] + 1
    ensures maxChars == Longest(SplitLines(t))
  {
    maxChars := 0;
    var currentChars := 0;
    lines := 1;
    var i := 0;
    while i < |t|
      invariant 0 <= i <= |t|
      invariant lines == |SplitLines(t[..i])|
      invariant currentChars == |SplitLines(t[..i])[lines - 1]|
      invariant maxChars == Longest(SplitLines(t[..i])[..lines - 1])
    {
      ghost var r := SplitLines(t[..i]);
      assert t[..i + 1][..i] == t[..i];
      assert r[..lines] == r;
      if t[i] == '\n' {
        maxChars := CombatTypes.Max(maxChars, currentChars);
        currentChars := 0;
        lines := lines + 1;
        assert SplitLines(t[..i + 1])[..lines - 1] == r;
      } else {
        currentChars := currentChars + 1;
        assert SplitLines(t[..i + 1])[..lines - 1] == r[..lines - 1];
      }
      i := i + 1;
    }
    assert t[..|t|] == t;
    assert SplitLines(t)[..lines] == SplitLines(t);
    maxChars := CombatTypes.Max(maxChars, currentChars);
    SplitLinesCount(t);
  }

  /** MeasureString: (0, 0) for null or empty text; otherwise each glyph
      of the longest line is GlyphWidth wide with Spacing between glyphs,
      and each line GlyphHeight high with LineSpacing between lines, all
      multiplied by the scale. */
  method MeasureString(text: Option<string>, scale: int) returns (width: int, height: int)
    ensures text.None? || |text.value| == 0 ==> width == 0 && height == 0
    ensures text.Some? && |text.value| > 0 ==>
              var lines := SplitLines(text.value);
              var longest := Longest(lines);
              && width == (if longest > 0 then (longest * (GlyphWidth + Spacing) - Spacing) * scale else 0)
              && height == |lines| * GlyphHeight * scale + (|lines| - 1) * LineSpacing * scale
  {
    if text.None? || |text.value| == 0 {
      return 0, 0;
    }
    var maxChars, lines := CountLines(text.value);
    width := if maxChars > 0 then (maxChars * (GlyphWidth + Spacing) - Spacing) * scale else 0;
    height := lines * GlyphHeight * scale + (lines - 1) * LineSpacing * scale;
  }

  /** A character of the joined text other than a newline comes from a
      non-empty line. */
  lemma {:induction false} JoinCharHasLine(lines: seq<string>, i: int)
    requires forall k :: 0 <= k < |lines| ==> '\n' !in lines[k]
    requires 0 <= i < |Join(lines)| && Join(lines)[i] != '\n'
    ensures exists k :: 0 <= k < |lines| && |lines[k]| > 0
  {
    if |lines| == 1 {
      assert |lines[0]| > 0;
    } else {
      var n := |lines| - 1;
      var j := Join(lines[..n]);
      assert Join(lines) == j + "\n" + lines[n];
      if i < |j| {
        assert j[i] == Join(lines)[i];
        JoinCharHasLine(lines[..n], i);
        var k :| 0 <= k < n && |lines[..n][k]| > 0;
        assert |lines[k]| > 0;
      } else {
        assert i != |j|;
        assert |lines[n]| > 0;
      }
    }
  }

  /** A non-empty line puts a character other than a newline into the
      joined text. */
  lemma {:induction false} LineGivesJoinChar(lines: seq<string>, k: int)
    requires forall k :: 0 <= k < |lines| ==> '\n' !in lines[k]
    requires 0 <= k < |lines| && |lines[k]| > 0
    ensures exists i :: 0 <= i < |Join(lines)| && Join(lines)[i] != '\n'
  {
    assert lines[k][0] in lines[k];
    if |lines| == 1 {
      assert Join(lines)[0] == lines[0][0];
    } else {
      var n := |lines| - 1;
      var j := Join(lines[..n]);
      assert Join(lines) == j + "\n" + lines[n];
      if k == n {
        assert Join(lines)[|j| + 1] == lines[n][0];
      } else {
        assert lines[..n][k] == lines[k];
        LineGivesJoinChar(lines[..n], k);
        var i :| 0 <= i < |j| && j[i] != '\n';
        assert Join(lines)[i] == j[i];
      }
    }
  }

  /** Joined lines that hold no newline have a character other than a
      newline exactly when some line is not empty. */
  lemma JoinHasCharacter(lines: seq<string>)
    requires forall k :: 0 <= k < |lines| ==> '\n' !in lines[k]
    ensures (exists i :: 0 <= i < |Join(lines)| && Join(lines)[i] != '\n')
            <==> exists k :: 0 <= k < |lines| && |lines[k]| > 0
  {
    if exists i :: 0 <= i < |Join(lines)| && Join(lines)[i] != '\n' {
      var i :| 0 <= i < |Join(lines)| && Join(lines)[i] != '\n';
      JoinCharHasLine(lines, i);
    }
    if exists k :: 0 <= k < |lines| && |lines[k]| > 0 {
      var k :| 0 <= k < |lines| && |lines[k]| > 0;
      LineGivesJoinChar(lines, k);
    }
  }

  /** A text measures wider than zero exactly when it holds a character
      other than a newline. */
  lemma MeasuredWidthPositive(t: string)
    ensures Longest(SplitLines(t)) > 0 <==> exists i :: 0 <= i < |t| && t[i] != '\n'
  {
    var lines := SplitLines(t);
    JoinSplitLines(t);
    SplitLinesHaveNoNewline(t);
    JoinHasCharacter(lines);
  }
}
