/**
 * The layout of `Pix.from_text`: a buffer 4 cells per character wide and 6
 * rows tall in which the k-th character that has a glyph occupies columns
 * 4k to 4k + 3, each decoded glyph value drawn through a 4-entry palette.
 * The functions below follow the loops of the source (characters, then glyph
 * rows, then columns), each write going through the bounds-checked `pixel`.
 */
module Text {
  import opened Bytes
  import opened Grid
  import opened Font

  /** Height of every text buffer, and the horizontal advance per glyph. */
  const TEXT_HEIGHT: nat := 6
  const ADVANCE: nat := 4

  /** The colours drawn for the glyph values 0, 1, 2 and 3. */
  type Palette = p: seq<byte> | |p| == 4 witness [0, 0, 0, 0]

  /**
   * The palette `from_text` uses: an explicit `colors` wins; without it, no
   * `color` gives the ramp (3, 2, 1, bgcolor) and a `color` gives
   * (color, color, bgcolor, bgcolor).
   */
  function TextPalette(color: Option<byte>, bgcolor: byte, colors: Option<Palette>): (p: Palette)
    ensures colors.Some? ==> p == colors.value
    ensures colors.None? ==> p[3] == bgcolor
    ensures colors.None? && color.None? ==> p[..3] == [3, 2, 1]
    ensures colors.None? && color.Some? ==> p[0] == p[1] == color.value && p[2] == bgcolor
  {
    match colors
    case Some(table) => table
    case None => if color.None? then [3, 2, 1, bgcolor] else [color.value, color.value, bgcolor, bgcolor]
  }

  /** The glyphs of the characters of s that have one, in order; the others are skipped. */
  function Glyphs(s: string): (gs: seq<GlyphBytes>)
    ensures |gs| <= |s|
  {
    if s == [] then []
    else Glyphs(s[..|s| - 1]) + match GlyphIndex(s[|s| - 1]) case Some(g) => [FONT[g]] case None => []
  }

  /** Extending the text by one character adds its glyph, if it has one. */
  lemma GlyphsSnoc(s: string, n: nat)
    requires n < |s|
    ensures Glyphs(s[..n + 1]) == Glyphs(s[..n]) + match GlyphIndex(s[n]) case Some(g) => [FONT[g]] case None => []
  {
    assert s[..n + 1][..n] == s[..n];
  }

  /** A string whose characters all have glyphs keeps one glyph per character, in place. */
  lemma {:induction false} GlyphsOfPrintable(s: string)
    requires forall i :: 0 <= i < |s| ==> GlyphIndex(s[i]).Some?
    ensures |Glyphs(s)| == |s|
    ensures forall k :: 0 <= k < |s| ==> Glyphs(s)[k] == FONT[GlyphIndex(s[k]).value]
  {
    if s != [] {
      var init := s[..|s| - 1];
      assert forall i :: 0 <= i < |init| ==> init[i] == s[i];
      GlyphsOfPrintable(init);
    }
  }

  /** Columns [0, n) of glyph row `row`, drawn at (x + col, row). */
  function DrawCols(cells: seq<byte>, width: nat, x: int, glyph: GlyphBytes, palette: Palette, row: nat, n: nat): (r: seq<byte>)
    requires |cells| == width * TEXT_HEIGHT  && row < 6 && n <= 4
    ensures |r| == |cells|
  {
    if n == 0 then cells
    else Set(DrawCols(cells, width, x, glyph, palette, row, n - 1), width, TEXT_HEIGHT,
             x + n - 1, row, palette[GlyphValue(glyph, row, n - 1)])
  }

  /** Rows [0, n) of glyph g, drawn with its left edge at column x. */
  function DrawRows(cells: seq<byte>, width: nat, x: int, glyph: GlyphBytes, palette: Palette, n: nat): (r: seq<byte>)
    requires |cells| == width * TEXT_HEIGHT  && n <= 6
    ensures |r| == |cells|
  {
    if n == 0 then cells
    else DrawCols(DrawRows(cells, width, x, glyph, palette, n - 1), width, x, glyph, palette, n - 1, ADVANCE)
  }

  /** The glyphs gs drawn side by side from column 0, one every 4 columns. */
  function DrawText(cells: seq<byte>, width: nat, gs: seq<GlyphBytes>, palette: Palette): (r: seq<byte>)
    requires |cells| == width * TEXT_HEIGHT
    ensures |r| == |cells|
  {
    if gs == [] then cells
    else DrawRows(DrawText(cells, width, gs[..|gs| - 1], palette), width,
                  ADVANCE * (|gs| - 1), gs[|gs| - 1], palette, TEXT_HEIGHT)
  }

  /** Drawing one more glyph draws it in the next 4 columns. */
  lemma DrawTextSnoc(cells: seq<byte>, width: nat, gs: seq<GlyphBytes>, glyph: GlyphBytes, palette: Palette)
    requires |cells| == width * TEXT_HEIGHT
    ensures DrawText(cells, width, gs + [glyph], palette)
            == DrawRows(DrawText(cells, width, gs, palette), width, ADVANCE * |gs|, glyph, palette, TEXT_HEIGHT)
  {
    assert (gs + [glyph])[..|gs|] == gs;
  }

  /** The buffer `Pix.from_text(s, ...)` returns, drawn with palette p. */
  function TextCells(s: string, palette: Palette): (r: seq<byte>)
    ensures |r| == ADVANCE * |s| * TEXT_HEIGHT
  {
    DrawText(Zeros(ADVANCE * |s| * TEXT_HEIGHT), ADVANCE * |s|, Glyphs(s), palette)
  }

  lemma {:induction false} GetDrawCols(cells: seq<byte>, width: nat, x: int, glyph: GlyphBytes, palette: Palette, row: nat, n: nat, px: int, py: int)
    requires |cells| == width * TEXT_HEIGHT  && row < 6 && n <= 4
    requires InBounds(px, py, width, TEXT_HEIGHT)
    ensures Get(DrawCols(cells, width, x, glyph, palette, row, n), width, TEXT_HEIGHT, px, py)
            == if py == row && x <= px < x + n then palette[GlyphValue(glyph, row, px - x)]
               else Get(cells, width, TEXT_HEIGHT, px, py)
  {
    if n > 0 {
      var prev := DrawCols(cells, width, x, glyph, palette, row, n - 1);
      var color := palette[GlyphValue(glyph, row, n - 1)];
      assert DrawCols(cells, width, x, glyph, palette, row, n) == Set(prev, width, TEXT_HEIGHT, x + n - 1, row, color);
      GetDrawCols(cells, width, x, glyph, palette, row, n - 1, px, py);
      GetSet(prev, width, TEXT_HEIGHT, x + n - 1, row, color, px, py);
      if py == row && px == x + n - 1 {
        assert px - x == n - 1;
      }
    }
  }

  lemma {:induction false} GetDrawRows(cells: seq<byte>, width: nat, x: int, glyph: GlyphBytes, palette: Palette, n: nat, px: int, py: int)
    requires |cells| == width * TEXT_HEIGHT  && n <= 6
    requires InBounds(px, py, width, TEXT_HEIGHT)
    ensures Get(DrawRows(cells, width, x, glyph, palette, n), width, TEXT_HEIGHT, px, py)
            == if py < n && x <= px < x + 4 then palette[GlyphValue(glyph, py, px - x)]
               else Get(cells, width, TEXT_HEIGHT, px, py)
  {
    if n > 0 {
      GetDrawRows(cells, width, x, glyph, palette, n - 1, px, py);
      GetDrawCols(DrawRows(cells, width, x, glyph, palette, n - 1), width, x, glyph, palette, n - 1, 4, px, py);
    }
  }

  lemma {:induction false} GetDrawText(cells: seq<byte>, width: nat, gs: seq<GlyphBytes>, palette: Palette, px: int, py: int)
    requires |cells| == width * TEXT_HEIGHT
    requires InBounds(px, py, width, TEXT_HEIGHT)
    ensures Get(DrawText(cells, width, gs, palette), width, TEXT_HEIGHT, px, py)
            == if px < ADVANCE * |gs| then palette[GlyphValue(gs[px / ADVANCE], py, px % ADVANCE)]
               else Get(cells, width, TEXT_HEIGHT, px, py)
  {
    if gs != [] {
      var init := gs[..|gs| - 1];
      GetDrawText(cells, width, init, palette, px, py);
      GetDrawRows(DrawText(cells, width, init, palette), width, ADVANCE * (|gs| - 1), gs[|gs| - 1], palette, 6, px, py);
      if ADVANCE * (|gs| - 1) <= px < ADVANCE * |gs| {
        assert px / ADVANCE == |gs| - 1 && px % ADVANCE == px - ADVANCE * (|gs| - 1);
      } else if px < ADVANCE * (|gs| - 1) {
        assert gs[px / ADVANCE] == init[px / ADVANCE];
      }
    }
  }

  /**
   * The k-th character of s that has a glyph is drawn in columns 4k to
   * 4k + 3: cell (4k + col, row) takes the palette entry of the glyph's value
   * at (col, row).
   */
  lemma TextLayout(s: string, palette: Palette, k: nat, col: nat, row: nat)
    requires k < |Glyphs(s)| && col < 4 && row < 6
    ensures Get(TextCells(s, palette), ADVANCE * |s|, TEXT_HEIGHT, ADVANCE * k + col, row)
            == palette[GlyphValue(Glyphs(s)[k], row, col)]
  {
    var width := ADVANCE * |s|;
    var px := ADVANCE * k + col;
    assert px < width;
    assert px / ADVANCE == k && px % ADVANCE == col;
    GetDrawText(Zeros(width * TEXT_HEIGHT), width, Glyphs(s), palette, px, row);
  }

  /**
   * Skipped characters take no advance, so the columns past the last drawn
   * glyph stay 0 whatever the background colour.
   */
  lemma TrailingColumnsStayZero(s: string, palette: Palette, px: int, row: int)
    requires ADVANCE * |Glyphs(s)| <= px < ADVANCE * |s| && 0 <= row < TEXT_HEIGHT
    ensures Get(TextCells(s, palette), ADVANCE * |s|, TEXT_HEIGHT, px, row) == 0
  {
    var width := ADVANCE * |s|;
    GetDrawText(Zeros(width * TEXT_HEIGHT), width, Glyphs(s), palette, px, row);
    OffsetInRange(px, row, width, TEXT_HEIGHT);
  }

  /** " " renders as a 4-by-6 block of the background colour unless `colors` overrides it. */
  lemma SpaceRendersBackground(color: Option<byte>, bgcolor: byte, px: int, py: int)
    requires InBounds(px, py, 4, TEXT_HEIGHT)
    ensures Get(TextCells(" ", TextPalette(color, bgcolor, None)), 4, TEXT_HEIGHT, px, py) == bgcolor
  {
    GlyphsOfPrintable(" ");
    SpaceGlyphIsSolid(py, px);
    TextLayout(" ", TextPalette(color, bgcolor, None), 0, px, py);
  }

  /** "A" with the default palette is the glyph of 'A' drawn through (3, 2, 1, bgcolor). */
  lemma RenderA(bgcolor: byte, col: nat, row: nat)
    requires col < 4 && row < 6
    ensures Get(TextCells("A", TextPalette(None, bgcolor, None)), 4, TEXT_HEIGHT, col, row)
            == [3, 2, 1, bgcolor][GLYPH_A[row][col]]
  {
    GlyphsOfPrintable("A");
    GlyphOfA(row, col);
    TextLayout("A", TextPalette(None, bgcolor, None), 0, col, row);
  }
}
