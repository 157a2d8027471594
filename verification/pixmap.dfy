/**
 * `Pix`: a width-by-height image of 2-bit levels kept in a row-major
 * `bytearray`, drawn on in place. Each method is proved to leave the buffer
 * equal to the specification function of its operation (modules Grid, Clip
 * and Text), whose cell-by-cell meaning is proved there.
 */
module Pixmap {
  import opened Bytes
  import opened Grid
  import opened Clip
  import opened Font
  import opened Text
  import Ascii

  /** What `from_iter` leaves in cell (x, y): the line's value, or 0 past a short line. */
  function IterCell(lines: seq<seq<byte>>, x: nat, y: nat): (c: byte)
    requires y < |lines|
    ensures x < |lines[y]| ==> c == lines[y][x]
    ensures x >= |lines[y]| ==> c == 0
  {
    if x < |lines[y]| then lines[y][x] else 0
  }

  /** The first n values of `line` written with `pixel` to row y, left to right. */
  function WriteLine(cells: seq<byte>, width: nat, height: nat, line: seq<byte>, y: nat, n: nat): (r: seq<byte>)
    requires |cells| == width * height && n <= |line|
    ensures |r| == |cells|
  {
    if n == 0 then cells
    else Set(WriteLine(cells, width, height, line, y, n - 1), width, height, n - 1, y, line[n - 1])
  }

  /** The first n lines written, top to bottom. */
  function WriteLines(cells: seq<byte>, width: nat, height: nat, lines: seq<seq<byte>>, n: nat): (r: seq<byte>)
    requires |cells| == width * height && n <= |lines|
    ensures |r| == |cells|
  {
    if n == 0 then cells
    else WriteLine(WriteLines(cells, width, height, lines, n - 1), width, height, lines[n - 1], n - 1, |lines[n - 1]|)
  }

  lemma {:induction false} GetWriteLine(cells: seq<byte>, width: nat, height: nat, line: seq<byte>, y: nat, n: nat, px: int, py: int)
    requires |cells| == width * height && n <= |line|
    requires InBounds(px, py, width, height)
    ensures Get(WriteLine(cells, width, height, line, y, n), width, height, px, py)
            == if py == y && px < n then line[px] else Get(cells, width, height, px, py)
  {
    if n > 0 {
      GetWriteLine(cells, width, height, line, y, n - 1, px, py);
      GetSet(WriteLine(cells, width, height, line, y, n - 1), width, height, n - 1, y, line[n - 1], px, py);
    }
  }

  lemma {:induction false} GetWriteLines(cells: seq<byte>, width: nat, height: nat, lines: seq<seq<byte>>, n: nat, px: int, py: int)
    requires |cells| == width * height && n <= |lines|
    requires InBounds(px, py, width, height)
    ensures Get(WriteLines(cells, width, height, lines, n), width, height, px, py)
            == if py < n && px < |lines[py]| then lines[py][px] else Get(cells, width, height, px, py)
  {
    if n > 0 {
      GetWriteLines(cells, width, height, lines, n - 1, px, py);
      GetWriteLine(WriteLines(cells, width, height, lines, n - 1), width, height, lines[n - 1], n - 1, |lines[n - 1]|, px, py);
    }
  }

  /**
   * The image `from_iter(lines)` builds: cell (x, y) holds `lines[y][x]`
   * where that line is long enough, and 0 otherwise.
   */
  lemma IterCells(lines: seq<seq<byte>>, px: int, py: int)
    requires |lines| > 0 && InBounds(px, py, |lines[0]|, |lines|)
    ensures Get(WriteLines(Zeros(|lines[0]| * |lines|), |lines[0]|, |lines|, lines, |lines|), |lines[0]|, |lines|, px, py)
            == IterCell(lines, px, py)
  {
    var width, height := |lines[0]|, |lines|;
    GetWriteLines(Zeros(width * height), width, height, lines, height, px, py);
    OffsetInRange(px, py, width, height);
  }

  class Pix {
    const width: nat
    const height: nat
    const buffer: array<byte>

    /** One buffer cell per pixel. */
    ghost predicate Valid() {
      buffer.Length == width * height
    }

    /** `Pix(width, height)`: a zero-filled image. */
    constructor (width: nat, height: nat)
      ensures Valid() && fresh(buffer)
      ensures this.width == width && this.height == height
      ensures buffer[..] == Zeros(width * height)
    {
      this.width := width;
      this.height := height;
      buffer := new byte[width * height](_ => 0);
    }

    /** `Pix(width, height, buffer)`: the caller's buffer is adopted, not copied. */
    constructor WithBuffer(width: nat, height: nat, buffer: array<byte>)
      requires buffer.Length == width * height
      ensures Valid() && this.buffer == buffer
      ensures this.width == width && this.height == height
      ensures buffer[..] == old(buffer[..])
    {
      this.width := width;
      this.height := height;
      this.buffer := buffer;
    }

    /** `pixel(x, y)`: the level at (x, y), 0 outside the image. */
    function Pixel(x: int, y: int): (c: byte)
      reads buffer
      requires Valid()
      ensures InBounds(x, y, width, height) ==> 0 <= x + y * width < buffer.Length && c == buffer[x + y * width]
      ensures !InBounds(x, y, width, height) ==> c == 0
      ensures c == Get(buffer[..], width, height, x, y)
    {
      if InBounds(x, y, width, height) then
        OffsetInRange(x, y, width, height);
        buffer[x + y * width]
      else 0
    }

    /** `pixel(x, y, color)`: store `color` at (x, y); outside the image nothing happens. */
    method SetPixel(x: int, y: int, color: byte)
      requires Valid()
      modifies buffer
      ensures buffer[..] == Set(old(buffer[..]), width, height, x, y, color)
    {
      if InBounds(x, y, width, height) {
        OffsetInRange(x, y, width, height);
        buffer[x + y * width] := color;
      }
    }

    /**
     * `box(color, x, y, w, h)`: fill the clamped rectangle with `color`, row
     * by row. A non-empty rectangle on an image with no cells would index an
     * empty `bytearray`, which raises; that call is excluded.
     */
    method Box(color: byte, x: int, y: int, w: int, h: int)
      requires Valid()
      requires var r := BoxRect(width, height, x, y, w, h);
        r.w == 0 || r.h == 0 || (width > 0 && height > 0)
      modifies buffer
      ensures buffer[..] == BoxCells(old(buffer[..]), width, height, color, x, y, w, h)
    {
      var r := BoxRect(width, height, x, y, w, h);
      var row := r.y;
      while row < r.y + r.h
        invariant r.y <= row <= r.y + r.h
        invariant buffer[..] == FillRows(old(buffer[..]), width, r, color, row - r.y)
      {
        FillRow(row, r, color);
        row := row + 1;
      }
    }

    /** One row of `box`: the cells r.x to r.x + r.w - 1 of row `row` set to `color`, left to right. */
    method FillRow(row: int, r: Rect, color: byte)
      requires Valid()
      requires r.w <= 0 || (0 <= r.x && r.x + r.w <= width && 0 <= row < height)
      modifies buffer
      ensures buffer[..] == FillRun(old(buffer[..]), Offset(r.x, row, width), r.w, color)
    {
      var xx := row * width + r.x;
      var i := 0;
      while i < r.w
        invariant 0 <= i <= Max(r.w, 0)
        invariant xx == row * width + r.x + i
        invariant buffer[..] == FillRun(old(buffer[..]), Offset(r.x, row, width), i, color)
      {
        OffsetInRange(r.x + i, row, width, height);
        buffer[xx] := color;
        xx := xx + 1;
        i := i + 1;
      }
    }

    /**
     * `blit(source, dx, dy, x, y, w, h, key)`: copy a block of `source` to
     * (dx, dy), skipping source cells equal to `key` when one is given.
     * A block clipped to a negative width copies nothing on both branches.
     * As written, the keyless branch there assigns slices with negative
     * bounds, which count from the end: depending on the input the buffer
     * grows, shrinks, or keeps its length with the wrong cells overwritten
     * (`Clip.OffEdgeSliceCopyGrowsBuffer`, `Clip.OffEdgeSliceCopyShrinksBuffer`,
     * `Clip.NegativeWidthSliceCopyOverwrites`). Excluded: a source sharing
     * this image's buffer, which the source reads through a view of it.
     */
    method Blit(source: Pix, dx: int, dy: int, x: int, y: int, w: int, h: int, key: Option<int>)
      requires Valid() && source.Valid()
      requires source.buffer != buffer
      modifies buffer
      ensures buffer[..] == BlitCells(old(buffer[..]), width, height, source.buffer[..], source.width, source.height,
                                      dx, dy, x, y, w, h, key)
    {
      var ndx, ndy, nx, ny := dx, dy, x, y;
      if ndx < 0 {
        nx := nx - ndx;
        ndx := 0;
      }
      if nx < 0 {
        ndx := ndx - nx;
        nx := 0;
      }
      assert (ndx, nx) == Normalise(dx, x);
      if ndy < 0 {
        ny := ny - ndy;
        ndy := 0;
      }
      if ny < 0 {
        ndy := ndy - ny;
        ny := 0;
      }
      assert (ndy, ny) == Normalise(dy, y);
      var cw := Extent(w, source.width, nx, width - ndx);
      var ch := Extent(h, source.height, ny, height - ndy);
      var p := BlitPlan(ndx, ndy, nx, ny, cw, ch);
      assert p == BlitGeometry(width, height, source.width, source.height, dx, dy, x, y, w, h);
      CopyBlock(source, p, key);
    }

    /** The row loop of `blit`, once the offsets and extent are settled in p. */
    method CopyBlock(source: Pix, p: BlitPlan, key: Option<int>)
      requires Valid() && source.Valid() && source.buffer != buffer
      requires 0 <= p.dx && 0 <= p.dy && 0 <= p.x && 0 <= p.y
      requires p.w <= source.width - p.x && p.w <= width - p.dx
      requires p.h <= source.height - p.y && p.h <= height - p.dy
      modifies buffer
      ensures buffer[..] == BlitRows(old(buffer[..]), width, source.buffer[..], source.width, source.height,
                                     p, key, Max(p.h, 0))
    {
      ghost var src := source.buffer[..];
      var row := 0;
      var sy, ty := p.y, p.dy;
      while row < p.h
        invariant 0 <= row <= Max(p.h, 0)
        invariant sy == p.y + row && ty == p.dy + row
        invariant source.buffer[..] == src
        invariant buffer[..] == BlitRows(old(buffer[..]), width, src, source.width, source.height, p, key, row)
      {
        var xx := Offset(p.x, sy, source.width);
        var dxx := Offset(p.dx, ty, width);
        if p.w > 0 {
          RunInRange(p.x, sy, p.w, source.width, source.height);
          RunInRange(p.dx, ty, p.w, width, height);
        }
        CopyRow(source, dxx, xx, p.w, key);
        sy, ty := sy + 1, ty + 1;
        row := row + 1;
      }
    }

    /**
     * One row of `blit`: without a key the slice assignment
     * `buffer[dxx:dxx + n] = source[xx:xx + n]`, with a key the cell-by-cell
     * loop that leaves the cell alone where the source value equals the key.
     */
    method CopyRow(source: Pix, dxx: int, xx: int, n: int, key: Option<int>)
      requires source.buffer != buffer
      requires n <= 0 || (0 <= dxx && dxx + n <= buffer.Length && 0 <= xx && xx + n <= source.buffer.Length)
      modifies buffer
      ensures buffer[..] == CopyRun(old(buffer[..]), dxx, source.buffer[..], xx, n, key)
    {
      if key.None? {
        forall i | 0 <= i < n {
          buffer[dxx + i] := source.buffer[xx + i];
        }
      } else {
        var d, s := dxx, xx;
        for col := 0 to Max(n, 0)
          invariant d == dxx + col && s == xx + col
          invariant buffer[..] == CopyRun(old(buffer[..]), dxx, source.buffer[..], xx, col, key)
        {
          var color := source.buffer[s];
          if color as int != key.value {
            buffer[d] := color;
          }
          d := d + 1;
          s := s + 1;
        }
      }
    }

    /** Rows 0 to 5 of `glyph` drawn through `palette` with its left edge at column x. */
    method DrawGlyph(x: int, glyph: GlyphBytes, palette: Palette)
      requires Valid() && height == TEXT_HEIGHT
      modifies buffer
      ensures buffer[..] == DrawRows(old(buffer[..]), width, x, glyph, palette, TEXT_HEIGHT)
    {
      for row := 0 to 6
        invariant buffer[..] == DrawRows(old(buffer[..]), width, x, glyph, palette, row)
      {
        DrawGlyphRow(x, glyph, palette, row);
      }
    }

    /** One row of a glyph: four cells, decoded from the low bits up. */
    method DrawGlyphRow(x: int, glyph: GlyphBytes, palette: Palette, row: nat)
      requires Valid() && height == TEXT_HEIGHT && row < 6
      modifies buffer
      ensures buffer[..] == DrawCols(old(buffer[..]), width, x, glyph, palette, row, ADVANCE)
    {
      var unsalted := Unsalted(glyph[row]);
      for col := 0 to 4
        invariant unsalted == Shifted(Unsalted(glyph[row]), col)
        invariant buffer[..] == DrawCols(old(buffer[..]), width, x, glyph, palette, row, col)
      {
        var value := (unsalted & 3) as int;
        assert value == GlyphValue(glyph, row, col);
        SetPixel(x + col, row, palette[value]);
        unsalted := unsalted >> 2;
      }
    }

    /**
     * One character of `from_text` drawn at column x: its glyph when it has
     * one, with the 4-column advance, and nothing otherwise.
     */
    method DrawChar(x: int, c: char, palette: Palette) returns (advance: nat)
      requires Valid() && height == TEXT_HEIGHT
      modifies buffer
      ensures advance == if GlyphIndex(c).Some? then ADVANCE else 0
      ensures buffer[..] == match GlyphIndex(c)
                            case None => old(buffer[..])
                            case Some(g) => DrawRows(old(buffer[..]), width, x, FONT[g], palette, TEXT_HEIGHT)
    {
      advance := 0;
      var index := c as int - FIRST_CODE;
      if 0 <= index <= 95 {
        DrawGlyph(x, FONT[index], palette);
        advance := ADVANCE;
      }
    }

    /**
     * `Pix.from_text(s, color, bgcolor, colors)`: a new image 4 cells per
     * character wide and 6 tall with the text drawn in it; characters without
     * a glyph are skipped and take no room.
     */
    static method FromText(s: string, color: Option<byte>, bgcolor: byte, colors: Option<Palette>) returns (pix: Pix)
      ensures fresh(pix) && fresh(pix.buffer) && pix.Valid()
      ensures pix.width == ADVANCE * |s| && pix.height == TEXT_HEIGHT
      ensures pix.buffer[..] == TextCells(s, TextPalette(color, bgcolor, colors))
    {
      pix := new Pix(ADVANCE * |s|, TEXT_HEIGHT);
      var palette := TextPalette(color, bgcolor, colors);
      ghost var blank := pix.buffer[..];
      var x := 0;
      for n := 0 to |s|
        invariant pix.Valid() && fresh(pix.buffer)
        invariant pix.width == ADVANCE * |s| && pix.height == TEXT_HEIGHT
        invariant x == ADVANCE * |Glyphs(s[..n])|
        invariant pix.buffer[..] == DrawText(blank, pix.width, Glyphs(s[..n]), palette)
      {
        ghost var done := Glyphs(s[..n]);
        ghost var before := pix.buffer[..];
        GlyphsSnoc(s, n);
        var advance := pix.DrawChar(x, s[n], palette);
        match GlyphIndex(s[n]) {
          case None =>
            assert Glyphs(s[..n + 1]) == done;
            assert pix.buffer[..] == before;
          case Some(g) =>
            assert Glyphs(s[..n + 1]) == done + [FONT[g]];
            DrawTextSnoc(blank, pix.width, done, FONT[g], palette);
            assert pix.buffer[..] == DrawRows(before, pix.width, x, FONT[g], palette, TEXT_HEIGHT);
        }
        x := x + advance;
      }
      assert s[..|s|] == s;
    }

    /**
     * `Pix.from_iter(lines)`: a new image as wide as the first line and with
     * one row per line, cell (x, y) taken from `lines[y][x]`. Values past the
     * width are dropped and cells past a short line stay 0. An empty `lines`
     * raises (it reads `lines[0]`) and is excluded.
     */
    static method FromIter(lines: seq<seq<byte>>) returns (pix: Pix)
      requires |lines| > 0
      ensures fresh(pix) && fresh(pix.buffer) && pix.Valid()
      ensures pix.width == |lines[0]| && pix.height == |lines|
      ensures pix.buffer[..] == WriteLines(Zeros(pix.width * pix.height), pix.width, pix.height, lines, |lines|)
      ensures forall px: nat, py: nat :: InBounds(px, py, pix.width, pix.height) ==>
                pix.Pixel(px, py) == IterCell(lines, px, py)
    {
      pix := new Pix(|lines[0]|, |lines|);
      ghost var blank := pix.buffer[..];
      for y := 0 to |lines|
        invariant pix.Valid() && fresh(pix.buffer)
        invariant pix.buffer[..] == WriteLines(blank, pix.width, pix.height, lines, y)
      {
        ghost var before := pix.buffer[..];
        for x := 0 to |lines[y]|
          invariant pix.buffer[..] == WriteLine(before, pix.width, pix.height, lines[y], y, x)
        {
          pix.SetPixel(x, y, lines[y][x]);
        }
      }
      forall px: nat, py: nat | InBounds(px, py, pix.width, pix.height)
        ensures pix.Pixel(px, py) == IterCell(lines, px, py)
      {
        IterCells(lines, px, py);
      }
    }

    /** `str(pix)`: one line of '.', '+', '*' and '@' per row. */
    function ToString(): (text: string)
      reads buffer
      requires Valid() && Ascii.Levels(buffer[..], width, height)
      ensures height == 0 ==> text == ""
      ensures height > 0 ==> |text| == height * (width + 1) - 1
    {
      Ascii.Render(buffer[..], width, height)
    }
  }
}
