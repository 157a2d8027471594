/**
 * The clipping arithmetic of `Pix.box` and `Pix.blit`, and the cell-by-cell
 * effect of the fill and copy loops that follow it.
 */
module Clip {
  import opened Bytes
  import opened Grid

  datatype Rect = Rect(x: int, y: int, w: int, h: int)

  predicate InRect(px: int, py: int, r: Rect) {
    r.x <= px < r.x + r.w && r.y <= py < r.y + r.h
  }

  /**
   * One axis of `box`: the origin is clamped into [0, size - 1] first and the
   * extent is then cut to what is left of the axis. A requested extent of 0
   * (Python's `None` and `0` alike, through `width or self.width`) means the
   * whole axis.
   */
  function ClampAxis(size: nat, pos: int, len: int): (r: (int, int))
    ensures r.1 >= 0
    ensures size > 0 ==> 0 <= r.0 < size && r.0 + r.1 <= size
    ensures size == 0 ==> r.0 == -1 && r.1 <= 1
    // a request that fits is left alone
    ensures 0 <= pos && 0 < len && pos + len <= size ==> r == (pos, len)
    // a negative origin is moved to 0, not trimmed: the extent is kept
    ensures pos < 0 && 0 < len <= size ==> r == (0, len)
    // 0 asks for everything from the (clamped) origin on
    ensures size > 0 && len == 0 && pos <= 0 ==> r == (0, size)
    // an origin past the far edge still paints the last cell
    ensures size > 0 && pos >= size && len >= 0 ==> r == (size - 1, 1)
  {
    var p := Min(Max(pos, 0), size - 1);
    (p, Max(0, Min(if len == 0 then size else len, size - p)))
  }

  /** The rectangle `box(color, x, y, w, h)` paints on a width-by-height grid. */
  function BoxRect(width: nat, height: nat, x: int, y: int, w: int, h: int): (r: Rect)
    ensures r.w >= 0 && r.h >= 0
    // on an image with cells, the rectangle lies inside it
    ensures width > 0 ==> 0 <= r.x && r.x + r.w <= width
    ensures height > 0 ==> 0 <= r.y && r.y + r.h <= height
    // a request that is not negative never clips to nothing on an image with cells
    ensures width > 0 && w >= 0 ==> r.w > 0
    ensures height > 0 && h >= 0 ==> r.h > 0
  {
    var (cx, cw) := ClampAxis(width, x, w);
    var (cy, ch) := ClampAxis(height, y, h);
    Rect(cx, cy, cw, ch)
  }

  /** The first `rows` rows of rectangle r filled with `color`, top row first. */
  function FillRows(cells: seq<byte>, width: nat, r: Rect, color: byte, rows: nat): (f: seq<byte>)
    ensures |f| == |cells|
  {
    if rows == 0 then cells
    else FillRun(FillRows(cells, width, r, color, rows - 1), Offset(r.x, r.y + rows - 1, width), r.w, color)
  }

  lemma {:induction false} GetFillRows(cells: seq<byte>, width: nat, height: nat, r: Rect, color: byte, rows: nat, px: int, py: int)
    requires |cells| == width * height
    requires 0 <= r.x && r.x + r.w <= width && 0 <= r.y
    requires InBounds(px, py, width, height)
    ensures Get(FillRows(cells, width, r, color, rows), width, height, px, py)
            == if InRect(px, py, Rect(r.x, r.y, r.w, rows)) then color else Get(cells, width, height, px, py)
  {
    if rows > 0 {
      var before := FillRows(cells, width, r, color, rows - 1);
      GetFillRows(cells, width, height, r, color, rows - 1, px, py);
      OffsetInRun(px, py, width, r.y + rows - 1, r.x, r.w);
      OffsetInRange(px, py, width, height);
      var i := Offset(px, py, width);
      assert FillRows(cells, width, r, color, rows)[i]
          == if Offset(r.x, r.y + rows - 1, width) <= i < Offset(r.x, r.y + rows - 1, width) + r.w
             then color else before[i];
    }
  }

  /** The whole effect of `box`: every row of its rectangle filled. */
  function BoxCells(cells: seq<byte>, width: nat, height: nat, color: byte, x: int, y: int, w: int, h: int): (r: seq<byte>)
    ensures |r| == |cells|
  {
    var r := BoxRect(width, height, x, y, w, h);
    FillRows(cells, width, r, color, r.h)
  }

  /**
   * After `box`, a cell of the grid holds `color` exactly when it lies in the
   * clamped rectangle; every other cell is unchanged.
   */
  lemma BoxPaints(cells: seq<byte>, width: nat, height: nat, color: byte, x: int, y: int, w: int, h: int, px: int, py: int)
    requires |cells| == width * height
    requires InBounds(px, py, width, height)
    ensures |BoxCells(cells, width, height, color, x, y, w, h)| == |cells|
    ensures Get(BoxCells(cells, width, height, color, x, y, w, h), width, height, px, py)
            == if InRect(px, py, BoxRect(width, height, x, y, w, h)) then color else Get(cells, width, height, px, py)
  {
    var r := BoxRect(width, height, x, y, w, h);
    GetFillRows(cells, width, height, r, color, r.h, px, py);
  }

  /**
   * One axis of `blit`'s normalisation: a negative destination offset d moves
   * the source offset s forward by |d|, then a negative source offset moves
   * the destination forward. Both offsets advance by the same amount, the
   * least one that makes both non-negative.
   */
  function Normalise(d: int, s: int): (r: (int, int))
    ensures var t := Max(0, Max(-d, -s)); r == (d + t, s + t)
  {
    var (d1, s1) := if d < 0 then (0, s - d) else (d, s);
    if s1 < 0 then (d1 - s1, 0) else (d1, s1)
  }

  /** Offsets and extent of a block copy after normalisation and clipping. */
  datatype BlitPlan = BlitPlan(dx: int, dy: int, x: int, y: int, w: int, h: int)

  /**
   * One extent of `blit`: `min(min(want or size, size - pos), room)`, the
   * request (0 meaning the source's full size) cut to what is left of the
   * source after pos and to the room left in the destination.
   */
  function Extent(want: int, size: nat, pos: int, room: int): (e: int)
    ensures var full := if want == 0 then size else want;
      e <= full && e <= size - pos && e <= room &&
      (e == full || e == size - pos || e == room)
  {
    Min(Min(if want == 0 then size else want, size - pos), room)
  }

  /**
   * The copy `blit(source, dx, dy, x, y, w, h)` performs between a
   * dstWidth-by-dstHeight destination and a srcWidth-by-srcHeight source.
   * The extent is the smallest of the request (0 meaning the source's full
   * size), what is left of the source and what is left of the destination;
   * a negative dx moves the source window but does not shrink the extent.
   */
  function BlitGeometry(dstWidth: nat, dstHeight: nat, srcWidth: nat, srcHeight: nat,
                        dx: int, dy: int, x: int, y: int, w: int, h: int): (p: BlitPlan)
    ensures p.dx >= 0 && p.dy >= 0 && p.x >= 0 && p.y >= 0
    ensures p.x - p.dx == x - dx && p.y - p.dy == y - dy
    ensures var want := if w == 0 then srcWidth else w;
      p.w <= want && p.w <= srcWidth - p.x && p.w <= dstWidth - p.dx &&
      (p.w == want || p.w == srcWidth - p.x || p.w == dstWidth - p.dx)
    ensures var want := if h == 0 then srcHeight else h;
      p.h <= want && p.h <= srcHeight - p.y && p.h <= dstHeight - p.dy &&
      (p.h == want || p.h == srcHeight - p.y || p.h == dstHeight - p.dy)
  {
    var (ndx, nx) := Normalise(dx, x);
    var (ndy, ny) := Normalise(dy, y);
    BlitPlan(ndx, ndy, nx, ny, Extent(w, srcWidth, nx, dstWidth - ndx), Extent(h, srcHeight, ny, dstHeight - ndy))
  }

  /**
   * Clipping a copy of 5 columns to destination column -2 of an 8-wide
   * buffer from an 8-wide source: the source window moves to column 2 and all
   * 5 columns are still copied, to destination columns 0 to 4.
   */
  lemma NegativeDxKeepsWidth(dstHeight: nat, srcHeight: nat)
    ensures var p := BlitGeometry(8, dstHeight, 8, srcHeight, -2, 0, 0, 0, 5, 0);
      p.dx == 0 && p.x == 2 && p.w == 5
  {
  }

  /** The source window of the first `rows` rows of a copy lies inside the source. */
  predicate SourceFits(src: seq<byte>, srcWidth: nat, srcHeight: nat, p: BlitPlan, rows: nat) {
    |src| == srcWidth * srcHeight &&
    (rows == 0 || p.w <= 0 || (0 <= p.x && p.x + p.w <= srcWidth && 0 <= p.y && p.y + rows <= srcHeight))
  }

  /**
   * The first `rows` rows of a copy: destination row p.dy + r, columns
   * [p.dx, p.dx + p.w), takes source row p.y + r from column p.x on.
   */
  function BlitRows(dst: seq<byte>, dstWidth: nat, src: seq<byte>, srcWidth: nat, srcHeight: nat,
                    p: BlitPlan, key: Option<int>, rows: nat): (r: seq<byte>)
    requires SourceFits(src, srcWidth, srcHeight, p, rows)
    ensures |r| == |dst|
  {
    if rows == 0 then dst
    else
      assert p.w <= 0 || Offset(p.x, p.y + rows - 1, srcWidth) + p.w <= |src| by {
        if p.w > 0 { OffsetInRange(p.x + p.w - 1, p.y + rows - 1, srcWidth, srcHeight); }
      }
      CopyRun(BlitRows(dst, dstWidth, src, srcWidth, srcHeight, p, key, rows - 1),
              Offset(p.dx, p.dy + rows - 1, dstWidth), src, Offset(p.x, p.y + rows - 1, srcWidth), p.w, key)
  }

  /** What a copy leaves in destination cell (px, py) when that cell is in the copied block. */
  function Copied(dst: seq<byte>, dstWidth: nat, dstHeight: nat, src: seq<byte>, srcWidth: nat, srcHeight: nat,
                  p: BlitPlan, key: Option<int>, px: int, py: int): byte
    requires |dst| == dstWidth * dstHeight && |src| == srcWidth * srcHeight
  {
    var s := Get(src, srcWidth, srcHeight, px - p.dx + p.x, py - p.dy + p.y);
    if key.None? || s as int != key.value then s else Get(dst, dstWidth, dstHeight, px, py)
  }

  lemma {:induction false} GetBlitRows(dst: seq<byte>, dstWidth: nat, dstHeight: nat, src: seq<byte>, srcWidth: nat, srcHeight: nat,
                                       p: BlitPlan, key: Option<int>, rows: nat, px: int, py: int)
    requires |dst| == dstWidth * dstHeight && SourceFits(src, srcWidth, srcHeight, p, rows)
    requires 0 <= p.dx && p.dx + p.w <= dstWidth && 0 <= p.dy
    requires InBounds(px, py, dstWidth, dstHeight)
    ensures Get(BlitRows(dst, dstWidth, src, srcWidth, srcHeight, p, key, rows), dstWidth, dstHeight, px, py)
            == if InRect(px, py, Rect(p.dx, p.dy, p.w, rows))
               then Copied(dst, dstWidth, dstHeight, src, srcWidth, srcHeight, p, key, px, py)
               else Get(dst, dstWidth, dstHeight, px, py)
  {
    if rows > 0 {
      var before := BlitRows(dst, dstWidth, src, srcWidth, srcHeight, p, key, rows - 1);
      GetBlitRows(dst, dstWidth, dstHeight, src, srcWidth, srcHeight, p, key, rows - 1, px, py);
      var row := p.dy + rows - 1;
      OffsetInRun(px, py, dstWidth, row, p.dx, p.w);
      OffsetInRange(px, py, dstWidth, dstHeight);
      var i := Offset(px, py, dstWidth);
      var start := Offset(p.dx, row, dstWidth);
      if start <= i < start + p.w {
        var sx, sy := px - p.dx + p.x, p.y + rows - 1;
        OffsetInRange(sx, sy, srcWidth, srcHeight);
        assert Offset(p.x, sy, srcWidth) + i - start == Offset(sx, sy, srcWidth);
      }
    }
  }

  /** The whole effect of `blit`. */
  function BlitCells(dst: seq<byte>, dstWidth: nat, dstHeight: nat, src: seq<byte>, srcWidth: nat, srcHeight: nat,
                     dx: int, dy: int, x: int, y: int, w: int, h: int, key: Option<int>): (r: seq<byte>)
    requires |src| == srcWidth * srcHeight
    ensures |r| == |dst|
  {
    var p := BlitGeometry(dstWidth, dstHeight, srcWidth, srcHeight, dx, dy, x, y, w, h);
    BlitRows(dst, dstWidth, src, srcWidth, srcHeight, p, key, Max(p.h, 0))
  }

  /**
   * After `blit`, a destination cell inside the clipped block holds the
   * aligned source cell, unless a key is given and the source cell equals
   * it, in which case the cell keeps its old value; every cell outside the
   * block is unchanged.
   */
  lemma BlitCopies(dst: seq<byte>, dstWidth: nat, dstHeight: nat, src: seq<byte>, srcWidth: nat, srcHeight: nat,
                   dx: int, dy: int, x: int, y: int, w: int, h: int, key: Option<int>, px: int, py: int)
    requires |dst| == dstWidth * dstHeight && |src| == srcWidth * srcHeight
    requires InBounds(px, py, dstWidth, dstHeight)
    ensures var p := BlitGeometry(dstWidth, dstHeight, srcWidth, srcHeight, dx, dy, x, y, w, h);
      |BlitCells(dst, dstWidth, dstHeight, src, srcWidth, srcHeight, dx, dy, x, y, w, h, key)| == |dst| &&
      Get(BlitCells(dst, dstWidth, dstHeight, src, srcWidth, srcHeight, dx, dy, x, y, w, h, key), dstWidth, dstHeight, px, py)
      == if InRect(px, py, Rect(p.dx, p.dy, p.w, p.h))
         then (var s := Get(src, srcWidth, srcHeight, px - dx + x, py - dy + y);
               if key.None? || s as int != key.value then s else Get(dst, dstWidth, dstHeight, px, py))
         else Get(dst, dstWidth, dstHeight, px, py)
  {
    var p := BlitGeometry(dstWidth, dstHeight, srcWidth, srcHeight, dx, dy, x, y, w, h);
    GetBlitRows(dst, dstWidth, dstHeight, src, srcWidth, srcHeight, p, key, Max(p.h, 0), px, py);
  }

  /** A copy whose extent has no columns leaves every row as it was. */
  lemma {:induction false} EmptyRowsCopyNothing(dst: seq<byte>, dstWidth: nat, src: seq<byte>, srcWidth: nat, srcHeight: nat,
                                                p: BlitPlan, key: Option<int>, rows: nat)
    requires SourceFits(src, srcWidth, srcHeight, p, rows) && p.w <= 0
    ensures BlitRows(dst, dstWidth, src, srcWidth, srcHeight, p, key, rows) == dst
  {
    if rows > 0 {
      EmptyRowsCopyNothing(dst, dstWidth, src, srcWidth, srcHeight, p, key, rows - 1);
      var before := BlitRows(dst, dstWidth, src, srcWidth, srcHeight, p, key, rows - 1);
      assert CopyRun(before, Offset(p.dx, p.dy + rows - 1, dstWidth), src, Offset(p.x, p.y + rows - 1, srcWidth), p.w, key)
             == before;
    }
  }

  /**
   * A block clipped to nothing, for instance a sprite placed wholly past the
   * right edge, leaves the destination exactly as it was, with or without a key.
   */
  lemma OffEdgeBlitIsNoOp(dst: seq<byte>, dstWidth: nat, dstHeight: nat, src: seq<byte>, srcWidth: nat, srcHeight: nat,
                          dx: int, dy: int, x: int, y: int, w: int, h: int, key: Option<int>)
    requires |src| == srcWidth * srcHeight
    requires var p := BlitGeometry(dstWidth, dstHeight, srcWidth, srcHeight, dx, dy, x, y, w, h);
      p.w <= 0 || p.h <= 0
    ensures BlitCells(dst, dstWidth, dstHeight, src, srcWidth, srcHeight, dx, dy, x, y, w, h, key) == dst
  {
    var p := BlitGeometry(dstWidth, dstHeight, srcWidth, srcHeight, dx, dy, x, y, w, h);
    if p.w <= 0 {
      EmptyRowsCopyNothing(dst, dstWidth, src, srcWidth, srcHeight, p, key, Max(p.h, 0));
    }
  }

  /**
   * Python's normalisation of a slice bound for a sequence of length len:
   * a negative bound counts back from the end, and the result is clamped to
   * [0, len].
   */
  function SliceBound(i: int, len: nat): (r: nat)
    ensures r <= len
  {
    if i < 0 then Max(i + len, 0) else Min(i, len)
  }

  /** `s[a:b]` with step 1; a stop before the start gives the empty slice. */
  function Slice(s: seq<byte>, a: int, b: int): (r: seq<byte>)
    ensures |r| == Max(0, SliceBound(b, |s|) - SliceBound(a, |s|))
    ensures 0 <= a <= b <= |s| ==> r == s[a..b]
  {
    var i, j := SliceBound(a, |s|), SliceBound(b, |s|);
    s[i..Max(i, j)]
  }

  /**
   * `dst[a:b] = v` on a `bytearray`: the cells of the slice are replaced by
   * v, which need not have the slice's length, so the array can grow or
   * shrink.
   */
  function SliceAssign(dst: seq<byte>, a: int, b: int, v: seq<byte>): (r: seq<byte>)
    // the slice's cells are removed and v put in their place
    ensures |r| == |dst| - Max(0, SliceBound(b, |dst|) - SliceBound(a, |dst|)) + |v|
    ensures r[..SliceBound(a, |dst|)] == dst[..SliceBound(a, |dst|)]
    ensures r[SliceBound(a, |dst|)..SliceBound(a, |dst|) + |v|] == v
  {
    var i, j := SliceBound(a, |dst|), SliceBound(b, |dst|);
    dst[..i] + v + dst[Max(i, j)..]
  }

  /** One row of the keyless branch of `blit` as written: `dst[dxx:dxx + n] = src[xx:xx + n]`. */
  function SliceCopyRow(dst: seq<byte>, dxx: int, src: seq<byte>, xx: int, n: int): (r: seq<byte>)
    // a row inside both buffers keeps the length of the destination
    ensures 0 <= n && 0 <= dxx && dxx + n <= |dst| && 0 <= xx && xx + n <= |src| ==> |r| == |dst|
  {
    SliceAssign(dst, dxx, dxx + n, Slice(src, xx, xx + n))
  }

  /**
   * For a row with n >= 0 that lies inside both buffers, the slice
   * assignment is the cell-by-cell copy `CopyRun` without a key.
   */
  lemma SliceCopyRowAgrees(dst: seq<byte>, dxx: int, src: seq<byte>, xx: int, n: int)
    requires 0 <= n && 0 <= dxx && dxx + n <= |dst| && 0 <= xx && xx + n <= |src|
    ensures SliceCopyRow(dst, dxx, src, xx, n) == CopyRun(dst, dxx, src, xx, n, None)
  {
    assert Slice(src, xx, xx + n) == src[xx..xx + n];
    CopyRunSlice(dst, dxx, src, xx, n);
  }

  /**
   * As written, a keyless `blit` onto an 8-by-8 image from an 8-by-8 source
   * at dx = 10 clips to a width of -2 but still runs 8 rows of slice
   * assignments. In row 0, `src[0:-2]` counts from the end and holds 62
   * cells, while the target slice `dst[10:8]` is empty, so the 62 cells are
   * inserted and the 64-cell buffer grows to 126. The keyed branch copies
   * nothing in the same case.
   */
  lemma OffEdgeSliceCopyGrowsBuffer()
    ensures BlitGeometry(8, 8, 8, 8, 10, 0, 0, 0, 0, 0) == BlitPlan(10, 0, 0, 0, -2, 8)
    ensures |SliceCopyRow(Zeros(64), 10, Zeros(64), 0, -2)| == 126
  {
    assert Slice(Zeros(64), 0, -2) == Zeros(64)[0..62];
  }

  /**
   * As written, `blit(src, 0, 0, 10)` between 8-by-8 images clips to a width
   * of -2. In row 0, `dst[0:-2] = src[10:8]` replaces 62 cells by the empty
   * slice, and the 64-cell buffer shrinks to 2.
   */
  lemma OffEdgeSliceCopyShrinksBuffer()
    ensures BlitGeometry(8, 8, 8, 8, 0, 0, 10, 0, 0, 0) == BlitPlan(0, 0, 10, 0, -2, 8)
    ensures |SliceCopyRow(Zeros(64), 0, Zeros(64), 10, -2)| == 2
  {
    assert Slice(Zeros(64), 10, 8) == [];
  }

  /**
   * As written, `blit(src, 0, 0, 0, 0, -3)` between 8-by-8 images clips to a
   * width of -3. In row 0, `dst[0:-3] = src[0:-3]` keeps the length but
   * overwrites the first 61 cells, which a block clipped to nothing should
   * leave alone.
   */
  lemma NegativeWidthSliceCopyOverwrites()
    ensures BlitGeometry(8, 8, 8, 8, 0, 0, 0, 0, -3, 0) == BlitPlan(0, 0, 0, 0, -3, 8)
    ensures var src: seq<byte> := seq(64, _ => 1);
            var r := SliceCopyRow(Zeros(64), 0, src, 0, -3);
            |r| == 64 && r[..61] == src[..61] && r[61..] == Zeros(64)[61..]
  {
    var src: seq<byte> := seq(64, _ => 1);
    assert Slice(src, 0, -3) == src[..61];
  }
}
