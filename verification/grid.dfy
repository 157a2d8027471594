/**
 * The row-major grid behind `Pix.buffer`: a flat sequence of `width * height`
 * cells in which cell (x, y) lives at index `x + y * width`. Everything here is
 * a pure specification over `seq<byte>`; the class `Pix` (module Pixmap) is
 * proved to update its array exactly as these functions say.
 */
module Grid {
  import opened Bytes

  predicate InBounds(x: int, y: int, width: int, height: int) {
    0 <= x < width && 0 <= y < height
  }

  /** Index of cell (x, y) in the flat buffer. */
  function Offset(x: int, y: int, width: int): int { x + y * width }

  /** A whole row of w cells lies between row lo and a later row hi. */
  lemma RowStep(lo: int, hi: int, w: int)
    requires lo < hi && 0 <= w
    ensures lo * w + w <= hi * w
  {
    var d := hi - lo - 1;
    assert d * w >= 0;
    assert hi * w == lo * w + d * w + w;
  }

  lemma OffsetInRange(x: int, y: int, width: int, height: int)
    requires InBounds(x, y, width, height)
    ensures 0 <= Offset(x, y, width) < width * height
  {
    RowStep(y, height, width);
    assert y * width >= 0;
    assert width * height == height * width;
  }

  /**
   * A run of n cells that starts at column a of row `row` and stays inside
   * that row holds cell (x, y) exactly when (x, y) is in that row segment.
   */
  lemma OffsetInRun(x: int, y: int, width: int, row: int, a: int, n: int)
    requires 0 <= x < width && 0 <= y && 0 <= row
    requires 0 <= a && a + n <= width
    ensures Offset(a, row, width) <= Offset(x, y, width) < Offset(a, row, width) + n
            <==> y == row && a <= x < a + n
  {
    if y < row {
      RowStep(y, row, width);
    } else if y > row {
      RowStep(row, y, width);
    }
  }

  /** A non-empty run of n cells from column a of an in-bounds row lies inside the buffer. */
  lemma RunInRange(a: int, row: int, n: int, width: int, height: int)
    requires 0 <= a && 0 < n && a + n <= width && 0 <= row < height
    ensures 0 <= Offset(a, row, width) && Offset(a, row, width) + n <= width * height
  {
    OffsetInRange(a + n - 1, row, width, height);
  }

  /** Distinct in-bounds cells have distinct indices. */
  lemma OffsetInjective(x1: int, y1: int, x2: int, y2: int, width: int, height: int)
    requires InBounds(x1, y1, width, height) && InBounds(x2, y2, width, height)
    ensures Offset(x1, y1, width) == Offset(x2, y2, width) <==> x1 == x2 && y1 == y2
  {
    OffsetInRun(x1, y1, width, y2, x2, 1);
  }

  /** `Pix.pixel(x, y)`: the stored value, or 0 outside the grid. */
  function Get(cells: seq<byte>, width: nat, height: nat, x: int, y: int): (c: byte)
    requires |cells| == width * height
    ensures InBounds(x, y, width, height) ==> 0 <= Offset(x, y, width) < |cells| && c == cells[Offset(x, y, width)]
    ensures !InBounds(x, y, width, height) ==> c == 0
  {
    if InBounds(x, y, width, height) then
      OffsetInRange(x, y, width, height);
      cells[Offset(x, y, width)]
    else 0
  }

  /**
   * `Pix.pixel(x, y, color)`: overwrite cell (x, y); a write outside the
   * grid is silently dropped.
   */
  function Set(cells: seq<byte>, width: nat, height: nat, x: int, y: int, color: byte): (r: seq<byte>)
    requires |cells| == width * height
    ensures |r| == |cells|
    ensures InBounds(x, y, width, height) ==> Get(r, width, height, x, y) == color
    ensures forall i :: 0 <= i < |cells| && i != Offset(x, y, width) ==> r[i] == cells[i]
    ensures !InBounds(x, y, width, height) ==> r == cells
  {
    if InBounds(x, y, width, height) then
      OffsetInRange(x, y, width, height);
      cells[Offset(x, y, width) := color]
    else cells
  }

  /**
   * Reading after a write: the written cell reads back the colour when it is
   * inside the grid, and every other cell reads as before.
   */
  lemma GetSet(cells: seq<byte>, width: nat, height: nat, x: int, y: int, color: byte, px: int, py: int)
    requires |cells| == width * height
    ensures Get(Set(cells, width, height, x, y, color), width, height, px, py)
            == if px == x && py == y && InBounds(x, y, width, height) then color
               else Get(cells, width, height, px, py)
  {
    var r := Set(cells, width, height, x, y, color);
    if InBounds(px, py, width, height) && !(px == x && py == y) {
      OffsetInRange(px, py, width, height);
      if InBounds(x, y, width, height) {
        OffsetInjective(px, py, x, y, width, height);
      }
      assert r[Offset(px, py, width)] == cells[Offset(px, py, width)];
    }
  }

  function Zeros(n: nat): (r: seq<byte>)
    ensures |r| == n && forall i :: 0 <= i < n ==> r[i] == 0
  {
    seq(n, _ => 0)
  }

  /** The cells [start, start + n) set to `color`; n <= 0 changes nothing. */
  function FillRun(cells: seq<byte>, start: int, n: int, color: byte): (r: seq<byte>)
    ensures |r| == |cells|
    ensures n <= 0 ==> r == cells
  {
    seq(|cells|, i requires 0 <= i < |cells| => if start <= i < start + n then color else cells[i])
  }

  /**
   * The cells [start, start + n) take the source values src[from ..], except
   * that a source value equal to `key` leaves the old cell in place.
   */
  function CopyRun(cells: seq<byte>, start: int, src: seq<byte>, from: int, n: int, key: Option<int>): (r: seq<byte>)
    requires n <= 0 || (0 <= from && from + n <= |src|)
    ensures |r| == |cells|
    ensures n <= 0 ==> r == cells
  {
    seq(|cells|, i requires 0 <= i < |cells| =>
      if start <= i < start + n && (key.None? || src[from + i - start] as int != key.value)
      then src[from + i - start] else cells[i])
  }

  /** A run inside the buffer is the slice assignment of n copies of `color`. */
  lemma FillRunSlice(cells: seq<byte>, start: int, n: int, color: byte)
    requires 0 <= start && 0 <= n && start + n <= |cells|
    ensures FillRun(cells, start, n, color) == cells[..start] + seq(n, _ => color) + cells[start + n..]
  {
  }

  /** Without a key, a run inside the buffer is the slice assignment of src[from .. from + n]. */
  lemma CopyRunSlice(cells: seq<byte>, start: int, src: seq<byte>, from: int, n: int)
    requires 0 <= start && 0 <= n && start + n <= |cells| && 0 <= from && from + n <= |src|
    ensures CopyRun(cells, start, src, from, n, None) == cells[..start] + src[from..from + n] + cells[start + n..]
  {
  }
}
