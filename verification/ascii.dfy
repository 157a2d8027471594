/**
 * `Pix.__str__`: one text line per row, one character per cell, the four
 * levels shown as '.', '+', '*' and '@', and the lines joined with "\n".
 */
module Ascii {
  import opened Bytes
  import opened Grid

  /** Every cell holds one of the four levels the shade table covers. */
  predicate Levels(cells: seq<byte>, width: nat, height: nat)
    requires |cells| == width * height
  {
    forall x, y :: 0 <= x < width && 0 <= y < height ==> Get(cells, width, height, x, y) < 4
  }

  const SHADES: string := ".+*@"

  /** Row y as text. */
  function RowText(cells: seq<byte>, width: nat, height: nat, y: int): (r: string)
    requires |cells| == width * height && Levels(cells, width, height)
    ensures |r| == width
  {
    seq(width, x requires 0 <= x < width => SHADES[Get(cells, width, height, x, y)])
  }

  /** Rows [0, n) as text, separated by newlines. */
  function Lines(cells: seq<byte>, width: nat, height: nat, n: nat): (text: string)
    requires |cells| == width * height && Levels(cells, width, height)
    ensures n == 0 ==> text == ""
    ensures n > 0 ==> |text| == n * (width + 1) - 1
  {
    if n == 0 then ""
    else if n == 1 then RowText(cells, width, height, 0)
    else Lines(cells, width, height, n - 1) + "\n" + RowText(cells, width, height, n - 1)
  }

  /** The string `str(pix)`. */
  function Render(cells: seq<byte>, width: nat, height: nat): (text: string)
    requires |cells| == width * height && Levels(cells, width, height)
    ensures height == 0 ==> text == ""
    ensures height > 0 ==> |text| == height * (width + 1) - 1
  {
    Lines(cells, width, height, height)
  }

  lemma {:induction false} LinesAt(cells: seq<byte>, width: nat, height: nat, n: nat, x: nat, y: nat)
    requires |cells| == width * height && Levels(cells, width, height)
    requires y < n && x <= width
    requires x == width ==> y < n - 1
    ensures y * (width + 1) + x < |Lines(cells, width, height, n)| &&
            Lines(cells, width, height, n)[y * (width + 1) + x]
            == if x < width then SHADES[Get(cells, width, height, x, y)] else '\n'
  {
    var stride := width + 1;
    var i := y * stride + x;
    if n == 1 {
      assert y == 0 && i == x;
    } else {
      var prefix := Lines(cells, width, height, n - 1);
      assert |prefix| == (n - 1) * stride - 1;
      assert Lines(cells, width, height, n) == prefix + "\n" + RowText(cells, width, height, n - 1);
      assert (n - 1) * stride == (n - 2) * stride + stride;
      if y < n - 2 {
        LinesAt(cells, width, height, n - 1, x, y);
      } else if y == n - 2 {
        if x < width {
          LinesAt(cells, width, height, n - 1, x, y);
        } else {
          assert i == |prefix|;
        }
      } else {
        assert y * stride == (n - 1) * stride;
        assert i == |prefix| + 1 + x;
      }
    }
  }

  /**
   * `str(pix)` has `height` lines of `width` characters: the character at
   * column x of line y shows the level of cell (x, y), and each line but the
   * last ends in a newline.
   */
  lemma RenderLayout(cells: seq<byte>, width: nat, height: nat, x: nat, y: nat)
    requires |cells| == width * height && Levels(cells, width, height)
    requires y < height && x <= width
    requires x == width ==> y < height - 1
    ensures |Render(cells, width, height)| == height * (width + 1) - 1
    ensures y * (width + 1) + x < |Render(cells, width, height)| &&
            Render(cells, width, height)[y * (width + 1) + x]
            == if x < width then SHADES[Get(cells, width, height, x, y)] else '\n'
  {
    LinesAt(cells, width, height, height, x, y);
  }
}
