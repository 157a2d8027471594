/**
 * `show(pix)`: the 8-by-8 screen sent to the display controller as eight
 * pages. For each page the controller gets two column-address commands and
 * then the page-address command with 80 data bytes: ten bytes of dither
 * pattern for each of the page's eight cells, taken from right to left.
 * The bus is modelled by the list of sends it receives.
 */
module Display {
  import opened Bytes
  import opened Grid
  import Pixmap

  /** Bytes of dither pattern per cell, cells per page, and pages per frame. */
  const PATTERN_SIZE: nat := 10
  const CELLS: nat := 8
  const PAGES: nat := 8

  /**
   * `_PATTERNS`: the ten column bytes drawn for a cell of level 0 (off),
   * 1 (sparse dither), 2 (checkerboard) and 3 (on).
   */
  const PATTERNS: seq<seq<byte>> := [
    [0x00, 0x00, 0x00, 0x00, 0x00, 0x00, 0x00, 0x00, 0x00, 0x00],
    [0x44, 0x11, 0x44, 0x11, 0x44, 0x11, 0x44, 0x11, 0x44, 0x11],
    [0x55, 0xAA, 0x55, 0xAA, 0x55, 0xAA, 0x55, 0xAA, 0x55, 0xAA],
    [0xFF, 0xFF, 0xFF, 0xFF, 0xFF, 0xFF, 0xFF, 0xFF, 0xFF, 0xFF]
  ]

  /** One `bus.send(command, data)`. */
  datatype Send = Send(command: byte, data: seq<byte>)

  /** The two column-address commands that start every page. */
  const LOW_COLUMN: byte := 0x08
  const HIGH_COLUMN: byte := 0x10

  /** `0xb0 | page`: the page-address command; the low bits of 0xB0 are clear, so it is 0xB0 + page. */
  function PageAddress(page: nat): (c: byte)
    requires page < PAGES
    ensures c as int == 0xB0 + page
  {
    ((0xB0 as bv8) | (page as bv8)) as byte
  }

  /**
   * Index into the flat buffer of the k-th cell sent in page `page`:
   * `pix.width * (7 - page) + 7`, stepped back by one per cell.
   */
  function ShownIndex(width: nat, page: nat, k: nat): (i: int)
    // on an image at least 8 wide, the cell sent is (7 - k, 7 - page)
    ensures width >= CELLS && page < PAGES && k < CELLS ==> i == Offset(7 - k, 7 - page, width)
  {
    width * (7 - page) + 7 - k
  }

  /**
   * What `show` demands of the buffer: every index it reads is inside the
   * buffer and holds a level that names a pattern (0 to 3).
   */
  predicate Showable(cells: seq<byte>, width: nat)
    // the first index read, `width * 7 + 7`, is inside the buffer
    ensures Showable(cells, width) ==> ShownIndex(width, 0, 0) == width * 7 + 7 < |cells|
  {
    forall page: nat, k: nat :: page < PAGES && k < CELLS ==>
      0 <= ShownIndex(width, page, k) < |cells| && cells[ShownIndex(width, page, k)] < 4
  }

  /** The 80 data bytes of page `page`: cell k's pattern in bytes 10k to 10k + 9. */
  function Page(cells: seq<byte>, width: nat, page: nat): (data: seq<byte>)
    requires Showable(cells, width) && page < PAGES
    ensures |data| == PATTERN_SIZE * CELLS
  {
    seq(PATTERN_SIZE * CELLS, i requires 0 <= i < PATTERN_SIZE * CELLS =>
      PATTERNS[cells[ShownIndex(width, page, i / PATTERN_SIZE)]][i % PATTERN_SIZE])
  }

  /** The sends of pages 0 to n - 1, three per page. */
  function FramePages(cells: seq<byte>, width: nat, n: nat): (sends: seq<Send>)
    requires Showable(cells, width) && n <= PAGES
    ensures |sends| == 3 * n
  {
    if n == 0 then []
    else FramePages(cells, width, n - 1)
         + [Send(LOW_COLUMN, []), Send(HIGH_COLUMN, []), Send(PageAddress(n - 1), Page(cells, width, n - 1))]
  }

  /** Everything `show` sends for an image whose buffer is `cells`. */
  function Frame(cells: seq<byte>, width: nat): (sends: seq<Send>)
    requires Showable(cells, width)
    ensures |sends| == 3 * PAGES
  {
    FramePages(cells, width, PAGES)
  }

  /**
   * `show(pix)`: for each page, the two column commands, then the 80-byte
   * buffer filled for that page and sent with the page address. The same
   * buffer is reused; each send carries its contents at the time of the call.
   */
  method Show(pix: Pixmap.Pix) returns (sends: seq<Send>)
    requires Showable(pix.buffer[..], pix.width)
    ensures sends == Frame(pix.buffer[..], pix.width)
  {
    var buffer := new byte[PATTERN_SIZE * CELLS];
    sends := [];
    for page := 0 to PAGES
      invariant sends == FramePages(pix.buffer[..], pix.width, page)
    {
      sends := sends + [Send(LOW_COLUMN, []), Send(HIGH_COLUMN, [])];
      FillPage(pix, page, buffer);
      sends := sends + [Send(PageAddress(page), buffer[..])];
    }
  }

  /**
   * The inner loop of `show`: pattern by pattern into the 80-byte buffer,
   * the buffer index walking back from `pix.width * (7 - page) + 7`.
   */
  method FillPage(pix: Pixmap.Pix, page: nat, buffer: array<byte>)
    requires Showable(pix.buffer[..], pix.width) && page < PAGES
    requires buffer.Length == PATTERN_SIZE * CELLS && buffer != pix.buffer
    modifies buffer
    ensures buffer[..] == Page(pix.buffer[..], pix.width, page)
  {
    var pixIndex := pix.width * (7 - page) + 7;
    var index := 0;
    for k := 0 to CELLS
      invariant index == PATTERN_SIZE * k
      invariant pixIndex == ShownIndex(pix.width, page, k)
      invariant forall c, j :: 0 <= c < k && 0 <= j < PATTERN_SIZE ==>
                  buffer[PATTERN_SIZE * c + j] == PATTERNS[pix.buffer[ShownIndex(pix.width, page, c)]][j]
    {
      var pattern := PATTERNS[pix.buffer[pixIndex]];
      forall j | 0 <= j < PATTERN_SIZE {
        buffer[index + j] := pattern[j];
      }
      pixIndex := pixIndex - 1;
      index := index + PATTERN_SIZE;
    }
    forall i | 0 <= i < PATTERN_SIZE * CELLS
      ensures buffer[i] == Page(pix.buffer[..], pix.width, page)[i]
    {
      assert i == PATTERN_SIZE * (i / PATTERN_SIZE) + i % PATTERN_SIZE;
    }
  }

  /** The sends for pages [0, n) sit at positions [0, 3n) of every longer prefix of the frame. */
  lemma {:induction false} FramePagesPrefix(cells: seq<byte>, width: nat, n: nat, m: nat, i: nat)
    requires Showable(cells, width) && n <= m <= PAGES && i < 3 * n
    ensures FramePages(cells, width, m)[i] == FramePages(cells, width, n)[i]
  {
    if n < m {
      FramePagesPrefix(cells, width, n, m - 1, i);
    }
  }

  /**
   * An image of at least 8 by 8 cells whose top-left 8-by-8 block holds
   * levels 0 to 3 can be shown.
   */
  lemma ShowableScreen(cells: seq<byte>, width: nat, height: nat)
    requires |cells| == width * height && width >= CELLS && height >= PAGES
    requires forall x: nat, y: nat :: x < CELLS && y < PAGES ==> Get(cells, width, height, x, y) < 4
    ensures Showable(cells, width)
  {
    forall page: nat, k: nat | page < PAGES && k < CELLS
      ensures 0 <= ShownIndex(width, page, k) < |cells| && cells[ShownIndex(width, page, k)] < 4
    {
      assert ShownIndex(width, page, k) == Offset(7 - k, 7 - page, width);
      OffsetInRange(7 - k, 7 - page, width, height);
      assert Get(cells, width, height, 7 - k, 7 - page) < 4;
    }
  }

  /**
   * The frame of an image of at least 8 by 8 cells: 24 sends; page p is
   * the commands 0x08, 0x10 and 0xB0 + p, and its data byte 10k + j is
   * byte j of the pattern of cell (7 - k, 7 - p). The screen is thus drawn
   * from its bottom-right cell, and cells outside the top-left 8-by-8
   * block are never sent.
   */
  lemma FrameLayout(cells: seq<byte>, width: nat, height: nat, page: nat, k: nat, j: nat)
    requires |cells| == width * height && width >= CELLS && height >= PAGES
    requires Showable(cells, width)
    requires page < PAGES && k < CELLS && j < PATTERN_SIZE
    ensures |Frame(cells, width)| == 3 * PAGES
    ensures Frame(cells, width)[3 * page] == Send(LOW_COLUMN, [])
    ensures Frame(cells, width)[3 * page + 1] == Send(HIGH_COLUMN, [])
    ensures Frame(cells, width)[3 * page + 2].command as int == 0xB0 + page
    ensures |Frame(cells, width)[3 * page + 2].data| == PATTERN_SIZE * CELLS
    ensures Get(cells, width, height, 7 - k, 7 - page) < 4
    ensures Frame(cells, width)[3 * page + 2].data[PATTERN_SIZE * k + j]
            == PATTERNS[Get(cells, width, height, 7 - k, 7 - page)][j]
  {
    FramePagesPrefix(cells, width, page + 1, PAGES, 3 * page);
    FramePagesPrefix(cells, width, page + 1, PAGES, 3 * page + 1);
    FramePagesPrefix(cells, width, page + 1, PAGES, 3 * page + 2);
    var i := PATTERN_SIZE * k + j;
    assert i / PATTERN_SIZE == k && i % PATTERN_SIZE == j;
    assert ShownIndex(width, page, k) == Offset(7 - k, 7 - page, width);
    OffsetInRange(7 - k, 7 - page, width, height);
  }

  /**
   * A uniform image sends the same pattern in every cell of every page:
   * all zero bytes for level 0, all 0xFF for level 3.
   */
  lemma UniformFrame(cells: seq<byte>, width: nat, level: byte, page: nat, i: nat)
    requires level < 4 && forall c :: 0 <= c < |cells| ==> cells[c] == level
    requires Showable(cells, width)
    requires page < PAGES && i < PATTERN_SIZE * CELLS
    ensures |Frame(cells, width)[3 * page + 2].data| == PATTERN_SIZE * CELLS
    ensures Frame(cells, width)[3 * page + 2].data[i] == PATTERNS[level][i % PATTERN_SIZE]
    ensures level == 0 ==> Frame(cells, width)[3 * page + 2].data[i] == 0x00
    ensures level == 3 ==> Frame(cells, width)[3 * page + 2].data[i] == 0xFF
  {
    FramePagesPrefix(cells, width, page + 1, PAGES, 3 * page + 2);
  }
}
