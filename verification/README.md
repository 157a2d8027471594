# pew: a verified model of the PewPew graphics core

PewPew is a tiny handheld game console programmed in CircuitPython. Its
library, `pew.py`, gives games:

- an 8-by-8 screen of four grey levels;
- an image type `Pix`, a row-major `bytearray` of levels with drawing operations;
- a built-in 4-by-6 font;
- `show`, which encodes a `Pix` into the page commands of the display controller;
- `keys`, which packs the six touch pads into one integer.

This project models that core in Dafny and proves what each operation does.

Modules, one file each:

- `Bytes` (`bytes.dfy`): the `byte` type and `Option`.
- `Grid` (`grid.dfy`): the flat buffer, where cell (x, y) is at index `x + y * width`. `pixel` reads and writes; read-after-write.
- `Clip` (`clip.dfy`): the clipping arithmetic of `box` and `blit`, and the cell-by-cell effect of their loops. It also holds Python's slice semantics for the keyless `blit` row as written.
- `Font` (`font.dfy`): the salted font table `_FONT`, `_SALT`, and the glyph decoder.
- `Text` (`text.dfy`): the layout of `Pix.from_text`.
- `Ascii` (`ascii.dfy`): `Pix.__str__`.
- `Pixmap` (`pixmap.dfy`): the class `Pix`. Its fields are `width`, `height` and an `array<byte>` buffer. Its methods work in place and are proved to leave the buffer equal to the specification functions of `Grid`, `Clip` and `Text`. The layout of `from_iter` is also here.
- `Display` (`display.dfy`): `_PATTERNS` and `show`. The display bus is modelled as the list of `(command, data)` sends it receives.
- `Keys` (`keys.dfy`): `K_*`, the pad order, and the bit packing of `keys`.

Python's `None` for a `box` or `blit` extent is modelled as 0. The source reads both through `width or ...`, so the two behave alike.

### Edge cases the code settles

- **Characters without a glyph take no advance.** `continue` comes before `x += 4`, yet the image is `4 * len(string)` wide, so its right-hand columns stay 0 (`Text.TrailingColumnsStayZero`).
- **A negative `dx` in `blit` moves the source window and keeps the extent.** With `dx = -2` and `width = 5` on 8-wide images, 5 columns are copied, from source column 2 to destination columns 0 to 4 (`Clip.NegativeDxKeepsWidth`, `Clip.BlitGeometry`).
- **A `box` whose origin lies past an edge still paints.** The origin is clamped into the image first, so a box past the right edge paints the last column (`Clip.ClampAxis`).

## Model

| member | source | states |
|---|---|---|
| Grid.OffsetInRange | pew.py:125-130 | the index `x + y * width` of an in-bounds cell lies inside the `width * height` buffer |
| Grid.OffsetInjective | pew.py:125-130 | two in-bounds cells share an index only if they are the same cell |
| Grid.OffsetInRun | pew.py:137-141 | a run of n cells from column a of one row holds exactly that row's cells a to a + n - 1 |
| Grid.Get | pew.py:125-128 | `pixel(x, y)` of an in-bounds cell is buffer index `x + y * width`, which lies inside the buffer; outside the image it is 0 |
| Grid.Set | pew.py:125-130 | `pixel(x, y, color)`: an in-bounds write makes (x, y) read `color` and leaves every other index alone; an out-of-bounds write changes nothing |
| Grid.GetSet | pew.py:125-130 | read after write: the written in-bounds cell reads the colour and every other cell, in or out of bounds, reads as before |
| Grid.Zeros | pew.py:82-84 | a new buffer is `width * height` zero cells |
| Grid.FillRun | pew.py:138-141 | the inner loop of `box` keeps the buffer's length, and a run of no cells changes nothing |
| Grid.FillRunSlice | pew.py:138-141 | a run inside the buffer equals the slice assignment of n copies of `color` at `start` |
| Grid.CopyRun | pew.py:172-179 | one copied row keeps the buffer's length, and a row of no cells changes nothing |
| Grid.CopyRunSlice | pew.py:163-169 | without a key, a row inside both buffers equals the slice assignment `dst[start:start + n] = src[from:from + n]` |
| Clip.ClampAxis | pew.py:133-136 | `box` clamps its origin into [0, size - 1] and its extent to what is left. The result stays inside the axis. A fitting request is unchanged. A negative origin moves to 0 and keeps its extent. 0 means the whole axis. An origin past the edge paints the last cell |
| Clip.BoxRect | pew.py:133-136 | the rectangle `box` paints has non-negative extents and lies inside an image that has cells; a non-negative request never clips to nothing there |
| Clip.FillRows | pew.py:137-141 | the rows of the `box` loop filled so far; the buffer keeps its length |
| Clip.GetFillRows | pew.py:137-141 | after filling `rows` rows, a cell holds `color` iff it is in those rows of the rectangle, and is unchanged otherwise |
| Clip.BoxCells | pew.py:132-141 | the whole of `box` keeps the buffer's length; its cells are stated by `Clip.BoxPaints` |
| Clip.BoxPaints | pew.py:132-141 | after `box`, a cell holds `color` exactly when it is in the clamped rectangle; every other cell is unchanged |
| Clip.Normalise | pew.py:145-156 | both offsets of an axis advance by the same amount, the least that makes both non-negative |
| Clip.Extent | pew.py:157-160 | the copied extent is at most the request (0 meaning the full source), the rest of the source and the room in the destination, and equals one of them |
| Clip.BlitGeometry | pew.py:145-160 | after normalising, the offsets are non-negative, the source-destination displacement is kept, and each extent is the least of the three limits |
| Clip.NegativeDxKeepsWidth | pew.py:145-160 | `dx = -2`, `width = 5` on 8-wide images copies 5 columns from source column 2 to destination column 0 |
| Clip.BlitRows | pew.py:161-181 | the rows of the `blit` loop copied so far; the buffer keeps its length |
| Clip.GetBlitRows | pew.py:161-181 | after `rows` rows, a cell in the copied block holds the aligned source cell, unless that equals the key, when it keeps its old value; other cells are unchanged |
| Clip.BlitCells | pew.py:143-181 | the whole of `blit` keeps the destination's length; its cells are stated by `Clip.BlitCopies` |
| Clip.BlitCopies | pew.py:143-181 | the whole effect of `blit` cell by cell, in terms of the caller's `dx`, `dy`, `x` and `y` |
| Clip.EmptyRowsCopyNothing | pew.py:170-181 | with an extent of no columns, every row copies nothing |
| Clip.OffEdgeBlitIsNoOp | pew.py:157-181 | a block clipped to no columns or no rows leaves the destination exactly as it was, with or without a key |
| Clip.Slice | pew.py:167 | `s[a:b]` has `max(0, j - i)` cells, for i and j the bounds normalised as Python does (negative counting from the end, clamped to the length), and is `s[a..b]` for bounds inside the sequence |
| Clip.SliceAssign | pew.py:167 | `dst[a:b] = v` removes the slice's cells and puts v in their place: the length changes by `len(v)` minus the slice's length, the cells before the slice stay and v follows them |
| Clip.SliceCopyRow | pew.py:163-169 | a keyless row as written, `dst[dxx:dxx + n] = src[xx:xx + n]`, keeps the destination's length when the row lies inside both buffers |
| Clip.SliceCopyRowAgrees | pew.py:163-169 | for a row inside both buffers with a non-negative width, the slice assignment `dst[dxx:dxx + n] = src[xx:xx + n]` is the keyless cell copy |
| Clip.OffEdgeSliceCopyGrowsBuffer | pew.py:157-169 | as written, a keyless `blit` at `dx = 10` between 8-by-8 images gets width -2, and its first row's slice assignment grows the 64-cell buffer to 126 |
| Clip.OffEdgeSliceCopyShrinksBuffer | pew.py:157-169 | as written, a keyless `blit` from source column `x = 10` between 8-by-8 images gets width -2, and its first row's slice assignment shrinks the 64-cell buffer to 2 |
| Clip.NegativeWidthSliceCopyOverwrites | pew.py:157-169 | as written, a keyless `blit` with `width = -3` between 8-by-8 images keeps the 64-cell length but overwrites the first 61 cells with the source's |
| Font.Unsalted | pew.py:105 | removing the salt is undone by applying it again: XOR with `_SALT` is its own inverse |
| Font.ShiftedClosed | pew.py:106-108 | `col` steps of `>>= 2` shift the row byte right by `2 * col` bits, and after four steps nothing is left |
| Font.GlyphRowDigits | pew.py:104-108 | the four values of a glyph row are the base-4 digits of its un-salted byte, column 0 the least significant |
| Font.GlyphValue | pew.py:104-108 | the value of a glyph cell is in 0..3: two bits of the un-salted row byte, column 0 the lowest pair |
| Font.GlyphIndex | pew.py:100-102 | a character has a glyph iff its code point is in 0x20..0x7F, and the glyph is `ord(c) - 0x20` |
| Font.SpaceGlyphIsSolid | pew.py:10-20 | the glyph of ' ' decodes to value 3 in every cell |
| Font.GlyphOfA | pew.py:10-20 | the glyph of 'A' (glyph 33) decodes to the 4-by-6 grid `GLYPH_A` |
| Text.TextPalette | pew.py:92-97 | `colors` wins; with no `color` the palette is (3, 2, 1, bgcolor); with a `color` it is (color, color, bgcolor, bgcolor) |
| Text.Glyphs | pew.py:99-102 | the glyphs of the characters that have one, in order, never more than the characters |
| Text.GlyphsSnoc | pew.py:99-102 | one more character adds its glyph when it has one and nothing otherwise |
| Text.GlyphsOfPrintable | pew.py:99-102 | when every character has a glyph, glyph k is the font entry of character k |
| Text.DrawCols | pew.py:106-108 | the columns of one glyph row drawn so far; the buffer keeps its length |
| Text.DrawRows | pew.py:103-109 | the rows of one glyph drawn so far; the buffer keeps its length |
| Text.DrawText | pew.py:98-110 | the glyphs drawn so far; the buffer keeps its length |
| Text.DrawTextSnoc | pew.py:98-110 | drawing one more glyph draws it in the next 4 columns |
| Text.TextCells | pew.py:89-111 | the image `from_text` returns is `4 * len(string)` by 6 cells |
| Text.GetDrawCols | pew.py:106-108 | after n columns of a glyph row, cell (x + c, row) for c < n holds the palette entry of value c; others are unchanged |
| Text.GetDrawRows | pew.py:103-109 | after n rows of a glyph, cell (x + c, r) for r < n holds the palette entry of the glyph's (c, r); others are unchanged |
| Text.GetDrawText | pew.py:98-110 | after drawing glyphs gs, each cell left of `4 * len(gs)` holds the palette entry of its glyph cell; others are unchanged |
| Text.TextLayout | pew.py:89-111 | the k-th character that has a glyph fills columns 4k to 4k + 3: cell (4k + c, r) is the palette entry of its glyph's value at (c, r) |
| Text.TrailingColumnsStayZero | pew.py:91-110 | skipped characters take no room, so every column past the last glyph stays 0 |
| Text.SpaceRendersBackground | pew.py:92-108 | " " renders as a 4-by-6 block of `bgcolor` unless `colors` is given |
| Text.RenderA | pew.py:89-111 | "A" with the default palette is `GLYPH_A` drawn through (3, 2, 1, bgcolor) |
| Ascii.RowText | pew.py:183-190 | a row renders as exactly `width` characters |
| Ascii.Lines | pew.py:183-190 | no rows join to the empty string; n rows joined by newlines are `n * (width + 1) - 1` characters long |
| Ascii.Render | pew.py:183-190 | `str(pix)` is empty for an image with no rows, and otherwise `height * (width + 1) - 1` characters long |
| Ascii.LinesAt | pew.py:183-190 | character x of line y is the shade of cell (x, y), and position `width` of every line but the last is a newline |
| Ascii.RenderLayout | pew.py:183-190 | `str(pix)` has `height` lines of `width` shade characters (".+*@" for 0..3) separated by newlines |
| Pixmap.IterCell | pew.py:116-121 | what `from_iter` leaves in cell (x, y): `lines[y][x]` when the line reaches x, and 0 otherwise |
| Pixmap.WriteLine | pew.py:118-121 | the values of one line written so far; the buffer keeps its length |
| Pixmap.WriteLines | pew.py:116-123 | the lines written so far; the buffer keeps its length |
| Pixmap.GetWriteLine | pew.py:118-121 | after n values of line y, cell (x, y) for x < n holds `line[x]`; others are unchanged |
| Pixmap.GetWriteLines | pew.py:116-123 | after n lines, cell (x, y) holds `lines[y][x]` when y < n and the line reaches x; others are unchanged |
| Pixmap.IterCells | pew.py:113-123 | the image `from_iter` builds holds `lines[y][x]` where that line is long enough and 0 elsewhere |
| Pixmap.Pix.constructor | pew.py:82-86 | `Pix(width, height)` owns a fresh all-zero buffer of `width * height` cells |
| Pixmap.Pix.WithBuffer | pew.py:82-86 | `Pix(width, height, buffer)` adopts the given buffer unchanged |
| Pixmap.Pix.Pixel | pew.py:125-130 | `pixel(x, y)` reads buffer index `x + y * width` inside the image and 0 outside, agreeing with the cell `Grid.Set` writes |
| Pixmap.Pix.SetPixel | pew.py:125-130 | the in-place write leaves the buffer equal to `Grid.Set` |
| Pixmap.Pix.Box | pew.py:132-141 | the nested fill loops leave the buffer equal to `Clip.BoxCells` |
| Pixmap.Pix.FillRow | pew.py:138-141 | one row of `box`, `xx` stepping right from `row * width + x`, leaves the buffer equal to `Grid.FillRun` |
| Pixmap.Pix.Blit | pew.py:143-160 | the offset and extent computation yields `Clip.BlitGeometry`, and the buffer ends equal to `Clip.BlitCells` |
| Pixmap.Pix.CopyBlock | pew.py:161-181 | the row loop leaves the buffer equal to `Clip.BlitRows` over all rows |
| Pixmap.Pix.CopyRow | pew.py:163-181 | one row, by slice copy without a key or cell by cell with one, equals `Grid.CopyRun` |
| Pixmap.Pix.DrawGlyph | pew.py:103-109 | the six rows of a glyph leave the buffer equal to `Text.DrawRows` |
| Pixmap.Pix.DrawGlyphRow | pew.py:104-108 | the shift-by-two loop over one row leaves the buffer equal to `Text.DrawCols` |
| Pixmap.Pix.DrawChar | pew.py:99-110 | a character with a glyph is drawn and advances 4; any other changes nothing and advances 0 |
| Pixmap.Pix.FromText | pew.py:89-111 | `from_text` returns a fresh `4 * len(s)` by 6 image equal to `Text.TextCells` |
| Pixmap.Pix.FromIter | pew.py:113-123 | `from_iter` returns a fresh image as wide as the first line with `lines[y][x]` at (x, y), or 0 past a short line |
| Pixmap.Pix.ToString | pew.py:183-190 | `str(pix)` of an image with rows is `height * (width + 1) - 1` characters long, and empty with no rows |
| Display.PageAddress | pew.py:55 | `0xb0 \| page` equals `0xB0 + page` for the eight pages |
| Display.ShownIndex | pew.py:47-53 | on an image at least 8 wide, the k-th cell sent in page p is cell (7 - k, 7 - p) |
| Display.Showable | pew.py:47-52 | what `show` demands; it includes that the first index read, `width * 7 + 7`, lies inside the buffer |
| Display.Page | pew.py:50-54 | the data of a page is 80 bytes |
| Display.FramePages | pew.py:46-55 | each page adds three sends |
| Display.Frame | pew.py:42-55 | a frame is 24 sends, three per page |
| Display.Show | pew.py:42-55 | the sends of `show` are exactly `Frame`: per page, 0x08, 0x10, then the page address with that page's 80 bytes |
| Display.FillPage | pew.py:47-54 | the inner loop fills the 80-byte buffer with the page's patterns, walking the buffer index back from `width * (7 - page) + 7` |
| Display.FramePagesPrefix | pew.py:46-55 | later pages never change the sends of earlier ones |
| Display.ShowableScreen | pew.py:47-52 | an image of at least 8 by 8 whose top-left 8-by-8 block holds levels 0..3 can be shown: every index read is in range and names a pattern |
| Display.FrameLayout | pew.py:42-55 | 24 sends. Page p is 0x08, 0x10, then 0xB0 + p with 80 bytes, and bytes 10k to 10k + 9 are the pattern of cell (7 - k, 7 - p): the screen goes out from its bottom-right cell |
| Display.UniformFrame | pew.py:21-27 | a uniform image sends its level's pattern in every cell; level 0 sends only 0x00 bytes, level 3 only 0xFF |
| Keys.Position | pew.py:29-34 | each key has a bit position below 6 |
| Keys.Mask | pew.py:29-34 | `K_UP` to `K_X` are 2 to the power of the key's bit position |
| Keys.Pack | pew.py:58-63 | no readings pack to 0, and the reading taken last lands in bit 0 |
| Keys.ReadKeys | pew.py:58-63 | the shift-and-or loop returns `Pack` of the readings |
| Keys.PackBound | pew.py:58-63 | n readings pack below 2 to the power n |
| Keys.PackBit | pew.py:58-63 | reading i of n lands in bit n - 1 - i |
| Keys.HighBitsClear | pew.py:58-63 | a value below 2 to the power n has no bit set at or above n |
| Keys.KeysMatchConstants | pew.py:227-234 | with the pads read in the order X, O, right, left, down, up, bit `K_k` of `keys()` is set iff pad k is touched, and the value is below 0x40 |
| Keys.MasksAreDistinctBits | pew.py:29-34 | the six masks are distinct bits that together make 0x3F |

## Findings

| source | as written | input that shows it | evidently intended | confidence | as-written member | corrected member |
|---|---|---|---|---|---|---|
| pew.py:157-169 | `blit` without a key runs `self_buffer[dxx:dxx + width] = source_buffer[xx:xx + width]` for every row even when the clipped width is negative. Python then reads a negative stop as counting from the end. Depending on the input, the slice assignment grows the `bytearray`, shrinks it, or keeps its length and overwrites cells it should not touch | 8-by-8 images throughout. `blit(src, 10)` gets width -2: row 0 assigns `src[0:-2]` (62 cells) into the empty slice `buf[10:8]`, and the buffer grows from 64 to 126 cells. `blit(src, 0, 0, 10)` also gets width -2: row 0 assigns the empty `src[10:8]` to `buf[0:-2]`, and the buffer shrinks to 2 cells (`Clip.OffEdgeSliceCopyShrinksBuffer`). `blit(src, 0, 0, 0, 0, -3)` gets width -3: row 0 copies `src[0:-3]` over `buf[0:-3]`, overwriting 61 cells at the same length (`Clip.NegativeWidthSliceCopyOverwrites`) | a block clipped to nothing copies nothing, as the keyed branch (`for col in range(width)`) already does | medium; not executed, and depends on `bytearray` slice resizing in CircuitPython | Clip.OffEdgeSliceCopyGrowsBuffer | Clip.OffEdgeBlitIsNoOp |

The model's `Pixmap.Pix.Blit` copies nothing for a negative width on both branches (`Pixmap.Pix.CopyRow`).

## Left out

- `init`, `tick`, `brightness` and `GameOver` are left out. They drive the display bus at start-up, the PWM backlight, the clock and sleep, and an exception type. This is hardware and timing, with no logic of the image core.
- The display bus and the touch pads are not modelled as devices. `show` returns the list of sends, and `keys` takes the pad readings as a parameter.
- `Pix` has no default size: the source's `width=8, height=8` defaults are passed explicitly.
- Pixmap.Pix.WithBuffer: requires the buffer to hold `width * height` cells. The source does not check this, and a mismatched buffer makes later operations raise or read other rows.
- Pixmap.Pix.Blit: requires `source` not to share this image's buffer. Blitting an image onto itself reads through a view of the buffer being written, and the order effects of an overlapping copy are not modelled.
- Pixmap.Pix.Box: requires, for a non-empty clamped rectangle, that the image has cells. On a 0-wide or 0-high image the source indexes an empty `bytearray` and raises; that error path is not modelled.
- Pixmap.Pix.FromIter: requires at least one line, because the source raises on `lines[0]`. Lines are sequences of bytes; general Python iterables are not modelled.
- Pixmap.Pix.FromText: the palette has exactly four entries. The source accepts any indexable `colors`; a shorter one raises when a larger value is decoded.
- Colours and levels are bytes (0..255), as a `bytearray` stores them. Storing a larger value raises in the source, and that error path is not modelled.
- Pixmap.Pix.ToString: requires every level to be 0..3, where the source would raise on the shade lookup.
- Display.Show: requires every buffer index `show` reads to exist and to hold 0..3, where the source would raise. On an image narrower than 8, those indices run into the next row, which `Display.ShownIndex` describes but no lemma characterises.
- `blit`'s `key` is an integer or absent; other Python values are not modelled.
- The font is stored per glyph as `seq<seq<byte>>`, not as one 576-byte literal. Glyph g, row r is byte `6g + r` of `_FONT`.
