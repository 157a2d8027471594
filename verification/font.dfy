/**
 * The bitmap font of `Pix.from_text`: 96 glyphs for the code points 0x20 to
 * 0x7F, each 4 columns by 6 rows of 2-bit values. Every row is one byte that
 * packs its four values least-significant pair first (leftmost column in the
 * low bits), and every byte of the table is stored XORed with a fixed salt.
 */
module Font {
  import opened Bytes

  /** The six salted row bytes of one glyph, top row first. */
  type GlyphBytes = s: seq<byte> | |s| == 6 witness [0, 0, 0, 0, 0, 0]

  /** Glyphs for 0x20 to 0x37. */
  const FONT_20: seq<GlyphBytes> := [
    [123, 123, 123, 123, 123, 123],  // 0x20 ' '
    [119, 119, 115, 123, 119, 123],  // 0x21 '!'
    [ 72,  89, 123, 123, 123, 123],  // 0x22 '"'
    [ 89,  68,  89,  68,  89, 123],  // 0x23 '#'
    [115,  85, 116,  71,  85, 115],  // 0x24 '$'
    [ 72,  91, 119, 121,  72, 123],  // 0x25 '%'
    [117,  72, 103,  72,  69, 123],  // 0x26 '&'
    [119, 115, 123, 123, 123, 123],  // 0x27 "'"
    [118, 121, 120, 121, 118, 123],  // 0x28 '('
    [103,  91,  75,  91, 103, 123],  // 0x29 ')'
    [123,  93, 102,  93, 123, 123],  // 0x2A '*'
    [123, 119,  68, 119, 123, 123],  // 0x2B '+'
    [123, 123, 123, 119, 121, 123],  // 0x2C ','
    [123, 123,  68, 123, 123, 123],  // 0x2D '-'
    [123, 123, 123, 123, 119, 123],  // 0x2E '.'
    [ 75,  95, 119, 125, 120, 123],  // 0x2F '/'
    [ 86,  72,  76,  72, 101, 123],  // 0x30 '0'
    [119, 117, 119, 119, 119, 123],  // 0x31 '1'
    [ 96,  75, 102, 121,  68, 123],  // 0x32 '2'
    [ 85,  75, 103,  75,  85, 123],  // 0x33 '3'
    [119, 125,  88,  68,  75, 123],  // 0x34 '4'
    [ 68, 120,  84,  75,  84, 123],  // 0x35 '5'
    [ 86, 120,  85,  72,  85, 123],  // 0x36 '6'
    [ 68,  91, 119, 121, 120, 123]   // 0x37 '7'
  ]

  /** Glyphs for 0x38 to 0x4F. */
  const FONT_38: seq<GlyphBytes> := [
    [ 85,  72, 102,  72,  85, 123],  // 0x38 '8'
    [ 85,  72,  69,  75, 101, 123],  // 0x39 '9'
    [123, 119, 123, 119, 123, 123],  // 0x3A ':'
    [123, 119, 123, 119, 121, 123],  // 0x3B ';'
    [ 75, 119, 120, 119,  75, 123],  // 0x3C '<'
    [123,  68, 123,  68, 123, 123],  // 0x3D '='
    [120, 119,  75, 119, 120, 123],  // 0x3E '>'
    [101,  75, 103, 123, 119, 123],  // 0x3F '?'
    [ 86,  73,  72, 121,  66, 123],  // 0x40 '@'
    [102,  89,  72,  64,  72, 123],  // 0x41 'A'
    [100,  72, 100,  72, 100, 123],  // 0x42 'B'
    [ 70, 121, 120, 121,  70, 123],  // 0x43 'C'
    [ 96,  88,  72,  88,  96, 123],  // 0x44 'D'
    [ 68, 120, 116, 120,  68, 123],  // 0x45 'E'
    [ 68, 120, 116, 120, 120, 123],  // 0x46 'F'
    [ 70, 121, 120,  73,  70, 123],  // 0x47 'G'
    [ 72,  72,  68,  72,  72, 123],  // 0x48 'H'
    [119, 119, 119, 119, 119, 123],  // 0x49 'I'
    [ 75,  75,  75,  72,  85, 123],  // 0x4A 'J'
    [ 72,  88, 112,  88,  72, 123],  // 0x4B 'K'
    [120, 120, 120, 120,  68, 123],  // 0x4C 'L'
    [ 89,  64,  68,  76,  72, 123],  // 0x4D 'M'
    [ 73,  76,  64,  76,  88, 123],  // 0x4E 'N'
    [102,  89,  72,  89, 102, 123]   // 0x4F 'O'
  ]

  /** Glyphs for 0x50 to 0x67. */
  const FONT_50: seq<GlyphBytes> := [
    [ 96,  72,  72,  96, 120, 123],  // 0x50 'P'
    [102,  89,  72,  73,  70, 123],  // 0x51 'Q'
    [ 96,  72,  72,  96,  72, 123],  // 0x52 'R'
    [ 85, 120,  85,  75,  85, 123],  // 0x53 'S'
    [ 68, 119, 119, 119, 119, 123],  // 0x54 'T'
    [ 72,  72,  72,  73,  82, 123],  // 0x55 'U'
    [ 72,  72,  72,  93, 119, 123],  // 0x56 'V'
    [ 72,  72,  76,  68,  64, 123],  // 0x57 'W'
    [ 72,  89, 115,  89,  72, 123],  // 0x58 'X'
    [ 72,  89,  98, 119, 119, 123],  // 0x59 'Y'
    [ 68,  91, 119, 121,  68, 123],  // 0x5A 'Z'
    [116, 120, 120, 120, 116, 123],  // 0x5B '['
    [120, 125, 119,  95,  75, 123],  // 0x5C '\\'
    [ 71,  75,  75,  75,  71, 123],  // 0x5D ']'
    [119,  76,  89, 123, 123, 123],  // 0x5E '^'
    [123, 123, 123, 123, 123,  68],  // 0x5F '_'
    [120, 115, 123, 123, 123, 123],  // 0x60 '`'
    [123,  66,  73,  73,  66, 123],  // 0x61 'a'
    [120,  96,  88,  88,  96, 123],  // 0x62 'b'
    [123,  66, 121, 121,  66, 123],  // 0x63 'c'
    [ 75,  66,  73,  73,  66, 123],  // 0x64 'd'
    [123,  87,  73, 112,  70, 123],  // 0x65 'e'
    [ 79, 119,  85, 119, 119, 119],  // 0x66 'f'
    [123,  96,  89,  66,  91,  96]   // 0x67 'g'
  ]

  /** Glyphs for 0x68 to 0x7F. */
  const FONT_68: seq<GlyphBytes> := [
    [120,  96,  88,  72,  72, 123],  // 0x68 'h'
    [119, 123, 118, 119,  99, 123],  // 0x69 'i'
    [ 75, 123,  79,  75,  72,  85],  // 0x6A 'j'
    [120,  72, 112,  88,  72, 123],  // 0x6B 'k'
    [118, 119, 119, 115,  95, 123],  // 0x6C 'l'
    [123, 100,  68,  64,  72, 123],  // 0x6D 'm'
    [123,  96,  88,  72,  72, 123],  // 0x6E 'n'
    [123, 102,  89,  89, 102, 123],  // 0x6F 'o'
    [123,  96,  88,  88,  96, 120],  // 0x70 'p'
    [123,  98,  89,  73,  66,  75],  // 0x71 'q'
    [123,  73, 112, 120, 120, 123],  // 0x72 'r'
    [123,  70, 125,  95, 100, 123],  // 0x73 's'
    [119,  85, 119, 115,  95, 123],  // 0x74 't'
    [123,  72,  72,  73,  86, 123],  // 0x75 'u'
    [123,  72,  72,  93, 115, 123],  // 0x76 'v'
    [123,  72,  76,  68,  64, 123],  // 0x77 'w'
    [123,  72,  98,  98,  72, 123],  // 0x78 'x'
    [123,  72,  72,  86,  91,  97],  // 0x79 'y'
    [123,  68,  95, 125,  68, 123],  // 0x7A 'z'
    [ 67, 119, 124, 119,  67, 123],  // 0x7B '{'
    [119, 119, 119, 119, 119, 119],  // 0x7C '|'
    [112, 119,  79, 119, 112, 123],  // 0x7D '}'
    [ 87,  75, 102, 120, 117, 123],  // 0x7E '~'
    [ 64,  89,  89,  89,  64, 123]   // 0x7F DEL
  ]

  /**
   * `_FONT`, the byte values of the source's bytes literal cut into glyphs:
   * `FONT[g][row]` is byte `6 * g + row` of that literal.
   */
  const FONT: seq<GlyphBytes> := (FONT_20 + FONT_38) + (FONT_50 + FONT_68)

  /** `_SALT`. */
  const SALT: bv8 := 132

  /** Number of glyphs, and the code point of the first one. */
  const GLYPH_COUNT: nat := 96
  const FIRST_CODE: nat := 0x20

  /** A stored row byte with the salt removed; salting it again gives the stored byte back. */
  function Unsalted(b: byte): (u: bv8)
    ensures u ^ SALT == b as bv8
  {
    (b as bv8) ^ SALT
  }

  /** The row byte b after `col` of the decoder's `>>= 2` steps. */
  function Shifted(b: bv8, col: nat): bv8 {
    if col == 0 then b else Shifted(b, col - 1) >> 2
  }

  /** `col` steps of `>>= 2` shift by 2 * col bits, and after four nothing is left. */
  lemma {:induction false} ShiftedClosed(b: bv8, col: nat)
    ensures col <= 4 ==> Shifted(b, col) == b >> (2 * col)
    ensures col >= 4 ==> Shifted(b, col) == 0
  {
    if col > 0 {
      ShiftedClosed(b, col - 1);
    }
  }

  /**
   * The value in column `col` of row `row` of a glyph: the low two bits of
   * the un-salted row byte after `col` shifts, so column 0 is the
   * least-significant pair.
   */
  function GlyphValue(glyph: GlyphBytes, row: nat, col: nat): (v: nat)
    requires row < 6 && col < 4
    ensures v < 4
  {
    (Shifted(Unsalted(glyph[row]), col) & 3) as nat
  }

  /**
   * The four values of a glyph row are the base-4 digits of its un-salted
   * byte, column 0 the least significant: the decoder reads every bit once
   * and in order.
   */
  lemma GlyphRowDigits(glyph: GlyphBytes, row: nat)
    requires row < 6
    ensures GlyphValue(glyph, row, 0) + 4 * GlyphValue(glyph, row, 1)
            + 16 * GlyphValue(glyph, row, 2) + 64 * GlyphValue(glyph, row, 3) == Unsalted(glyph[row]) as int
  {
    var u := Unsalted(glyph[row]);
    ShiftedClosed(u, 1);
    ShiftedClosed(u, 2);
    ShiftedClosed(u, 3);
  }

  /** The glyph of character c: `ord(c) - 0x20`, when that lies in 0..95. */
  function GlyphIndex(c: char): (r: Option<nat>)
    ensures r.Some? <==> FIRST_CODE <= c as int < FIRST_CODE + GLYPH_COUNT
    ensures r.Some? ==> r.value < GLYPH_COUNT && r.value + FIRST_CODE == c as int
  {
    var index := c as int - FIRST_CODE;
    if 0 <= index <= 95 then Some(index) else None
  }

  /**
   * The space glyph is stored as six '{' bytes (123), which un-salt to 0xFF:
   * every one of its cells has value 3.
   */
  lemma SpaceGlyphIsSolid(row: nat, col: nat)
    requires row < 6 && col < 4
    ensures GlyphIndex(' ') == Some(0)
    ensures GlyphValue(FONT[0], row, col) == 3
  {
    assert FONT[0] == [123, 123, 123, 123, 123, 123];
    assert Unsalted(FONT[0][row]) == 0xFF;
    assert col == 0 || col == 1 || col == 2 || col == 3;
  }

  /** The decoded glyph of 'A' (code point 0x41, glyph 33), row by row. */
  const GLYPH_A: seq<seq<nat>> := [
    [2, 0, 2, 3],
    [1, 3, 1, 3],
    [0, 3, 0, 3],
    [0, 1, 0, 3],
    [0, 3, 0, 3],
    [3, 3, 3, 3]
  ]

  lemma GlyphOfA(row: nat, col: nat)
    requires row < 6 && col < 4
    ensures GlyphIndex('A') == Some(33)
    ensures GlyphValue(FONT[33], row, col) == GLYPH_A[row][col]
  {
    assert FONT[33] == [102, 89, 72, 64, 72, 123];
    assert Unsalted(FONT[33][row]) == [0xE2, 0xDD, 0xCC, 0xC4, 0xCC, 0xFF][row];
    assert col == 0 || col == 1 || col == 2 || col == 3;
    assert row == 0 || row == 1 || row == 2 || row == 3 || row == 4 || row == 5;
  }
}
