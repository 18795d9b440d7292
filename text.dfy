/** 8x8 text: `MBED_LCD_WriteCharXY` and `MBED_LCD_WriteStringXY` on a RAM
    value. A glyph is 8 column bytes of the font table copied into one page,
    so bit b of glyph byte i is pixel (col * 8 + i, row * 8 + b). */
module Text {
  import opened Geometry
  import opened Raster

  /** `font8x8_basic`: 128 glyphs of 8 bytes (its data is not modelled). */
  const FontBytes: int := 128 * 8

  /** The guard both text functions test first, as written: it rejects a
      column above COLUMNS / 8 (= 16) or a row above ROWS - 1 (= 31). */
  predicate CharGuardRejects(col: int, row: int)
  {
    col > Columns / 8 || row > Rows - 1
  }

  /** A text cell whose 8 bytes lie inside `m_videoRam`. */
  predicate CellValid(col: int, row: int)
  {
    0 <= col < CharPerLine && 0 <= row < Lines
  }

  /** `if (c > 127) c %= 128;` on the unsigned `char` of the target. */
  function GlyphCode(c: uint8): (g: int)
    ensures 0 <= g < 128 && g % 128 == c % 128
    ensures c <= 127 ==> g == c
  {
    if c > 127 then c % 128 else c
  }

  /** The copy loop of WriteCharXY on a value: cells `[row][col*8 ..
      col*8+7]` become font bytes `g*8 .. g*8+7`, every other cell is kept. */
  function PutGlyph(r: Ram, font: seq<bv8>, c: uint8, col: int, row: int): (r': Ram)
    requires IsRam(r) && |font| == FontBytes && CellValid(col, row)
    ensures IsRam(r')
    ensures forall p, x :: 0 <= p < Lines && 0 <= x < Columns ==>
              r'[p][x] == if p == row && col * 8 <= x < col * 8 + 8
                          then font[GlyphCode(c) * 8 + (x - col * 8)] else r[p][x]
  {
    var g := GlyphCode(c);
    r[row := r[row][..col * 8] + font[g * 8 .. g * 8 + 8] + r[row][col * 8 + 8 ..]]
  }

  /** Glyphs are column-major, least significant bit on top: bit b of glyph
      byte i is pixel (col * 8 + i, row * 8 + b). */
  lemma GlyphPixels(r: Ram, font: seq<bv8>, c: uint8, col: int, row: int, i: int, b: int)
    requires IsRam(r) && |font| == FontBytes && CellValid(col, row)
    requires 0 <= i < 8 && 0 <= b < 8
    ensures InRange(col * 8 + i, row * 8 + b)
    ensures Pixel(PutGlyph(r, font, c, col, row), col * 8 + i, row * 8 + b) ==
            (font[GlyphCode(c) * 8 + i] & Mask(b) != 0)
  {
    assert (row * 8 + b) / 8 == row && (row * 8 + b) % 8 == b;
  }

  /** PutGlyph in text-cell terms: byte x of page p changes exactly when it
      is in cell (col, row), i.e. p == row and x / 8 == col. */
  lemma GlyphCell(r: Ram, font: seq<bv8>, c: uint8, col: int, row: int, p: int, x: int)
    requires IsRam(r) && |font| == FontBytes && CellValid(col, row)
    requires 0 <= p < Lines && 0 <= x < Columns
    ensures PutGlyph(r, font, c, col, row)[p][x] ==
            if p == row && x / 8 == col then font[GlyphCode(c) * 8 + x % 8] else r[p][x]
  {
    assert x / 8 * 8 <= x < x / 8 * 8 + 8 && x % 8 == x - x / 8 * 8;
    assert col * 8 <= x < col * 8 + 8 <==> x / 8 == col;
  }

  /** Characters before the terminating NUL (or all of them). */
  function StrLen(s: seq<uint8>): (n: int)
    ensures 0 <= n <= |s|
    ensures forall k :: 0 <= k < n ==> s[k] != 0
    ensures n < |s| ==> s[n] == 0
  {
    if s == [] || s[0] == 0 then 0 else 1 + StrLen(s[1..])
  }

  /** The loop of WriteStringXY on a value: one glyph per character, the
      column advancing by one each time. */
  function PutText(r: Ram, font: seq<bv8>, s: seq<uint8>, col: int, row: int): (r': Ram)
    requires IsRam(r) && |font| == FontBytes
    requires 0 <= row < Lines && 0 <= col && col + StrLen(s) <= CharPerLine
    ensures IsRam(r')
    decreases |s|
  {
    if s == [] || s[0] == 0 then r
    else PutText(PutGlyph(r, font, s[0], col, row), font, s[1..], col + 1, row)
  }

  /** A string lands glyph by glyph: the cells of text cell col + k hold the
      glyph of the k-th character, and nothing outside the string's cells of
      that text line changes. */
  lemma {:induction false} PutTextCells(r: Ram, font: seq<bv8>, s: seq<uint8>, col: int, row: int, p: int, x: int)
    requires IsRam(r) && |font| == FontBytes
    requires 0 <= row < Lines && 0 <= col && col + StrLen(s) <= CharPerLine
    requires 0 <= p < Lines && 0 <= x < Columns
    ensures PutText(r, font, s, col, row)[p][x] ==
            if p == row && col <= x / 8 < col + StrLen(s)
            then font[GlyphCode(s[x / 8 - col]) * 8 + x % 8] else r[p][x]
    decreases |s|
  {
    if s != [] && s[0] != 0 {
      var r1 := PutGlyph(r, font, s[0], col, row);
      PutTextCells(r1, font, s[1..], col + 1, row, p, x);
      GlyphCell(r, font, s[0], col, row, p, x);
      if p == row && col + 1 <= x / 8 < col + StrLen(s) {
        assert s[1..][x / 8 - (col + 1)] == s[x / 8 - col];
      }
    }
  }

  /** The guard as written lets through a column of 16 and rows 4 .. 31,
      whose cells are not in `m_videoRam`. */
  lemma GuardAdmitsOutside()
    ensures !CharGuardRejects(16, 0) && !CellValid(16, 0) && 16 * 8 + 7 >= Columns
    ensures !CharGuardRejects(0, 31) && !CellValid(0, 31) && 31 >= Lines
  {
  }

  /** The intended guard: a cell is accepted exactly when each of its 8
      cells is inside `m_videoRam`. */
  lemma CellValidExactlyInside(col: int, row: int)
    requires 0 <= col && 0 <= row
    ensures CellValid(col, row) <==> row < Lines && col * 8 + 7 < Columns
  {
  }
}
