/** Panel geometry of the 128 x 32 mbed shield display and the C integer
    semantics the drawing code relies on. */
module Geometry {

  /** Horizontal pixel count. */
  const Columns: int := 128
  /** Vertical pixel count. */
  const Rows: int := 32
  /** Text lines of 8x8 glyphs; one text line is one controller page. */
  const Lines: int := Rows / 8
  /** 8x8 glyphs per text line. */
  const CharPerLine: int := Columns / 8

  /** The C `uint8_t` range. */
  type uint8 = x: int | 0 <= x < 256

  /** Pixels per row of the panel, as reported to clients. */
  function GetColumns(): (n: uint8)
    ensures n == Columns && n % 8 == 0
  {
    Columns
  }

  /** Pixel rows of the panel, as reported to clients. */
  function GetRows(): (n: uint8)
    ensures n == Rows && n % 8 == 0
  {
    Rows
  }

  /** Text lines: they tile the pixel rows exactly, 8 rows each. */
  function GetLines(): (n: uint8)
    ensures n * 8 == GetRows()
  {
    Lines
  }

  /** Glyph cells per text line: they tile the pixel columns exactly. */
  function GetCharPerLine(): (n: uint8)
    ensures n * 8 == GetColumns()
  {
    CharPerLine
  }

  /** C's `/` on `int`: the quotient is truncated toward zero (Dafny's `/`
      is Euclidean, which differs for a negative dividend). */
  function CDiv(a: int, b: int): (q: int)
    requires b > 0
    ensures a >= 0 ==> 0 <= q * b <= a < q * b + b
    ensures a < 0 ==> q * b - b < a <= q * b <= 0
  {
    var n := if a >= 0 then a else -a;
    assert n == (n / b) * b + n % b && 0 <= n % b < b;
    if a >= 0 then n / b
    else
      assert -(n / b) * b == -((n / b) * b);
      -(n / b)
  }

  /** `(t > 0) ? t : 0`, the clamp FillCircle applies to left and top edges. */
  function Clamp0(t: int): (c: int)
    ensures c >= 0 && (t >= 0 ==> c == t)
    ensures t <= 0 ==> c == 0
  {
    if t > 0 then t else 0
  }
}
