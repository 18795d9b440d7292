/** The driver state of mbed_shield_lcd.c: the video RAM `m_videoRam`
    (zero at start-up, as a static array is), the font table, and the
    stream of command/data bytes sent to the panel controller so far. */
module Lcd {
  import opened Geometry
  import opened Raster
  import opened Line
  import opened Shapes
  import opened Text
  import opened Commands

  class Display {
    /** `font8x8_basic`. */
    const font: seq<bv8>
    /** `m_videoRam[LINES][COLUMNS]`. */
    const ram: array2<bv8>
    /** Every byte sent to the controller so far, in order. */
    var trace: seq<Wire>
    /** The RAM as a value. */
    ghost var Contents: Ram

    ghost predicate Valid()
      reads this`Contents, ram
    {
      |font| == FontBytes && ram.Length0 == Lines && ram.Length1 == Columns && IsRam(Contents) &&
      forall p, c :: 0 <= p < Lines && 0 <= c < Columns ==> ram[p, c] == Contents[p][c]
    }

    constructor (fontTable: seq<bv8>)
      requires |fontTable| == FontBytes
      ensures Valid() && fresh(ram)
      ensures font == fontTable && Contents == Filled(0) && trace == []
    {
      font := fontTable;
      ram := new bv8[Lines, Columns]((_, _) => 0);
      trace := [];
      Contents := Filled(0);
    }

    // ------------------------------------------------------------ transport

    /** `MBED_LCD_send(val, a0)`: one byte with A0 low (command) or high (data). */
    method Send(v: bv8, a0: bool)
      modifies this`trace
      ensures trace == old(trace) + [Wire(a0, v)]
    {
      trace := trace + [Wire(a0, v)];
    }

    /** `MBED_LCD_sendData(m_videoRam[p], COLUMNS)`: one page as data bytes. */
    method SendData(p: int)
      requires Valid() && 0 <= p < Lines
      modifies this`trace
      ensures trace == old(trace) + DataRun(Contents[p])
    {
      var k, len := 0, Columns;
      while len != 0
        invariant 0 <= len <= Columns && k == Columns - len
        invariant trace == old(trace) + DataRun(Contents[p][..k])
      {
        trace := trace + [DataByte(ram[p, k])];
        assert Contents[p][..k + 1] == Contents[p][..k] + [Contents[p][k]];
        DataRunAppend(Contents[p][..k], [Contents[p][k]]);
        k, len := k + 1, len - 1;
      }
      assert Contents[p][..k] == Contents[p];
    }

    /** `MBED_LCD_set_start_line(x)`. */
    method SetStartLine(x: bv8)
      modifies this`trace
      ensures trace == old(trace) + StartLine(x)
    {
      Send(0x10 | ((x & 0xF0) >> 4), false);
      Send(0x00 | (x & 0x0F), false);
    }

    /** `MBED_LCD_set_page(p)`. */
    method SetPage(p: bv8)
      modifies this`trace
      ensures trace == old(trace) + PageSelect(p)
    {
      Send(0xB0 | (p & 0x0F), false);
    }

    /** `MBED_LCD_init`: `hwReady` is what the hardware set-up returned. On
        success the reset pulse (no bytes) and the fixed command script go
        out; on failure nothing is sent. */
    method Init(hwReady: bool) returns (ok: bool)
      modifies this`trace
      ensures ok == hwReady
      ensures trace == old(trace) + if hwReady then InitScript() else []
    {
      if !hwReady {
        return false;
      }
      Send(0xAE, false);
      Send(0xA2, false);
      Send(0xA0, false);
      Send(0xC8, false);
      Send(0x22, false);
      Send(0x2F, false);
      Send(0x40, false);
      Send(0xAF, false);
      Send(0x81, false);
      Send(0x17, false);
      Send(0xA6, false);
      ok := true;
    }

    /** `MBED_LCD_VideoRam2LCD`: for each page in turn, the page select, the
        two start-line commands for 0, and the page's 128 bytes. The RAM is
        only read. */
    method VideoRam2LCD()
      requires Valid()
      modifies this`trace
      ensures trace == old(trace) + RefreshTrace(Contents, Lines)
    {
      var r := 0;
      while r < Lines
        invariant 0 <= r <= Lines && Valid()
        invariant trace == old(trace) + RefreshTrace(Contents, r)
      {
        SetPage(r as bv8);
        SetStartLine(0);
        SendData(r);
        RefreshStep(old(trace), Contents, r);
        r := r + 1;
      }
    }

    // ----------------------------------------------------------- video RAM

    /** `MBED_LCD_InitVideoRam(val)`: every one of the 4 x 128 bytes becomes val. */
    method InitVideoRam(val: bv8)
      requires Valid()
      modifies this`Contents, ram
      ensures Valid() && Contents == Filled(val)
      ensures forall p, c :: 0 <= p < Lines && 0 <= c < Columns ==> ram[p, c] == val
    {
      for r := 0 to Lines
        invariant forall p, c :: 0 <= p < Lines && 0 <= c < Columns ==>
                    ram[p, c] == if p < r then val else old(ram[p, c])
      {
        for x := 0 to Columns
          invariant forall p, c :: 0 <= p < Lines && 0 <= c < Columns ==>
                      ram[p, c] == if p < r || (p == r && c < x) then val else old(ram[p, c])
        {
          ram[r, x] := val;
        }
      }
      Contents := Filled(val);
    }

    /** `MBED_LCD_PutPixel(x, y, black)`: ORs or clears bit `y % 8` of byte
        `[y / 8][x]`; the source leaves the range check to its callers. */
    method PutPixel(x: int, y: int, black: bool)
      requires Valid() && InRange(x, y)
      modifies this`Contents, ram
      ensures Valid() && Contents == SetPixel(old(Contents), x, y, black)
    {
      if black {
        ram[y / 8, x] := ram[y / 8, x] | ((1 as bv8) << (y % 8));
      } else {
        ram[y / 8, x] := ram[y / 8, x] & !((1 as bv8) << (y % 8));
      }
      Contents := SetPixel(Contents, x, y, black);
    }

    // ---------------------------------------------------------- primitives

    /** One PutPixel of a primitive whose remaining points are `[p] + rest`:
        afterwards only `rest` remains to reach the same picture. */
    method PlotHead(p: Point, ghost rest: seq<Point>, color: bool, ghost goal: Ram)
      requires Valid() && InRange(p.x, p.y) && PlotPoints(Contents, [p] + rest, color) == goal
      modifies this`Contents, ram
      ensures Valid() && PlotPoints(Contents, rest, color) == goal
    {
      PlotCons(Contents, p, rest, color);
      PutPixel(p.x, p.y, color);
    }

    /** `MBED_LCD_DrawLine`: Bresenham from (x0, y0) toward (x1, y1), testing
        for the end point before plotting. */
    method DrawLine(x0: int, y0: int, x1: int, y1: int, color: bool)
      requires Valid() && AllInRange(LinePoints(Seg(x0, y0, x1, y1)))
      modifies this`Contents, ram
      ensures Valid()
      ensures Contents == PlotPoints(old(Contents), LinePoints(Seg(x0, y0, x1, y1)), color)
    {
      ghost var l := Seg(x0, y0, x1, y1);
      ghost var goal := PlotPoints(Contents, LinePoints(l), color);
      var dx, sx := if x0 < x1 then x1 - x0 else x0 - x1, if x0 < x1 then 1 else -1;
      var dy, sy := if y0 < y1 then y1 - y0 else y0 - y1, if y0 < y1 then 1 else -1;
      var err := CDiv(if dx > dy then dx else -dy, 2);
      var x, y := x0, y0;
      ghost var i: nat, j: nat := 0, 0;
      assert dx == l.Dx() && dy == l.Dy() && err == l.Err0();
      while true
        invariant Valid()
        invariant WalkInv(l, i, j, err) && x == l.AtX(i) && y == l.AtY(j)
        invariant AllInRange(Walk(l, i, j, err))
        invariant PlotPoints(Contents, Walk(l, i, j, err), color) == goal
        decreases l.Dx() - i + l.Dy() - j
      {
        if x == x1 && y == y1 {
          break;
        }
        ghost var i', j', err' := DrawPass(l, i, j, err, x, y);
        ghost var rest := Walk(l, i', j', err');
        PlotHead(Point(x, y), rest, color, goal);
        var e2 := err;
        if e2 > -dx {
          err := err - dy;
          x := x + sx;
        }
        if e2 < dy {
          err := err + dx;
          y := y + sy;
        }
        i, j := i', j';
        assert err == err';
      }
      PlotNothing(Contents, color);
    }

    /** `MBED_LCD_DrawRect`: four lines around the rectangle with corners
        (x, y) and (x + w, y + h); OutlinePixels shows that this colours
        exactly the perimeter. */
    method DrawRect(x: int, y: int, w: int, h: int, color: bool)
      requires Valid() && InRange(x, y) && InRange(x + w, y + h)
      modifies this`Contents, ram
      ensures Valid() && Contents == PlotPoints(old(Contents), OutlinePoints(x, y, w, h), color)
    {
      OutlineLines(Contents, x, y, w, h, color);
      LineInRange(Seg(x, y, x + w, y));
      DrawLine(x, y, x + w, y, color);
      LineInRange(Seg(x + w, y, x + w, y + h));
      DrawLine(x + w, y, x + w, y + h, color);
      LineInRange(Seg(x + w, y + h, x, y + h));
      DrawLine(x + w, y + h, x, y + h, color);
      LineInRange(Seg(x, y + h, x, y));
      DrawLine(x, y + h, x, y, color);
    }

    /** `MBED_LCD_FillRect`: h rows of w pixels, counting both down to 0;
        BoxPixels shows that exactly the w x h block at (x, y) becomes
        `color`. */
    method FillRect(x: int, y: int, w: int, h: int, color: bool)
      requires Valid() && h >= 0 && (h == 0 || w >= 0) && RectFits(x, y, w, h)
      modifies this`Contents, ram
      ensures Valid() && Contents == PlotPoints(old(Contents), BoxPoints(x, y, w, h), color)
    {
      ghost var goal := PlotPoints(Contents, BoxPoints(x, y, w, h), color);
      var ww, xx := w, x;
      var cy, hc := y, h;
      while hc != 0
        invariant Valid() && 0 <= hc <= h && cy == y + (h - hc) && (hc == 0 || w >= 0)
        invariant PlotPoints(Contents, BoxPoints(x, cy, w, hc), color) == goal
      {
        FillRow(xx, cy, ww, color, BoxPoints(x, cy + 1, w, hc - 1), goal);
        cy := cy + 1;
        hc := hc - 1;
      }
      PlotNothing(Contents, color);
    }

    /** The inner loop of FillRect: w pixels rightward from (x, y), of a
        fill whose remaining points are that row followed by `below`. */
    method FillRow(x: int, y: int, w: int, color: bool, ghost below: seq<Point>, ghost goal: Ram)
      requires Valid() && w >= 0 && (w == 0 || (0 <= x && x + w <= Columns && 0 <= y < Rows))
      requires PlotPoints(Contents, RowPoints(x, y, w) + below, color) == goal
      modifies this`Contents, ram
      ensures Valid() && PlotPoints(Contents, below, color) == goal
    {
      var cx, wc := x, w;
      while wc != 0
        invariant Valid() && 0 <= wc <= w && cx == x + (w - wc)
        invariant PlotPoints(Contents, RowPoints(cx, y, wc) + below, color) == goal
      {
        RowStep(cx, y, wc, below);
        PlotHead(Point(cx, y), RowPoints(cx + 1, y, wc - 1) + below, color, goal);
        cx := cx + 1;
        wc := wc - 1;
      }
      assert RowPoints(cx, y, wc) + below == below;
    }

    /** One guarded `PutPixel` of DrawCircle, plotted only when on the panel,
        of a primitive whose remaining points are `Clip(p) + rest`:
        afterwards only `rest` remains. */
    method PlotClipped(p: Point, color: bool, ghost rest: seq<Point>, ghost goal: Ram)
      requires Valid() && PlotPoints(Contents, Clip(p) + rest, color) == goal
      modifies this`Contents, ram
      ensures Valid() && PlotPoints(Contents, rest, color) == goal
    {
      if 0 <= p.x && p.x <= Columns - 1 && 0 <= p.y && p.y <= Rows - 1 {
        assert Clip(p) + rest == [p] + rest;
        PlotHead(p, rest, color, goal);
      } else {
        assert Clip(p) + rest == rest;
      }
    }

    /** Four of DrawCircle's eight guarded plots, (cx +- a, cy +- b), of a
        primitive whose remaining points are `Quad(cx, cy, a, b) + rest`. */
    method PlotQuad(cx: int, cy: int, a: int, b: int, color: bool, ghost rest: seq<Point>, ghost goal: Ram)
      requires Valid() && PlotPoints(Contents, Quad(cx, cy, a, b) + rest, color) == goal
      modifies this`Contents, ram
      ensures Valid() && PlotPoints(Contents, rest, color) == goal
    {
      ghost var q1, q2 := Clip(Point(cx + a, cy + b)), Clip(Point(cx + a, cy - b));
      ghost var q3, q4 := Clip(Point(cx - a, cy + b)), Clip(Point(cx - a, cy - b));
      assert Quad(cx, cy, a, b) + rest == q1 + (q2 + (q3 + (q4 + rest)));
      PlotClipped(Point(cx + a, cy + b), color, q2 + (q3 + (q4 + rest)), goal);
      PlotClipped(Point(cx + a, cy - b), color, q3 + (q4 + rest), goal);
      PlotClipped(Point(cx - a, cy + b), color, q4 + rest, goal);
      PlotClipped(Point(cx - a, cy - b), color, rest, goal);
    }

    /** `MBED_LCD_DrawCircle`: the midpoint circle, each of the eight
        symmetric points plotted only when it is on the panel. */
    method DrawCircle(centerX: int, centerY: int, radius: int, colorSet: bool)
      requires Valid()
      modifies this`Contents, ram
      ensures Valid()
      ensures Contents == PlotPoints(old(Contents), CirclePoints(centerX, centerY, radius), colorSet)
    {
      ghost var goal := PlotPoints(Contents, CirclePoints(centerX, centerY, radius), colorSet);
      var d := CDiv(5 - radius * 4, 4);
      var x := 0;
      var y := radius;
      while true
        invariant Valid()
        invariant PlotPoints(Contents, CircleFrom(centerX, centerY, x, y, d), colorSet) == goal
        decreases y - x
      {
        ghost var rest := CircleNext(centerX, centerY, x, y, d);
        ghost var x', y', d' := x + 1, NextY(y, d), NextD(x, y, d);
        CirclePass(centerX, centerY, x, y, d);
        PlotQuad(centerX, centerY, x, y, colorSet, Quad(centerX, centerY, y, x) + rest, goal);
        PlotQuad(centerX, centerY, y, x, colorSet, rest, goal);
        if d < 0 {
          d := d + 2 * x + 1;
        } else {
          d := d + 2 * (x - y) + 1;
          y := y - 1;
        }
        x := x + 1;
        assert x == x' && y == y' && d == d';
        if !(x <= y) {
          PlotNothing(Contents, colorSet);
          break;
        }
      }
    }

    /** The four DrawLine calls of one pass of FillCircle's loop. */
    method FillSpans(x0: int, y0: int, x: int, y: int, color: bool, ghost radius: int)
      requires Valid() && DiscInRange(x0, y0, radius) && 0 <= x <= Abs(radius) && 0 <= y <= Abs(radius)
      modifies this`Contents, ram
      ensures Valid() && Contents == PlotPoints(old(Contents), Spans(x0, y0, x, y), color)
    {
      ghost var c0 := Contents;
      MirroredRows(x0, y0, x, y, color);
      MirroredRows(x0, y0, y, x, color);
      PlotConcat(c0, RowPair(x0, y0, x, y), RowPair(x0, y0, y, x), color);
    }

    /** The spans of one pass of a fill whose remaining points are those
        spans followed by `rest`: afterwards only `rest` remains. */
    method SpansThen(x0: int, y0: int, x: int, y: int, color: bool, ghost radius: int,
                     ghost rest: seq<Point>, ghost goal: Ram)
      requires Valid() && DiscInRange(x0, y0, radius) && 0 <= x <= Abs(radius) && 0 <= y <= Abs(radius)
      requires PlotPoints(Contents, Spans(x0, y0, x, y) + rest, color) == goal
      modifies this`Contents, ram
      ensures Valid() && PlotPoints(Contents, rest, color) == goal
    {
      ghost var c1 := Contents;
      FillSpans(x0, y0, x, y, color, radius);
      PlotConcat(c1, Spans(x0, y0, x, y), rest, color);
    }

    /** Two DrawLine calls of one pass of FillCircle's loop: rows y0 + b and
        y0 - b (clamped to 0) from x0 - a (clamped to 0) to x0 + a. */
    method MirroredRows(x0: int, y0: int, a: int, b: int, color: bool)
      requires Valid() && 0 <= a && 0 <= b && 0 <= x0 - a && x0 + a < Columns && 0 <= y0 - b && y0 + b < Rows
      modifies this`Contents, ram
      ensures Valid() && Contents == PlotPoints(old(Contents), RowPair(x0, y0, a, b), color)
    {
      ghost var c0 := Contents;
      var t1, t2;
      t1 := x0 - a;
      t2 := y0 - b;
      LineInRange(Seg(Clamp0(t1), y0 + b, x0 + a, y0 + b));
      DrawLine(Clamp0(t1), y0 + b, x0 + a, y0 + b, color);
      LineInRange(Seg(Clamp0(t1), Clamp0(t2), x0 + a, Clamp0(t2)));
      DrawLine(Clamp0(t1), Clamp0(t2), x0 + a, Clamp0(t2), color);
      PlotConcat(c0, LinePoints(Seg(Clamp0(t1), y0 + b, x0 + a, y0 + b)),
                 LinePoints(Seg(Clamp0(t1), Clamp0(t2), x0 + a, Clamp0(t2))), color);
    }

    /** `MBED_LCD_FillCircle`, for a disc that lies on the panel (so the
        clamps to 0 change nothing): the bottom and top points, the middle
        row, then two pairs of mirrored rows per pass of the loop. */
    method FillCircle(x0: int, y0: int, radius: int, color: bool)
      requires Valid() && DiscInRange(x0, y0, radius)
      modifies this`Contents, ram
      ensures Valid()
      ensures Contents == PlotPoints(old(Contents), FillCirclePoints(x0, y0, radius), color)
    {
      ghost var goal := PlotPoints(Contents, FillCirclePoints(x0, y0, radius), color);
      var f := 1 - radius;
      var ddF_x := 0;
      var ddF_y := -2 * radius;
      var x := 0;
      var y := radius;
      FillCircleHead(x0, y0, radius, color);
      PlotConcat(old(Contents), FillHeadPoints(x0, y0, radius), FillFrom(x0, y0, radius, FillStart(radius)), color);
      assert FillStart(radius) == FillState(x, y, f, ddF_x, ddF_y);
      while x < y
        invariant Valid() && 0 <= x && y <= Abs(radius)
        invariant PlotPoints(Contents, FillFrom(x0, y0, radius, FillState(x, y, f, ddF_x, ddF_y)), color) == goal
        decreases y - x
      {
        ghost var s := FillState(x, y, f, ddF_x, ddF_y);
        ghost var t := FillNext(s);
        FillFromStep(x0, y0, radius, s);
        if f >= 0 {
          y := y - 1;
          ddF_y := ddF_y + 2;
          f := f + ddF_y;
        }
        x := x + 1;
        ddF_x := ddF_x + 2;
        f := f + ddF_x + 1;
        assert FillState(x, y, f, ddF_x, ddF_y) == t;
        SpansThen(x0, y0, x, y, color, radius, FillFrom(x0, y0, radius, t), goal);
      }
      PlotNothing(Contents, color);
    }

    /** The part of FillCircle before its loop: the bottom point, the top
        point (row clamped to 0), and the middle row from x0 + radius to
        x0 - radius (clamped to 0). */
    method FillCircleHead(x0: int, y0: int, radius: int, color: bool)
      requires Valid() && DiscInRange(x0, y0, radius)
      modifies this`Contents, ram
      ensures Valid() && Contents == PlotPoints(old(Contents), FillHeadPoints(x0, y0, radius), color)
    {
      ghost var goal := PlotPoints(Contents, FillHeadPoints(x0, y0, radius), color);
      ghost var mid := LinePoints(Seg(x0 + radius, y0, Clamp0(x0 - radius), y0));
      var t1;
      assert FillHeadPoints(x0, y0, radius) == [Point(x0, y0 + radius)] + ([Point(x0, Clamp0(y0 - radius))] + mid);
      PlotHead(Point(x0, y0 + radius), [Point(x0, Clamp0(y0 - radius))] + mid, color, goal);
      t1 := y0 - radius;
      PlotHead(Point(x0, Clamp0(t1)), mid, color, goal);
      t1 := x0 - radius;
      LineInRange(Seg(x0 + radius, y0, Clamp0(t1), y0));
      DrawLine(x0 + radius, y0, Clamp0(t1), y0, color);
    }

    // ---------------------------------------------------------------- text

    /** `MBED_LCD_WriteCharXY(c, col, row)`: rejected (false, nothing
        written) when the guard as written rejects; otherwise the glyph of
        `c` (reduced modulo 128) is copied into cells `[row][col*8 .. col*8+7]`.
        The guard admits cells outside the RAM, which callers must not pass. */
    method WriteCharXY(c: uint8, col: uint8, row: uint8) returns (ok: bool)
      requires Valid() && (CharGuardRejects(col, row) || CellValid(col, row))
      modifies this`Contents, ram
      ensures Valid() && ok == !CharGuardRejects(col, row)
      ensures Contents == if ok then PutGlyph(old(Contents), font, c, col, row) else old(Contents)
    {
      if col > Columns / 8 || row > Rows - 1 {
        return false;
      }
      var g := c;
      if g > 127 {
        g := g % 128;
      }
      for i := 0 to 8
        invariant Contents == old(Contents)
        invariant forall p, x :: 0 <= p < Lines && 0 <= x < Columns ==>
                    ram[p, x] == if p == row && col * 8 <= x < col * 8 + i
                                 then font[g * 8 + (x - col * 8)] else old(ram[p, x])
      {
        ram[row, col * 8 + i] := font[g * 8 + i];
      }
      Contents := PutGlyph(Contents, font, c, col, row);
      ok := true;
    }

    /** `MBED_LCD_WriteStringXY(s, col, row)`: the same guard on the first
        cell, then one glyph per character up to the NUL, the column
        advancing each time; an empty string writes nothing. Callers must
        keep a non-empty string on its text line. */
    method WriteStringXY(s: seq<uint8>, col: uint8, row: uint8) returns (ok: bool)
      requires Valid()
      requires CharGuardRejects(col, row) || StrLen(s) == 0 || (row < Lines && col + StrLen(s) <= CharPerLine)
      modifies this`Contents, ram
      ensures Valid() && ok == !CharGuardRejects(col, row)
      ensures Contents == if ok && StrLen(s) > 0 then PutText(old(Contents), font, s, col, row) else old(Contents)
    {
      if col > Columns / 8 || row > Rows - 1 {
        return false;
      }
      var i := 0;
      var cc: uint8 := col;
      while i < |s| && s[i] != 0
        invariant Valid() && 0 <= i <= StrLen(s) && cc == col + i
        invariant StrLen(s[i..]) == StrLen(s) - i
        invariant StrLen(s) == 0 ==> Contents == old(Contents)
        invariant StrLen(s) > 0 ==>
                    PutText(Contents, font, s[i..], cc, row) == PutText(old(Contents), font, s, col, row)
      {
        assert s[i..][1..] == s[i + 1..];
        var _ := WriteCharXY(s[i], cc, row);
        i := i + 1;
        cc := cc + 1;
      }
      ok := true;
    }
  }
}
