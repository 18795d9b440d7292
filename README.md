# mbed shield LCD driver, modelled in Dafny

A model of the framebuffer and drawing layer of `mbed_shield_lcd.c`, the
driver for the 128 x 32 monochrome LCD on the mbed application shield, and
proofs about it. The driver keeps a video RAM `m_videoRam[4][128]` in
which bit `y % 8` of byte `[y / 8][x]` is pixel (x, y). Every drawing
primitive reduces to `MBED_LCD_PutPixel`. The RAM goes to the panel
controller page by page as command and data bytes.

The model has these modules:

- `Geometry` holds the panel constants and their getters. It also has C's
  truncating integer division (`CDiv`) and the `(t > 0) ? t : 0` clamp
  (`Clamp0`) that the drawing code uses.
- `Raster` treats the video RAM as a value (`Ram`, four pages of 128 bytes).
  `SetPixel` is PutPixel's bit update and `Pixel` reads a pixel back.
  `PlotPoints` is the RAM after a sequence of PutPixel calls.
- `Line` models the Bresenham walk of `MBED_LCD_DrawLine` as the sequence
  of points its loop passes to PutPixel. The loop tests for the end point
  before it plots, so the end point is never drawn.
- `Shapes` gives the points plotted by DrawRect, FillRect, DrawCircle and
  FillCircle, in the order their C loops plot them, and says which pixels
  they cover.
- `Text` covers the glyph copy of WriteCharXY and WriteStringXY, and the
  guard they share.
- `Commands` models what goes to the controller as a trace of
  `Wire(a0, byte)` entries, with a0 false for a command and true for data.
  It covers set_page, set_start_line, the refresh done by VideoRam2LCD, and
  the init command script.
- `Lcd.Display` is the driver state. It holds the RAM as a real
  `array2<bv8>`, tied to a ghost `Ram` value, plus the font table and the
  trace. Each C function is an imperative method with the same loops, and
  each method is proved to produce the corresponding specification value.

The properties proved include:

- PutPixel changes exactly one bit and is idempotent.
- InitVideoRam fills every byte.
- A line plots nothing when its end points coincide. Otherwise it starts
  at the start point, never plots the end point, stays inside the end
  points' bounding box, is 8-connected, and drawing it twice equals drawing
  it once.
- FillRect colours exactly its w x h block.
- DrawRect colours exactly the perimeter.
- DrawCircle plots only on-panel points. It plots exactly the on-panel
  reflections of the offsets its loop visits, so the drawn circle is
  symmetric.
- FillCircle stays inside the disc's bounding square. Its rows are
  half-open spans.
- WriteCharXY and WriteStringXY put each glyph in its cell.
- The command bytes of set_page and set_start_line are exact.
- The layout of the refresh trace is exact: page select, start line, then
  the page's 128 bytes.

## Model

| member | source | states |
|---|---|---|
| Geometry.GetColumns | mbed_shield_lcd.c:46-49 | the panel is 128 pixels wide, a multiple of 8 |
| Geometry.GetRows | mbed_shield_lcd.c:54-57 | the panel is 32 pixels high, a multiple of 8 |
| Geometry.GetLines | mbed_shield_lcd.c:62-65 | the text lines (pages) tile the pixel rows exactly, 8 rows each |
| Geometry.GetCharPerLine | mbed_shield_lcd.c:70-73 | the 8-pixel glyph cells tile a pixel row exactly |
| Geometry.CDiv | mbed_shield_lcd.c:324 | C division truncates toward zero: the quotient's multiple lies between 0 and the dividend, within one divisor |
| Geometry.Clamp0 | mbed_shield_lcd.c:430-433 | `(t > 0) ? t : 0` is never negative, leaves a non-negative t unchanged and maps every negative t to 0 |
| Raster.Mask | mbed_shield_lcd.c:309 | the mask of row y is `1 << (y % 8)` |
| Raster.SetBits | mbed_shield_lcd.c:308-311 | `\|=` sets exactly the mask bits and `&= ~` clears exactly them; all other bits of the byte are kept |
| Raster.Pixel | mbed_shield_lcd.c:308-311 | a pixel is black exactly when bit `y % 8` of byte `[y/8][x]` is set; SetPixel, SetPixelOthers and PlotPixel state what writes do to it |
| Raster.Filled | mbed_shield_lcd.c:201-206 | every one of the 4 x 128 bytes equals the fill value |
| Raster.SetPixel | mbed_shield_lcd.c:305-312 | after PutPixel, pixel (x, y) reads back as `black`, and every other bit of byte `[y/8][x]` is as before |
| Raster.SetPixelCell | mbed_shield_lcd.c:305-312 | PutPixel leaves every byte other than `[y/8][x]` unchanged |
| Raster.SetPixelOthers | mbed_shield_lcd.c:305-312 | PutPixel leaves every other pixel unchanged |
| Raster.SetPixelIdempotent | mbed_shield_lcd.c:305-312 | putting the same pixel twice in one colour equals putting it once |
| Raster.SamePixelsSameRam | mbed_shield_lcd.c:79 | the map from pixel (x, y) to bit `y % 8` of byte `[y/8][x]` is a bijection: two RAMs showing the same picture are equal |
| Raster.PlotPoint | mbed_shield_lcd.c:305-312 | one PutPixel of a point on the panel (the primitives only pass such points); the result is again a 4 x 128 RAM |
| Raster.PlotPoints | mbed_shield_lcd.c:305-312 | the RAM after PutPixel on each point in turn, again a 4 x 128 RAM; PlotPixel states which pixels it changes |
| Raster.PlotPixel | mbed_shield_lcd.c:305-312 | after a series of PutPixel calls in one colour, a pixel has that colour exactly when it was among the points, and is unchanged otherwise |
| Raster.PlotConcat | mbed_shield_lcd.c:350-356 | drawing point sequence a and then b is drawing a + b |
| Raster.PlotTwice | mbed_shield_lcd.c:305-312 | repeating a series of PutPixel calls in one colour changes nothing |
| Line.Walk | mbed_shield_lcd.c:326-343 | from a loop state, the walk is empty exactly at the end point, and otherwise starts at the current point |
| Line.Seg.Dx | mbed_shield_lcd.c:322 | `dx = abs(x1 - x0)`: the distance along x, never negative |
| Line.Seg.Dy | mbed_shield_lcd.c:323 | `dy = abs(y1 - y0)`: the distance along y, never negative |
| Line.Seg.Err0 | mbed_shield_lcd.c:324 | the initial error term is C's truncating `((dx > dy) ? dx : -dy) / 2`: in [0, dx) for an x-major segment, in (-dy, 0] for a y-major one |
| Line.StepX | mbed_shield_lcd.c:334-337 | the test `e2 > -dx`: an x-major segment steps along x on every pass while the error term stays above the bound the loop keeps |
| Line.StepY | mbed_shield_lcd.c:339-342 | the test `e2 < dy`: a y-major segment steps along y on every pass while the error term stays below the bound the loop keeps |
| Line.NextErr | mbed_shield_lcd.c:333-342 | one pass moves the error term down by at most dy and up by at most dx |
| Line.WalkStep | mbed_shield_lcd.c:333-342 | one pass of the loop keeps the error-term invariant and takes at least one step without passing the end point, so the loop terminates |
| Line.DrawPass | mbed_shield_lcd.c:328-342 | one pass in the loop's own variables: (x, y) is plotted and, like the rest of the walk, is on the panel, `e2 > -dx` steps x, `e2 < dy` steps y, and the error term is updated as in the C code |
| Line.WalkInBox | mbed_shield_lcd.c:326-343 | every point the loop reaches is inside the end points' bounding box and is not the end point |
| Line.WalkConnected | mbed_shield_lcd.c:326-343 | consecutive plotted points are a king's move apart, and so are the last one and the end point |
| Line.LineShape | mbed_shield_lcd.c:320-344 | DrawLine plots nothing iff start equals end, otherwise plots the start point first, never plots the end point, and stays in the bounding box |
| Line.LinePoints | mbed_shield_lcd.c:320-344 | the points DrawLine plots, in order: none exactly when the end points coincide, otherwise starting at (x0, y0) |
| Line.LineConnected | mbed_shield_lcd.c:320-344 | a drawn line has no gaps |
| Line.LineInRange | mbed_shield_lcd.c:331 | end points on the panel keep every PutPixel of DrawLine on the panel |
| Line.DrawLineIdempotent | mbed_shield_lcd.c:320-344 | drawing the same line twice gives the same RAM as drawing it once |
| Line.HorizontalLine | mbed_shield_lcd.c:320-344 | a horizontal line covers exactly the half-open run from x0 toward x1 |
| Line.VerticalLine | mbed_shield_lcd.c:320-344 | a vertical line covers exactly the half-open run from y0 toward y1 |
| Shapes.RowMembers | mbed_shield_lcd.c:368-374 | the inner loop of FillRect plots exactly the w pixels from (x, y) rightward |
| Shapes.RowPoints | mbed_shield_lcd.c:368-374 | the points of FillRect's inner loop: w of them, the k-th being (x + k, y) |
| Shapes.BoxPoints | mbed_shield_lcd.c:362-378 | the points of FillRect's outer loop, row after row: w * h in all, and none when h == 0 whatever w is |
| Shapes.BoxMembers | mbed_shield_lcd.c:362-378 | FillRect plots exactly the w x h block at (x, y), w * h points |
| Shapes.BoxInRange | mbed_shield_lcd.c:372 | a block on the panel keeps every PutPixel of FillRect on the panel |
| Shapes.BoxPixels | mbed_shield_lcd.c:362-378 | FillRect sets exactly the pixels x <= px < x + w, y <= py < y + h to the colour and leaves every other pixel unchanged |
| Shapes.OutlineLines | mbed_shield_lcd.c:350-356 | the outline is the four DrawLine calls in source order |
| Shapes.OutlinePoints | mbed_shield_lcd.c:350-356 | the points of the four DrawLine calls in order: none exactly when w == 0 and h == 0, otherwise starting at corner (x, y) |
| Shapes.OutlineIsPerimeter | mbed_shield_lcd.c:350-356 | DrawRect plots exactly the points of the perimeter (membership, not multiplicity); with w == 0 and h == 0 it plots nothing |
| Shapes.OutlinePixels | mbed_shield_lcd.c:350-356 | DrawRect colours exactly the perimeter and leaves every other pixel unchanged |
| Shapes.OutlineInRange | mbed_shield_lcd.c:350-356 | corners on the panel keep every PutPixel of DrawRect on the panel |
| Shapes.Clip | mbed_shield_lcd.c:395 | a symmetric point is plotted exactly when it passes the bounds test |
| Shapes.Quad | mbed_shield_lcd.c:395-398 | four guarded plots cover exactly the on-panel points (cx +- a, cy +- b) |
| Shapes.Octants | mbed_shield_lcd.c:395-402 | one pass plots exactly the on-panel reflections of (x, y) in the eight octants |
| Shapes.CircleSteps | mbed_shield_lcd.c:391-413 | the do-while visits x, x + 1, ... and y never grows, so it terminates |
| Shapes.CircleD0 | mbed_shield_lcd.c:387 | `d = (5 - radius * 4) / 4` with C's division is 2 - radius for radius >= 2 and 1 - radius below |
| Shapes.NextD | mbed_shield_lcd.c:403-410 | while 0 <= x <= y, a negative d grows, and a d >= 0 grows by at most one |
| Shapes.NextY | mbed_shield_lcd.c:403-410 | y stays exactly when d < 0 and otherwise drops by one |
| Shapes.CircleFrom | mbed_shield_lcd.c:391-413 | every point the loop plots is on the panel |
| Shapes.CirclePoints | mbed_shield_lcd.c:385-414 | DrawCircle calls PutPixel only for points with 0 <= px <= 127 and 0 <= py <= 31 |
| Shapes.CircleNext | mbed_shield_lcd.c:403-413 | what the do-while plots after a pass is on the panel, and is nothing once `x <= y` fails |
| Shapes.CircleFromSound | mbed_shield_lcd.c:391-413 | every plotted point is on the panel and is a reflection of an offset the loop visits |
| Shapes.CircleFromComplete | mbed_shield_lcd.c:391-413 | every on-panel reflection of a visited offset is plotted: a clipped point does not affect the others |
| Shapes.CircleFromOctants | mbed_shield_lcd.c:395-402 | the pass at (x, y) plots every on-panel reflection of (x, y) |
| Shapes.CircleFromLater | mbed_shield_lcd.c:403-413 | whatever a later pass plots is plotted by the loop |
| Shapes.CircleStepsTail | mbed_shield_lcd.c:403-413 | an offset other than the first is visited by a later pass, so the loop goes on to it |
| Shapes.CircleSymmetric | mbed_shield_lcd.c:385-414 | within the panel the circle is symmetric in the vertical and horizontal axes through the centre and in the diagonal |
| Shapes.HorizontalInSquare | mbed_shield_lcd.c:449-454 | a horizontal span with both ends in the disc's bounding square stays in it |
| Shapes.RowPair | mbed_shield_lcd.c:447-450 | the points of two DrawLine calls of a pass, with the clamps of t1 and t2; RowPairMembers says which they are |
| Shapes.Spans | mbed_shield_lcd.c:447-454 | the points of the four DrawLine calls of a pass; SpansInSquare bounds them |
| Shapes.SpansInSquare | mbed_shield_lcd.c:447-454 | the four spans of a pass stay in the disc's bounding square |
| Shapes.RowPairMembers | mbed_shield_lcd.c:447-450 | a pair of mirrored spans covers rows y0 +- b from x0 - a up to but not including x0 + a |
| Shapes.FillNext | mbed_shield_lcd.c:437-445 | one pass of FillCircle's loop increments x and lowers y by at most one |
| Shapes.FillNextKeepsInv | mbed_shield_lcd.c:437-445 | a pass keeps `ddF_x == 2 * x` and `ddF_y == -2 * y` |
| Shapes.FillStart | mbed_shield_lcd.c:422-426 | the state before the loop: x = 0, y = radius, f = 1 - radius, with `ddF_x == 2 * x` and `ddF_y == -2 * y` |
| Shapes.FillFrom | mbed_shield_lcd.c:435-455 | the points `while (x < y)` plots from a state, pass by pass; FillFromInSquare bounds them |
| Shapes.FillPass | mbed_shield_lcd.c:437-454 | a pass that runs: the state is stepped, then the spans of the new state are drawn |
| Shapes.FillFromStep | mbed_shield_lcd.c:435-455 | a pass that runs draws the spans of the stepped state, then the loop goes on from there |
| Shapes.FillFromInSquare | mbed_shield_lcd.c:435-455 | every span the loop draws lies in the disc's bounding square |
| Shapes.FillHeadMembers | mbed_shield_lcd.c:429-433 | before the loop FillCircle plots the bottom and top points, and the middle row from x0 + r down to but not including x0 - r |
| Shapes.FillHeadPoints | mbed_shield_lcd.c:429-433 | the points plotted before the loop, in order; FillHeadMembers says which they are |
| Shapes.FillCircleInSquare | mbed_shield_lcd.c:420-456 | a disc on the panel is filled inside its bounding square, so every PutPixel is on the panel |
| Shapes.FillCirclePoints | mbed_shield_lcd.c:420-456 | every point FillCircle plots, in order: the points before the loop, then the loop's spans; FillCircleInSquare bounds them |
| Text.GlyphCode | mbed_shield_lcd.c:254-255 | a character code above 127 is reduced modulo 128; lower codes are kept |
| Text.CharGuardRejects | mbed_shield_lcd.c:251 | the guard as written: rejects a column above 16 or a row above 31 |
| Text.CellValid | mbed_shield_lcd.c:251-258 | the corrected guard: column below 16 and row below 4, the cells of `m_videoRam` |
| Text.PutGlyph | mbed_shield_lcd.c:257-258 | cells `[row][col*8 .. col*8+7]` become font bytes `g*8 .. g*8+7`, and every other cell is kept |
| Text.GlyphPixels | mbed_shield_lcd.c:257-258 | bit b of glyph byte i is pixel (col*8 + i, row*8 + b) |
| Text.GlyphCell | mbed_shield_lcd.c:257-258 | byte x of page p changes exactly when p == row and x / 8 == col |
| Text.StrLen | mbed_shield_lcd.c:273 | the loop runs over the characters before the first NUL |
| Text.PutTextCells | mbed_shield_lcd.c:268-280 | character k of the string lands in text cell col + k; nothing outside the string's cells changes |
| Text.PutText | mbed_shield_lcd.c:268-280 | the string's glyphs written one after another along the row, up to the NUL; PutTextCells says where each lands |
| Text.GuardAdmitsOutside | mbed_shield_lcd.c:251 | the guard as written admits column 16 and row 31, neither of which is a cell of the RAM |
| Text.CellValidExactlyInside | mbed_shield_lcd.c:251-258 | the corrected guard admits a cell exactly when all 8 of its bytes are in the RAM |
| Commands.PageSelect | mbed_shield_lcd.c:137-140 | set_page sends exactly one command: tag 0xB in the high nibble, the low nibble of p in the low nibble |
| Commands.StartLine | mbed_shield_lcd.c:131-135 | set_start_line sends exactly two commands tagged 0x1 and 0x0, and the nibbles they carry put back together give x |
| Commands.DataRun | mbed_shield_lcd.c:96-111 | sendData sends one data entry per byte |
| Commands.DataRunBytes | mbed_shield_lcd.c:101-108 | entry k of the run is byte k of the buffer, sent as data |
| Commands.DataRunAppend | mbed_shield_lcd.c:96-111 | sending two buffers one after the other sends their concatenation |
| Commands.RefreshTrace | mbed_shield_lcd.c:285-299 | the refresh of n pages is n frames of 131 entries |
| Commands.PageFrame | mbed_shield_lcd.c:289-293 | one pass of VideoRam2LCD's loop sends 131 entries: three commands, then page p as data |
| Commands.RefreshStep | mbed_shield_lcd.c:287-298 | sending page n's frame after the refresh of pages 0 .. n-1 is the refresh of pages 0 .. n |
| Commands.RefreshLayout | mbed_shield_lcd.c:285-299 | page r's frame is command 0xB0 \| r, commands 0x10 and 0x00, then the 128 bytes of page r as data, in order |
| Commands.RefreshCarriesRam | mbed_shield_lcd.c:285-299 | the data part of each frame is exactly that page of the RAM |
| Commands.InitScript | mbed_shield_lcd.c:219-234 | the init script is 11 entries, all commands |
| Lcd.Display.constructor | mbed_shield_lcd.c:79 | the RAM starts all zero (static storage), with an empty trace |
| Lcd.Display.Send | mbed_shield_lcd.c:84-94 | one byte goes out with A0 as given |
| Lcd.Display.SendData | mbed_shield_lcd.c:96-111 | the page's 128 bytes go out as data, in order |
| Lcd.Display.SetStartLine | mbed_shield_lcd.c:131-135 | appends StartLine(x) to the trace |
| Lcd.Display.SetPage | mbed_shield_lcd.c:137-140 | appends PageSelect(p) to the trace |
| Lcd.Display.Init | mbed_shield_lcd.c:212-239 | returns the hardware set-up's result; on success it sends exactly the init script, and on failure nothing |
| Lcd.Display.VideoRam2LCD | mbed_shield_lcd.c:285-299 | sends exactly the refresh trace of the current RAM, and does not change the RAM |
| Lcd.Display.InitVideoRam | mbed_shield_lcd.c:201-206 | every one of the 4 x 128 bytes becomes val |
| Lcd.Display.PutPixel | mbed_shield_lcd.c:305-312 | the RAM becomes SetPixel of the old RAM |
| Lcd.Display.PlotHead | mbed_shield_lcd.c:305-312 | one PutPixel of a primitive whose remaining points are [p] + rest leaves rest to reach the same picture |
| Lcd.Display.DrawLine | mbed_shield_lcd.c:320-344 | the loop terminates and the RAM becomes the old RAM with the Bresenham walk plotted |
| Lcd.Display.DrawRect | mbed_shield_lcd.c:350-356 | the RAM becomes the old RAM with the outline plotted |
| Lcd.Display.FillRect | mbed_shield_lcd.c:362-378 | the nested countdown loops plot the block row by row |
| Lcd.Display.FillRow | mbed_shield_lcd.c:368-375 | the inner loop plots one row of w pixels |
| Lcd.Display.PlotClipped | mbed_shield_lcd.c:395 | a guarded PutPixel plots the point only when it is on the panel |
| Lcd.Display.PlotQuad | mbed_shield_lcd.c:395-398 | four guarded PutPixel calls (cx +- a, cy +- b) plot Quad and leave the rest of the circle to draw |
| Lcd.Display.DrawCircle | mbed_shield_lcd.c:385-414 | the do-while terminates and the RAM becomes the old RAM with the clipped midpoint circle plotted |
| Lcd.Display.MirroredRows | mbed_shield_lcd.c:447-450 | two DrawLine calls of a pass plot one pair of mirrored rows |
| Lcd.Display.FillSpans | mbed_shield_lcd.c:447-454 | the four DrawLine calls of a pass plot its spans |
| Lcd.Display.SpansThen | mbed_shield_lcd.c:447-454 | the four DrawLine calls of a pass plot its spans and leave the rest of the fill to draw |
| Lcd.Display.FillCircleHead | mbed_shield_lcd.c:429-433 | the bottom point, the top point and the middle row are plotted |
| Lcd.Display.FillCircle | mbed_shield_lcd.c:420-456 | the loop terminates and the RAM becomes the old RAM with the head points and every pass's spans plotted |
| Lcd.Display.WriteCharXY | mbed_shield_lcd.c:247-261 | returns false and changes nothing when the guard rejects; otherwise copies the glyph into the cell and returns true |
| Lcd.Display.WriteStringXY | mbed_shield_lcd.c:268-280 | returns false and changes nothing when the guard rejects; otherwise writes one glyph per character up to the NUL, in successive cells |

## Left out

- SPI and GPIO traffic, the busy-wait loops and chip select (mbed_shield_lcd.c:84-111) are left out. A transfer is one entry of the trace.
- The per-byte branch of VideoRam2LCD, disabled by `#if 1`, is left out. The block `sendData` path is modelled.
- The reset pulse and its delay loops (`MBED_LCD_reset`) send no bytes, so they have no effect on the trace. Init does not model them.
- `MBED_LCD_init_hw` is peripheral register set-up and is not part of this model. Its result is the `hwReady` parameter of Init.
- `font_8x8.h` is not part of this model. The font is an arbitrary table of 128 x 8 bytes passed to the constructor.
- Lcd.Display.PutPixel requires the pixel to be on the panel. The C code has no range check and writes outside `m_videoRam` for larger coordinates.
- Lcd.Display.DrawLine requires every point it plots to be on the panel (Line.LineInRange derives this from on-panel end points; an end point one past the edge, never plotted itself, is also admitted). This rules out the `(uint8_t)` casts of off-panel coordinates at mbed_shield_lcd.c:331, which would wrap onto other pixels.
- Lcd.Display.DrawRect requires both corners on the panel, for the same reason.
- Lcd.Display.FillRect requires h >= 0, w >= 0 unless h == 0, and a block on the panel. With a negative h, or a negative w under a positive h, the C loops `for(; h; h--)` and `for(w = ww; w; w--)` count down through all of `int`; with h == 0 nothing is drawn whatever w is, and the model covers that case. With w == 0 the block is empty wherever it is, so any x and y are admitted, but the C outer loop still runs `y++` h times: when y + h exceeds 2^31 - 1 that overflows `int` (undefined behaviour), while the model draws nothing.
- Lcd.Display.FillCircle requires the whole disc to be on the panel. Within that precondition the clamps to 0 never fire.
- Lcd.Display.WriteCharXY requires an admitted cell to lie inside the RAM. The guard as written also admits column 16 and rows 4 to 31, which write outside `m_videoRam`; see Findings.
- Lcd.Display.WriteStringXY requires a non-empty string that passes the guard to end on its text line. A longer string reaches column 16, where the inner WriteCharXY writes outside the RAM, and `col` would eventually wrap as a `uint8_t`. An empty string passes the guard at any admitted cell, writes nothing and returns true, and the model covers that case.
- `int` overflow is not modelled. The drawing arithmetic is on unbounded integers. For DrawLine, DrawRect and FillCircle the preconditions keep every intermediate value small, so they agree with C; so do FillRect's, except for the w == 0 case named above.
- Lcd.Display.DrawCircle has no precondition on its centre or radius. The model computes `radius * 4` (mbed_shield_lcd.c:387) and `centerX + y` and the other guard sums (395-402) on unbounded integers. In C these overflow 32-bit `int`, which is undefined behaviour, for |radius| above about 2^29 or for a centre within radius of the `int` limits. The model promises nothing about the C code for such arguments.
- Text.GlyphCode takes `char` as unsigned, which is what the ARM (STM32F4) target the source is built for uses. On a target with signed `char`, codes 128 to 255 would be negative: the `c > 127` test at mbed_shield_lcd.c:254 would never fire and the index at 258 would be negative.
- The `len` parameter of `MBED_LCD_sendData` is not modelled separately. Its only call passes COLUMNS, so Lcd.Display.SendData sends one whole page.
- DrawRect and FillRect state their pixel-level effect through the lemmas Shapes.OutlinePixels and Shapes.BoxPixels about the point sequences that the methods are proved to plot.

## Findings

| source | as written | input that shows it | evidently intended | confidence | as-written member | corrected member |
|---|---|---|---|---|---|---|
| mbed_shield_lcd.c:251 | `col > COLUMNS / 8 \|\| row > ROWS - 1` rejects only col > 16 or row > 31 | `WriteCharXY(c, 16, 0)` writes `m_videoRam[0][128..135]`; `WriteCharXY(c, 0, 31)` writes `m_videoRam[31][0..7]` | reject col >= 16 or row >= 4 (LINES), so that every admitted cell lies in `m_videoRam` | not executed | Text.GuardAdmitsOutside | Text.CellValidExactlyInside |

The guard is modelled as written by `Text.CharGuardRejects`. The methods
return exactly what it decides. The corrected guard is `Text.CellValid`.
Every write the methods perform is required to satisfy it.
