/** The points plotted by `MBED_LCD_DrawRect`, `MBED_LCD_FillRect`,
    `MBED_LCD_DrawCircle` and `MBED_LCD_FillCircle`, in the order the C loops
    plot them. */
module Shapes {
  import opened Geometry
  import opened Raster
  import opened Line

  // ---------------------------------------------------------------- FillRect

  /** Inner loop of FillRect: `w` pixels rightward from (x, y). */
  function RowPoints(x: int, y: int, w: int): (ps: seq<Point>)
    requires w >= 0
    ensures |ps| == w && forall k :: 0 <= k < |ps| ==> ps[k] == Point(x + k, y)
    decreases w
  {
    if w == 0 then [] else [Point(x, y)] + RowPoints(x + 1, y, w - 1)
  }

  /** A row is exactly the w pixels from (x, y) rightward. */
  lemma {:induction false} RowMembers(x: int, y: int, w: int, p: Point)
    requires w >= 0
    ensures p in RowPoints(x, y, w) <==> p.y == y && x <= p.x < x + w
    ensures |RowPoints(x, y, w)| == w
    decreases w
  {
    if w > 0 {
      RowMembers(x + 1, y, w - 1, p);
    }
  }

  /** The first pixel of a row comes before the rest of the row. */
  lemma RowStep(x: int, y: int, w: int, rest: seq<Point>)
    requires w > 0
    ensures RowPoints(x, y, w) + rest == [Point(x, y)] + (RowPoints(x + 1, y, w - 1) + rest)
  {
  }

  /** Outer loop of FillRect: `h` rows downward from y, row by row, w * h
      points in all. With h == 0 the loop does not run, whatever w is. */
  function BoxPoints(x: int, y: int, w: int, h: int): (ps: seq<Point>)
    requires h >= 0 && (h == 0 || w >= 0)
    ensures |ps| == w * h
    decreases h
  {
    if h == 0 then []
    else
      assert w * h == w + w * (h - 1);
      RowPoints(x, y, w) + BoxPoints(x, y + 1, w, h - 1)
  }

  /** The points are exactly the w x h block at (x, y), w * h of them. */
  lemma {:induction false} BoxMembers(x: int, y: int, w: int, h: int, p: Point)
    requires w >= 0 && h >= 0
    ensures p in BoxPoints(x, y, w, h) <==> x <= p.x < x + w && y <= p.y < y + h
    ensures |BoxPoints(x, y, w, h)| == w * h
    decreases h
  {
    if h > 0 {
      RowMembers(x, y, w, p);
      BoxMembers(x, y + 1, w, h - 1, p);
      assert w * h == w + w * (h - 1);
    }
  }

  /** The block FillRect touches lies on the panel (nothing is plotted when
      w or h is 0, wherever the block is). */
  predicate RectFits(x: int, y: int, w: int, h: int)
  {
    w == 0 || h == 0 || (0 <= x && x + w <= Columns && 0 <= y && y + h <= Rows)
  }

  lemma BoxInRange(x: int, y: int, w: int, h: int)
    requires w >= 0 && h >= 0 && RectFits(x, y, w, h)
    ensures AllInRange(BoxPoints(x, y, w, h))
  {
    var ps := BoxPoints(x, y, w, h);
    forall k | 0 <= k < |ps| ensures InRange(ps[k].x, ps[k].y) {
      BoxMembers(x, y, w, h, ps[k]);
    }
  }

  /** Filling the block colours exactly its pixels and leaves every other
      pixel as it was. */
  lemma BoxPixels(r: Ram, x: int, y: int, w: int, h: int, c: bool)
    requires IsRam(r) && w >= 0 && h >= 0
    ensures forall px, py :: InRange(px, py) ==>
              Pixel(PlotPoints(r, BoxPoints(x, y, w, h), c), px, py) ==
              if x <= px < x + w && y <= py < y + h then c else Pixel(r, px, py)
  {
    forall px, py | InRange(px, py)
      ensures Pixel(PlotPoints(r, BoxPoints(x, y, w, h), c), px, py) ==
              if x <= px < x + w && y <= py < y + h then c else Pixel(r, px, py)
    {
      PlotPixel(r, BoxPoints(x, y, w, h), c, px, py);
      BoxMembers(x, y, w, h, Point(px, py));
    }
  }

  // ---------------------------------------------------------------- DrawRect

  /** The four DrawLine calls of DrawRect, in order. */
  function OutlinePoints(x: int, y: int, w: int, h: int): (ps: seq<Point>)
    ensures ps == [] <==> w == 0 && h == 0
    ensures ps != [] ==> ps[0] == Point(x, y)
  {
    LinePoints(Seg(x, y, x + w, y)) + LinePoints(Seg(x + w, y, x + w, y + h)) +
    LinePoints(Seg(x + w, y + h, x, y + h)) + LinePoints(Seg(x, y + h, x, y))
  }

  /** Plotting the outline is plotting its four lines one after another. */
  lemma OutlineLines(r: Ram, x: int, y: int, w: int, h: int, c: bool)
    requires IsRam(r)
    ensures PlotPoints(r, OutlinePoints(x, y, w, h), c) ==
            PlotPoints(PlotPoints(PlotPoints(PlotPoints(r,
              LinePoints(Seg(x, y, x + w, y)), c),
              LinePoints(Seg(x + w, y, x + w, y + h)), c),
              LinePoints(Seg(x + w, y + h, x, y + h)), c),
              LinePoints(Seg(x, y + h, x, y)), c)
  {
    var l1, l2 := LinePoints(Seg(x, y, x + w, y)), LinePoints(Seg(x + w, y, x + w, y + h));
    var l3, l4 := LinePoints(Seg(x + w, y + h, x, y + h)), LinePoints(Seg(x, y + h, x, y));
    PlotConcat(r, l1 + l2 + l3, l4, c);
    PlotConcat(r, l1 + l2, l3, c);
    PlotConcat(r, l1, l2, c);
  }

  predicate Between(v: int, a: int, b: int)
  {
    if a <= b then a <= v <= b else b <= v <= a
  }

  /** On the border of the rectangle with corners (x, y) and (x + w, y + h). */
  predicate OnPerimeter(x: int, y: int, w: int, h: int, p: Point)
  {
    ((p.y == y || p.y == y + h) && Between(p.x, x, x + w)) ||
    ((p.x == x || p.x == x + w) && Between(p.y, y, y + h))
  }

  /** Every line leaves out its own end point, which the next line starts
      from, yet the outline is exactly the perimeter; a rectangle with
      w == 0 and h == 0 draws nothing at all. */
  lemma OutlineIsPerimeter(x: int, y: int, w: int, h: int, p: Point)
    ensures p in OutlinePoints(x, y, w, h) <==> (w != 0 || h != 0) && OnPerimeter(x, y, w, h, p)
  {
    HorizontalLine(Seg(x, y, x + w, y), p);
    VerticalLine(Seg(x + w, y, x + w, y + h), p);
    HorizontalLine(Seg(x + w, y + h, x, y + h), p);
    VerticalLine(Seg(x, y + h, x, y), p);
  }

  /** Drawing the outline in colour c colours exactly the perimeter and
      leaves every other pixel as it was. */
  lemma OutlinePixels(r: Ram, x: int, y: int, w: int, h: int, c: bool)
    requires IsRam(r)
    ensures forall px, py :: InRange(px, py) ==>
              Pixel(PlotPoints(r, OutlinePoints(x, y, w, h), c), px, py) ==
              if (w != 0 || h != 0) && OnPerimeter(x, y, w, h, Point(px, py)) then c
              else Pixel(r, px, py)
  {
    forall px, py | InRange(px, py)
      ensures Pixel(PlotPoints(r, OutlinePoints(x, y, w, h), c), px, py) ==
              if (w != 0 || h != 0) && OnPerimeter(x, y, w, h, Point(px, py)) then c
              else Pixel(r, px, py)
    {
      OutlineIsPerimeter(x, y, w, h, Point(px, py));
      PlotPixel(r, OutlinePoints(x, y, w, h), c, px, py);
    }
  }

  lemma OutlineInRange(x: int, y: int, w: int, h: int)
    requires InRange(x, y) && InRange(x + w, y + h)
    ensures AllInRange(OutlinePoints(x, y, w, h))
  {
    LineInRange(Seg(x, y, x + w, y));
    LineInRange(Seg(x + w, y, x + w, y + h));
    LineInRange(Seg(x + w, y + h, x, y + h));
    LineInRange(Seg(x, y + h, x, y));
  }

  // -------------------------------------------------------------- DrawCircle

  /** One of the eight symmetric positions (+-a, +-b) or (+-b, +-a). */
  predicate Mirror8(s: Point, u: int, v: int)
  {
    ((u == s.x || u == -s.x) && (v == s.y || v == -s.y)) ||
    ((u == s.y || u == -s.y) && (v == s.x || v == -s.x))
  }

  /** A point kept only if it passes the bounds test DrawCircle applies
      before each PutPixel. */
  function Clip(p: Point): (ps: seq<Point>)
    ensures forall q :: q in ps <==> q == p && InRange(p.x, p.y)
  {
    if InRange(p.x, p.y) then [p] else []
  }

  /** Four guarded PutPixel calls: (cx +- a, cy +- b). */
  function Quad(cx: int, cy: int, a: int, b: int): (ps: seq<Point>)
    ensures AllInRange(ps)
    ensures forall p :: p in ps <==>
              InRange(p.x, p.y) && (p.x - cx == a || p.x - cx == -a) && (p.y - cy == b || p.y - cy == -b)
  {
    var ps := Clip(Point(cx + a, cy + b)) + Clip(Point(cx + a, cy - b)) +
              Clip(Point(cx - a, cy + b)) + Clip(Point(cx - a, cy - b));
    assert forall p :: p in ps <==>
             p in Clip(Point(cx + a, cy + b)) || p in Clip(Point(cx + a, cy - b)) ||
             p in Clip(Point(cx - a, cy + b)) || p in Clip(Point(cx - a, cy - b));
    ps
  }

  /** The eight guarded PutPixel calls of one pass, in source order. */
  function Octants(cx: int, cy: int, x: int, y: int): (ps: seq<Point>)
    ensures AllInRange(ps)
    ensures forall p :: p in ps <==> InRange(p.x, p.y) && Mirror8(Point(x, y), p.x - cx, p.y - cy)
  {
    var ps := Quad(cx, cy, x, y) + Quad(cx, cy, y, x);
    assert forall p :: p in ps <==> p in Quad(cx, cy, x, y) || p in Quad(cx, cy, y, x);
    ps
  }

  /** The decision variable after one pass of the midpoint loop. While
      0 <= x <= y, a negative decision variable grows, and one at
      or above 0 (the pass that lowers y) grows by at most one. */
  function NextD(x: int, y: int, d: int): (d': int)
    ensures 0 <= x <= y && d < 0 ==> d' > d
    ensures 0 <= x <= y && d >= 0 ==> d' <= d + 1
  {
    if d < 0 then d + 2 * x + 1 else d + 2 * (x - y) + 1
  }

  /** y stays while the decision variable is negative and drops by one
      otherwise. */
  function NextY(y: int, d: int): (y': int)
    ensures y - 1 <= y' <= y && (y' == y <==> d < 0)
  {
    if d < 0 then y else y - 1
  }

  /** The (x, y) offsets the do-while loop visits from state (x, y, d):
      x grows by one per pass and y never grows, so the loop ends. */
  function CircleSteps(x: int, y: int, d: int): (ss: seq<Point>)
    ensures |ss| >= 1 && ss[0] == Point(x, y)
    ensures forall k :: 0 <= k < |ss| ==> ss[k].x == x + k && ss[k].y <= y
    decreases y - x
  {
    var y' := NextY(y, d);
    [Point(x, y)] + if x + 1 <= y' then CircleSteps(x + 1, y', NextD(x, y, d)) else []
  }

  /** The points DrawCircle plots from state (x, y, d), pass by pass. */
  function CircleFrom(cx: int, cy: int, x: int, y: int, d: int): (ps: seq<Point>)
    ensures AllInRange(ps)
    decreases y - x, 1
  {
    Octants(cx, cy, x, y) + CircleNext(cx, cy, x, y, d)
  }

  /** What the do-while plots after its pass at (x, y, d): nothing once the
      loop test `x <= y` fails on the stepped state. */
  function CircleNext(cx: int, cy: int, x: int, y: int, d: int): (ps: seq<Point>)
    ensures AllInRange(ps)
    decreases y - x, 0
  {
    var y' := NextY(y, d);
    if x + 1 <= y' then CircleFrom(cx, cy, x + 1, y', NextD(x, y, d)) else []
  }

  /** One pass of DrawCircle: two quads, then the rest of the loop. */
  lemma CirclePass(cx: int, cy: int, x: int, y: int, d: int)
    ensures CircleFrom(cx, cy, x, y, d) ==
            Quad(cx, cy, x, y) + (Quad(cx, cy, y, x) + CircleNext(cx, cy, x, y, d))
  {
  }

  /** Initial state of DrawCircle: `d = (5 - radius * 4) / 4` (C division),
      `x = 0`, `y = radius`. */
  function CircleD0(radius: int): (d: int)
    ensures d == if radius >= 2 then 2 - radius else 1 - radius
  {
    CDiv(5 - radius * 4, 4)
  }

  /** Every point DrawCircle plots: each one on the panel, so a circle at
      (0, 0) keeps only its non-negative quarter. */
  function CirclePoints(cx: int, cy: int, radius: int): (ps: seq<Point>)
    ensures AllInRange(ps)
  {
    CircleFrom(cx, cy, 0, radius, CircleD0(radius))
  }

  /** Every plotted point is on the panel and is one of the eight
      reflections of an offset the loop visits. */
  lemma {:induction false} CircleFromSound(cx: int, cy: int, x: int, y: int, d: int, p: Point)
    returns (s: Point)
    requires p in CircleFrom(cx, cy, x, y, d)
    ensures InRange(p.x, p.y) && s in CircleSteps(x, y, d) && Mirror8(s, p.x - cx, p.y - cy)
    decreases y - x
  {
    var y' := NextY(y, d);
    var steps := CircleSteps(x, y, d);
    if p in Octants(cx, cy, x, y) {
      s := Point(x, y);
    } else {
      assert x + 1 <= y';
      s := CircleFromSound(cx, cy, x + 1, y', NextD(x, y, d), p);
      assert steps == [Point(x, y)] + CircleSteps(x + 1, y', NextD(x, y, d));
    }
  }

  /** Every reflection of a visited offset that is on the panel is plotted:
      clipping drops a reflection without affecting the others. */
  lemma {:induction false} CircleFromComplete(cx: int, cy: int, x: int, y: int, d: int, s: Point, p: Point)
    requires s in CircleSteps(x, y, d) && InRange(p.x, p.y) && Mirror8(s, p.x - cx, p.y - cy)
    ensures p in CircleFrom(cx, cy, x, y, d)
    decreases y - x
  {
    if s == Point(x, y) {
      CircleFromOctants(cx, cy, x, y, d, p);
    } else {
      CircleStepsTail(x, y, d, s);
      CircleFromComplete(cx, cy, x + 1, NextY(y, d), NextD(x, y, d), s, p);
      CircleFromLater(cx, cy, x, y, d, p);
    }
  }

  /** The pass at (x, y) plots the on-panel reflections of (x, y). */
  lemma CircleFromOctants(cx: int, cy: int, x: int, y: int, d: int, p: Point)
    requires InRange(p.x, p.y) && Mirror8(Point(x, y), p.x - cx, p.y - cy)
    ensures p in CircleFrom(cx, cy, x, y, d)
  {
    assert CircleFrom(cx, cy, x, y, d) == Octants(cx, cy, x, y) + CircleNext(cx, cy, x, y, d);
    assert p in Octants(cx, cy, x, y);
  }

  /** What a later pass plots, the loop plots. */
  lemma CircleFromLater(cx: int, cy: int, x: int, y: int, d: int, p: Point)
    requires x + 1 <= NextY(y, d) && p in CircleFrom(cx, cy, x + 1, NextY(y, d), NextD(x, y, d))
    ensures p in CircleFrom(cx, cy, x, y, d)
  {
    assert CircleNext(cx, cy, x, y, d) == CircleFrom(cx, cy, x + 1, NextY(y, d), NextD(x, y, d));
    assert CircleFrom(cx, cy, x, y, d) == Octants(cx, cy, x, y) + CircleNext(cx, cy, x, y, d);
  }

  /** An offset other than the first is visited by a later pass. */
  lemma CircleStepsTail(x: int, y: int, d: int, s: Point)
    requires s in CircleSteps(x, y, d) && s != Point(x, y)
    ensures x + 1 <= NextY(y, d) && s in CircleSteps(x + 1, NextY(y, d), NextD(x, y, d))
  {
    var y' := NextY(y, d);
    assert x + 1 <= y';
    assert CircleSteps(x, y, d) == [Point(x, y)] + CircleSteps(x + 1, y', NextD(x, y, d));
  }

  /** Within the panel the drawn circle is symmetric under reflection in the
      vertical and horizontal axes through the centre and in the diagonal. */
  lemma CircleSymmetric(cx: int, cy: int, radius: int, p: Point, q: Point)
    requires p in CirclePoints(cx, cy, radius) && InRange(q.x, q.y)
    requires q == Point(2 * cx - p.x, p.y) || q == Point(p.x, 2 * cy - p.y) ||
             q == Point(cx + (p.y - cy), cy + (p.x - cx))
    ensures q in CirclePoints(cx, cy, radius)
  {
    var d0 := CircleD0(radius);
    var s := CircleFromSound(cx, cy, 0, radius, d0, p);
    CircleFromComplete(cx, cy, 0, radius, d0, s, q);
  }

  // -------------------------------------------------------------- FillCircle

  function Abs(v: int): int { if v < 0 then -v else v }

  /** The whole disc lies on the panel, so FillCircle's clamps to 0 never
      fire and every coordinate it passes on is in range. */
  predicate DiscInRange(x0: int, y0: int, r: int)
  {
    0 <= x0 - Abs(r) && x0 + Abs(r) < Columns && 0 <= y0 - Abs(r) && y0 + Abs(r) < Rows
  }

  predicate InSquare(x0: int, y0: int, r: int, p: Point)
  {
    x0 - Abs(r) <= p.x <= x0 + Abs(r) && y0 - Abs(r) <= p.y <= y0 + Abs(r)
  }

  /** Two DrawLine calls of a pass: rows y0 + b and y0 - b from x0 - a to
      x0 + a, with the source's clamps of the left and top coordinates
      (RowPairMembers: which points these are). */
  function RowPair(x0: int, y0: int, a: int, b: int): seq<Point>
  {
    LinePoints(Seg(Clamp0(x0 - a), y0 + b, x0 + a, y0 + b)) +
    LinePoints(Seg(Clamp0(x0 - a), Clamp0(y0 - b), x0 + a, Clamp0(y0 - b)))
  }

  /** The four DrawLine calls of one pass of FillCircle's loop. */
  function Spans(x0: int, y0: int, x: int, y: int): seq<Point>
  {
    RowPair(x0, y0, x, y) + RowPair(x0, y0, y, x)
  }

  /** A horizontal DrawLine lies in the square when both ends do. */
  lemma HorizontalInSquare(x0: int, y0: int, r: int, l: Seg)
    requires l.y0 == l.y1 && InSquare(x0, y0, r, l.Start()) && InSquare(x0, y0, r, l.End())
    ensures forall k :: 0 <= k < |LinePoints(l)| ==> InSquare(x0, y0, r, LinePoints(l)[k])
  {
    LineShape(l);
  }

  /** The spans of one pass stay in the disc's bounding square. */
  lemma SpansInSquare(x0: int, y0: int, r: int, x: int, y: int)
    requires DiscInRange(x0, y0, r) && 0 <= x <= Abs(r) && 0 <= y <= Abs(r)
    ensures forall k :: 0 <= k < |Spans(x0, y0, x, y)| ==> InSquare(x0, y0, r, Spans(x0, y0, x, y)[k])
  {
    HorizontalInSquare(x0, y0, r, Seg(Clamp0(x0 - x), y0 + y, x0 + x, y0 + y));
    HorizontalInSquare(x0, y0, r, Seg(Clamp0(x0 - x), Clamp0(y0 - y), x0 + x, Clamp0(y0 - y)));
    HorizontalInSquare(x0, y0, r, Seg(Clamp0(x0 - y), y0 + x, x0 + y, y0 + x));
    HorizontalInSquare(x0, y0, r, Seg(Clamp0(x0 - y), Clamp0(y0 - x), x0 + y, Clamp0(y0 - x)));
  }

  /** For a disc on the panel, a pair of mirrored rows covers rows y0 + b and
      y0 - b from x0 - a up to but not including x0 + a: the lines run
      rightward and leave out their end points. */
  lemma RowPairMembers(x0: int, y0: int, a: int, b: int, p: Point)
    requires 0 <= a && 0 <= b && 0 <= x0 - a && 0 <= y0 - b
    ensures p in RowPair(x0, y0, a, b) <==> (p.y == y0 + b || p.y == y0 - b) && x0 - a <= p.x < x0 + a
  {
    HorizontalLine(Seg(Clamp0(x0 - a), y0 + b, x0 + a, y0 + b), p);
    HorizontalLine(Seg(Clamp0(x0 - a), Clamp0(y0 - b), x0 + a, Clamp0(y0 - b)), p);
  }

  /** The (x, y, f, ddF_x, ddF_y) update of one pass of FillCircle's loop. */
  datatype FillState = FillState(x: int, y: int, f: int, ddx: int, ddy: int)

  /** The loop keeps `ddF_x == 2 * x` and `ddF_y == -2 * y`. */
  predicate FillInv(s: FillState)
  {
    s.ddx == 2 * s.x && s.ddy == -2 * s.y
  }

  function FillNext(s: FillState): (t: FillState)
    ensures t.x == s.x + 1 && s.y - 1 <= t.y <= s.y
  {
    var y', ddy', f' := if s.f >= 0 then s.y - 1 else s.y, if s.f >= 0 then s.ddy + 2 else s.ddy,
                        if s.f >= 0 then s.f + s.ddy + 2 else s.f;
    FillState(s.x + 1, y', f' + s.ddx + 2 + 1, s.ddx + 2, ddy')
  }

  /** A pass keeps `ddF_x == 2 * x` and `ddF_y == -2 * y`. */
  lemma FillNextKeepsInv(s: FillState)
    requires FillInv(s)
    ensures FillInv(FillNext(s))
  {
  }

  /** The points `while (x < y)` plots from state s. While x < y, x grows
      and y does not, so the loop ends. */
  function FillFrom(x0: int, y0: int, r: int, s: FillState): seq<Point>
    decreases s.y - s.x, 1
  {
    if !(s.x < s.y) then [] else FillPass(x0, y0, r, s)
  }

  /** A pass of the loop that runs: the state is stepped, then the four
      spans of the new state are drawn, then the loop goes on. */
  function FillPass(x0: int, y0: int, r: int, s: FillState): seq<Point>
    requires s.x < s.y
    decreases s.y - s.x, 0
  {
    var t := FillNext(s);
    Spans(x0, y0, t.x, t.y) + FillFrom(x0, y0, r, t)
  }

  /** A pass that runs draws the spans of the stepped state, then the loop
      goes on from there. */
  lemma FillFromStep(x0: int, y0: int, r: int, s: FillState)
    requires s.x < s.y
    ensures FillFrom(x0, y0, r, s) ==
            Spans(x0, y0, FillNext(s).x, FillNext(s).y) + FillFrom(x0, y0, r, FillNext(s))
  {
    assert FillFrom(x0, y0, r, s) == FillPass(x0, y0, r, s);
  }

  /** Every span the loop draws lies in the disc's bounding square. */
  lemma {:induction false} FillFromInSquare(x0: int, y0: int, r: int, s: FillState)
    requires DiscInRange(x0, y0, r) && 0 <= s.x && s.y <= Abs(r)
    ensures forall k :: 0 <= k < |FillFrom(x0, y0, r, s)| ==> InSquare(x0, y0, r, FillFrom(x0, y0, r, s)[k])
    decreases s.y - s.x
  {
    if s.x < s.y {
      var t := FillNext(s);
      SpansInSquare(x0, y0, r, t.x, t.y);
      FillFromInSquare(x0, y0, r, t);
      assert FillFrom(x0, y0, r, s) == Spans(x0, y0, t.x, t.y) + FillFrom(x0, y0, r, t);
    }
  }

  /** Initial state: `f = 1 - radius`, `ddF_x = 0`, `ddF_y = -2 * radius`,
      `x = 0`, `y = radius`. */
  function FillStart(r: int): (s: FillState)
    ensures s.x == 0 && s.y == r && s.f == 1 - r && FillInv(s)
  {
    FillState(0, r, 1 - r, 0, -2 * r)
  }

  /** The points FillCircle plots before its loop: the bottom and (clamped)
      top point, then the (clamped) middle row. */
  function FillHeadPoints(x0: int, y0: int, r: int): seq<Point>
  {
    [Point(x0, y0 + r), Point(x0, Clamp0(y0 - r))] + LinePoints(Seg(x0 + r, y0, Clamp0(x0 - r), y0))
  }

  /** Before its loop FillCircle plots the bottom and top points of a disc on
      the panel and the middle row from x0 + r leftward, which stops short
      of x0 - r. */
  lemma FillHeadMembers(x0: int, y0: int, r: int, p: Point)
    requires DiscInRange(x0, y0, r) && r >= 0
    ensures p in FillHeadPoints(x0, y0, r) <==>
              p == Point(x0, y0 + r) || p == Point(x0, y0 - r) ||
              (p.y == y0 && x0 - r < p.x <= x0 + r)
  {
    HorizontalLine(Seg(x0 + r, y0, Clamp0(x0 - r), y0), p);
  }

  /** Every point FillCircle plots, in order: the points before the loop,
      then the loop's spans. */
  function FillCirclePoints(x0: int, y0: int, r: int): seq<Point>
  {
    FillHeadPoints(x0, y0, r) + FillFrom(x0, y0, r, FillStart(r))
  }

  /** A disc on the panel is drawn inside its bounding square, hence on the
      panel: FillCircle never writes outside `m_videoRam`. */
  lemma FillCircleInSquare(x0: int, y0: int, r: int)
    requires DiscInRange(x0, y0, r)
    ensures forall k :: 0 <= k < |FillCirclePoints(x0, y0, r)| ==>
              InSquare(x0, y0, r, FillCirclePoints(x0, y0, r)[k])
    ensures AllInRange(FillCirclePoints(x0, y0, r))
  {
    HorizontalInSquare(x0, y0, r, Seg(x0 + r, y0, Clamp0(x0 - r), y0));
    FillFromInSquare(x0, y0, r, FillStart(r));
  }
}
