/** The Bresenham walk of `MBED_LCD_DrawLine`: the sequence of points the
    loop passes to PutPixel. The loop tests for the end point BEFORE it plots,
    so the end point itself is never plotted. */
module Line {
  import opened Geometry
  import opened Raster

  /** A call `DrawLine(x0, y0, x1, y1, ...)`. */
  datatype Seg = Seg(x0: int, y0: int, x1: int, y1: int) {
    /** `dx`: distance along x. */
    function Dx(): (d: int) ensures d >= 0 { if x0 < x1 then x1 - x0 else x0 - x1 }
    /** `dy`: distance along y. */
    function Dy(): (d: int) ensures d >= 0 { if y0 < y1 then y1 - y0 else y0 - y1 }
    /** Initial error term `((dx > dy) ? dx : -dy) / 2`, with C's division:
        half the major distance, positive along x, negative along y. */
    function Err0(): (e: int)
      ensures e == CDiv(if Dx() > Dy() then Dx() else -Dy(), 2)
      ensures Dx() > Dy() ==> 0 <= e < Dx()
      ensures Dx() <= Dy() ==> e <= 0 && (Dy() > 0 ==> e + Dy() > 0)
    {
      if Dx() > Dy() then Dx() / 2 else -(Dy() / 2)
    }
    /** The point after `i` steps of `sx` and `j` steps of `sy`. */
    function At(i: int, j: int): Point
    {
      Point(AtX(i), AtY(j))
    }
    /** The column after `i` steps of `sx`. */
    function AtX(i: int): int { if x0 < x1 then x0 + i else x0 - i }
    /** The row after `j` steps of `sy`. */
    function AtY(j: int): int { if y0 < y1 then y0 + j else y0 - j }
    function Start(): Point { Point(x0, y0) }
    function End(): Point { Point(x1, y1) }
    /** Inside the bounding box of the two end points. */
    predicate InBox(p: Point)
    {
      (if x0 < x1 then x0 <= p.x <= x1 else x1 <= p.x <= x0) &&
      (if y0 < y1 then y0 <= p.y <= y1 else y1 <= p.y <= y0)
    }
  }

  /** n * d, counted out step by step: one more step of the loop adds one
      more d to the error term. */
  function Scale(n: nat, d: int): int
  {
    if n == 0 then 0 else Scale(n - 1, d) + d
  }

  lemma {:induction false} ScaleIsMul(n: nat, d: int)
    ensures Scale(n, d) == n * d
  {
    if n > 0 {
      ScaleIsMul(n - 1, d);
    }
  }

  /** What holds at the top of every pass after `i` x-steps and `j` y-steps:
      the error term is the scaled distance from the ideal line, and along the
      major axis a step is always taken, without passing the end point. */
  predicate WalkInv(l: Seg, i: int, j: int, err: int)
  {
    0 <= i <= l.Dx() && 0 <= j <= l.Dy() &&
    err == l.Err0() + Scale(j, l.Dx()) - Scale(i, l.Dy()) &&
    (l.Dx() > l.Dy() ==> err > l.Err0() - l.Dx()) &&
    (l.Dx() <= l.Dy() && l.Dy() > 0 ==> err < l.Err0() + l.Dy())
  }

  /** The x-step test `e2 > -dx` of one pass (`e2` is the old `err`). An
      x-major segment steps along x on every pass whose error term is above
      the bound WalkInv keeps. */
  function StepX(l: Seg, err: int): (b: bool)
    ensures l.Dx() > l.Dy() && err > l.Err0() - l.Dx() ==> b
  {
    err > -l.Dx()
  }

  /** A y-major segment steps along y on every pass whose error term is
      below the bound WalkInv keeps. */
  function StepY(l: Seg, err: int): (b: bool)
    ensures l.Dx() <= l.Dy() && err < l.Err0() + l.Dy() ==> b
  {
    err < l.Dy()
  }

  /** The error term after a pass moves down by at most dy and up by at
      most dx. */
  function NextErr(l: Seg, err: int): (e: int)
    ensures err - l.Dy() <= e <= err + l.Dx()
  {
    err - (if StepX(l, err) then l.Dy() else 0) + (if StepY(l, err) then l.Dx() else 0)
  }

  lemma MulLeq(a: int, b: int, c: nat)
    requires a <= b
    ensures a * c <= b * c
  {
  }

  /** The loop keeps WalkInv, and takes at least one step per pass. */
  lemma WalkStep(l: Seg, i: int, j: int, err: int)
    requires WalkInv(l, i, j, err) && !(i == l.Dx() && j == l.Dy())
    ensures StepX(l, err) || StepY(l, err)
    ensures WalkInv(l, i + (if StepX(l, err) then 1 else 0), j + (if StepY(l, err) then 1 else 0), NextErr(l, err))
  {
    var dx, dy, e0 := l.Dx(), l.Dy(), l.Err0();
    var i', j' := i + (if StepX(l, err) then 1 else 0), j + (if StepY(l, err) then 1 else 0);
    if dx > dy {
      XMajorStep(l, i, j, err);
    } else {
      YMajorStep(l, i, j, err);
    }
  }

  /** The arithmetic of an x-major pass (dx > dy), on plain integers. */
  lemma XMajorArith(dx: int, dy: int, e0: int, i: int, j: int, err: int)
    requires 0 <= dy < dx && 0 <= e0 < dx && 0 <= i <= dx && 0 <= j <= dy && !(i == dx && j == dy)
    requires err == e0 + j * dx - i * dy && err > e0 - dx
    ensures err > -dx && i < dx && (err < dy ==> j < dy)
    ensures err - dy + (if err < dy then dx else 0) > e0 - dx
  {
    if j < dy {
      MulLeq(j, dy - 1, dx);
    }
    if i < dx {
      MulLeq(i, dx - 1, dy);
    }
  }

  /** The arithmetic of a y-major pass (dx <= dy, dy > 0), on plain integers. */
  lemma YMajorArith(dx: int, dy: int, e0: int, i: int, j: int, err: int)
    requires 0 <= dx <= dy && 0 < dy && e0 <= 0 && e0 + dy > 0
    requires 0 <= i <= dx && 0 <= j <= dy && !(i == dx && j == dy)
    requires err == e0 + j * dx - i * dy && err < e0 + dy
    ensures err < dy && j < dy && (err > -dx ==> i < dx)
    ensures err - (if err > -dx then dy else 0) + dx < e0 + dy
  {
    if i < dx {
      MulLeq(i, dx - 1, dy);
    }
    if j < dy {
      MulLeq(j, dy - 1, dx);
    }
  }

  /** x-major segments: every pass steps along x, and never past x1. */
  lemma XMajorStep(l: Seg, i: int, j: int, err: int)
    requires WalkInv(l, i, j, err) && !(i == l.Dx() && j == l.Dy()) && l.Dx() > l.Dy()
    ensures StepX(l, err) && i < l.Dx()
    ensures StepY(l, err) ==> j < l.Dy()
    ensures NextErr(l, err) > l.Err0() - l.Dx()
  {
    var dx, dy, e0 := l.Dx(), l.Dy(), l.Err0();
    ScaleIsMul(i, dy);
    ScaleIsMul(j, dx);
    XMajorArith(dx, dy, e0, i, j, err);
  }

  /** y-major segments: every pass steps along y, and never past y1. */
  lemma YMajorStep(l: Seg, i: int, j: int, err: int)
    requires WalkInv(l, i, j, err) && !(i == l.Dx() && j == l.Dy()) && l.Dx() <= l.Dy()
    ensures StepY(l, err) && j < l.Dy()
    ensures StepX(l, err) ==> i < l.Dx()
    ensures NextErr(l, err) < l.Err0() + l.Dy()
  {
    var dx, dy, e0 := l.Dx(), l.Dy(), l.Err0();
    assert dy > 0;
    ScaleIsMul(i, dy);
    ScaleIsMul(j, dx);
    YMajorArith(dx, dy, e0, i, j, err);
  }

  /** The points the loop plots from the state (i, j, err) on: none once
      the end point is reached, otherwise starting at the current point. */
  function Walk(l: Seg, i: nat, j: nat, err: int): (ps: seq<Point>)
    requires WalkInv(l, i, j, err)
    ensures ps == [] <==> i == l.Dx() && j == l.Dy()
    ensures ps != [] ==> ps[0] == l.At(i, j)
    decreases l.Dx() - i + l.Dy() - j, 1
  {
    if i == l.Dx() && j == l.Dy() then [] else WalkOn(l, i, j, err)
  }

  /** A pass that does not stop: the current point, then the walk from the
      stepped state. (A function of its own, so that unfolding Walk once does
      not yet expose the step.) */
  function WalkOn(l: Seg, i: nat, j: nat, err: int): (ps: seq<Point>)
    requires WalkInv(l, i, j, err) && !(i == l.Dx() && j == l.Dy())
    ensures ps != [] && ps[0] == l.At(i, j)
    decreases l.Dx() - i + l.Dy() - j, 0
  {
    WalkStep(l, i, j, err);
    var i' := i + if StepX(l, err) then 1 else 0;
    var j' := j + if StepY(l, err) then 1 else 0;
    [l.At(i, j)] + Walk(l, i', j', NextErr(l, err))
  }

  /** Every point of the walk lies in the end points' bounding box and
      differs from the end point. */
  lemma {:induction false} WalkInBox(l: Seg, i: nat, j: nat, err: int)
    requires WalkInv(l, i, j, err)
    ensures forall k :: 0 <= k < |Walk(l, i, j, err)| ==>
              l.InBox(Walk(l, i, j, err)[k]) && Walk(l, i, j, err)[k] != l.End()
    decreases l.Dx() - i + l.Dy() - j
  {
    if !(i == l.Dx() && j == l.Dy()) {
      WalkUnfold(l, i, j, err);
      var i' := i + if StepX(l, err) then 1 else 0;
      var j' := j + if StepY(l, err) then 1 else 0;
      WalkInBox(l, i', j', NextErr(l, err));
    }
  }

  /** One pass of the loop: the current point is plotted, then the walk goes
      on from the stepped state. */
  lemma WalkUnfold(l: Seg, i: nat, j: nat, err: int)
    requires WalkInv(l, i, j, err) && !(i == l.Dx() && j == l.Dy())
    ensures WalkInv(l, i + (if StepX(l, err) then 1 else 0), j + (if StepY(l, err) then 1 else 0), NextErr(l, err))
    ensures Walk(l, i, j, err) ==
            [l.At(i, j)] + Walk(l, i + (if StepX(l, err) then 1 else 0), j + (if StepY(l, err) then 1 else 0), NextErr(l, err))
  {
    WalkStep(l, i, j, err);
    assert Walk(l, i, j, err) == WalkOn(l, i, j, err);
  }

  /** One pass of the `DrawLine` loop body, in the loop's own variables:
      the pixel at (x, y) is plotted, then the x step is taken when
      `e2 > -dx` and the y step when `e2 < dy`. The loop keeps WalkInv and
      its position, and what is left of the walk is the plotted point
      followed by the walk from the stepped state. */
  lemma DrawPass(l: Seg, i: nat, j: nat, err: int, x: int, y: int) returns (i': nat, j': nat, err': int)
    requires WalkInv(l, i, j, err) && x == l.AtX(i) && y == l.AtY(j) && !(x == l.x1 && y == l.y1)
    requires AllInRange(Walk(l, i, j, err))
    ensures WalkInv(l, i', j', err')
    ensures InRange(x, y) && AllInRange(Walk(l, i', j', err'))
    ensures err' == (if err > -l.Dx() then err - l.Dy() else err) + (if err < l.Dy() then l.Dx() else 0)
    ensures l.AtX(i') == x + (if err > -l.Dx() then (if l.x0 < l.x1 then 1 else -1) else 0)
    ensures l.AtY(j') == y + (if err < l.Dy() then (if l.y0 < l.y1 then 1 else -1) else 0)
    ensures Walk(l, i, j, err) == [Point(x, y)] + Walk(l, i', j', err')
    ensures l.Dx() - i' + l.Dy() - j' < l.Dx() - i + l.Dy() - j
  {
    WalkUnfold(l, i, j, err);
    i', j' := if err > -l.Dx() then i + 1 else i, if err < l.Dy() then j + 1 else j;
    err' := NextErr(l, err);
    InRangeCons(Point(x, y), Walk(l, i', j', err'));
  }

  /** The walk is 8-connected: each point is a king's move from the one
      before, and the last is a king's move from the end point. */
  lemma {:induction false} WalkConnected(l: Seg, i: nat, j: nat, err: int)
    requires WalkInv(l, i, j, err)
    ensures var ps := Walk(l, i, j, err);
            (ps != [] ==> Adjacent(ps[|ps| - 1], l.End())) &&
            forall k :: 0 <= k < |ps| - 1 ==> Adjacent(ps[k], ps[k + 1])
    decreases l.Dx() - i + l.Dy() - j
  {
    if !(i == l.Dx() && j == l.Dy()) {
      WalkUnfold(l, i, j, err);
      var i' := i + if StepX(l, err) then 1 else 0;
      var j' := j + if StepY(l, err) then 1 else 0;
      var rest := Walk(l, i', j', NextErr(l, err));
      WalkConnected(l, i', j', NextErr(l, err));
      assert Adjacent(l.At(i, j), l.At(i', j'));
      assert rest == [] ==> l.At(i', j') == l.End();
    }
  }

  /** Two points at most one step apart in each direction. */
  predicate Adjacent(p: Point, q: Point)
  {
    -1 <= p.x - q.x <= 1 && -1 <= p.y - q.y <= 1
  }

  /** The points `DrawLine` plots, in order. */
  function LinePoints(l: Seg): (ps: seq<Point>)
    ensures ps == [] <==> l.Start() == l.End()
    ensures ps != [] ==> ps[0] == l.Start()
  {
    Walk(l, 0, 0, l.Err0())
  }

  /** A line plots no point when its end points coincide; otherwise it starts
      at the start point, never reaches the end point, and stays inside the
      end points' bounding box. */
  lemma LineShape(l: Seg)
    ensures var ps := LinePoints(l);
            (ps == [] <==> l.Start() == l.End()) &&
            (ps != [] ==> ps[0] == l.Start()) &&
            l.End() !in ps &&
            forall k :: 0 <= k < |ps| ==> l.InBox(ps[k])
  {
    WalkInBox(l, 0, 0, l.Err0());
  }

  /** A drawn line has no gaps: each plotted point is a king's move from the
      one before, and the last is a king's move from the end point. */
  lemma LineConnected(l: Seg)
    ensures var ps := LinePoints(l);
            (ps != [] ==> Adjacent(ps[|ps| - 1], l.End())) &&
            forall k :: 0 <= k < |ps| - 1 ==> Adjacent(ps[k], ps[k + 1])
  {
    WalkConnected(l, 0, 0, l.Err0());
  }

  /** End points on the panel keep every plotted point on the panel. */
  lemma LineInRange(l: Seg)
    requires InRange(l.x0, l.y0) && InRange(l.x1, l.y1)
    ensures AllInRange(LinePoints(l))
  {
    LineShape(l);
  }

  /** Drawing a line twice leaves the RAM as drawing it once. */
  lemma DrawLineIdempotent(r: Ram, l: Seg, c: bool)
    requires IsRam(r) && InRange(l.x0, l.y0) && InRange(l.x1, l.y1)
    ensures AllInRange(LinePoints(l))
    ensures PlotPoints(PlotPoints(r, LinePoints(l), c), LinePoints(l), c) == PlotPoints(r, LinePoints(l), c)
  {
    LineInRange(l);
    PlotTwice(r, LinePoints(l), c);
  }

  /** On a horizontal segment the walk only steps along x. */
  lemma {:induction false} HorizontalWalk(l: Seg, i: nat, err: int, p: Point)
    requires l.y0 == l.y1 && WalkInv(l, i, 0, err)
    ensures p in Walk(l, i, 0, err) <==>
              p.y == l.y0 && (if l.x0 < l.x1 then l.x0 + i <= p.x < l.x1 else l.x1 < p.x <= l.x0 - i)
    decreases l.Dx() - i
  {
    if i < l.Dx() {
      WalkUnfold(l, i, 0, err);
      assert StepX(l, err) && !StepY(l, err);
      HorizontalWalk(l, i + 1, NextErr(l, err), p);
    }
  }

  /** On a vertical segment the walk only steps along y. */
  lemma {:induction false} VerticalWalk(l: Seg, j: nat, err: int, p: Point)
    requires l.x0 == l.x1 && WalkInv(l, 0, j, err)
    ensures p in Walk(l, 0, j, err) <==>
              p.x == l.x0 && (if l.y0 < l.y1 then l.y0 + j <= p.y < l.y1 else l.y1 < p.y <= l.y0 - j)
    decreases l.Dy() - j
  {
    if j < l.Dy() {
      WalkUnfold(l, 0, j, err);
      assert !StepX(l, err) && StepY(l, err);
      VerticalWalk(l, j + 1, NextErr(l, err), p);
    }
  }

  /** A horizontal line covers the half-open run from x0 toward x1. */
  lemma HorizontalLine(l: Seg, p: Point)
    requires l.y0 == l.y1
    ensures p in LinePoints(l) <==>
              p.y == l.y0 && (l.x0 <= p.x < l.x1 || l.x1 < p.x <= l.x0)
  {
    HorizontalWalk(l, 0, l.Err0(), p);
  }

  /** A vertical line covers the half-open run from y0 toward y1. */
  lemma VerticalLine(l: Seg, p: Point)
    requires l.x0 == l.x1
    ensures p in LinePoints(l) <==>
              p.x == l.x0 && (l.y0 <= p.y < l.y1 || l.y1 < p.y <= l.y0)
  {
    VerticalWalk(l, 0, l.Err0(), p);
  }
}
