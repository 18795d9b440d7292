/** The video RAM as a value: 4 pages of 128 column bytes, bit `y % 8` of
    byte `[y / 8][x]` being pixel (x, y), and the pixel writes every drawing
    primitive reduces to. */
module Raster {
  import opened Geometry

  /** Contents of `m_videoRam[LINES][COLUMNS]`. */
  type Ram = seq<seq<bv8>>

  datatype Point = Point(x: int, y: int)

  predicate IsRam(r: Ram)
  {
    |r| == Lines && forall p :: 0 <= p < Lines ==> |r[p]| == Columns
  }

  predicate InRange(x: int, y: int)
  {
    0 <= x < Columns && 0 <= y < Rows
  }

  predicate AllInRange(ps: seq<Point>)
  {
    forall k :: 0 <= k < |ps| ==> InRange(ps[k].x, ps[k].y)
  }

  /** The head and the tail of an on-panel point sequence are on the panel. */
  lemma InRangeCons(p: Point, rest: seq<Point>)
    requires AllInRange([p] + rest)
    ensures InRange(p.x, p.y) && AllInRange(rest)
  {
    assert ([p] + rest)[0] == p;
    forall k | 0 <= k < |rest|
      ensures InRange(rest[k].x, rest[k].y)
    {
      assert rest[k] == ([p] + rest)[k + 1];
    }
  }

  /** `1 << (y % 8)`: the bit of its page byte that holds row y. */
  function Mask(y: int): (m: bv8)
    requires 0 <= y
    ensures m == (1 as bv8) << (y % 8)
  {
    var k := y % 8;
    if k == 0 then 0x01 else if k == 1 then 0x02 else if k == 2 then 0x04
    else if k == 3 then 0x08 else if k == 4 then 0x10 else if k == 5 then 0x20
    else if k == 6 then 0x40 else 0x80
  }

  /** Sets (`|=`) or clears (`&= ~`) the bits of `m` in `cell`. */
  function SetBits(cell: bv8, m: bv8, black: bool): (b: bv8)
    ensures b & !m == cell & !m
    ensures b & m == if black then m else 0
  {
    if black then cell | m else cell & !m
  }

  /** Whether pixel (x, y) is black (bit set). */
  function Pixel(r: Ram, x: int, y: int): bool
    requires IsRam(r) && InRange(x, y)
  {
    r[y / 8][x] & Mask(y) != 0
  }

  /** A RAM whose every byte is `v`. */
  function Filled(v: bv8): (r: Ram)
    ensures IsRam(r)
    ensures forall p, c :: 0 <= p < Lines && 0 <= c < Columns ==> r[p][c] == v
  {
    seq(Lines, _ => seq(Columns, _ => v))
  }

  /** `MBED_LCD_PutPixel` on a value: `|=` the row's mask when black, `&= ~`
      it otherwise. Only that bit of that byte changes. */
  function SetPixel(r: Ram, x: int, y: int, black: bool): (r': Ram)
    requires IsRam(r) && InRange(x, y)
    ensures IsRam(r')
    ensures Pixel(r', x, y) == black
    ensures r'[y / 8][x] & !Mask(y) == r[y / 8][x] & !Mask(y)
  {
    r[y / 8 := r[y / 8][x := SetBits(r[y / 8][x], Mask(y), black)]]
  }

  /** A pixel write touches one byte: every other byte is unchanged. */
  lemma SetPixelCell(r: Ram, x: int, y: int, black: bool, p: int, c: int)
    requires IsRam(r) && InRange(x, y) && 0 <= p < Lines && 0 <= c < Columns
    requires p != y / 8 || c != x
    ensures SetPixel(r, x, y, black)[p][c] == r[p][c]
  {
  }

  /** Distinct rows of one byte have distinct masks, so a pixel write leaves
      every other pixel as it was. */
  lemma SetPixelOthers(r: Ram, x: int, y: int, black: bool, x': int, y': int)
    requires IsRam(r) && InRange(x, y) && InRange(x', y')
    requires x != x' || y != y'
    ensures Pixel(SetPixel(r, x, y, black), x', y') == Pixel(r, x', y')
  {
    if x == x' && y / 8 == y' / 8 {
      assert y % 8 != y' % 8;
      MaskDisjoint(y, y');
    } else {
      SetPixelCell(r, x, y, black, y' / 8, x');
    }
  }

  lemma MaskDisjoint(y: int, y': int)
    requires 0 <= y && 0 <= y' && y % 8 != y' % 8
    ensures Mask(y) & !Mask(y') == Mask(y)
  {
  }

  /** Writing the same pixel twice with the same colour is writing it once. */
  lemma SetPixelIdempotent(r: Ram, x: int, y: int, black: bool)
    requires IsRam(r) && InRange(x, y)
    ensures SetPixel(SetPixel(r, x, y, black), x, y, black) == SetPixel(r, x, y, black)
  {
    var r1 := SetPixel(r, x, y, black);
    var cell := r1[y / 8][x];
    assert SetBits(cell, Mask(y), black) == cell;
    assert r1[y / 8][x := cell] == r1[y / 8];
    assert r1[y / 8 := r1[y / 8]] == r1;
  }

  /** A byte is determined by its eight bits. */
  lemma ByteFromBits(u: bv8, v: bv8)
    requires forall k :: 0 <= k < 8 ==> (u & Mask(k) != 0) == (v & Mask(k) != 0)
    ensures u == v
  {
    assert Mask(0) == 1 && Mask(1) == 2 && Mask(2) == 4 && Mask(3) == 8;
    assert Mask(4) == 16 && Mask(5) == 32 && Mask(6) == 64 && Mask(7) == 128;
    SameBits(u, v);
  }

  lemma SameBits(u: bv8, v: bv8)
    requires (u & 1 != 0) == (v & 1 != 0) && (u & 2 != 0) == (v & 2 != 0)
    requires (u & 4 != 0) == (v & 4 != 0) && (u & 8 != 0) == (v & 8 != 0)
    requires (u & 16 != 0) == (v & 16 != 0) && (u & 32 != 0) == (v & 32 != 0)
    requires (u & 64 != 0) == (v & 64 != 0) && (u & 128 != 0) == (v & 128 != 0)
    ensures u == v
  {
  }

  /** Two RAMs showing the same picture are the same RAM: the pixel map
      (x, y) -> (page, column, bit) is a bijection. */
  lemma {:induction false} SamePixelsSameRam(a: Ram, b: Ram)
    requires IsRam(a) && IsRam(b)
    requires forall x, y :: InRange(x, y) ==> Pixel(a, x, y) == Pixel(b, x, y)
    ensures a == b
  {
    forall p | 0 <= p < Lines
      ensures a[p] == b[p]
    {
      forall c | 0 <= c < Columns
        ensures a[p][c] == b[p][c]
      {
        forall k | 0 <= k < 8
          ensures (a[p][c] & Mask(k) != 0) == (b[p][c] & Mask(k) != 0)
        {
          var y := p * 8 + k;
          assert InRange(c, y) && y / 8 == p && y % 8 == k;
          assert Pixel(a, c, y) == Pixel(b, c, y);
        }
        ByteFromBits(a[p][c], b[p][c]);
      }
    }
  }
  /** One `PutPixel` on a value. A point off the panel leaves the RAM as it
      is; the primitives never pass one (each proves its points are in
      range, see AllInRange). */
  function PlotPoint(r: Ram, p: Point, c: bool): (r': Ram)
    requires IsRam(r)
    ensures IsRam(r')
  {
    if InRange(p.x, p.y) then SetPixel(r, p.x, p.y, c) else r
  }

  /** The RAM once the points of `ps` have been plotted in colour `c`, first
      to last: the model of a primitive that calls PutPixel point after
      point. */
  function PlotPoints(r: Ram, ps: seq<Point>, c: bool): (r': Ram)
    requires IsRam(r)
    ensures IsRam(r')
    decreases |ps|, 2
  {
    PlotCase(r, ps, c)
  }

  /** PlotPoints, one level down: nothing to plot, or a first point. (Kept
      apart so that unfolding PlotPoints once does not yet split on
      whether `ps` is empty.) */
  function PlotCase(r: Ram, ps: seq<Point>, c: bool): (r': Ram)
    requires IsRam(r)
    ensures IsRam(r')
    decreases |ps|, 1
  {
    if ps == [] then r else PlotFirst(r, ps, c)
  }

  /** Plotting a non-empty `ps`: its first point, then the others. (A
      function of its own, so that unfolding PlotPoints once does not yet
      expose the pixel write.) */
  function PlotFirst(r: Ram, ps: seq<Point>, c: bool): (r': Ram)
    requires IsRam(r) && ps != []
    ensures IsRam(r')
    decreases |ps|, 0
  {
    PlotPoints(PlotPoint(r, ps[0], c), ps[1..], c)
  }

  /** The first point is plotted first. */
  lemma PlotStep(r: Ram, ps: seq<Point>, c: bool)
    requires IsRam(r) && ps != []
    ensures PlotPoints(r, ps, c) == PlotPoints(PlotPoint(r, ps[0], c), ps[1..], c)
  {
    assert PlotPoints(r, ps, c) == PlotCase(r, ps, c) == PlotFirst(r, ps, c);
  }

  /** What plotting leaves: colour `c` on the points of `ps`, every other
      pixel as it was. All the points get one colour, so neither their
      order nor repetitions matter. */
  lemma {:induction false} PlotPixel(r: Ram, ps: seq<Point>, c: bool, x: int, y: int)
    requires IsRam(r) && InRange(x, y)
    ensures Pixel(PlotPoints(r, ps, c), x, y) == if Point(x, y) in ps then c else Pixel(r, x, y)
    decreases |ps|
  {
    if ps != [] {
      var p := ps[0];
      assert ps == [p] + ps[1..];
      PlotStep(r, ps, c);
      PlotPixel(PlotPoint(r, p, c), ps[1..], c, x, y);
      if InRange(p.x, p.y) && Point(x, y) != p {
        SetPixelOthers(r, p.x, p.y, c, x, y);
      }
    }
  }

  /** Plotting p and then the rest is plotting `[p] + rest`. */
  lemma PlotCons(r: Ram, p: Point, rest: seq<Point>, c: bool)
    requires IsRam(r) && InRange(p.x, p.y)
    ensures PlotPoints(SetPixel(r, p.x, p.y, c), rest, c) == PlotPoints(r, [p] + rest, c)
  {
    PlotStep(r, [p] + rest, c);
    assert ([p] + rest)[0] == p && ([p] + rest)[1..] == rest;
  }

  /** Plotting `a` then `b` is plotting `a + b`. */
  lemma {:induction false} PlotConcat(r: Ram, a: seq<Point>, b: seq<Point>, c: bool)
    requires IsRam(r)
    ensures PlotPoints(PlotPoints(r, a, c), b, c) == PlotPoints(r, a + b, c)
    decreases |a|
  {
    if a == [] {
      assert a + b == b;
      PlotNothing(r, c);
    } else {
      assert (a + b)[0] == a[0] && (a + b)[1..] == a[1..] + b;
      PlotStep(r, a, c);
      PlotStep(r, a + b, c);
      PlotConcat(PlotPoint(r, a[0], c), a[1..], b, c);
    }
  }

  /** Plotting nothing leaves the RAM as it was. */
  lemma PlotNothing(r: Ram, c: bool)
    requires IsRam(r)
    ensures PlotPoints(r, [], c) == r
  {
    assert PlotPoints(r, [], c) == PlotCase(r, [], c);
  }

  /** Plotting the same points twice gives the same RAM as plotting them once. */
  lemma PlotTwice(r: Ram, ps: seq<Point>, c: bool)
    requires IsRam(r)
    ensures PlotPoints(PlotPoints(r, ps, c), ps, c) == PlotPoints(r, ps, c)
  {
    var once := PlotPoints(r, ps, c);
    forall x, y | InRange(x, y)
      ensures Pixel(PlotPoints(once, ps, c), x, y) == Pixel(once, x, y)
    {
      PlotPixel(r, ps, c, x, y);
      PlotPixel(once, ps, c, x, y);
    }
    SamePixelsSameRam(PlotPoints(once, ps, c), once);
  }
}
