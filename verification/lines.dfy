/** `draw_line_bresenham` and `draw_diamond_outline`. The line walks its
    fast axis (x when |dx| >= |dy|, else y) one pixel at a time and steps
    the slow axis by an integer error term kept doubled; the end point is
    written after the loop. Both branches of the source run the same
    stepping with the axes exchanged, so it is modelled once, as Steps. */
module Lines {
  import opened Bits
  import opened Framebuffer

  datatype Point = Point(x: int, y: int)

  /** The guard of the line: both end points on the screen. */
  predicate OnScreen(p: Point)
  {
    0 <= p.x < Width && 0 <= p.y < Height
  }

  /** The coordinate n pixels from a in the direction of b, which is the
      negative direction when a == b (`sx`, `sy` of the source). */
  function Toward(a: int, b: int, n: int): int { if a < b then a + n else a - n }

  function Max(a: int, b: int): int { if a >= b then a else b }

  /** After k fast steps the slow axis has moved m pixels, the nearest
      whole number to k * slow / fast, a half rounded toward the start
      (the loop steps the slow axis only when its error term is positive):
      k * slow / fast - m lies in (-1/2, 1/2]. */
  predicate Near(k: int, m: int, fast: int, slow: int)
  {
    fast == 0 || -fast < 2 * (k * slow - m * fast) <= fast
  }

  /** A slow-axis position cannot pass the line's slow length while it
      stays near the ideal line before the last fast step. */
  lemma NearBelowEnd(k: nat, m: int, fast: nat, slow: nat)
    requires k < fast && slow <= fast && Near(k, m, fast, slow)
    ensures m <= slow
  {
    if m > slow {
      MulMonotone(slow + 1, m, fast);
      MulMonotone(k, fast, slow);
    }
  }

  /** After all `fast` steps, staying near the ideal line means having
      arrived at its slow length exactly. */
  lemma NearAtEnd(m: int, fast: nat, slow: nat)
    requires fast > 0 && Near(fast, m, fast, slow)
    ensures m == slow
  {
    assert fast * slow - m * fast == (slow - m) * fast;
    if slow - m >= 1 {
      MulMonotone(1, slow - m, fast);
    } else if m - slow >= 1 {
      MulMonotone(1, m - slow, fast);
    }
  }

  lemma OneMore(n: int, w: int)
    ensures (n + 1) * w == n * w + w
  {
  }

  /** The slow-axis offsets the loop writes at fast steps 0 .. fast - 1:
      starting at 0, rising by at most one per step, each the nearest
      whole number to the ideal line, ending within one of `slow`. The
      error term d stays 2 * (k + 1) * slow - fast - 2 * m * fast. */
  method Steps(fast: nat, slow: nat) returns (steps: seq<nat>)
    requires slow <= fast
    ensures |steps| == fast
    ensures forall k :: 0 <= k < fast ==> steps[k] <= slow && Near(k, steps[k], fast, slow)
    ensures forall k :: 0 < k < fast ==> steps[k - 1] <= steps[k] <= steps[k - 1] + 1
    ensures fast > 0 ==> steps[0] == 0 && slow <= steps[fast - 1] + 1
  {
    var d: int := 2 * slow - fast;
    var m: nat := 0;
    var k: nat := 0;
    ghost var a: int := 0;
    ghost var b: int := 0;
    steps := [];
    while k < fast
      invariant k <= fast && |steps| == k
      invariant a == k * slow && b == m * fast
      invariant d == 2 * a + 2 * slow - fast - 2 * b
      invariant 2 * slow - 2 * fast <= d <= 2 * slow
      invariant fast > 0 ==> 2 * slow - 2 * fast < d
      invariant forall i :: 0 <= i < k ==> steps[i] <= slow && Near(i, steps[i], fast, slow)
      invariant forall i :: 0 < i < k ==> steps[i - 1] <= steps[i] <= steps[i - 1] + 1
      invariant k > 0 ==> steps[0] == 0 && steps[k - 1] <= m <= steps[k - 1] + 1
      invariant k == 0 ==> m == 0
    {
      NearBelowEnd(k, m, fast, slow);
      steps := steps + [m];
      if d > 0 {
        OneMore(m, fast);
        m := m + 1;
        d := d - 2 * fast;
        b := b + fast;
      }
      OneMore(k, slow);
      d := d + 2 * slow;
      a := a + slow;
      k := k + 1;
    }
    if fast > 0 {
      NearAtEnd(m, fast, slow);
    }
  }

  /** Every point of the line lies in the box its end points span. */
  predicate InBox(p: Point, p0: Point, p1: Point)
  {
    (p0.x <= p.x <= p1.x || p1.x <= p.x <= p0.x) && (p0.y <= p.y <= p1.y || p1.y <= p.y <= p0.y)
  }

  /** Consecutive points touch, sideways or diagonally. */
  predicate Touching(p: Point, q: Point)
  {
    Abs(p.x - q.x) <= 1 && Abs(p.y - q.y) <= 1
  }

  /** Every point lies in the end points' box. */
  predicate InsideBox(pts: seq<Point>, p0: Point, p1: Point)
  {
    forall k :: 0 <= k < |pts| ==> InBox(pts[k], p0, p1)
  }

  /** Each next point touches the previous one. */
  predicate Connected(pts: seq<Point>)
  {
    forall k :: 0 < k < |pts| ==> Touching(pts[k - 1], pts[k])
  }

  /** What the rasterised line from p0 to p1 is: one point per fast-axis
      coordinate from p0 to p1 inclusive, starting at p0 and ending at p1,
      each next point touching the previous one, all inside the end
      points' box, and each slow-axis offset the nearest whole number to
      the ideal line. */
  predicate IsLine(pts: seq<Point>, p0: Point, p1: Point)
  {
    var dx, dy := Abs(p1.x - p0.x), Abs(p1.y - p0.y);
    |pts| == Max(dx, dy) + 1
    && pts[0] == p0 && pts[|pts| - 1] == p1
    && InsideBox(pts, p0, p1)
    && Connected(pts)
    && (dx >= dy ==>
          forall k :: 0 <= k < |pts| ==>
            pts[k].x == Toward(p0.x, p1.x, k) && pts[k].y == Toward(p0.y, p1.y, Abs(pts[k].y - p0.y))
            && Near(k, Abs(pts[k].y - p0.y), dx, dy))
    && (dx < dy ==>
          forall k :: 0 <= k < |pts| ==>
            pts[k].y == Toward(p0.y, p1.y, k) && pts[k].x == Toward(p0.x, p1.x, Abs(pts[k].x - p0.x))
            && Near(k, Abs(pts[k].x - p0.x), dy, dx))
  }

  /** Two whole numbers near the same point of the ideal line are equal. */
  lemma NearUnique(k: int, m: int, n: int, fast: nat, slow: int)
    requires fast > 0 && Near(k, m, fast, slow) && Near(k, n, fast, slow)
    ensures m == n
  {
    assert 2 * (k * slow - m * fast) - 2 * (k * slow - n * fast) == 2 * ((n - m) * fast);
    if n - m >= 1 {
      MulMonotone(1, n - m, fast);
    } else if m - n >= 1 {
      MulMonotone(1, m - n, fast);
    }
  }

  /** There is only one rasterised line between two points: IsLine pins
      every pixel, a half-way tie included. */
  lemma {:induction false} LineIsUnique(pts: seq<Point>, qs: seq<Point>, p0: Point, p1: Point)
    requires IsLine(pts, p0, p1) && IsLine(qs, p0, p1)
    ensures pts == qs
  {
    var dx, dy := Abs(p1.x - p0.x), Abs(p1.y - p0.y);
    forall k | 0 <= k < |pts|
      ensures pts[k] == qs[k]
    {
      if dx >= dy {
        if dx > 0 {
          NearUnique(k, Abs(pts[k].y - p0.y), Abs(qs[k].y - p0.y), dx, dy);
        }
      } else {
        NearUnique(k, Abs(pts[k].x - p0.x), Abs(qs[k].x - p0.x), dy, dx);
      }
    }
  }

  /** The line depends on its direction: from (0, 0) to (2, 1) the middle
      pixel is (1, 0), from (2, 1) back to (0, 0) it is (1, 1), since a
      half-way tie keeps the slow axis where it started. */
  lemma LineDependsOnDirection(pts: seq<Point>, qs: seq<Point>)
    requires IsLine(pts, Point(0, 0), Point(2, 1)) && IsLine(qs, Point(2, 1), Point(0, 0))
    ensures pts == [Point(0, 0), Point(1, 0), Point(2, 1)]
    ensures qs == [Point(2, 1), Point(1, 1), Point(0, 0)]
  {
    assert Near(1, Abs(pts[1].y), 2, 1);
    assert Near(1, Abs(qs[1].y - 1), 2, 1);
  }

  /** The cells of a list of on-screen points. */
  function Touched(pts: seq<Point>): set<int>
    requires forall i :: 0 <= i < |pts| ==> OnScreen(pts[i])
  {
    set i | 0 <= i < |pts| :: CellOf(pts[i].x, pts[i].y)
  }

  /** Writes the colour at each point in turn: those cells end up holding
      it and every other cell is unchanged. */
  function PaintPoints(b: Buffer, pts: seq<Point>, color: U16): (r: Buffer)
    requires forall i :: 0 <= i < |pts| ==> OnScreen(pts[i])
    ensures forall k :: 0 <= k < Cells ==> r[k] == if k in Touched(pts) then color else b[k]
    decreases |pts|
  {
    if |pts| == 0 then b
    else
      var c := CellOf(pts[0].x, pts[0].y);
      var rest := pts[1..];
      assert Touched(pts) == {c} + Touched(rest) by {
        forall k | k in Touched(pts) ensures k in {c} + Touched(rest) {
          var i :| 0 <= i < |pts| && k == CellOf(pts[i].x, pts[i].y);
          if i > 0 {
            assert rest[i - 1] == pts[i];
          }
        }
        forall k | k in Touched(rest) ensures k in Touched(pts) {
          var i :| 0 <= i < |rest| && k == CellOf(rest[i].x, rest[i].y);
          assert rest[i] == pts[i + 1];
        }
      }
      PaintPoints(b[c := color], rest, color)
  }

  /** The line from p0 to p1 given the slow-axis offsets of Steps. */
  function Trace(p0: Point, p1: Point, steps: seq<nat>): (pts: seq<Point>)
    requires |steps| == Max(Abs(p1.x - p0.x), Abs(p1.y - p0.y))
  {
    if Abs(p1.x - p0.x) >= Abs(p1.y - p0.y) then
      seq(|steps|, k requires 0 <= k < |steps| => Point(Toward(p0.x, p1.x, k), Toward(p0.y, p1.y, steps[k]))) + [p1]
    else
      seq(|steps|, k requires 0 <= k < |steps| => Point(Toward(p0.x, p1.x, steps[k]), Toward(p0.y, p1.y, k))) + [p1]
  }

  /** Slow-axis offsets for fast steps 0 .. fast: from 0 to `slow`, rising
      by at most one per step, each near the ideal line. */
  predicate Offsets(full: seq<nat>, fast: nat, slow: nat)
  {
    |full| == fast + 1 && full[0] == 0 && full[fast] == slow
    && (forall k :: 0 <= k <= fast ==> full[k] <= slow && Near(k, full[k], fast, slow))
    && (forall k :: 0 < k <= fast ==> full[k - 1] <= full[k] <= full[k - 1] + 1)
  }

  /** The offsets of Steps followed by the end point's offset. */
  lemma StepsThenEnd(steps: seq<nat>, fast: nat, slow: nat)
    requires slow <= fast && |steps| == fast
    requires forall k :: 0 <= k < fast ==> steps[k] <= slow && Near(k, steps[k], fast, slow)
    requires forall k :: 0 < k < fast ==> steps[k - 1] <= steps[k] <= steps[k - 1] + 1
    requires fast > 0 ==> steps[0] == 0 && slow <= steps[fast - 1] + 1
    ensures Offsets(steps + [slow], fast, slow)
  {
    assert Near(fast, slow, fast, slow);
  }

  /** A walk that moves the first coordinate by one and the second by
      offsets rising at most one per step stays connected and inside the
      box of its end points. */
  lemma WalkShape(pts: seq<Point>, p0: Point, p1: Point, full: seq<nat>, fast: nat, slow: nat, xFast: bool)
    requires Offsets(full, fast, slow) && |pts| == |full|
    requires xFast ==> Abs(p1.x - p0.x) == fast && Abs(p1.y - p0.y) == slow
    requires !xFast ==> Abs(p1.y - p0.y) == fast && Abs(p1.x - p0.x) == slow
    requires forall k :: 0 <= k < |pts| ==>
               pts[k] == if xFast then Point(Toward(p0.x, p1.x, k), Toward(p0.y, p1.y, full[k]))
                         else Point(Toward(p0.x, p1.x, full[k]), Toward(p0.y, p1.y, k))
    ensures InsideBox(pts, p0, p1) && Connected(pts)
  {
  }

  /** A walk along x whose y offsets are Offsets is the rasterised line. */
  lemma ShallowLine(pts: seq<Point>, p0: Point, p1: Point, full: seq<nat>)
    requires Abs(p1.x - p0.x) >= Abs(p1.y - p0.y)
    requires Offsets(full, Abs(p1.x - p0.x), Abs(p1.y - p0.y)) && |pts| == |full|
    requires forall k :: 0 <= k < |pts| ==> pts[k] == Point(Toward(p0.x, p1.x, k), Toward(p0.y, p1.y, full[k]))
    ensures IsLine(pts, p0, p1)
  {
    WalkShape(pts, p0, p1, full, Abs(p1.x - p0.x), Abs(p1.y - p0.y), true);
    assert forall k :: 0 <= k < |pts| ==> Abs(pts[k].y - p0.y) == full[k];
  }

  /** A walk along y whose x offsets are Offsets is the rasterised line. */
  lemma SteepLine(pts: seq<Point>, p0: Point, p1: Point, full: seq<nat>)
    requires Abs(p1.x - p0.x) < Abs(p1.y - p0.y)
    requires Offsets(full, Abs(p1.y - p0.y), Abs(p1.x - p0.x)) && |pts| == |full|
    requires forall k :: 0 <= k < |pts| ==> pts[k] == Point(Toward(p0.x, p1.x, full[k]), Toward(p0.y, p1.y, k))
    ensures IsLine(pts, p0, p1)
  {
    WalkShape(pts, p0, p1, full, Abs(p1.y - p0.y), Abs(p1.x - p0.x), false);
    assert forall k :: 0 <= k < |pts| ==> Abs(pts[k].x - p0.x) == full[k];
  }

  /** Trace of the offsets Steps computes for a shallow line is the
      rasterised line. */
  lemma TraceShallow(p0: Point, p1: Point, steps: seq<nat>)
    requires Abs(p1.x - p0.x) >= Abs(p1.y - p0.y)
    requires var dx, dy := Abs(p1.x - p0.x), Abs(p1.y - p0.y);
             |steps| == dx
             && (forall k :: 0 <= k < dx ==> steps[k] <= dy && Near(k, steps[k], dx, dy))
             && (forall k :: 0 < k < dx ==> steps[k - 1] <= steps[k] <= steps[k - 1] + 1)
             && (dx > 0 ==> steps[0] == 0 && dy <= steps[dx - 1] + 1)
    ensures IsLine(Trace(p0, p1, steps), p0, p1)
  {
    var dx, dy := Abs(p1.x - p0.x), Abs(p1.y - p0.y);
    var full := steps + [dy];
    StepsThenEnd(steps, dx, dy);
    var pts := Trace(p0, p1, steps);
    assert p1 == Point(Toward(p0.x, p1.x, dx), Toward(p0.y, p1.y, dy));
    ShallowLine(pts, p0, p1, full);
  }

  /** The same for a steep line, with the axes exchanged. */
  lemma TraceSteep(p0: Point, p1: Point, steps: seq<nat>)
    requires Abs(p1.x - p0.x) < Abs(p1.y - p0.y)
    requires var dx, dy := Abs(p1.x - p0.x), Abs(p1.y - p0.y);
             |steps| == dy
             && (forall k :: 0 <= k < dy ==> steps[k] <= dx && Near(k, steps[k], dy, dx))
             && (forall k :: 0 < k < dy ==> steps[k - 1] <= steps[k] <= steps[k - 1] + 1)
             && (dy > 0 ==> steps[0] == 0 && dx <= steps[dy - 1] + 1)
    ensures IsLine(Trace(p0, p1, steps), p0, p1)
  {
    var dx, dy := Abs(p1.x - p0.x), Abs(p1.y - p0.y);
    var full := steps + [dx];
    StepsThenEnd(steps, dy, dx);
    var pts := Trace(p0, p1, steps);
    assert p1 == Point(Toward(p0.x, p1.x, dx), Toward(p0.y, p1.y, dy));
    SteepLine(pts, p0, p1, full);
  }

  /** Every point of a line between on-screen end points is on screen. */
  lemma LineOnScreen(pts: seq<Point>, p0: Point, p1: Point)
    requires OnScreen(p0) && OnScreen(p1) && IsLine(pts, p0, p1)
    ensures forall i :: 0 <= i < |pts| ==> OnScreen(pts[i])
  {
  }

  /** The points Bresenham's loop visits between two points on the screen:
      the steps along the faster-changing axis decide the other one. */
  method LinePoints(p0: Point, p1: Point) returns (pts: seq<Point>)
    requires OnScreen(p0) && OnScreen(p1)
    ensures IsLine(pts, p0, p1)
    ensures forall i :: 0 <= i < |pts| ==> OnScreen(pts[i])
  {
    var dx, dy := Abs(p1.x - p0.x), Abs(p1.y - p0.y);
    if dx >= dy {
      var steps := Steps(dx, dy);
      pts := Trace(p0, p1, steps);
      TraceShallow(p0, p1, steps);
    } else {
      var steps := Steps(dy, dx);
      pts := Trace(p0, p1, steps);
      TraceSteep(p0, p1, steps);
    }
    LineOnScreen(pts, p0, p1);
  }

  /** `draw_line_bresenham`: a no-op unless both end points are on the
      screen; otherwise it writes the colour at the points of the
      rasterised line, returned as `pts`, and nowhere else. */
  method DrawLineBresenham(fb: FrameBuffers, x0: U16, y0: U16, x1: U16, y1: U16, color: U16)
    returns (r: FrameBuffers, pts: seq<Point>)
    ensures !(OnScreen(Point(x0, y0)) && OnScreen(Point(x1, y1))) ==> r == fb && pts == []
    ensures OnScreen(Point(x0, y0)) && OnScreen(Point(x1, y1)) ==> IsLine(pts, Point(x0, y0), Point(x1, y1))
    ensures forall i :: 0 <= i < |pts| ==> OnScreen(pts[i])
    ensures FrontOf(r) == FrontOf(fb) && r.front == fb.front
    ensures BackOf(r) == PaintPoints(BackOf(fb), pts, color)
  {
    var p0, p1 := Point(x0, y0), Point(x1, y1);
    if !(OnScreen(p0) && OnScreen(p1)) {
      return fb, [];
    }
    pts := LinePoints(p0, p1);
    r := WithBack(fb, PaintPoints(BackOf(fb), pts, color));
  }

  /** The conversion of an `int` argument to a `uint16_t` parameter:
      reduction modulo 2^16. */
  function ToU16(v: int): U16 { v % 0x1_0000 }

  /** A small negative coordinate arrives as a large one and fails the
      guard: below -65408 for columns and -65376 for rows it would not. */
  lemma NegativeOffScreen(v: int)
    requires -0x1_0000 + Width <= v < 0
    ensures ToU16(v) >= Width
    ensures v >= -0x1_0000 + Height ==> ToU16(v) >= Height
  {
  }

  /** The four corners of the diamond: left, bottom, right and top, each
      coordinate computed in 32-bit `int` arithmetic. */
  function Corners(cx: I32, cy: I32, w: I32, h: I32): (c: seq<Point>)
    ensures |c| == 4
  {
    [Point(Wrap32(cx - w), cy), Point(cx, Wrap32(cy + h)), Point(Wrap32(cx + w), cy), Point(cx, Wrap32(cy - h))]
  }

  /** The end points of a line as the callee receives them. */
  function AsArguments(p: Point): Point { Point(ToU16(p.x), ToU16(p.y)) }

  /** `draw_diamond_outline`: lines from the left corner to the bottom and
      top corners and from the right corner to the bottom and top corners.
      Each line is the rasterised line between its end points as converted
      to `uint16_t`, or nothing when one of them is off the screen; the
      back buffer gets the colour at the points of the four lines. */
  method DrawDiamondOutline(fb: FrameBuffers, cx: I32, cy: I32, w: I32, h: I32, color: U16)
    returns (r: FrameBuffers, edges: seq<seq<Point>>)
    ensures |edges| == 4
    ensures var c := Corners(cx, cy, w, h);
            var ends := [(c[0], c[1]), (c[0], c[3]), (c[2], c[1]), (c[2], c[3])];
            forall i :: 0 <= i < 4 ==>
              var p0, p1 := AsArguments(ends[i].0), AsArguments(ends[i].1);
              (OnScreen(p0) && OnScreen(p1) ==> IsLine(edges[i], p0, p1))
              && (!(OnScreen(p0) && OnScreen(p1)) ==> edges[i] == [])
    ensures forall i, j :: 0 <= i < 4 && 0 <= j < |edges[i]| ==> OnScreen(edges[i][j])
    ensures FrontOf(r) == FrontOf(fb) && r.front == fb.front
    ensures BackOf(r) == PaintPoints(PaintPoints(PaintPoints(PaintPoints(BackOf(fb),
                           edges[0], color), edges[1], color), edges[2], color), edges[3], color)
  {
    var c := Corners(cx, cy, w, h);
    var l, b, rt, t := AsArguments(c[0]), AsArguments(c[1]), AsArguments(c[2]), AsArguments(c[3]);
    var f1: FrameBuffers, e1: seq<Point> := DrawLineBresenham(fb, l.x, l.y, b.x, b.y, color);
    var f2: FrameBuffers, e2: seq<Point> := DrawLineBresenham(f1, l.x, l.y, t.x, t.y, color);
    var f3: FrameBuffers, e3: seq<Point> := DrawLineBresenham(f2, rt.x, rt.y, b.x, b.y, color);
    var e4: seq<Point>;
    r, e4 := DrawLineBresenham(f3, rt.x, rt.y, t.x, t.y, color);
    edges := [e1, e2, e3, e4];
  }

  /** A diamond whose left corner lies a little left of the screen edge
      loses both left edges: the corner wraps to a column past the guard. */
  lemma LeftCornerOffScreen(cx: I32, cy: I32, w: I32, h: I32)
    requires -0x1_0000 + Width <= cx - w < 0
    ensures !OnScreen(AsArguments(Corners(cx, cy, w, h)[0]))
  {
    NegativeOffScreen(cx - w);
  }
}
