/** The Bresenham line of src/widgets/Canvas.js (`getLinePoints`, lines 226-251). */
module LineInterpolation {

  import opened Grids

  /** `v` lies between `a` and `b`, inclusive, in either order. */
  predicate Between(a: int, v: int, b: int)
  {
    (a <= v <= b) || (b <= v <= a)
  }

  /** `b` is a different cell that touches `a`, by an edge or a corner. */
  predicate Touches(a: (int, int), b: (int, int))
  {
    a != b && Abs(b.0 - a.0) <= 1 && Abs(b.1 - a.1) <= 1
  }

  /**
   * The arithmetic behind the loop, with `i` and `j` the steps already taken along each
   * axis: away from the end, at least one axis steps, and an axis steps only while it
   * has not reached the end.
   */
  lemma StepChoice(dx: int, dy: int, i: int, j: int, err: int)
    requires 0 <= i <= dx && 0 <= j <= dy && (i < dx || j < dy)
    requires err == ErrorAt(dx, dy, i, j)
    ensures 2 * err > -dy ==> i < dx
    ensures 2 * err < dx ==> j < dy
    ensures 2 * err > -dy || 2 * err < dx
  {
    if i == dx {
      assert j * dx <= (dy - 1) * dx by { MulMono(j, dy - 1, dx); }
      assert (dy - 1) * dx == dy * dx - dx;
    }
    if j == dy {
      assert i * dy <= (dx - 1) * dy by { MulMono(i, dx - 1, dy); }
      assert (dx - 1) * dy == dx * dy - dy;
    }
  }

  lemma MulMono(a: int, b: int, c: int)
    requires a <= b && 0 <= c
    ensures a * c <= b * c
  {
  }

  /** The error term after `i` steps along x and `j` along y. */
  function ErrorAt(dx: int, dy: int, i: int, j: int): int
  {
    dx - dy + j * dx - i * dy
  }

  /** A step along x lowers the error term by `dy`, one along y raises it by `dx`. */
  lemma ErrorSteps(dx: int, dy: int, i: int, j: int)
    ensures ErrorAt(dx, dy, i + 1, j) == ErrorAt(dx, dy, i, j) - dy
    ensures ErrorAt(dx, dy, i, j + 1) == ErrorAt(dx, dy, i, j) + dx
  {
  }

  /** Each point touches the next: the line has no gaps. */
  predicate Chain(points: seq<(int, int)>)
  {
    forall k :: 0 <= k < |points| - 1 ==> Touches(points[k], points[k + 1])
  }

  /** Every point lies in the bounding box of the two ends and is not the end. */
  predicate BeforeEnd(points: seq<(int, int)>, x0: int, y0: int, x1: int, y1: int)
  {
    forall k :: 0 <= k < |points| ==>
      Between(x0, points[k].0, x1) && Between(y0, points[k].1, y1) && points[k] != (x1, y1)
  }

  lemma ChainAppend(points: seq<(int, int)>, p: (int, int))
    requires Chain(points) && (points == [] || Touches(points[|points| - 1], p))
    ensures Chain(points + [p])
  {
    var q := points + [p];
    forall k | 0 <= k < |q| - 1 ensures Touches(q[k], q[k + 1]) {
      if k < |points| - 1 {
        assert q[k] == points[k] && q[k + 1] == points[k + 1];
      }
    }
  }

  lemma BeforeEndAppend(points: seq<(int, int)>, p: (int, int), x0: int, y0: int, x1: int, y1: int)
    requires BeforeEnd(points, x0, y0, x1, y1)
    requires Between(x0, p.0, x1) && Between(y0, p.1, y1) && p != (x1, y1)
    ensures BeforeEnd(points + [p], x0, y0, x1, y1)
  {
    var q := points + [p];
    forall k | 0 <= k < |q| ensures Between(x0, q[k].0, x1) && Between(y0, q[k].1, y1) && q[k] != (x1, y1) {
      if k < |points| {
        assert q[k] == points[k];
      }
    }
  }

  /**
   * `getLinePoints(x0, y0, x1, y1)`: the cells of the integer line from the start to the
   * end. The loop ends; the first point is the start and the last the end; each point
   * touches the next, so the line has no gaps; every point lies in the bounding box of
   * the two ends; and the end appears only as the last point. Neither of the overshoot
   * guards at lines 239 and 244 ever fires.
   */
  method LinePoints(x0: int, y0: int, x1: int, y1: int) returns (points: seq<(int, int)>)
    ensures |points| > 0 && points[0] == (x0, y0) && points[|points| - 1] == (x1, y1)
    ensures Chain(points) && BeforeEnd(points[..|points| - 1], x0, y0, x1, y1)
  {
    var dx: int := Abs(x1 - x0);
    var dy: int := Abs(y1 - y0);
    var sx := if x0 < x1 then 1 else -1;
    var sy := if y0 < y1 then 1 else -1;
    var err := dx - dy;
    var x, y := x0, y0;
    ghost var i, j := 0, 0;
    points := [];
    while true
      invariant 0 <= i <= dx && x == (if x0 < x1 then x0 + i else x0 - i)
      invariant 0 <= j <= dy && y == (if y0 < y1 then y0 + j else y0 - j)
      invariant err == ErrorAt(dx, dy, i, j)
      invariant points == [] ==> i == 0 && j == 0
      invariant points != [] ==> points[0] == (x0, y0) && Touches(points[|points| - 1], (x, y))
      invariant Chain(points) && BeforeEnd(points, x0, y0, x1, y1)
      decreases dx - i + dy - j
    {
      ChainAppend(points, (x, y));
      if (x, y) != (x1, y1) {
        BeforeEndAppend(points, (x, y), x0, y0, x1, y1);
      }
      assert (points + [(x, y)])[..|points|] == points;
      points := points + [(x, y)];
      if x == x1 && y == y1 {
        break;
      }
      var e2 := 2 * err;
      StepChoice(dx, dy, i, j, err);
      ErrorSteps(dx, dy, i, j);
      ErrorSteps(dx, dy, i + 1, j);
      if e2 > -dy {
        if x == x1 {
          break;
        }
        err := err - dy;
        x := x + sx;
        i := i + 1;
      }
      if e2 < dx {
        if y == y1 {
          break;
        }
        err := err + dx;
        y := y + sy;
        j := j + 1;
      }
    }
  }
}
