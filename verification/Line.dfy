/** gfx_line of gui_graphics.c: Bresenham's line. */
module Line {
  import opened Arith

  type Int32 = i: int | -0x8000_0000 <= i < 0x8000_0000

  datatype Point = Point(x: int, y: int)

  /** The extent up to which `2 * err` cannot leave the range of an int32_t. */
  const REACH: int := 0x2AAA_AAAA

  function Abs(a: int): (r: nat) {
    if a > 0 then a else -a
  }

  /** `k` steps from `a` in the direction of `b`; downwards when they are equal, as the source does. */
  function Move(a: int, b: int, k: int): (r: int) {
    if a < b then a + k else a - k
  }

  /** `n / d` rounded to the nearest integer, halves down. */
  function Rounded(n: int, d: int): (q: int)
    requires d > 0
  {
    (2 * n + d - 1) / (2 * d)
  }

  /** Point `k` of the line: the longer axis moves by one each time, the other to the nearest pixel. */
  function PointAt(x0: int, y0: int, x1: int, y1: int, k: nat): (r: Point) {
    var dx, dy := Abs(x1 - x0), Abs(y1 - y0);
    if dx == 0 && dy == 0 then Point(x0, y0)
    else if dx >= dy then
      Point(Move(x0, x1, k), Move(y0, y1, Rounded(dy * k, dx)))
    else
      Point(Move(x0, x1, Rounded(dx * k, dy)), Move(y0, y1, k))
  }

  function Longer(dx: nat, dy: nat): (r: nat) {
    if dx >= dy then dx else dy
  }

  function Extent(x0: int, y0: int, x1: int, y1: int): (r: nat) {
    Longer(Abs(x1 - x0), Abs(y1 - y0))
  }

  /** Between consecutive multiples there is room for one quotient. */
  lemma {:induction false} Quotient(a: int, m: int, q: int)
    requires m > 0
    ensures q == a / m <==> q * m <= a < q * m + m
  {
    var r := a / m;
    assert a == r * m + a % m;
    if q < r {
      Product(r - 1 - q, m);
      assert (r - 1 - q) * m == r * m - m - q * m;
    } else if q > r {
      Product(q - 1 - r, m);
      assert (q - 1 - r) * m == q * m - m - r * m;
    }
  }

  /** `q` is the rounded quotient exactly when `q * d` lies within half a `d` of `n`. */
  lemma {:induction false} RoundedWithin(n: int, d: int, q: int)
    requires d > 0
    ensures q == Rounded(n, d) <==> 0 <= 2 * (q * d - n) + d < 2 * d
  {
    Quotient(2 * n + d - 1, 2 * d, q);
    assert q * (2 * d) == 2 * (q * d);
  }

  // ---- the error term

  /** The signed distance of offset `(i, j)` from the ideal line, scaled by the extent. */
  function Off(dx: int, dy: int, i: int, j: int): (r: int) {
    dx * j - dy * i
  }

  /** What the loop keeps: `err` follows the distance, and the distance stays within half a pixel, on the
      closed side for the tie that is rounded down. */
  predicate OnTrack(dx: int, dy: int, i: int, j: int, err: int) {
    && err == Off(dx, dy, i, j) + dx - dy
    && (dx == dy ==> i == j)
    && (dx > dy ==> -dx <= 2 * Off(dx, dy, i, j) < dx)
    && (dx < dy ==> -dy < 2 * Off(dx, dy, i, j) <= dy)
  }

  lemma {:induction false} OffSteps(dx: int, dy: int, i: int, j: int)
    ensures Off(dx, dy, i + 1, j) == Off(dx, dy, i, j) - dy
    ensures Off(dx, dy, i, j + 1) == Off(dx, dy, i, j) + dx
    ensures dx == dy && i == j ==> Off(dx, dy, i, j) == 0
  {
    assert dx * (j + 1) == dx * j + dx;
    assert dy * (i + 1) == dy * i + dy;
  }

  /** One iteration: the longer axis always steps, the other when the error calls for it. */
  lemma {:induction false} StepOnTrack(dx: int, dy: int, i: int, j: int, err: int)
    requires 0 <= dx && 0 <= dy && (dx > 0 || dy > 0)
    requires OnTrack(dx, dy, i, j, err)
    ensures var stepX, stepY := 2 * err > -dy, 2 * err < dx;
            && OnTrack(dx, dy, if stepX then i + 1 else i, if stepY then j + 1 else j,
                       err - (if stepX then dy else 0) + (if stepY then dx else 0))
            && (dx >= dy ==> stepX) && (dy >= dx ==> stepY)
  {
    hide Off;
    OffSteps(dx, dy, i, j);
    OffSteps(dx, dy, i + 1, j);
  }

  /** On track, the offset on the longer axis determines the other. */
  lemma {:induction false} TrackIsRounded(dx: int, dy: int, i: int, j: int, err: int)
    requires 0 <= dx && 0 <= dy && (dx > 0 || dy > 0) && OnTrack(dx, dy, i, j, err)
    ensures dx >= dy ==> j == Rounded(dy * i, dx)
    ensures dy >= dx ==> i == Rounded(dx * j, dy)
  {
    OffSteps(dx, dy, i, j);
    if dx >= dy {
      assert j * dx - dy * i == Off(dx, dy, i, j);
      RoundedWithin(dy * i, dx, j);
    }
    if dy >= dx {
      assert i * dy - dx * j == -Off(dx, dy, i, j);
      RoundedWithin(dx * j, dy, i);
    }
  }

  lemma {:induction false} RoundedMonotone(n: int, m: int, d: int)
    requires n <= m && 0 < d
    ensures Rounded(n, d) <= Rounded(m, d)
  {
    var p, q := Rounded(n, d), Rounded(m, d);
    Quotient(2 * n + d - 1, 2 * d, p);
    Quotient(2 * m + d - 1, 2 * d, q);
    assert p * (2 * d) < q * (2 * d) + 2 * d == (q + 1) * (2 * d);
    Monotone(q + 1, p, 2 * d);
  }

  /** The rounded offset runs from 0 to the whole extent of the shorter axis, which it reaches at the end. */
  lemma {:induction false} RoundedRange(d: int, e: int, k: int)
    requires 0 <= e <= d && 0 < d && 0 <= k <= d
    ensures 0 <= Rounded(e * k, d) <= e
    ensures k == d ==> Rounded(e * k, d) == e
  {
    RoundedWithin(e * d, d, e);
    RoundedWithin(0, d, 0);
    Monotone(0, k, e);
    Monotone(k, d, e);
    RoundedMonotone(0, e * k, d);
    RoundedMonotone(e * k, e * d, d);
  }

  /** On track and not past the end of the longer axis, neither axis is past its end, and both are there
      together. */
  lemma {:induction false} NoOvershoot(dx: int, dy: int, i: int, j: int, err: int)
    requires 0 <= dx && 0 <= dy && OnTrack(dx, dy, i, j, err)
    requires if dx >= dy then 0 <= i <= dx else 0 <= j <= dy
    ensures 0 <= i <= dx && 0 <= j <= dy
    ensures i == dx && j == dy <==> if dx >= dy then i == dx else j == dy
  {
    if dx > 0 || dy > 0 {
      TrackIsRounded(dx, dy, i, j, err);
      if dx >= dy {
        RoundedRange(dx, dy, i);
      } else {
        RoundedRange(dy, dx, j);
      }
    }
  }

  lemma {:induction false} StartOnTrack(dx: int, dy: int)
    requires 0 <= dx && 0 <= dy
    ensures OnTrack(dx, dy, 0, 0, dx - dy)
  {
  }

  /** The offsets and the error after one iteration. */
  function Next(dx: int, dy: int, i: int, j: int, err: int): (r: (int, int, int)) {
    (if 2 * err > -dy then i + 1 else i, if 2 * err < dx then j + 1 else j,
     err - (if 2 * err > -dy then dy else 0) + (if 2 * err < dx then dx else 0))
  }

  /** What one iteration may rely on before the end is reached. */
  lemma {:induction false} Iteration(dx: int, dy: int, i: int, j: int, err: int)
    requires 0 <= dx <= REACH && 0 <= dy <= REACH && OnTrack(dx, dy, i, j, err)
    requires if dx >= dy then 0 <= i < dx else 0 <= j < dy
    ensures -3 * REACH <= 2 * err <= 3 * REACH
    ensures var (i', j', err') := Next(dx, dy, i, j, err);
            && OnTrack(dx, dy, i', j', err')
            && 0 <= i' <= dx && 0 <= j' <= dy
            && (if dx >= dy then i' == i + 1 else j' == j + 1)
  {
    hide Off;
    OffSteps(dx, dy, i, j);
    StepOnTrack(dx, dy, i, j, err);
    var (i', j', err') := Next(dx, dy, i, j, err);
    NoOvershoot(dx, dy, i', j', err');
  }

  /** On track, the current position is the point of the line with that number. */
  lemma {:induction false} OnTrackIsPoint(x0: int, y0: int, x1: int, y1: int, i: int, j: int, err: int)
    requires var dx, dy := Abs(x1 - x0), Abs(y1 - y0);
             && OnTrack(dx, dy, i, j, err)
             && if dx >= dy then 0 <= i <= dx else 0 <= j <= dy
    ensures var dx, dy := Abs(x1 - x0), Abs(y1 - y0);
            Point(Move(x0, x1, i), Move(y0, y1, j)) == PointAt(x0, y0, x1, y1, if dx >= dy then i else j)
  {
    var dx, dy := Abs(x1 - x0), Abs(y1 - y0);
    NoOvershoot(dx, dy, i, j, err);
    if dx > 0 || dy > 0 {
      TrackIsRounded(dx, dy, i, j, err);
    }
  }

  /** gfx_line: the points handed to gfx_putpixel, in order. */
  method DrawLine(x0: Int32, y0: Int32, x1: Int32, y1: Int32) returns (plotted: seq<Point>)
    requires -REACH <= x1 - x0 <= REACH && -REACH <= y1 - y0 <= REACH
    ensures |plotted| == Extent(x0, y0, x1, y1) + 1
    ensures forall k :: 0 <= k < |plotted| ==> plotted[k] == PointAt(x0, y0, x1, y1, k)
  {
    hide OnTrack, PointAt;
    var x, y := x0, y0;
    var dx: Int32 := if x1 > x0 then x1 - x0 else x0 - x1;
    var dy: Int32 := if y1 > y0 then y1 - y0 else y0 - y1;
    var sx: Int32 := if x0 < x1 then 1 else -1;
    var sy: Int32 := if y0 < y1 then 1 else -1;
    var err: Int32 := dx - dy;
    plotted := [];
    ghost var i, j := 0, 0;
    StartOnTrack(dx, dy);
    while true
      invariant |plotted| == (if dx >= dy then i else j) <= Longer(dx, dy)
      invariant x == Move(x0, x1, i) && y == Move(y0, y1, j)
      invariant OnTrack(dx, dy, i, j, err)
      invariant forall k :: 0 <= k < |plotted| ==> plotted[k] == PointAt(x0, y0, x1, y1, k)
      decreases Longer(dx, dy) - |plotted|
    {
      NoOvershoot(dx, dy, i, j, err);
      OnTrackIsPoint(x0, y0, x1, y1, i, j, err);
      plotted := plotted + [Point(x, y)];
      if x == x1 && y == y1 {
        break;
      }
      Iteration(dx, dy, i, j, err);
      ghost var next := Next(dx, dy, i, j, err);
      var e2: Int32 := 2 * err;
      if e2 > -dy {
        err := err - dy;
        x := x + sx;
      }
      if e2 < dx {
        err := err + dx;
        y := y + sy;
      }
      i, j := next.0, next.1;
    }
  }

  // ---- what the points are

  /** The line starts at one end and stops exactly at the other. */
  lemma {:induction false} Ends(x0: int, y0: int, x1: int, y1: int)
    ensures PointAt(x0, y0, x1, y1, 0) == Point(x0, y0)
    ensures PointAt(x0, y0, x1, y1, Extent(x0, y0, x1, y1)) == Point(x1, y1)
  {
    var dx, dy := Abs(x1 - x0), Abs(y1 - y0);
    if dx > 0 || dy > 0 {
      RoundedWithin(0, Longer(dx, dy), 0);
      if dx >= dy {
        RoundedRange(dx, dy, dx);
      } else {
        RoundedRange(dy, dx, dy);
      }
    }
  }

  lemma {:induction false} RoundedStep(n: int, e: int, d: int)
    requires 0 <= e <= d && 0 < d
    ensures Rounded(n, d) <= Rounded(n + e, d) <= Rounded(n, d) + 1
  {
    hide Rounded;
    RoundedMonotone(n, n + e, d);
    RoundedMonotone(n + e, n + d, d);
    var q := Rounded(n, d);
    RoundedWithin(n, d, q);
    RoundedWithin(n + d, d, q + 1);
    assert (q + 1) * d == q * d + d;
  }

  /** Consecutive points are neighbours, diagonally at most, and never go back. */
  lemma {:induction false} Connected(x0: int, y0: int, x1: int, y1: int, k: nat)
    requires k < Extent(x0, y0, x1, y1)
    ensures var p, q := PointAt(x0, y0, x1, y1, k), PointAt(x0, y0, x1, y1, k + 1);
            && p != q
            && (q.x == p.x || q.x == Move(x0, x1, 1) - x0 + p.x)
            && (q.y == p.y || q.y == Move(y0, y1, 1) - y0 + p.y)
  {
    var dx, dy := Abs(x1 - x0), Abs(y1 - y0);
    assert dy * (k + 1) == dy * k + dy && dx * (k + 1) == dx * k + dx;
    if dx >= dy {
      RoundedStep(dy * k, dy, dx);
    } else {
      RoundedStep(dx * k, dx, dy);
    }
  }

  /** Every point lies within half a pixel of the ideal line, measured along the shorter axis. */
  lemma {:induction false} HalfPixel(x0: int, y0: int, x1: int, y1: int, k: nat)
    requires k <= Extent(x0, y0, x1, y1)
    ensures var dx, dy := Abs(x1 - x0), Abs(y1 - y0);
            var p := PointAt(x0, y0, x1, y1, k);
            2 * Abs(Off(dx, dy, Abs(p.x - x0), Abs(p.y - y0))) <= Longer(dx, dy)
  {
    var dx, dy := Abs(x1 - x0), Abs(y1 - y0);
    if dx > 0 || dy > 0 {
      if dx >= dy {
        var j := Rounded(dy * k, dx);
        RoundedRange(dx, dy, k);
        RoundedWithin(dy * k, dx, j);
        assert Off(dx, dy, k, j) == j * dx - dy * k;
      } else {
        var i := Rounded(dx * k, dy);
        RoundedRange(dy, dx, k);
        RoundedWithin(dx * k, dy, i);
        assert Off(dx, dy, i, k) == -(i * dy - dx * k);
      }
    }
  }

  /** Exchanging the axes exchanges the coordinates of every point. */
  lemma {:induction false} Transposed(x0: int, y0: int, x1: int, y1: int, k: nat)
    requires k <= Extent(x0, y0, x1, y1)
    ensures Extent(y0, x0, y1, x1) == Extent(x0, y0, x1, y1)
    ensures var p, q := PointAt(x0, y0, x1, y1, k), PointAt(y0, x0, y1, x1, k); q.x == p.y && q.y == p.x
  {
    var dx, dy := Abs(x1 - x0), Abs(y1 - y0);
    if dx == dy && dx > 0 {
      RoundedWithin(dx * k, dx, k);
    }
  }
}
