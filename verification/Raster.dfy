/** The line and circle rasterisers of `drm.c`, against the true line and circle.

    The methods return the points in the order in which they are plotted, over unbounded
    integers; `SmallFits` and the bounds that the loops keep show when i32 is enough. */
module Raster {
  import opened Machine

  datatype Point = Point(x: int, y: int)

  function Sign(a: int): int { if a < 0 then -1 else if a > 0 then 1 else 0 }
  function Abs(a: int): nat { if a < 0 then -a else a }

  const I32_MAX := 0x7fff_ffff

  predicate I32(v: int) { -I32_MAX - 1 <= v <= I32_MAX }

  /** No larger than about twice the size of the figure. */
  predicate Small(v: int, size: nat) { -2 * size - 1 <= v <= 2 * size + 1 }

  lemma SmallFits(v: int, size: nat)
    requires Small(v, size) && size <= I32_MAX / 2
    ensures I32(v)
  {}

  // ----- Lines

  /** After `t` steps along the longer axis, `k` of them diagonal, the point is as near to
      the true line as a grid point on its column can be: at most half a pixel away, and at
      exactly half a pixel on the side of the start. */
  ghost predicate HalfPixel(t: int, k: int, fast: int, slow: int) {
    -fast <= 2 * (k * fast - t * slow) && (2 * (k * fast - t * slow) < fast || fast == 0)
  }

  /** `n` steps in the direction of `d`. */
  function Along(n: int, d: int): int { if d < 0 then -n else if d > 0 then n else 0 }

  /** Step `t` of the line from (x0, y0) to (x1, y1), with `k` steps on the short axis. */
  function LinePoint(x0: int, y0: int, x1: int, y1: int, t: int, k: int): Point {
    var dx, dy := x1 - x0, y1 - y0;
    if Abs(dx) > Abs(dy) then Point(x0 + Along(t, dx), y0 + Along(k, dy))
    else Point(x0 + Along(k, dx), y0 + Along(t, dy))
  }

  function Fast(x0: int, y0: int, x1: int, y1: int): nat { Max(Abs(x1 - x0), Abs(y1 - y0)) }
  function Slow(x0: int, y0: int, x1: int, y1: int): nat { if Abs(x1 - x0) > Abs(y1 - y0) then Abs(y1 - y0) else Abs(x1 - x0) }

  ghost predicate OnLine(x0: int, y0: int, x1: int, y1: int, t: int, p: Point) {
    exists k :: 0 <= k <= Slow(x0, y0, x1, y1) && p == LinePoint(x0, y0, x1, y1, t, k) && HalfPixel(t, k, Fast(x0, y0, x1, y1), Slow(x0, y0, x1, y1))
  }

  /** What this means in the plane: the point has gone `t` pixels along the longer axis, and its
      cross product with the line is at most half of that axis. */
  lemma PointNear(x0: int, y0: int, x1: int, y1: int, t: nat, p: Point)
    requires OnLine(x0, y0, x1, y1, t, p) && t <= Fast(x0, y0, x1, y1)
    ensures var dx, dy, px, py := x1 - x0, y1 - y0, p.x - x0, p.y - y0;
            if Abs(dx) > Abs(dy) then (if dx > 0 then px == t else px + t == 0) && Abs(2 * (py * dx - px * dy)) <= Abs(dx)
            else (if dy >= 0 then py == t else py + t == 0) && Abs(2 * (px * dy - py * dx)) <= Abs(dy)
  {
    var dx, dy, px, py := x1 - x0, y1 - y0, p.x - x0, p.y - y0;
    var k :| 0 <= k <= Slow(x0, y0, x1, y1) && p == LinePoint(x0, y0, x1, y1, t, k) && HalfPixel(t, k, Fast(x0, y0, x1, y1), Slow(x0, y0, x1, y1));
    if Abs(dx) > Abs(dy) {
      CrossProduct(px, py, dx, dy, t, k);
    } else {
      CrossProduct(py, px, dy, dx, t, k);
    }
  }

  lemma CrossProduct(px: int, py: int, dx: int, dy: int, t: nat, k: nat)
    requires px == Along(t, dx) && py == Along(k, dy) && k <= Abs(dy) <= Abs(dx) && t <= Abs(dx)
    requires HalfPixel(t, k, Abs(dx), Abs(dy))
    ensures Abs(2 * (py * dx - px * dy)) <= Abs(dx)
  {
    AlongTimes(k, dy, dx);
    AlongTimes(t, dx, dy);
    HalfSigned(k * Abs(dx), t * Abs(dy), Abs(dx), py * dx, px * dy);
  }

  lemma AlongTimes(k: nat, d: int, m: int)
    requires d == 0 ==> k == 0 || m == 0
    ensures Along(k, d) * m == if (d < 0) == (m < 0) then k * Abs(m) else 0 - k * Abs(m)
  {
    if d < 0 {
      assert Along(k, d) * m == k * (0 - m);
    }
    assert k * (0 - m) == 0 - k * m;
  }

  lemma HalfSigned(u: int, v: int, fast: int, a: int, b: int)
    requires -fast <= 2 * (u - v) <= fast && ((a == u && b == v) || (a == -u && b == -v))
    ensures Abs(2 * (a - b)) <= fast
  {}

  /** The moves of the loop: straight, and diagonal. */
  lemma LineMoves(x0: int, y0: int, x1: int, y1: int, t: int, k: int)
    ensures var p, dx, dy := LinePoint(x0, y0, x1, y1, t, k), Sign(x1 - x0), Sign(y1 - y0);
            && LinePoint(x0, y0, x1, y1, t + 1, k + 1) == Point(p.x + dx, p.y + dy)
            && LinePoint(x0, y0, x1, y1, t + 1, k)
               == if Abs(x1 - x0) > Abs(y1 - y0) then Point(p.x + dx, p.y) else Point(p.x, p.y + dy)
  {
  }

  lemma LineEnds(x0: int, y0: int, x1: int, y1: int)
    ensures LinePoint(x0, y0, x1, y1, 0, 0) == Point(x0, y0)
    ensures LinePoint(x0, y0, x1, y1, Fast(x0, y0, x1, y1), Slow(x0, y0, x1, y1)) == Point(x1, y1)
    ensures Slow(x0, y0, x1, y1) <= Fast(x0, y0, x1, y1)
  {
  }

  /** The error term after `t` steps, `k` of them diagonal. */
  function ErrorTerm(t: int, k: int, fast: int, slow: int): int { fast / 2 - t * slow + k * fast }

  lemma ErrorMoves(t: int, k: int, fast: int, slow: int)
    ensures ErrorTerm(0, 0, fast, slow) == fast / 2
    ensures ErrorTerm(t + 1, k, fast, slow) == ErrorTerm(t, k, fast, slow) - slow
    ensures ErrorTerm(t + 1, k + 1, fast, slow) == ErrorTerm(t, k, fast, slow) - slow + fast
  {}

  /** At the end of the long axis the short one has been walked exactly. */
  lemma EndsExactly(k: int, fast: int, slow: int)
    requires 0 <= ErrorTerm(fast, k, fast, slow) < fast
    ensures k == slow
  {
    assert (k - slow) * fast == ErrorTerm(fast, k, fast, slow) - fast / 2;
    MultipleInRange(k - slow, fast);
  }

  lemma MultipleInRange(m: int, fast: int)
    requires fast > 0 && -fast < m * fast < fast
    ensures m == 0
  {}

  /** The walk never leaves the short axis. */
  lemma ShortAxis(t: int, k: int, fast: int, slow: int)
    requires 0 <= ErrorTerm(t, k, fast, slow) < fast && 0 <= t <= fast && 0 <= slow
    ensures 0 <= k <= slow
  {
    TimesGrows(0, t, slow);
    TimesGrows(t, fast, slow);
    TimesGrows(slow, slow + 1, fast);
    if k < 0 { TimesGrows(k, -1, fast); }
    if k > slow { TimesGrows(slow + 1, k, fast); }
    InShortAxis(ErrorTerm(t, k, fast, slow), k, fast, slow, k * fast, t * slow, fast * slow);
  }

  lemma InShortAxis(e: int, k: int, fast: int, slow: int, kFast: int, tSlow: int, whole: int)
    requires e == fast / 2 - tSlow + kFast && 0 <= e < fast && 0 <= tSlow <= whole
    requires (k < 0 ==> kFast <= -fast) && (k > slow ==> kFast >= whole + fast)
    ensures 0 <= k <= slow
  {}

  lemma TimesGrows(a: int, b: int, c: int)
    requires a <= b && c >= 0
    ensures a * c <= b * c && (a + 1) * c == a * c + c
  {}

  /** Between the two ends, in either order. */
  predicate Between(v: int, a: int, b: int) { a <= v <= b || b <= v <= a }

  lemma OnLineInBox(x0: int, y0: int, x1: int, y1: int, t: int, p: Point)
    requires 0 <= t <= Fast(x0, y0, x1, y1) && OnLine(x0, y0, x1, y1, t, p)
    ensures Between(p.x, x0, x1) && Between(p.y, y0, y1)
  {}

  /** `drm_plot_line`. */
  method PlotLine(x0: int, y0: int, x1: int, y1: int) returns (points: seq<Point>)
    ensures |points| == Fast(x0, y0, x1, y1) + 1
    ensures points[0] == Point(x0, y0) && points[|points| - 1] == Point(x1, y1)
    ensures forall t :: 0 <= t < |points| ==>
      OnLine(x0, y0, x1, y1, t, points[t]) && Between(points[t].x, x0, x1) && Between(points[t].y, y0, y1)
  {
    var dx, dy := x1 - x0, y1 - y0;
    var incx, incy := Sign(dx), Sign(dy);
    if dx < 0 { dx := -dx; }
    if dy < 0 { dy := -dy; }
    var pdx, pdy, ddx, ddy, slow, fast;
    if dx > dy {
      pdx, pdy, ddx, ddy, slow, fast := incx, 0, incx, incy, dy, dx;
    } else {
      pdx, pdy, ddx, ddy, slow, fast := 0, incy, incx, incy, dx, dy;
    }
    points := WalkLine(x0, y0, x1, y1, pdx, pdy, ddx, ddy, slow, fast);
    hide OnLine, Fast;
    forall t | 0 <= t < |points| ensures Between(points[t].x, x0, x1) && Between(points[t].y, y0, y1) {
      OnLineInBox(x0, y0, x1, y1, t, points[t]);
    }
  }

  /** The loop of `drm_plot_line`. */
  method WalkLine(x0: int, y0: int, x1: int, y1: int, pdx: int, pdy: int, ddx: int, ddy: int, slow: int, fast: int)
    returns (points: seq<Point>)
    requires fast == Fast(x0, y0, x1, y1) && slow == Slow(x0, y0, x1, y1)
    requires ddx == Sign(x1 - x0) && ddy == Sign(y1 - y0)
    requires if Abs(x1 - x0) > Abs(y1 - y0) then pdx == ddx && pdy == 0 else pdx == 0 && pdy == ddy
    ensures |points| == fast + 1 && points[0] == Point(x0, y0) && points[fast] == Point(x1, y1)
    ensures forall t :: 0 <= t < |points| ==> OnLine(x0, y0, x1, y1, t, points[t])
  {
    LineEnds(x0, y0, x1, y1);
    ErrorMoves(0, 0, fast, slow);
    FirstOnLine(x0, y0, x1, y1);
    hide ErrorTerm, HalfPixel, Fast, Slow, LinePoint, Abs, Max, Sign, OnLine;
    var x, y, err := x0, y0, fast / 2;
    points := [Point(x, y)];
    ghost var k := 0;
    for t := 0 to fast
      invariant |points| == t + 1 && points[t] == Point(x, y) == LinePoint(x0, y0, x1, y1, t, k)
      invariant points[0] == Point(x0, y0)
      invariant err == ErrorTerm(t, k, fast, slow) && (0 <= err < fast || fast == 0)
      invariant forall i :: 0 <= i <= t ==> OnLine(x0, y0, x1, y1, i, points[i])
    {
      ErrorMoves(t, k, fast, slow);
      LineMoves(x0, y0, x1, y1, t, k);
      err := err - slow;
      assert -fast <= err < fast || fast == 0;
      if err < 0 {
        err := err + fast;
        x := x + ddx;
        y := y + ddy;
        k := k + 1;
      } else {
        x := x + pdx;
        y := y + pdy;
      }
      NextOnLine(x0, y0, x1, y1, t + 1, k);
      points := points + [Point(x, y)];
    }
    if fast > 0 {
      EndsExactly(k, fast, slow);
    }
  }

  lemma NextOnLine(x0: int, y0: int, x1: int, y1: int, t: int, k: int)
    requires 0 <= t <= Fast(x0, y0, x1, y1)
    requires 0 <= ErrorTerm(t, k, Fast(x0, y0, x1, y1), Slow(x0, y0, x1, y1)) < Fast(x0, y0, x1, y1)
    ensures OnLine(x0, y0, x1, y1, t, LinePoint(x0, y0, x1, y1, t, k))
  {
    ShortAxis(t, k, Fast(x0, y0, x1, y1), Slow(x0, y0, x1, y1));
  }

  lemma FirstOnLine(x0: int, y0: int, x1: int, y1: int)
    ensures OnLine(x0, y0, x1, y1, 0, Point(x0, y0))
  {
    assert LinePoint(x0, y0, x1, y1, 0, 0) == Point(x0, y0);
    assert HalfPixel(0, 0, Fast(x0, y0, x1, y1), Slow(x0, y0, x1, y1));
  }

  // ----- Circles

  /** (x, y) is as near to the circle of radius `r` as a grid point can be: where the circle
      runs flat, in its column, and where it is steep, in its row. */
  ghost predicate NearCircle(x: int, y: int, r: int) {
    if r == 0 then x == y == 0 else -Max(x, y) <= x * x + y * y - r * r < Max(x, y)
  }

  /** What NearCircle means for the true coordinate `s` of the circle in that column or row. */
  lemma NearestCoordinate(x: int, y: int, r: int, s: real)
    requires r > 0 && 0 <= x && 0 <= y && NearCircle(x, y, r) && s >= 0.0
    requires s * s == (if x <= y then r * r - x * x else r * r - y * y) as real
    ensures Max(x, y) as real - 0.5 < s < Max(x, y) as real + 0.5
  {
    NearInColumn(x, y, r);
    RootNear(Max(x, y), if x <= y then r * r - x * x else r * r - y * y, s);
  }

  lemma NearInColumn(x: int, y: int, r: int)
    requires r > 0 && NearCircle(x, y, r)
    ensures var m, k := Max(x, y), if x <= y then r * r - x * x else r * r - y * y;
            m * m - m + 1 <= k <= m * m + m
  {}

  lemma RootNear(m: int, k: int, s: real)
    requires m >= 0 && m * m - m + 1 <= k <= m * m + m && s >= 0.0 && s * s == k as real
    ensures m as real - 0.5 < s < m as real + 0.5
  {
    var d := m as real;
    assert (m * m) as real == d * d;
    if s >= d + 0.5 {
      SquareGrows(d + 0.5, s);
    } else if s <= d - 0.5 {
      SquareGrows(s, d - 0.5);
    }
  }

  lemma SquareGrows(a: real, b: real)
    requires 0.0 <= a <= b
    ensures a * a <= b * b
  {
  }

  /** The error of an octant point in terms of its ordinate. */
  ghost predicate WithinOrdinate(x: int, y: int, r: int) {
    -y <= x * x + y * y - r * r <= y
  }

  /** The eight reflections of (x, y) about the centre. */
  function Reflections(x0: int, y0: int, x: int, y: int): seq<Point> {
    [Point(x0 + x, y0 + y), Point(x0 - x, y0 + y), Point(x0 + x, y0 - y), Point(x0 - x, y0 - y),
     Point(x0 + y, y0 + x), Point(x0 - y, y0 + x), Point(x0 + y, y0 - x), Point(x0 - y, y0 - x)]
  }

  /** The decision value, and how far the current point may be off. */
  ghost predicate Decides(x: int, y: int, r: int, f: int) {
    && f == (x + 1) * (x + 1) + y * y - y - r * r
    && -y <= x * x + y * y - r * r
    && (if x <= y then x * x + y * y - r * r <= y - 1 else x == y + 1 && x * x + y * y - r * r <= y)
  }

  lemma Step(x: int, y: int, r: int, f: int)
    requires r > 0 && 0 <= x < y && Decides(x, y, r, f)
    ensures f < 0 ==> Decides(x + 1, y, r, f + 2 * x + 3) && NearCircle(x + 1, y, r) && WithinOrdinate(x + 1, y, r)
    ensures f >= 0 ==> Decides(x + 1, y - 1, r, f - 2 * y + 2 + 2 * x + 3) && NearCircle(x + 1, y - 1, r)
    ensures f >= 0 ==> WithinOrdinate(x + 1, y - 1, r)
  {}

  /** What the decision value tells about its size, now and after either move. */
  lemma Bounded(x: int, y: int, r: nat, f: int)
    requires r > 0 && 0 <= x < y <= r && Decides(x, y, r, f)
    ensures f < 0 ==> Small(f + 2 * x + 3, r)
    ensures f >= 0 ==> Small(f - 2 * y + 2, r) && Small(f - 2 * y + 2 + 2 * x + 3, r)
  {
    assert f == (x * x + y * y - r * r) + 2 * x + 1 - y;
  }

  /** The points of a circle: the four on the axes, then eight for each further column. */
  function Rings(x0: int, y0: int, column: seq<int>): seq<Point>
    requires |column| > 0
    decreases |column|
  {
    var n := |column| - 1;
    if n == 0 then [Point(x0, y0 + column[0]), Point(x0, y0 - column[0]), Point(x0 + column[0], y0), Point(x0 - column[0], y0)]
    else Rings(x0, y0, column[..n]) + Reflections(x0, y0, n, column[n])
  }

  /** `column` lists the ordinate chosen for each column from the top of the circle until
      the diagonal is crossed, each nearest to the circle. */
  ghost predicate Octant(column: seq<int>, r: nat) {
    && |column| > 0 && column[0] == r
    && (forall x :: 0 <= x < |column| ==> column[x] >= 0 && NearCircle(x, column[x], r) && WithinOrdinate(x, column[x], r))
    && (forall x :: 0 <= x < |column| - 1 ==> x < column[x] && column[x] - 1 <= column[x + 1] <= column[x])
  }

  lemma {:induction false} RingsNear(x0: int, y0: int, column: seq<int>, r: nat)
    requires Octant(column, r)
    ensures forall p :: p in Rings(x0, y0, column) ==> NearCircle(Abs(p.x - x0), Abs(p.y - y0), r)
    decreases |column|
  {
    hide NearCircle, WithinOrdinate, Reflections;
    var n := |column| - 1;
    if n == 0 {
      StartOfCircle(r);
      assert Rings(x0, y0, column) == [Point(x0, y0 + r), Point(x0, y0 - r), Point(x0 + r, y0), Point(x0 - r, y0)];
    } else {
      RingsNear(x0, y0, column[..n], r);
      Reflected(x0, y0, n, column[n], r);
    }
  }

  /** With each point its mirror images in the two axes and the diagonal through the centre. */
  ghost predicate Symmetric(x0: int, y0: int, points: seq<Point>) {
    forall p {:trigger Mirrored(x0, y0, points, p)} :: p in points ==> Mirrored(x0, y0, points, p)
  }

  ghost predicate Mirrored(x0: int, y0: int, points: seq<Point>, p: Point) {
    && Point(2 * x0 - p.x, p.y) in points && Point(p.x, 2 * y0 - p.y) in points
    && Point(x0 + p.y - y0, y0 + p.x - x0) in points
  }

  lemma {:induction false} RingsSymmetric(x0: int, y0: int, column: seq<int>)
    requires |column| > 0
    ensures Symmetric(x0, y0, Rings(x0, y0, column))
    ensures forall x :: 0 <= x < |column| ==> Point(x0 + x, y0 + column[x]) in Rings(x0, y0, column)
    decreases |column|
  {
    hide Symmetric, Mirrored, Reflections;
    var n := |column| - 1;
    if n == 0 {
      AxesSymmetric(x0, y0, column[0]);
    } else {
      RingsSymmetric(x0, y0, column[..n]);
      ReflectionsSymmetric(x0, y0, n, column[n]);
      SymmetricBoth(x0, y0, Rings(x0, y0, column[..n]), Reflections(x0, y0, n, column[n]));
      forall x | 0 <= x < n ensures Point(x0 + x, y0 + column[x]) in Rings(x0, y0, column) {
        assert column[..n][x] == column[x];
      }
    }
  }

  lemma AxesSymmetric(x0: int, y0: int, y: int)
    ensures Symmetric(x0, y0, [Point(x0, y0 + y), Point(x0, y0 - y), Point(x0 + y, y0), Point(x0 - y, y0)])
  {
    var s := [Point(x0, y0 + y), Point(x0, y0 - y), Point(x0 + y, y0), Point(x0 - y, y0)];
    forall p | p in s ensures Mirrored(x0, y0, s, p) {
      assert p == s[0] || p == s[1] || p == s[2] || p == s[3];
    }
  }

  lemma ReflectionsSymmetric(x0: int, y0: int, x: int, y: int)
    ensures Symmetric(x0, y0, Reflections(x0, y0, x, y)) && Point(x0 + x, y0 + y) in Reflections(x0, y0, x, y)
  {
    var s := Reflections(x0, y0, x, y);
    forall p | p in s ensures Mirrored(x0, y0, s, p) {
      ReflectionMirrored(x0, y0, x, y, p);
    }
  }

  lemma ReflectionMirrored(x0: int, y0: int, x: int, y: int, p: Point)
    requires p in Reflections(x0, y0, x, y)
    ensures Mirrored(x0, y0, Reflections(x0, y0, x, y), p)
  {
    Members(x0, y0, x, y);
    hide Reflections;
    var dx, dy := p.x - x0, p.y - y0;
    assert IsReflection(x0, y0, x, y, Point(x0 - dx, p.y)) && IsReflection(x0, y0, x, y, Point(p.x, y0 - dy))
      && IsReflection(x0, y0, x, y, Point(x0 + dy, y0 + dx));
  }

  predicate IsReflection(x0: int, y0: int, x: int, y: int, p: Point) {
    var dx, dy := p.x - x0, p.y - y0;
    ((dx == x || dx == -x) && (dy == y || dy == -y)) || ((dx == y || dx == -y) && (dy == x || dy == -x))
  }

  lemma Members(x0: int, y0: int, x: int, y: int)
    ensures forall p :: p in Reflections(x0, y0, x, y) <==> IsReflection(x0, y0, x, y, p)
  {
    forall p ensures p in Reflections(x0, y0, x, y) <==> IsReflection(x0, y0, x, y, p) {
      var s := Reflections(x0, y0, x, y);
      assert p in s <==> p == s[0] || p == s[1] || p == s[2] || p == s[3] || p == s[4] || p == s[5] || p == s[6] || p == s[7];
    }
  }

  lemma SymmetricBoth(x0: int, y0: int, a: seq<Point>, b: seq<Point>)
    requires Symmetric(x0, y0, a) && Symmetric(x0, y0, b)
    ensures Symmetric(x0, y0, a + b)
  {
    forall p | p in a + b ensures Mirrored(x0, y0, a + b, p) {
      assert p in a ==> Mirrored(x0, y0, a, p);
      assert p in b ==> Mirrored(x0, y0, b, p);
    }
  }

  lemma NextColumn(x0: int, y0: int, column: seq<int>, y: int, r: nat)
    requires Octant(column, r) && y >= 0 && NearCircle(|column|, y, r) && WithinOrdinate(|column|, y, r)
    requires |column| - 1 < column[|column| - 1] && column[|column| - 1] - 1 <= y <= column[|column| - 1]
    ensures Octant(column + [y], r)
    ensures Rings(x0, y0, column + [y]) == Rings(x0, y0, column) + Reflections(x0, y0, |column|, y)
  {
    hide NearCircle, WithinOrdinate, Reflections;
    assert (column + [y])[..|column|] == column;
  }

  lemma FirstPoints(x0: int, y0: int, r: nat)
    ensures Octant([r], r) && (r > 0 ==> Decides(0, r, r, 1 - r))
    ensures Rings(x0, y0, [r]) == [Point(x0, y0 + r), Point(x0, y0 - r), Point(x0 + r, y0), Point(x0 - r, y0)]
  {
    StartOfCircle(r);
  }

  /** `drm_plot_circle`. */
  method PlotCircle(x0: int, y0: int, r: nat) returns (points: seq<Point>, ghost column: seq<int>)
    ensures Octant(column, r) && column[|column| - 1] <= |column| - 1 && points == Rings(x0, y0, column)
    ensures forall p :: p in points ==> NearCircle(Abs(p.x - x0), Abs(p.y - y0), r)
    ensures Symmetric(x0, y0, points) && forall x :: 0 <= x < |column| ==> Point(x0 + x, y0 + column[x]) in points
  {
    var f, ddFx, ddFy, x: int, y: int := 1 - r, 0, -2 * r, 0, r;
    points := [Point(x0, y0 + r), Point(x0, y0 - r), Point(x0 + r, y0), Point(x0 - r, y0)];
    column := [r];
    hide Decides, NearCircle, WithinOrdinate, Octant, Rings, Reflections, Symmetric, Abs;
    FirstPoints(x0, y0, r);
    while x < y
      invariant 0 <= x && 0 <= y && ddFx == 2 * x && ddFy == -2 * y && (r == 0 ==> y == 0)
      invariant r > 0 ==> Decides(x, y, r, f)
      invariant y <= r && Small(f, r) && Small(ddFx, r) && Small(ddFy, r)
      invariant Octant(column, r) && |column| == x + 1 && column[x] == y
      invariant points == Rings(x0, y0, column)
      decreases y - x
    {
      Step(x, y, r, f);
      Bounded(x, y, r, f);
      if f >= 0 {
        y := y - 1;
        ddFy := ddFy + 2;
        f := f + ddFy;
      }
      assert Small(f, r) && Small(ddFy, r);
      x := x + 1;
      ddFx := ddFx + 2;
      f := f + ddFx + 1;
      points := Plot(x0, y0, x, y, points);
      NextColumn(x0, y0, column, y, r);
      column := column + [y];
    }
    RingsNear(x0, y0, column, r);
    RingsSymmetric(x0, y0, column);
  }

  /** The eight calls of `drm_plot` in the loop. */
  method Plot(x0: int, y0: int, x: int, y: int, before: seq<Point>) returns (points: seq<Point>)
    ensures points == before + Reflections(x0, y0, x, y)
  {
    points := before + [Point(x0 + x, y0 + y)];
    points := points + [Point(x0 - x, y0 + y)];
    points := points + [Point(x0 + x, y0 - y)];
    points := points + [Point(x0 - x, y0 - y)];
    points := points + [Point(x0 + y, y0 + x)];
    points := points + [Point(x0 - y, y0 + x)];
    points := points + [Point(x0 + y, y0 - x)];
    points := points + [Point(x0 - y, y0 - x)];
  }

  lemma StartOfCircle(r: nat)
    ensures NearCircle(0, r, r) && WithinOrdinate(0, r, r) && NearCircle(r, 0, r) && (r > 0 ==> Decides(0, r, r, 1 - r))
  {
  }

  lemma NearCircleSymmetric(x: int, y: int, r: int)
    requires NearCircle(x, y, r)
    ensures NearCircle(y, x, r)
  {
  }

  lemma Reflected(x0: int, y0: int, x: int, y: int, r: nat)
    requires 0 <= x && 0 <= y && NearCircle(x, y, r)
    ensures forall p :: p in Reflections(x0, y0, x, y) ==> NearCircle(Abs(p.x - x0), Abs(p.y - y0), r)
  {
    NearCircleSymmetric(x, y, r);
    hide NearCircle;
    forall p | p in Reflections(x0, y0, x, y) ensures NearCircle(Abs(p.x - x0), Abs(p.y - y0), r) {
      assert (Abs(p.x - x0) == x && Abs(p.y - y0) == y) || (Abs(p.x - x0) == y && Abs(p.y - y0) == x);
    }
  }
}
