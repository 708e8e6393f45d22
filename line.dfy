/** Bresenham line rasterisation (src/internal/line.rs), on integer end points. */
module Lines {
  import opened Colors
  import opened Framebuffers
  import Grid

  function Abs(v: int): nat {
    if v < 0 then -v else v
  }

  /** The unit step from `from` toward `to`: `if from < to { 1 } else { -1 }`. */
  function Toward(from: int, to: int): int {
    if from < to then 1 else -1
  }

  /** `v` lies on the closed segment between `a` and `b`. */
  predicate Between(a: int, v: int, b: int) {
    (a <= v <= b) || (b <= v <= a)
  }

  /** One step of the walk from (x1, y1) to (x2, y2): each coordinate stays or
      moves by one in its own direction, and at least one of them moves. */
  predicate Advances(p: Dot, q: Dot, x1: int, y1: int, x2: int, y2: int) {
    && (q.x == p.x || q.x == p.x + Toward(x1, x2))
    && (q.y == p.y || q.y == p.y + Toward(y1, y2))
    && (q.x, q.y) != (p.x, p.y)
  }

  /** The points drawn so far by a line from (x1, y1) toward (x2, y2) in colour
      `c`: it starts at the start point, never passes the end point on either
      axis, and advances by one king's move at a time; the end point is not
      drawn before the last point. */
  ghost predicate IsPartialLine(pts: seq<Dot>, x1: int, y1: int, x2: int, y2: int, c: Color) {
    && |pts| >= 1
    && At(pts[0], x1, y1)
    && (forall k :: 0 <= k < |pts| ==>
          Between(x1, pts[k].x, x2) && Between(y1, pts[k].y, y2) && pts[k].color == c)
    && (forall k :: 0 <= k < |pts| - 1 ==>
          !At(pts[k], x2, y2) && Advances(pts[k], pts[k + 1], x1, y1, x2, y2))
  }

  /** A complete line: a partial line whose last point is the end point. */
  ghost predicate IsLine(pts: seq<Dot>, x1: int, y1: int, x2: int, y2: int, c: Color) {
    IsPartialLine(pts, x1, y1, x2, y2, c) && At(pts[|pts| - 1], x2, y2)
  }

  lemma ExtendLine(pts: seq<Dot>, d: Dot, x1: int, y1: int, x2: int, y2: int, c: Color)
    requires IsPartialLine(pts, x1, y1, x2, y2, c)
    requires !At(pts[|pts| - 1], x2, y2)
    requires Advances(pts[|pts| - 1], d, x1, y1, x2, y2)
    requires Between(x1, d.x, x2) && Between(y1, d.y, y2) && d.color == c
    ensures IsPartialLine(pts + [d], x1, y1, x2, y2, c)
  {
  }

  /** Along a partial line each point is at most one step per point drawn from
      the start, and every step brings it one nearer to the end point on at
      least one axis without moving it away on the other. */
  lemma {:induction false} PartialLineBounds(pts: seq<Dot>, x1: int, y1: int, x2: int, y2: int, c: Color)
    requires IsPartialLine(pts, x1, y1, x2, y2, c)
    ensures Abs(pts[|pts| - 1].x - x1) <= |pts| - 1
    ensures Abs(pts[|pts| - 1].y - y1) <= |pts| - 1
    ensures Abs(x2 - pts[|pts| - 1].x) + Abs(y2 - pts[|pts| - 1].y) + (|pts| - 1) <= Abs(x2 - x1) + Abs(y2 - y1)
  {
    if |pts| > 1 {
      var init := pts[..|pts| - 1];
      assert IsPartialLine(init, x1, y1, x2, y2, c);
      PartialLineBounds(init, x1, y1, x2, y2, c);
      assert Advances(pts[|pts| - 2], pts[|pts| - 1], x1, y1, x2, y2);
    }
  }

  /** The coordinate `a` steps from `from` toward `to`. */
  function Pos(from: int, to: int, a: int): int {
    if from < to then from + a else from - a
  }

  /** One step of Bresenham's loop, from `a` x-steps and `b` y-steps to
      `a2` and `b2`, extends a partial line by the new cell. */
  lemma ExtendLineStep(pts: seq<Dot>, x1: int, y1: int, x2: int, y2: int, c: Color, a: int, b: int, a2: int, b2: int)
    requires IsPartialLine(pts, x1, y1, x2, y2, c)
    requires pts[|pts| - 1] == Dot(Pos(x1, x2, a), Pos(y1, y2, b), c)
    requires !(a == Abs(x2 - x1) && b == Abs(y2 - y1))
    requires 0 <= a <= a2 <= a + 1 && a2 <= Abs(x2 - x1)
    requires 0 <= b <= b2 <= b + 1 && b2 <= Abs(y2 - y1)
    requires (a, b) != (a2, b2)
    ensures IsPartialLine(pts + [Dot(Pos(x1, x2, a2), Pos(y1, y2, b2), c)], x1, y1, x2, y2, c)
  {
    ExtendLine(pts, Dot(Pos(x1, x2, a2), Pos(y1, y2, b2), c), x1, y1, x2, y2, c);
  }

  lemma ExtendBresenham(pts: seq<Dot>, d: Dot, x1: int, y1: int, x2: int, y2: int, a: int, b: int)
    requires IsBresenham(pts, x1, y1, x2, y2)
    requires NearestOffsets(a, b, |pts|, Abs(x2 - x1), Abs(y2 - y1))
    requires d.x == Pos(x1, x2, a) && d.y == Pos(y1, y2, b)
    requires a >= 0 && b >= 0
    ensures IsBresenham(pts + [d], x1, y1, x2, y2)
  {
    assert Abs(d.x - x1) == a && Abs(d.y - y1) == b;
    assert (pts + [d])[..|pts|] == pts;
  }

  /** A complete line has at least max(dx, dy) + 1 points (it is connected)
      and at most dx + dy + 1 (every step makes progress); from a point to
      itself it is that single point. */
  lemma LineLength(pts: seq<Dot>, x1: int, y1: int, x2: int, y2: int, c: Color)
    requires IsLine(pts, x1, y1, x2, y2, c)
    ensures Abs(x2 - x1) + 1 <= |pts| && Abs(y2 - y1) + 1 <= |pts|
    ensures |pts| <= Abs(x2 - x1) + Abs(y2 - y1) + 1
    ensures x1 == x2 && y1 == y2 ==> |pts| == 1
  {
    PartialLineBounds(pts, x1, y1, x2, y2, c);
  }

  /** The error-term facts behind Bresenham's loop. With `a` x-steps and `b`
      y-steps taken out of `dx` and `dy`, the error is
      `dx * (1 + b) - dy * (1 + a)`; then an x-step fires only while x has not
      reached its end, a y-step only while y has not, and away from the end
      point at least one of them fires. */
  lemma ErrorTerm(dx: int, dy: int, a: int, b: int, err: int)
    requires 0 <= a <= dx && 0 <= b && b <= dy && !(a == dx && b == dy)
    requires err == dx * (1 + b) - dy * (1 + a)
    ensures 2 * err > -dy ==> a < dx
    ensures 2 * err < dx ==> b < dy
    ensures 2 * err > -dy || 2 * err < dx
  {
    if a == dx {
      Grid.MulMonotone(1 + b, dy, dx);
    }
    if b == dy {
      Grid.MulMonotone(1 + a, dx, dy);
    }
  }

  lemma MulSucc(k: int, n: int)
    ensures k * (n + 1) == k * n + k
  {
  }

  function Max(a: int, b: int): int {
    if a < b then b else a
  }

  /** The cell `a` columns and `b` rows away from the start is point number
      `k` of the Bresenham line of a `dx` by `dy` box. Along the major axis
      it is `k` steps from the start; along the minor axis it is the cell
      whose centre is nearest the ideal line, `b * dx - a * dy` being that
      distance scaled by the major length, and a cell exactly half-way goes
      to the one nearer the start. A diagonal line moves on both axes at
      every step. */
  predicate NearestOffsets(a: int, b: int, k: int, dx: int, dy: int) {
    if dx > dy then a == k && -dx <= 2 * (b * dx - a * dy) < dx
    else if dy > dx then b == k && -dy < 2 * (b * dx - a * dy) <= dy
    else a == k && b == k
  }

  /** `p` is point number `k` of the Bresenham line from (x1, y1) to (x2, y2). */
  predicate NearestCell(p: Dot, k: int, x1: int, y1: int, x2: int, y2: int) {
    NearestOffsets(Abs(p.x - x1), Abs(p.y - y1), k, Abs(x2 - x1), Abs(y2 - y1))
  }

  /** Every point of `pts` is the Bresenham cell of its position. */
  ghost predicate IsBresenham(pts: seq<Dot>, x1: int, y1: int, x2: int, y2: int) {
    pts == [] ||
      (IsBresenham(pts[..|pts| - 1], x1, y1, x2, y2) && NearestCell(pts[|pts| - 1], |pts| - 1, x1, y1, x2, y2))
  }

  /** Point `k` of a Bresenham line is the cell of position `k`. */
  lemma {:induction false} BresenhamAt(pts: seq<Dot>, k: int, x1: int, y1: int, x2: int, y2: int)
    requires IsBresenham(pts, x1, y1, x2, y2) && 0 <= k < |pts|
    ensures NearestCell(pts[k], k, x1, y1, x2, y2)
  {
    if k < |pts| - 1 {
      BresenhamAt(pts[..|pts| - 1], k, x1, y1, x2, y2);
    }
  }

  /** The state of Bresenham's loop after `n` steps: `a` steps taken on x and
      `b` on y, the error term in step with them, the major axis stepped every
      time and the minor-axis deviation within half a cell. */
  ghost predicate Progress(dx: int, dy: int, a: int, b: int, err: int, n: int) {
    && 0 <= a <= dx && 0 <= b <= dy
    && err == dx * (1 + b) - dy * (1 + a)
    && (dx > dy ==> a == n && -dx <= 2 * (err - dx + dy) < dx)
    && (dy > dx ==> b == n && -dy < 2 * (err - dx + dy) <= dy)
    && (dx == dy ==> a == n && b == n)
  }

  lemma ProgressIsNearest(dx: int, dy: int, a: int, b: int, err: int, n: int)
    requires Progress(dx, dy, a, b, err, n)
    ensures NearestOffsets(a, b, n, dx, dy)
  {
    MulSucc(dx, b);
    MulSucc(dy, a);
  }

  /** One pass of the loop body, from `a`, `b`, `err` to `a2`, `b2`, `err2`,
      keeps `Progress` one step further and always advances. */
  lemma Step(dx: int, dy: int, a: int, b: int, err: int, n: int, a2: int, b2: int, err2: int)
    requires Progress(dx, dy, a, b, err, n) && !(a == dx && b == dy)
    requires a2 == (if 2 * err > -dy then a + 1 else a)
    requires b2 == (if 2 * err < dx then b + 1 else b)
    requires err2 == err - (if 2 * err > -dy then dy else 0) + (if 2 * err < dx then dx else 0)
    ensures Progress(dx, dy, a2, b2, err2, n + 1)
    ensures NearestOffsets(a2, b2, n + 1, dx, dy)
    ensures a + b < a2 + b2
  {
    ErrorTerm(dx, dy, a, b, err);
    MulSucc(dy, 1 + a);
    MulSucc(dx, 1 + b);
    ProgressIsNearest(dx, dy, a2, b2, err2, n + 1);
  }

  /** A Bresenham line has exactly max(dx, dy) + 1 points. */
  lemma BresenhamLength(pts: seq<Dot>, x1: int, y1: int, x2: int, y2: int, c: Color)
    requires IsLine(pts, x1, y1, x2, y2, c) && IsBresenham(pts, x1, y1, x2, y2)
    ensures |pts| == 1 + Max(Abs(x2 - x1), Abs(y2 - y1))
  {
    BresenhamAt(pts, |pts| - 1, x1, y1, x2, y2);
  }

  lemma MulSub(u: int, v: int, m: int)
    ensures (u - v) * m == u * m - v * m
  {
  }

  /** Two values each within half of `m` of `s / m`, in the same half-open
      sense, are equal. */
  lemma HalfOpenUnique(m: int, u: int, v: int, s: int)
    requires m > 0
    requires -m <= 2 * (u * m - s) < m && -m <= 2 * (v * m - s) < m
    ensures u == v
  {
    if u > v {
      Grid.MulMonotone(1, u - v, m);
      MulSub(u, v, m);
    } else if v > u {
      Grid.MulMonotone(1, v - u, m);
      MulSub(v, u, m);
    }
  }

  /** On a line from (x1, y1) to (x2, y2), a cell is fixed by its two
      distances from the start. */
  lemma SameOffsets(p: Dot, q: Dot, x1: int, y1: int, x2: int, y2: int)
    requires Between(x1, p.x, x2) && Between(y1, p.y, y2)
    requires Between(x1, q.x, x2) && Between(y1, q.y, y2)
    requires Abs(p.x - x1) == Abs(q.x - x1) && Abs(p.y - y1) == Abs(q.y - y1)
    ensures p.x == q.x && p.y == q.y
  {
  }

  /** Each position of a Bresenham line has exactly one cell. */
  lemma NearestCellUnique(p: Dot, q: Dot, k: int, x1: int, y1: int, x2: int, y2: int)
    requires NearestCell(p, k, x1, y1, x2, y2) && NearestCell(q, k, x1, y1, x2, y2)
    requires Between(x1, p.x, x2) && Between(y1, p.y, y2)
    requires Between(x1, q.x, x2) && Between(y1, q.y, y2)
    ensures p.x == q.x && p.y == q.y
  {
    var dx, dy := Abs(x2 - x1), Abs(y2 - y1);
    if dx > dy {
      HalfOpenUnique(dx, Abs(p.y - y1), Abs(q.y - y1), k * dy);
    } else if dy > dx {
      HalfOpenUnique(dy, Abs(p.x - x1), Abs(q.x - x1), k * dx);
    }
    SameOffsets(p, q, x1, y1, x2, y2);
  }

  /** The contract of `Line` fixes its output: there is only one Bresenham
      line between two points in a given colour. */
  lemma BresenhamUnique(p: seq<Dot>, q: seq<Dot>, x1: int, y1: int, x2: int, y2: int, c: Color)
    requires IsLine(p, x1, y1, x2, y2, c) && IsBresenham(p, x1, y1, x2, y2)
    requires IsLine(q, x1, y1, x2, y2, c) && IsBresenham(q, x1, y1, x2, y2)
    ensures p == q
  {
    BresenhamLength(p, x1, y1, x2, y2, c);
    BresenhamLength(q, x1, y1, x2, y2, c);
    forall k | 0 <= k < |p|
      ensures p[k] == q[k]
    {
      BresenhamAt(p, k, x1, y1, x2, y2);
      BresenhamAt(q, k, x1, y1, x2, y2);
      NearestCellUnique(p[k], q[k], k, x1, y1, x2, y2);
    }
  }

  /** From (0, 0) to (2, 1) the Bresenham line is (0, 0), (1, 0), (2, 1): the
      middle cell ties between rows 0 and 1 and goes to the row of the start.
      The diagonal-first walk (0, 0), (1, 1), (2, 1) is a line but not the
      Bresenham one. */
  lemma ShallowLine(c: Color)
    ensures IsLine([Dot(0, 0, c), Dot(1, 0, c), Dot(2, 1, c)], 0, 0, 2, 1, c)
    ensures IsBresenham([Dot(0, 0, c), Dot(1, 0, c), Dot(2, 1, c)], 0, 0, 2, 1)
    ensures IsLine([Dot(0, 0, c), Dot(1, 1, c), Dot(2, 1, c)], 0, 0, 2, 1, c)
    ensures !IsBresenham([Dot(0, 0, c), Dot(1, 1, c), Dot(2, 1, c)], 0, 0, 2, 1)
  {
    var p := [Dot(0, 0, c), Dot(1, 0, c), Dot(2, 1, c)];
    var q := [Dot(0, 0, c), Dot(1, 1, c), Dot(2, 1, c)];
    assert [Dot(0, 0, c)][..0] == [];
    assert IsBresenham([Dot(0, 0, c)], 0, 0, 2, 1);
    assert p[..2][..1] == [Dot(0, 0, c)] && p[..2] == [Dot(0, 0, c), Dot(1, 0, c)];
    assert IsBresenham(p[..2], 0, 0, 2, 1);
    assert q[..2] == [Dot(0, 0, c), Dot(1, 1, c)];
    assert !NearestCell(Dot(1, 1, c), 1, 0, 0, 2, 1);
  }

  /** Line::line: draws the Bresenham line from (x1, y1) to (x2, y2), one
      `draw_point` per step, in the framebuffer's current colour. The points
      appended are a connected walk from start to end whose k-th point is the
      Bresenham cell of position k, max(dx, dy) + 1 of them; by
      `BresenhamUnique` this fixes every point drawn. */
  method Line(fb: Framebuffer, x1: int, y1: int, x2: int, y2: int)
    modifies fb`drawn
    ensures |fb.drawn| > |old(fb.drawn)| && fb.drawn[..|old(fb.drawn)|] == old(fb.drawn)
    ensures IsLine(fb.drawn[|old(fb.drawn)|..], x1, y1, x2, y2, fb.currentColor)
    ensures IsBresenham(fb.drawn[|old(fb.drawn)|..], x1, y1, x2, y2)
    ensures |fb.drawn| - |old(fb.drawn)| == 1 + Max(Abs(x2 - x1), Abs(y2 - y1))
  {
    var x, y := x1, y1;
    var dx: int := Abs(x2 - x1);
    var dy: int := Abs(y2 - y1);
    var sx := Toward(x1, x2);
    var sy := Toward(y1, y2);
    var err: int := dx - dy;
    ghost var a: int, b: int := 0, 0;
    ghost var c := fb.currentColor;

    fb.DrawPoint(x, y);
    ghost var line := [Dot(x, y, c)];
    ProgressIsNearest(dx, dy, a, b, err, 0);
    ExtendBresenham([], Dot(x, y, c), x1, y1, x2, y2, a, b);
    assert [] + [Dot(x, y, c)] == line;
    while !(x == x2 && y == y2)
      invariant fb.drawn == old(fb.drawn) + line
      invariant Progress(dx, dy, a, b, err, |line| - 1)
      invariant x == Pos(x1, x2, a) && y == Pos(y1, y2, b)
      invariant line[|line| - 1] == Dot(x, y, c)
      invariant IsPartialLine(line, x1, y1, x2, y2, c)
      invariant IsBresenham(line, x1, y1, x2, y2)
      decreases (dx - a) + (dy - b)
    {
      ghost var a0, b0, err0 := a, b, err;
      var e2 := err * 2;
      if e2 > -dy {
        err := err - dy;
        x := x + sx;
        a := a + 1;
      }
      if e2 < dx {
        err := err + dx;
        y := y + sy;
        b := b + 1;
      }
      Step(dx, dy, a0, b0, err0, |line| - 1, a, b, err);
      ExtendLineStep(line, x1, y1, x2, y2, c, a0, b0, a, b);
      ExtendBresenham(line, Dot(x, y, c), x1, y1, x2, y2, a, b);
      fb.DrawPoint(x, y);
      line := line + [Dot(x, y, c)];
    }
    assert fb.drawn[|old(fb.drawn)|..] == line;
    BresenhamLength(line, x1, y1, x2, y2, c);
  }
}
