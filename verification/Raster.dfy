/** Drawing lines and circles point by point (src/kernel/graphics/render.cpp). */
module Raster {
  type Point = (int, int)

  function Abs(a: int): (r: int)
    ensures r >= 0
  {
    if a < 0 then -a else a
  }

  function Max(a: int, b: int): int { if a < b then b else a }

  // ---------------------------------------------------------------------------------------------
  // Lines

  /** Twice the distance of a point from the line, along the axis on which the line is shorter, and times its length
      on the other axis; the line goes from the origin to `(dx, dy)`. */
  function Deviation(p: Point, dx: int, dy: int): int { 2 * Abs(p.0 * dy - p.1 * dx) }

  /** The `k`-th of the points from `a` to `b`: `k` steps along the longer axis, at most half a point off the line. */
  ghost predicate OnLine(p: Point, k: nat, a: Point, b: Point)
  {
    var dx, dy, q := b.0 - a.0, b.1 - a.1, (p.0 - a.0, p.1 - a.1);
    && Deviation(q, dx, dy) <= Max(Abs(dx), Abs(dy))
    && (if Abs(dx) >= Abs(dy) then Abs(q.0) == k && q.0 * dx >= 0 else Abs(q.1) == k && q.1 * dy >= 0)
  }

  /** The error term after `px` steps to the side and `py` steps up or down, and what it says about the line. */
  ghost predicate LineState(dx: nat, dy: nat, px: nat, py: nat, err: int)
  {
    && err == dx * (py + 1) - dy * (px + 1)
    && 2 * Abs(dy * px - dx * py) <= Max(dx, dy)
    && px <= dx && py <= dy
  }

  /** Where the longer axis has been walked, so has the other. */
  lemma LineEnd(dx: nat, dy: nat, px: nat, py: nat, err: int)
    requires LineState(dx, dy, px, py, err)
    ensures dx >= dy && px == dx ==> py == dy
    ensures dy > dx && py == dy ==> px == dx
  {
    if dx >= dy && px == dx {
      assert dy * dx - dx * py == dx * (dy - py);
      HalfUnit(dx, dy - py);
    } else if dy > dx && py == dy {
      assert dy * px - dx * dy == dy * (px - dx);
      HalfUnit(dy, px - dx);
    }
  }

  lemma HalfUnit(m: nat, d: int)
    requires 2 * Abs(m * d) <= m
    ensures m == 0 || d == 0
  {
    if d >= 1 {
      assert m * d >= m;
    } else if d <= -1 {
      assert m * d <= -m;
    }
  }

  /** One round of the loop: a step along the longer axis, and one along the other if that keeps the line close. */
  lemma LineStep(dx: nat, dy: nat, px: nat, py: nat, err: int)
    requires LineState(dx, dy, px, py, err) && (px, py) != (dx, dy)
    ensures var right, down := 2 * err >= 0 - dy, 2 * err <= dx;
            && (if dx >= dy then right else down)
            && LineState(dx, dy, if right then px + 1 else px, if down then py + 1 else py,
                         err - (if right then dy else 0) + (if down then dx else 0))
  {
    var d := dy * px - dx * py;
    assert err == dx - dy - d;
    LineEnd(dx, dy, px, py, err);
    var right, down := 2 * err >= 0 - dy, 2 * err <= dx;
    var px', py' := if right then px + 1 else px, if down then py + 1 else py;
    var err' := err - (if right then dy else 0) + (if down then dx else 0);
    assert dy * (px + 1) == dy * px + dy && dx * (py + 1) == dx * py + dx;
    assert dy * (px + 2) == dy * px + 2 * dy && dx * (py + 2) == dx * py + 2 * dx;
    assert dy * px' - dx * py' == d + (if right then dy else 0) - (if down then dx else 0);
    assert err' == dx * (py' + 1) - dy * (px' + 1);
    StaysInside(dx, dy, px', py');
  }

  lemma MulMono(m: nat, a: int, b: int)
    requires a <= b
    ensures m * a <= m * b
  {
  }

  /** Close to the line, neither coordinate can run past the end before the other. */
  lemma StaysInside(dx: nat, dy: nat, px: nat, py: nat)
    requires 2 * Abs(dy * px - dx * py) <= Max(dx, dy) && (if dx >= dy then px <= dx else py <= dy) && Max(dx, dy) > 0
    ensures px <= dx && py <= dy
  {
    if dx >= dy && py > dy {
      MulMono(dx, dy + 1, py);
      MulMono(dy, px, dx);
      Past(dx, dy, dx * py, dy * px);
    } else if dx < dy && px > dx {
      MulMono(dy, dx + 1, px);
      MulMono(dx, py, dy);
      Past(dy, dx, dy * px, dx * py);
    }
  }

  lemma Past(m: nat, n: nat, beyond: int, behind: int)
    requires beyond >= m * (n + 1) && behind <= n * m && 2 * Abs(behind - beyond) <= m
    ensures m == 0
  {
    assert m * (n + 1) == n * m + m;
  }

  /** `n` steps in the direction `s`. */
  function Steps(s: int, n: int): int { if s == 1 then n else 0 - n }

  /** Turning the line around in one or both directions changes no distances. */
  lemma Turned(sx: int, sy: int, px: int, py: int, dx: int, dy: int)
    ensures Abs(Steps(sx, px) * Steps(sy, dy) - Steps(sy, py) * Steps(sx, dx)) == Abs(dy * px - dx * py)
    ensures Steps(sx, px) * Steps(sx, dx) == px * dx && Steps(sy, py) * Steps(sy, dy) == py * dy
  {
    var a, b, c, d := Steps(sx, px), Steps(sx, dx), Steps(sy, py), Steps(sy, dy);
    Products(sx == 1, sy == 1, px, dy, a, d);
    Products(sy == 1, sx == 1, py, dx, c, b);
    Products(sx == 1, sx == 1, px, dx, a, b);
    Products(sy == 1, sy == 1, py, dy, c, d);
  }

  lemma Products(first: bool, second: bool, m: int, n: int, a: int, b: int)
    requires a == (if first then m else 0 - m) && b == if second then n else 0 - n
    ensures a * b == (if first == second then m * n else 0 - m * n) && m * n == n * m
  {
  }

  /** The point that the loop is at. */
  lemma LinePoint(a: Point, b: Point, sx: int, sy: int, px: nat, py: nat, err: int)
    requires sx == (if a.0 < b.0 then 1 else -1) && sy == if a.1 < b.1 then 1 else -1
    requires LineState(Abs(b.0 - a.0), Abs(b.1 - a.1), px, py, err)
    ensures var p := (a.0 + Steps(sx, px), a.1 + Steps(sy, py));
            && OnLine(p, if Abs(b.0 - a.0) >= Abs(b.1 - a.1) then px else py, a, b)
            && (p == b <==> px == Abs(b.0 - a.0) && py == Abs(b.1 - a.1))
  {
    var dx, dy := Abs(b.0 - a.0), Abs(b.1 - a.1);
    assert b.0 - a.0 == Steps(sx, dx) && b.1 - a.1 == Steps(sy, dy);
    assert Abs(Steps(sx, px)) == px && Abs(Steps(sy, py)) == py;
    Turned(sx, sy, px, py, dx, dy);
    MulMono(dx, 0, px);
    MulMono(dy, 0, py);
    OnLineFrom(a, b, (Steps(sx, px), Steps(sy, py)), Steps(sx, dx), Steps(sy, dy), px, py);
  }

  lemma OnLineFrom(a: Point, b: Point, q: Point, dx: int, dy: int, px: nat, py: nat)
    requires dx == b.0 - a.0 && dy == b.1 - a.1 && Abs(q.0) == px && Abs(q.1) == py && q.0 * dx >= 0 && q.1 * dy >= 0
    requires 2 * Abs(q.0 * dy - q.1 * dx) <= Max(Abs(dx), Abs(dy))
    ensures OnLine((a.0 + q.0, a.1 + q.1), if Abs(dx) >= Abs(dy) then px else py, a, b)
  {
    var p := (a.0 + q.0, a.1 + q.1);
    assert (p.0 - a.0, p.1 - a.1) == q;
  }

  method DrawLine(a: Point, b: Point) returns (points: seq<Point>)
    ensures |points| == Max(Abs(b.0 - a.0), Abs(b.1 - a.1)) + 1
    ensures points[0] == a && points[|points| - 1] == b
    ensures forall k :: 0 <= k < |points| ==> OnLine(points[k], k, a, b)
  {
    hide OnLine;
    hide LineState;
    var dx, sx := Abs(b.0 - a.0), if a.0 < b.0 then 1 else -1;
    var dy, sy := 0 - Abs(b.1 - a.1), if a.1 < b.1 then 1 else -1;
    var err := dx + dy;
    var x, y := a.0, a.1;
    ghost var px, py := 0, 0;
    points := [];
    LineStart(dx, 0 - dy, err);
    while true
      invariant LineState(dx, 0 - dy, px, py, err) && px <= dx && py <= 0 - dy
      invariant x == a.0 + Steps(sx, px) && y == a.1 + Steps(sy, py)
      invariant |points| == if dx >= 0 - dy then px else py
      invariant forall k :: 0 <= k < |points| ==> OnLine(points[k], k, a, b)
      invariant points != [] ==> points[0] == a
      invariant points == [] ==> px == 0 && py == 0
      decreases dx - dy - px - py
    {
      LinePoint(a, b, sx, sy, px, py, err);
      points := points + [(x, y)];
      if x == b.0 && y == b.1 { break; }
      LineStep(dx, 0 - dy, px, py, err);
      var e2 := 2 * err;
      if e2 >= dy {
        err := err + dy;
        x := x + sx;
        px := px + 1;
      }
      if e2 <= dx {
        err := err + dx;
        y := y + sy;
        py := py + 1;
      }
      LineBounds(dx, 0 - dy, px, py, err);
    }
  }

  lemma LineStart(dx: nat, dy: nat, err: int)
    requires err == dx - dy
    ensures LineState(dx, dy, 0, 0, err)
  {
  }

  lemma LineBounds(dx: nat, dy: nat, px: nat, py: nat, err: int)
    requires LineState(dx, dy, px, py, err)
    ensures px <= dx && py <= dy
  {
  }

  // ---------------------------------------------------------------------------------------------
  // Circles

  /** The eight pixels that one point of the octant stands for. */
  function Mirrored(c: Point, x: int, y: int): seq<Point>
  {
    [(c.0 + x, c.1 + y), (c.0 + y, c.1 + x), (c.0 - y, c.1 + x), (c.0 - x, c.1 + y),
     (c.0 - x, c.1 - y), (c.0 - y, c.1 - x), (c.0 + y, c.1 - x), (c.0 + x, c.1 - y)]
  }

  /** They are the points whose distances from the centre along the axes are these two, in either order. */
  lemma MirroredIff(c: Point, x: int, y: int, p: Point)
    requires x >= 0 && y >= 0
    ensures p in Mirrored(c, x, y) <==>
              (Abs(p.0 - c.0) == x && Abs(p.1 - c.1) == y) || (Abs(p.0 - c.0) == y && Abs(p.1 - c.1) == x)
    ensures |Mirrored(c, x, y)| == 8
  {
    var m := Mirrored(c, x, y);
    assert m[0] in m && m[1] in m && m[2] in m && m[3] in m && m[4] in m && m[5] in m && m[6] in m && m[7] in m;
  }

  /** The pixels of the octant points `(xs[y], y)`. */
  function Outline(c: Point, xs: seq<int>): seq<Point>
  {
    if xs == [] then [] else Outline(c, xs[..|xs| - 1]) + Mirrored(c, xs[|xs| - 1], |xs| - 1)
  }

  /** The error term for the point `(x, y)`, which stays between `-2x` and 0 in the octant. */
  function CircleError(x: int, y: int, r: int): int { x * x + y * y + 2 * y - r * r }

  /** `x` is the last column that is not outside the circle in row `y`. */
  predicate LastInside(x: int, y: int, r: int)
  {
    x >= y >= 0 && CircleError(x, y, r) <= 0 && CircleError(x + 1, y, r) > 0
  }

  /** Such a point is on the circle or inside, and the next one in both directions is outside. */
  lemma NearCircle(x: int, y: int, r: int)
    requires LastInside(x, y, r)
    ensures x * x + y * y <= r * r < (x + 1) * (x + 1) + (y + 1) * (y + 1)
  {
    assert (y + 1) * (y + 1) == y * y + 2 * y + 1;
  }

  /** No row has two such points. */
  lemma OnePointPerRow(x: int, x': int, y: int, r: int)
    requires LastInside(x, y, r) && LastInside(x', y, r)
    ensures x == x'
  {
    if x < x' {
      SquareMono(x + 1, x');
    } else if x' < x {
      SquareMono(x' + 1, x);
    }
  }

  lemma SquareMono(a: int, b: int)
    requires 0 <= a <= b
    ensures a * a <= b * b
  {
  }

  /** The next row: the column stays or moves in by one. */
  lemma CircleStep(x: int, y: int, r: int, err: int)
    requires LastInside(x, y, r) && err == CircleError(x, y, r)
    ensures -2 * x <= err <= 0
    ensures var err1 := err + 2 * (y + 1) + 1;
            if err1 <= 0 then CircleError(x, y + 1, r) == err1 && (x >= y + 1 ==>
                LastInside(x, y + 1, r)) && (x < y + 1 ==> CircleError(y + 1, y + 1, r) > 0)
            else
              && CircleError(x - 1, y + 1, r) == err1 - (2 * (x - 1) + 1)
              && (x - 1 >= y + 1 ==> LastInside(x - 1, y + 1, r)) && (x - 1 < y + 1 ==>
                  CircleError(y + 1, y + 1, r) > 0)
  {
    Square(x);
    Square(y);
    var err1 := err + 2 * (y + 1) + 1;
    assert CircleError(x, y + 1, r) == err1;
    assert CircleError(x + 1, y + 1, r) == err1 + 2 * x + 1;
    assert CircleError(x - 1, y + 1, r) == err1 - (2 * (x - 1) + 1);
    if x == y {
      assert CircleError(y + 1, y + 1, r) == err1 + 2 * x + 1;
    }
  }

  lemma Square(x: int)
    ensures (x + 1) * (x + 1) == x * x + 2 * x + 1 && (x - 1) * (x - 1) == x * x - 2 * x + 1
  {
  }

  /** The pixels are those of the octant points `(xs[y], y)`, one for each row from the axis to the diagonal. */
  ghost predicate IsOutline(pixels: seq<Point>, c: Point, radius: nat, xs: seq<int>)
  {
    && pixels == Outline(c, xs) && xs != [] && xs[0] == radius
    && (forall y :: 0 <= y < |xs| ==> LastInside(xs[y], y, radius))
    && CircleError(|xs|, |xs|, radius) > 0
  }

  /** The circle's points row by row, from the axis to the diagonal, eight pixels each. */
  method DrawCircleOutline(c: Point, radius: nat) returns (pixels: seq<Point>)
    ensures exists xs :: IsOutline(pixels, c, radius, xs)
  {
    hide LastInside;
    hide CircleError;
    var x: int, y: int, err: int := radius, 0, 0;
    pixels := [];
    ghost var xs := [];
    CircleStart(radius);
    while x >= y
      invariant 0 <= y == |xs| && pixels == Outline(c, xs)
      invariant err == CircleError(x, y, radius)
      invariant if x >= y then LastInside(x, y, radius) else CircleError(y, y, radius) > 0
      invariant forall k :: 0 <= k < y ==> LastInside(xs[k], k, radius)
      invariant if xs == [] then x == radius else xs[0] == radius
      decreases x - y
    {
      CircleStep(x, y, radius, err);
      assert (xs + [x])[..y] == xs;
      xs := xs + [x];
      pixels := pixels + Mirrored(c, x, y);
      y := y + 1;
      if err <= 0 {
        err := err + 2 * y + 1;
      }
      if err > 0 {
        x := x - 1;
        err := err - (2 * x + 1);
      }
    }
    assert IsOutline(pixels, c, radius, xs);
  }

  /** There is only one such outline. */
  lemma OneOutline(p: seq<Point>, q: seq<Point>, c: Point, radius: nat, xs: seq<int>, ys: seq<int>)
    requires IsOutline(p, c, radius, xs) && IsOutline(q, c, radius, ys)
    ensures p == q
  {
    if |xs| < |ys| {
      NoLongerOutline(radius, |xs|, ys[|xs|]);
      assert false;
    } else if |ys| < |xs| {
      NoLongerOutline(radius, |ys|, xs[|ys|]);
      assert false;
    }
    assert |xs| == |ys|;
    forall y | 0 <= y < |xs|
      ensures xs[y] == ys[y]
    {
      OnePointPerRow(xs[y], ys[y], y, radius);
    }
    assert xs == ys;
  }

  lemma NoLongerOutline(radius: nat, y: nat, x: int)
    requires CircleError(y, y, radius) > 0
    ensures !LastInside(x, y, radius)
  {
    if x >= y {
      SquareMono(y, x);
    }
  }

  lemma CircleStart(r: nat)
    ensures CircleError(r, 0, r) == 0 && LastInside(r, 0, r)
  {
    Square(r);
  }
}
