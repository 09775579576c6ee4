/** The Bresenham line rasteriser of the Bochs display driver.

    The integer error term is related to the ideal line through an independent closed form:
    point `k` of the line is `k` pixels along the major axis and `k * minor / major`, rounded to
    the nearest integer, along the minor axis.
 */
module Line {
  import opened Basics
  import opened Arith

  /** Coordinates are C `int32_t`: Dafny checks that no operation leaves the range. */
  newtype int32 = x: int | -0x8000_0000 <= x < 0x8000_0000

  type Color = bv32

  datatype Point = Point(x: int, y: int)

  function Abs(x: int): nat {
    if x < 0 then -x else x
  }

  /** `k * minor / major` rounded to the nearest integer, halves downwards. */
  function Rounded(k: nat, minor: nat, major: nat): nat {
    if major == 0 then 0 else (2 * k * minor + major - 1) / (2 * major)
  }

  /** `m` pixels along the minor axis are within half a pixel of the ideal line at distance `k`. */
  ghost predicate WithinHalf(m: int, k: int, minor: int, major: int) {
    -major <= 2 * (m * major - k * minor) < major
  }

  lemma RoundedIsWithinHalf(k: nat, minor: nat, major: nat)
    requires 0 < major
    ensures WithinHalf(Rounded(k, minor, major), k, minor, major)
  {
    var n, m := 2 * k * minor + major - 1, Rounded(k, minor, major);
    assert n == m * (2 * major) + n % (2 * major);
    assert 2 * (m * major - k * minor) == m * (2 * major) - 2 * k * minor;
  }

  /** Only one pixel of each column (row) is within half a pixel of the ideal line. */
  lemma WithinHalfIsUnique(m: int, n: int, k: int, minor: int, major: nat)
    requires WithinHalf(m, k, minor, major) && WithinHalf(n, k, minor, major)
    ensures m == n
  {
    if m > n {
      MulMono(n, m, major);
    } else if m < n {
      MulMono(m, n, major);
    }
  }

  /** `steps` pixels away from `from` in the direction of `to`. */
  function Toward(from: int, to: int, steps: int): int {
    if to > from then from + steps else from - steps
  }

  /** Steps taken in x and in y on the way to point `k`. */
  function StepsX(dx: nat, dy: nat, k: nat): nat {
    if dy <= dx then k else Rounded(k, dx, dy)
  }

  function StepsY(dx: nat, dy: nat, k: nat): nat {
    if dy <= dx then Rounded(k, dy, dx) else k
  }

  /** Point number `k` of the line, stated without any error term. */
  function LinePoint(p: Point, q: Point, k: nat): Point {
    var dx, dy := Abs(q.x - p.x), Abs(q.y - p.y);
    Point(Toward(p.x, q.x, StepsX(dx, dy, k)), Toward(p.y, q.y, StepsY(dx, dy, k)))
  }

  function Last(p: Point, q: Point): nat {
    Max(Abs(q.x - p.x), Abs(q.y - p.y))
  }

  lemma RoundedEnds(minor: nat, major: nat)
    requires minor <= major
    ensures Rounded(0, minor, major) == 0
    ensures Rounded(major, minor, major) == minor
  {
    if 0 < major {
      RoundedIsWithinHalf(0, minor, major);
      assert WithinHalf(0, 0, minor, major);
      WithinHalfIsUnique(Rounded(0, minor, major), 0, 0, minor, major);
      RoundedIsWithinHalf(major, minor, major);
      assert minor * major - major * minor == 0;
      assert WithinHalf(minor, major, minor, major);
      WithinHalfIsUnique(Rounded(major, minor, major), minor, major, minor, major);
    }
  }

  /** The line starts at `p`, ends at `q`, and reaches `q` at no earlier point. */
  lemma LineEnds(p: Point, q: Point, k: nat)
    requires k <= Last(p, q)
    ensures LinePoint(p, q, 0) == p
    ensures LinePoint(p, q, k) == q <==> k == Last(p, q)
  {
    var dx, dy := Abs(q.x - p.x), Abs(q.y - p.y);
    if dy <= dx { RoundedEnds(dy, dx); } else { RoundedEnds(dx, dy); }
  }

  /** How far, scaled by the longer side, the pixel after `a` steps in x and `b` steps in y lies
      from the ideal line. */
  ghost function Deviation(dx: int, dy: int, a: int, b: int): int {
    b * dx - a * dy
  }

  lemma DeviationStep(dx: int, dy: int, a: int, b: int)
    ensures Deviation(dx, dy, a + 1, b) == Deviation(dx, dy, a, b) - dy
    ensures Deviation(dx, dy, a, b + 1) == Deviation(dx, dy, a, b) + dx
    ensures Deviation(dx, dy, a + 1, b + 1) == Deviation(dx, dy, a, b) - dy + dx
  {
  }

  /** The deviation of the pixel nearest to the ideal line. */
  ghost predicate InBand(dx: int, dy: int, d: int) {
    if dy <= dx then -dx <= 2 * d < dx && (dx == dy ==> d == 0)
    else -dy < 2 * d <= dy
  }

  /** Being in the band is being the rounded point. */
  lemma BandIsRounded(dx: nat, dy: nat, k: nat, a: nat, b: nat)
    requires 0 < Max(dx, dy)
    requires if dy <= dx then a == k else b == k
    ensures InBand(dx, dy, Deviation(dx, dy, a, b)) <==> a == StepsX(dx, dy, k) && b == StepsY(dx, dy, k)
  {
    var minor, major, m := if dy <= dx then dy else dx, Max(dx, dy), if dy <= dx then b else a;
    RoundedIsWithinHalf(k, minor, major);
    if dx == dy {
      assert WithinHalf(k, k, dx, dx);
      WithinHalfIsUnique(Rounded(k, minor, major), k, k, minor, major);
      DiagonalDeviation(dx, a, b);
    } else if WithinHalf(m, k, minor, major) {
      WithinHalfIsUnique(Rounded(k, minor, major), m, k, minor, major);
    }
  }

  lemma DiagonalDeviation(d: nat, a: int, b: int)
    requires 0 < d
    ensures Deviation(d, d, a, b) == 0 <==> a == b
  {
    if a < b { MulMono(a, b, d); } else if b < a { MulMono(b, a, d); }
  }

  /** The error term is the deviation shifted by `dx - dy`; its two comparisons keep the pixel in
      the band, always step along the longer side, and never need more than 32 bits. */
  lemma ErrorTermStaysInBand(dx: nat, dy: nat, d: int)
    requires 0 < Max(dx, dy) && InBand(dx, dy, d)
    ensures var err := dx - dy + d;
            var stepX, stepY := 2 * err + dy > 0, 2 * err < dx;
            && (dy <= dx ==> stepX) && (dx < dy ==> stepY)
            && InBand(dx, dy, d - (if stepX then dy else 0) + (if stepY then dx else 0))
            && -3 * Max(dx, dy) <= 2 * err <= 3 * Max(dx, dy)
  {
  }

  lemma RoundedAtMost(k: nat, minor: nat, major: nat)
    requires k <= major && minor <= major
    ensures Rounded(k, minor, major) <= minor
  {
    if 0 < major {
      var m := Rounded(k, minor, major);
      RoundedIsWithinHalf(k, minor, major);
      if k < major {
        MulMono(k, major, minor);
      }
      if m > minor {
        MulMono(minor, m, major);
        assert false;
      }
    }
  }

  /** No point of the line overshoots: every point lies in the rectangle of its two ends. */
  lemma NoOvershoot(p: Point, q: Point, k: nat)
    requires k <= Last(p, q)
    ensures var r := LinePoint(p, q, k);
            && (p.x <= r.x <= q.x || q.x <= r.x <= p.x)
            && (p.y <= r.y <= q.y || q.y <= r.y <= p.y)
  {
    var dx, dy := Abs(q.x - p.x), Abs(q.y - p.y);
    if dy <= dx { RoundedAtMost(k, dy, dx); } else { RoundedAtMost(k, dx, dy); }
  }

  /** The loop invariant of the drawing loop, on unbounded integers. */
  ghost predicate OnLine(dx: nat, dy: nat, k: nat, a: nat, b: nat, err: int) {
    && err == dx - dy + Deviation(dx, dy, a, b)
    && (if dy <= dx then a == k else b == k)
    && (Max(dx, dy) == 0 ==> a == b == 0)
    && (Max(dx, dy) > 0 ==> InBand(dx, dy, Deviation(dx, dy, a, b)))
  }

  lemma OnLineStart(dx: nat, dy: nat)
    ensures OnLine(dx, dy, 0, 0, 0, dx - dy)
  {
  }

  lemma OnLineIsLinePoint(p: Point, q: Point, k: nat, a: nat, b: nat, err: int)
    requires k <= Last(p, q) && OnLine(Abs(q.x - p.x), Abs(q.y - p.y), k, a, b, err)
    ensures Point(Toward(p.x, q.x, a), Toward(p.y, q.y, b)) == LinePoint(p, q, k)
    ensures LinePoint(p, q, k) == q <==> k == Last(p, q)
  {
    var dx, dy := Abs(q.x - p.x), Abs(q.y - p.y);
    if 0 < Max(dx, dy) { BandIsRounded(dx, dy, k, a, b); }
    LineEnds(p, q, k);
  }

  /** One iteration of the drawing loop leads from one point of the line to the next, inside the
      rectangle of the end points, and every intermediate value is at most three times the longer
      side. */
  lemma OnLineStep(dx: nat, dy: nat, k: nat, a: nat, b: nat, err: int)
    returns (a': nat, b': nat, err1: int, err2: int)
    requires k < Max(dx, dy) && OnLine(dx, dy, k, a, b, err)
    ensures if 2 * err + dy > 0 then a' == a + 1 && err1 == err - dy else a' == a && err1 == err
    ensures if 2 * err < dx then b' == b + 1 && err2 == err1 + dx else b' == b && err2 == err1
    ensures a' <= dx && b' <= dy
    ensures OnLine(dx, dy, k + 1, a', b', err2)
    ensures var m := 3 * Max(dx, dy); -m <= 2 * err <= m && -m <= err1 <= m && -m <= err2 <= m
  {
    if 2 * err + dy > 0 { a', err1 := a + 1, err - dy; } else { a', err1 := a, err; }
    if 2 * err < dx { b', err2 := b + 1, err1 + dx; } else { b', err2 := b, err1; }
    ErrorTermStaysInBand(dx, dy, Deviation(dx, dy, a, b));
    DeviationStep(dx, dy, a, b);
    BandIsRounded(dx, dy, k + 1, a', b');
    if dy <= dx { RoundedAtMost(k + 1, dy, dx); } else { RoundedAtMost(k + 1, dx, dy); }
  }

  /** Distinct pixels have distinct framebuffer cells. */
  lemma CellsAreDistinct(width: nat, x: nat, y: nat, x': nat, y': nat)
    requires x < width && x' < width
    requires y * width + x == y' * width + x'
    ensures x == x' && y == y'
  {
    if y < y' {
      MulMono(y, y', width);
    } else if y' < y {
      MulMono(y', y, width);
    }
  }

  lemma CellInRange(width: nat, height: nat, x: nat, y: nat)
    requires x < width && y < height
    ensures y * width + x < width * height
  {
    MulMono(y, height, width);
  }

  /** The tail of the loop body: the two comparisons and the updates they guard, without
      overflow. */
  method Advance(x: int32, y: int32, err: int32, dx: int32, dy: int32, sx: int32, sy: int32,
                 ghost x1: int32, ghost y1: int32, ghost x2: int32, ghost y2: int32,
                 ghost k: nat, ghost a: nat, ghost b: nat)
    returns (x': int32, y': int32, err': int32, ghost a': nat, ghost b': nat)
    requires dx as int == Abs(x2 as int - x1 as int) && dy as int == Abs(y2 as int - y1 as int)
    requires sx == (if x2 > x1 then 1 else -1) && sy == (if y2 > y1 then 1 else -1)
    requires k < Max(dx as int, dy as int) && 3 * Max(dx as int, dy as int) < 0x8000_0000
    requires OnLine(dx as int, dy as int, k, a, b, err as int)
    requires x as int == Toward(x1 as int, x2 as int, a) && y as int == Toward(y1 as int, y2 as int, b)
    ensures OnLine(dx as int, dy as int, k + 1, a', b', err' as int)
    ensures x' as int == Toward(x1 as int, x2 as int, a') && y' as int == Toward(y1 as int, y2 as int, b')
  {
    hide OnLine;
    x', y', err' := x, y, err;
    ghost var err1, err2;
    a', b', err1, err2 := OnLineStep(dx as int, dy as int, k, a, b, err as int);
    var e2 := 2 * err;
    if e2 > -dy { err', x' := err' - dy, x' + sx; }
    if e2 < dx { err', y' := err' + dx, y' + sy; }
  }

  class Display {
    const width: nat
    const height: nat
    const framebuffer: array<Color>

    constructor (width: nat, height: nat, framebuffer: array<Color>)
      ensures this.width == width && this.height == height && this.framebuffer == framebuffer
    {
      this.width, this.height, this.framebuffer := width, height, framebuffer;
    }

    ghost predicate Valid() {
      width < 0x8000_0000 && height < 0x8000_0000 && framebuffer.Length == width * height
    }

    ghost predicate Visible(p: Point) {
      0 <= p.x < width && 0 <= p.y < height
    }

    ghost function Pixel(p: Point): Color
      requires Valid() && Visible(p)
      reads framebuffer
    {
      CellInRange(width, height, p.x, p.y);
      framebuffer[p.y * width + p.x]
    }

    /** Writes one pixel; a point off the screen (a negative coordinate is a huge unsigned one) is
        ignored. */
    method PutPixel(x: int32, y: int32, color: Color)
      requires Valid()
      modifies framebuffer
      ensures forall p :: Visible(p) ==>
                Pixel(p) == if p == Point(x as int, y as int) then color else old(Pixel(p))
    {
      if 0 <= x as int < width && 0 <= y as int < height {
        CellInRange(width, height, x as int, y as int);
        framebuffer[y as int * width + x as int] := color;
        forall p | Visible(p) && p != Point(x as int, y as int)
          ensures Pixel(p) == old(Pixel(p))
        {
          CellInRange(width, height, p.x, p.y);
          if p.y * width + p.x == y as int * width + x as int {
            CellsAreDistinct(width, p.x, p.y, x as int, y as int);
          }
        }
      }
    }

    /** Draws exactly the points of the line, `max(dx, dy) + 1` of them in order; no arithmetic
        overflows as long as three times the longer side fits an `int32_t`. */
    method DrawLine(x1: int32, y1: int32, x2: int32, y2: int32, color: Color)
      returns (ghost trace: seq<Point>)
      requires Valid()
      requires 3 * Last(Point(x1 as int, y1 as int), Point(x2 as int, y2 as int)) < 0x8000_0000
      modifies framebuffer
      ensures var p, q := Point(x1 as int, y1 as int), Point(x2 as int, y2 as int);
              && |trace| == Last(p, q) + 1
              && (forall k :: 0 <= k < |trace| ==> trace[k] == LinePoint(p, q, k))
      ensures forall r :: Visible(r) ==>
                Pixel(r) == if r in trace then color else old(Pixel(r))
    {
      hide OnLine, LinePoint, Pixel, Toward;
      ghost var p, q := Point(x1 as int, y1 as int), Point(x2 as int, y2 as int);
      var dx: int32 := if x2 > x1 then x2 - x1 else x1 - x2;
      var dy: int32 := if y2 > y1 then y2 - y1 else y1 - y2;
      var sx: int32 := if x2 > x1 then 1 else -1;
      var sy: int32 := if y2 > y1 then 1 else -1;
      assert dx as int == Abs(q.x - p.x) && dy as int == Abs(q.y - p.y);
      assert Last(p, q) == Max(dx as int, dy as int);
      hide Abs, Max, Last;
      var err := dx - dy;
      var x, y := x1, y1;
      ghost var last := Last(p, q);
      ghost var k: nat, a: nat, b: nat := 0, 0, 0;
      trace := [];
      OnLineStart(dx as int, dy as int);
      LineEnds(p, q, 0);
      OnLineIsLinePoint(p, q, 0, 0, 0, err as int);
      while true
        invariant k <= last && |trace| == k
        invariant OnLine(dx as int, dy as int, k, a, b, err as int)
        invariant x as int == Toward(p.x, q.x, a) && y as int == Toward(p.y, q.y, b)
        invariant forall i :: 0 <= i < k ==> trace[i] == LinePoint(p, q, i)
        invariant forall r :: Visible(r) ==>
                    Pixel(r) == if r in trace then color else old(Pixel(r))
        decreases last - k
      {
        PutPixel(x, y, color);
        OnLineIsLinePoint(p, q, k, a, b, err as int);
        trace := trace + [Point(x as int, y as int)];
        if x == x2 && y == y2 { break; }
        x, y, err, a, b := Advance(x, y, err, dx, dy, sx, sy, x1, y1, x2, y2, k, a, b);
        k := k + 1;
      }
    }
  }
}
