/** Integer line drawing into the back buffer, clipped pixel by pixel. */
module Lines {
  import opened Bits

  const WIDTH: nat := 320
  const HEIGHT: nat := 200
  /** The largest coordinate difference for which no 32-bit intermediate overflows: see ExtentFitsIff. */
  const MAX_EXTENT: nat := 0x2AAA_AAAB

  datatype Point = Point(x: int, y: int)

  function Abs(n: int): nat {
    if n < 0 then -n else n
  }

  function Max(a: nat, b: nat): nat {
    if a > b then a else b
  }

  /** The number of steps from one end to the other. */
  function Steps(p: Point, q: Point): nat {
    Max(Abs(q.x - p.x), Abs(q.y - p.y))
  }

  /** minor * k / major rounded to the nearest integer, halves up; 0 when there are no steps. */
  function Rounded(minor: nat, major: nat, k: nat): nat {
    if major == 0 then 0 else (2 * k * minor + major) / (2 * major)
  }

  function Toward(from: int, to: int, distance: nat): int {
    if from < to then from + distance else from - distance
  }

  /** The k-th point of the line: k steps along the longer axis, and the nearest integer to the
      ideal line along the other. */
  function LinePoint(p: Point, q: Point, k: nat): Point {
    var dx, dy := Abs(q.x - p.x), Abs(q.y - p.y);
    if dx >= dy then Point(Toward(p.x, q.x, k), Toward(p.y, q.y, Rounded(dy, dx, k)))
    else Point(Toward(p.x, q.x, Rounded(dx, dy, k)), Toward(p.y, q.y, k))
  }

  // ---- The error term ----

  /** i steps along the major axis leave j within half a step of the ideal line, ties up. */
  predicate Near(major: int, minor: int, i: int, j: int) {
    -major < 2 * (j * major - i * minor) <= major
  }

  lemma NearIsRounded(major: nat, minor: nat, i: nat, j: nat)
    requires major > 0 && Near(major, minor, i, j)
    ensures j == Rounded(minor, major, i)
  {
    var r := 2 * i * minor + major - 2 * j * major;
    assert 2 * i * minor + major == j * (2 * major) + r;
    DivModUnique(2 * i * minor + major, 2 * major, j, r);
  }

  /** One major step keeps the error within half a step, moving along the minor axis exactly
      when the doubled error allows. */
  lemma NearNext(major: nat, minor: nat, i: nat, j: nat)
    requires minor <= major && 0 < major && Near(major, minor, i, j)
    ensures var f := j * major - i * minor;
            && 2 * f >= minor - 2 * major
            && Near(major, minor, i + 1, if 2 * f <= 2 * minor - major then j + 1 else j)
  {
    var f := j * major - i * minor;
    assert (j + 1) * major - (i + 1) * minor == f + major - minor;
    assert j * major - (i + 1) * minor == f - minor;
  }

  /** The same step seen from a shallower axis, where ties fall on the other side. */
  lemma NearNextMirrored(major: nat, minor: nat, i: nat, j: nat)
    requires minor < major && Near(major, minor, i, j)
    ensures var f := i * minor - j * major;
            && 2 * f <= 2 * major - minor
            && Near(major, minor, i + 1, if 2 * f >= major - 2 * minor then j + 1 else j)
  {
    var f := i * minor - j * major;
    assert (i + 1) * minor - (j + 1) * major == f + minor - major;
    assert (i + 1) * minor - j * major == f + minor;
  }

  // ---- Properties of the points ----

  lemma {:induction false} RoundedIsNear(major: nat, minor: nat, k: nat)
    requires minor <= major && 0 < major
    ensures Near(major, minor, k, Rounded(minor, major, k))
    ensures k <= major ==> Rounded(minor, major, k) <= minor
    decreases k
  {
    if k == 0 {
      assert Near(major, minor, 0, 0);
      NearIsRounded(major, minor, 0, 0);
    } else {
      var j := Rounded(minor, major, k - 1);
      RoundedIsNear(major, minor, k - 1);
      NearNext(major, minor, k - 1, j);
      var j' := if 2 * (j * major - (k - 1) * minor) <= 2 * minor - major then j + 1 else j;
      NearIsRounded(major, minor, k, j');
    }
    if k <= major { NearInBox(major, minor, k, Rounded(minor, major, k)); }
  }

  lemma NearInBox(major: nat, minor: nat, k: nat, j: nat)
    requires Near(major, minor, k, j) && k <= major && 0 < major
    ensures j <= minor
    ensures k == major ==> j == minor
  {
    var e := j - minor;
    OffsetSplit(major, minor, k, j);
    NonNegative(major - k, minor);
    ScaledApart(e, major);
  }

  lemma OffsetSplit(major: int, minor: int, k: int, j: int)
    ensures j * major - k * minor == (j - minor) * major + (major - k) * minor
  {
  }

  lemma NonNegative(a: nat, b: nat)
    ensures a * b >= 0
  {
  }

  /** The cross product of pq and p-to-point: zero on the ideal line. */
  function Offset(p: Point, q: Point, r: Point): int {
    (r.y - p.y) * (q.x - p.x) - (r.x - p.x) * (q.y - p.y)
  }

  ghost predicate Between(a: int, b: int, x: int) {
    a <= x <= b || b <= x <= a
  }

  /** Every point lies in the bounding box and within half a pixel, along the minor axis, of the
      ideal line. */
  lemma PointIsClose(p: Point, q: Point, k: nat)
    requires k <= Steps(p, q)
    ensures var r := LinePoint(p, q, k);
            && Between(p.x, q.x, r.x) && Between(p.y, q.y, r.y)
            && 2 * Abs(Offset(p, q, r)) <= Steps(p, q)
  {
    hide Rounded, Offset;
    var dx, dy := Abs(q.x - p.x), Abs(q.y - p.y);
    if dx >= dy && dx > 0 {
      RoundedIsNear(dx, dy, k);
      OffsetOf(p, q, k, Rounded(dy, dx, k));
    } else if dx < dy {
      RoundedIsNear(dy, dx, k);
      OffsetOf(p, q, Rounded(dx, dy, k), k);
    } else {
      OffsetOf(p, q, 0, 0);
      RoundedOfNothing();
    }
  }

  lemma RoundedOfNothing()
    ensures Rounded(0, 0, 0) == 0
  {
  }

  /** The cross product of a point i pixels along x and j along y. */
  lemma OffsetOf(p: Point, q: Point, i: nat, j: nat)
    ensures Abs(Offset(p, q, Point(Toward(p.x, q.x, i), Toward(p.y, q.y, j))))
         == Abs(j * Abs(q.x - p.x) - i * Abs(q.y - p.y))
  {
    SignedProducts(j, Abs(q.x - p.x));
    SignedProducts(i, Abs(q.y - p.y));
  }

  lemma SignedProducts(k: int, n: int)
    ensures (-k) * n == -(k * n) && k * (-n) == -(k * n) && (-k) * (-n) == k * n
  {
  }

  /** The line starts at p and ends at q. */
  lemma EndPoints(p: Point, q: Point)
    ensures LinePoint(p, q, 0) == p && LinePoint(p, q, Steps(p, q)) == q
  {
    var dx, dy := Abs(q.x - p.x), Abs(q.y - p.y);
    var major, minor := if dx >= dy then dx else dy, if dx >= dy then dy else dx;
    if major > 0 {
      RoundedIsNear(major, minor, 0);
      RoundedIsNear(major, minor, major);
      NearInBox(major, minor, major, Rounded(minor, major, major));
      NearInBox(major, minor, 0, Rounded(minor, major, 0));
      RoundedAtStart(minor, major);
    }
  }

  lemma RoundedAtStart(minor: nat, major: nat)
    requires major > 0
    ensures Rounded(minor, major, 0) == 0
  {
    DivModUnique(major, 2 * major, 0, major);
  }

  /** Each step moves one pixel along the major axis and at most one along the other. */
  lemma StepsAreUnit(p: Point, q: Point, k: nat)
    requires k < Steps(p, q)
    ensures var a, b := LinePoint(p, q, k), LinePoint(p, q, k + 1);
            Max(Abs(b.x - a.x), Abs(b.y - a.y)) == 1
  {
    var dx, dy := Abs(q.x - p.x), Abs(q.y - p.y);
    var major, minor := if dx >= dy then dx else dy, if dx >= dy then dy else dx;
    var j := Rounded(minor, major, k);
    RoundedIsNear(major, minor, k);
    NearNext(major, minor, k, j);
    NearIsRounded(major, minor, k + 1, if 2 * (j * major - k * minor) <= 2 * minor - major then j + 1 else j);
  }

  // ---- Drawing ----

  predicate OnScreen(r: Point) {
    0 <= r.x < WIDTH && 0 <= r.y < HEIGHT
  }

  /** draw_pixel: off-screen points are ignored. */
  function Plot(buffer: seq<uint8>, r: Point, color: uint8): (after: seq<uint8>)
    requires |buffer| == WIDTH * HEIGHT
    ensures |after| == |buffer|
  {
    if OnScreen(r) then buffer[r.y * WIDTH + r.x := color] else buffer
  }

  /** The buffer after the first n points of a line. */
  function Painted(buffer: seq<uint8>, p: Point, q: Point, n: nat, color: uint8): (after: seq<uint8>)
    requires |buffer| == WIDTH * HEIGHT
    ensures |after| == |buffer|
  {
    if n == 0 then buffer else Plot(Painted(buffer, p, q, n - 1, color), LinePoint(p, q, n - 1), color)
  }

  /** Exactly the visited on-screen pixels take the colour. */
  lemma {:induction false} PaintedPixel(buffer: seq<uint8>, p: Point, q: Point, n: nat, color: uint8, r: Point)
    requires |buffer| == 320 * 200 && 0 <= r.x < 320 && 0 <= r.y < 200
    ensures Painted(buffer, p, q, n, color)[r.y * 320 + r.x]
         == if exists k: nat :: k < n && LinePoint(p, q, k) == r then color else buffer[r.y * 320 + r.x]
    decreases n
  {
    hide LinePoint;
    if n > 0 {
      PaintedPixel(buffer, p, q, n - 1, color, r);
      PlotPixel(Painted(buffer, p, q, n - 1, color), LinePoint(p, q, n - 1), color, r);
    }
  }

  lemma PlotPixel(buffer: seq<uint8>, at: Point, color: uint8, r: Point)
    requires |buffer| == WIDTH * HEIGHT && OnScreen(r)
    ensures Plot(buffer, at, color)[r.y * WIDTH + r.x] == if at == r then color else buffer[r.y * WIDTH + r.x]
  {
  }

  /** i pixels moved along x and j along y after k steps, for extents dx and dy. */
  predicate OnLine(dx: nat, dy: nat, i: nat, j: nat, k: nat) {
    && i <= dx && j <= dy && k <= Max(dx, dy)
    && if dx >= dy then i == k && (dx > 0 ==> Near(dx, dy, i, j)) else j == k && Near(dy, dx, j, i)
  }

  /** The error term that the loop keeps. */
  function Err(dx: nat, dy: nat, i: nat, j: nat): int {
    j * dx - i * dy + dx - dy
  }

  /** What one iteration's two tests decide, short of the end. */
  lemma LineStep(dx: nat, dy: nat, i: nat, j: nat, k: nat, err: int)
    requires OnLine(dx, dy, i, j, k) && k < Max(dx, dy) && err == Err(dx, dy, i, j)
    ensures OnLine(dx, dy, if 2 * err + dy >= 0 then i + 1 else i, if 2 * err <= dx then j + 1 else j, k + 1)
    ensures Abs(2 * err) <= Peak(Max(dx, dy))
  {
    if dx >= dy {
      StepAlongX(dx, dy, i, j, err);
    } else {
      StepAlongY(dx, dy, i, j, err);
    }
  }

  lemma StepAlongX(dx: nat, dy: nat, i: nat, j: nat, err: int)
    requires dx >= dy && i < dx && j <= dy && Near(dx, dy, i, j) && err == Err(dx, dy, i, j)
    ensures var j' := if 2 * err <= dx then j + 1 else j;
            2 * err + dy >= 0 && Near(dx, dy, i + 1, j') && j' <= dy && Abs(2 * err) <= Peak(dx)
  {
    hide Near;
    NearBounds(dx, dy, i, j);
    ErrBound(dx, dy, i, j);
    NearNext(dx, dy, i, j);
    NearInBox(dx, dy, i + 1, if 2 * err <= dx then j + 1 else j);
  }

  lemma StepAlongY(dx: nat, dy: nat, i: nat, j: nat, err: int)
    requires dx < dy && j < dy && i <= dx && Near(dy, dx, j, i) && err == Err(dx, dy, i, j)
    ensures var i' := if 2 * err + dy >= 0 then i + 1 else i;
            2 * err <= dx && Near(dy, dx, j + 1, i') && i' <= dx && Abs(2 * err) <= Peak(dy)
  {
    hide Near;
    NearBounds(dy, dx, j, i);
    ErrBound(dy, dx, j, i);
    NearNextMirrored(dy, dx, j, i);
    NearInBox(dy, dx, j + 1, if 2 * err + dy >= 0 then i + 1 else i);
  }

  lemma NearBounds(major: nat, minor: nat, i: nat, j: nat)
    requires Near(major, minor, i, j)
    ensures var f := 2 * (j * major - i * minor); 0 < f + major && f <= major
  {
  }

  /** The most that the doubled error term comes to along a line. */
  function Peak(extent: nat): nat {
    if extent < 2 then 2 * extent else 3 * extent - 2
  }

  lemma ErrBound(major: nat, minor: nat, i: nat, j: nat)
    requires minor <= major && i < major && j <= minor && Near(major, minor, i, j)
    ensures Abs(2 * (j * major - i * minor + major - minor)) <= Peak(major)
  {
    if minor == 0 {
      assert j * major == 0 && i * minor == 0;
    }
  }

  /** At every step of every line of the given extent the doubled error term fits 32 bits. */
  ghost predicate ExtentFits(extent: nat) {
    forall dx: nat, dy: nat, i: nat, j: nat, k: nat ::
      OnLine(dx, dy, i, j, k) && k < Max(dx, dy) == extent ==> InSigned32(2 * Err(dx, dy, i, j))
  }

  predicate InSigned32(n: int) {
    -0x8000_0000 <= n < 0x8000_0000
  }

  lemma ExtentFitsIff(extent: nat)
    ensures ExtentFits(extent) <==> extent <= MAX_EXTENT
  {
    hide Near, Err, OnLine;
    if extent <= MAX_EXTENT {
      forall dx: nat, dy: nat, i: nat, j: nat, k: nat | OnLine(dx, dy, i, j, k) && k < Max(dx, dy) == extent
        ensures InSigned32(2 * Err(dx, dy, i, j))
      {
        LineStep(dx, dy, i, j, k, Err(dx, dy, i, j));
      }
    } else {
      var i := PeakReached(extent);
      assert !InSigned32(2 * Err(extent, 1, i, 1));
    }
  }

  /** A line that rises by one pixel comes within one of the peak where it does so. */
  lemma PeakReached(extent: nat) returns (i: nat)
    requires extent >= 2
    ensures i < Max(extent, 1) == extent && OnLine(extent, 1, i, 1, i)
    ensures 2 * Err(extent, 1, i, 1) >= 3 * extent - 3
  {
    i := (extent + 1) / 2;
  }

  lemma ErrSteps(dx: nat, dy: nat, i: nat, j: nat)
    ensures Err(dx, dy, i + 1, j) == Err(dx, dy, i, j) - dy
    ensures Err(dx, dy, i, j + 1) == Err(dx, dy, i, j) + dx
    ensures Err(dx, dy, i + 1, j + 1) == Err(dx, dy, i, j) - dy + dx
  {
  }

  /** The point reached is the k-th of the line, and the target exactly at the last step. */
  lemma ReachedPoint(p: Point, q: Point, i: nat, j: nat, k: nat)
    requires OnLine(Abs(q.x - p.x), Abs(q.y - p.y), i, j, k)
    ensures var r := Point(Toward(p.x, q.x, i), Toward(p.y, q.y, j));
            r == LinePoint(p, q, k) && (r == q <==> k == Steps(p, q))
  {
    var dx, dy := Abs(q.x - p.x), Abs(q.y - p.y);
    if dx >= dy && dx > 0 {
      NearIsRounded(dx, dy, i, j);
      NearInBox(dx, dy, i, j);
    } else if dx < dy {
      NearIsRounded(dy, dx, j, i);
      NearInBox(dy, dx, j, i);
    }
  }

  method DrawPixel(buffer: array<uint8>, x: sint32, y: sint32, color: uint8)
    requires buffer.Length == WIDTH * HEIGHT
    modifies buffer
    ensures buffer[..] == Plot(old(buffer[..]), Point(x, y), color)
  {
    if x < 0 || y < 0 || x >= WIDTH || y >= HEIGHT {
      return;
    }
    buffer[y * WIDTH + x] := color;
  }

  lemma LineStart(p: Point, q: Point, dx: nat, dy: nat)
    requires dx == Abs(q.x - p.x) && dy == Abs(q.y - p.y)
    ensures OnLine(dx, dy, 0, 0, 0) && Err(dx, dy, 0, 0) == dx - dy
    ensures Toward(p.x, q.x, 0) == p.x && Toward(p.y, q.y, 0) == p.y && Steps(p, q) == Max(dx, dy)
  {
  }

  lemma LineBounds(dx: nat, dy: nat, i: nat, j: nat, k: nat)
    requires OnLine(dx, dy, i, j, k)
    ensures i <= dx && j <= dy && k <= Max(dx, dy)
  {
  }

  lemma TowardNext(a: int, b: int, i: nat)
    ensures Toward(a, b, i + 1) == Toward(a, b, i) + (if a < b then 1 else -1)
  {
  }

  lemma TowardInRange(a: sint32, b: sint32, i: nat)
    requires i <= Abs(b - a)
    ensures -0x8000_0000 <= Toward(a, b, i) < 0x8000_0000
  {
  }

  /** One iteration's new position and error term, all in 32 bits. */
  lemma NextPoint(p: Point, q: Point, dx: nat, dy: nat, i: nat, j: nat, k: nat, err: int) returns (i': nat, j': nat)
    requires dx == Abs(q.x - p.x) && dy == Abs(q.y - p.y) && InRange(p) && InRange(q)
    requires OnLine(dx, dy, i, j, k) && k < Max(dx, dy) && err == Err(dx, dy, i, j)
    ensures i' == (if 2 * err + dy >= 0 then i + 1 else i) && j' == (if 2 * err <= dx then j + 1 else j)
    ensures OnLine(dx, dy, i', j', k + 1) && k + 1 <= Max(dx, dy) && Abs(2 * err) <= Peak(Max(dx, dy))
    ensures Err(dx, dy, i', j') == err - (if i' > i then dy else 0) + (if j' > j then dx else 0)
    ensures var r := Point(Toward(p.x, q.x, i'), Toward(p.y, q.y, j'));
            && InRange(r)
            && r.x == Toward(p.x, q.x, i) + (if i' == i then 0 else if p.x < q.x then 1 else -1)
            && r.y == Toward(p.y, q.y, j) + (if j' == j then 0 else if p.y < q.y then 1 else -1)
  {
    hide OnLine, Err, Toward;
    i', j' := if 2 * err + dy >= 0 then i + 1 else i, if 2 * err <= dx then j + 1 else j;
    LineStep(dx, dy, i, j, k, err);
    ErrSteps(dx, dy, i, j);
    TowardNext(p.x, q.x, i);
    TowardNext(p.y, q.y, j);
    LineBounds(dx, dy, i', j', k + 1);
    TowardInRange(p.x, q.x, i');
    TowardInRange(p.y, q.y, j');
  }

  /** Both coordinates are signed 32-bit values. */
  predicate InRange(p: Point) {
    -0x8000_0000 <= p.x < 0x8000_0000 && -0x8000_0000 <= p.y < 0x8000_0000
  }

  lemma PaintedNext(buffer: seq<uint8>, p: Point, q: Point, k: nat, color: uint8)
    requires |buffer| == WIDTH * HEIGHT
    ensures Painted(buffer, p, q, 0, color) == buffer
    ensures Painted(buffer, p, q, k + 1, color) == Plot(Painted(buffer, p, q, k, color), LinePoint(p, q, k), color)
  {
  }

  /** The loop's constants. */
  method Deltas(x0: sint32, y0: sint32, x1: sint32, y1: sint32)
    returns (dx: sint32, dy: sint32, sx: sint32, sy: sint32)
    requires Steps(Point(x0, y0), Point(x1, y1)) <= MAX_EXTENT
    ensures dx == Abs(x1 - x0) && 0 - dy == Abs(y1 - y0)
    ensures sx == (if x0 < x1 then 1 else -1) && sy == (if y0 < y1 then 1 else -1)
  {
    dx := if x1 > x0 then x1 - x0 else x0 - x1;
    sx := if x0 < x1 then 1 else -1;
    dy := if y1 > y0 then -(y1 - y0) else -(y0 - y1);
    sy := if y0 < y1 then 1 else -1;
  }

  /** Every variable is a signed 32-bit one: no intermediate overflows for extents up to
      MAX_EXTENT. The line takes exactly Steps(p, q) steps. */
  method DrawLine(buffer: array<uint8>, x0: sint32, y0: sint32, x1: sint32, y1: sint32, color: uint8)
    requires buffer.Length == WIDTH * HEIGHT
    requires Steps(Point(x0, y0), Point(x1, y1)) <= MAX_EXTENT
    modifies buffer
    ensures var p, q := Point(x0, y0), Point(x1, y1);
            buffer[..] == Painted(old(buffer[..]), p, q, Steps(p, q) + 1, color)
  {
    hide LinePoint, OnLine, Err, Plot, Painted, Steps, Toward, Rounded, Near;
    ghost var p, q, before := Point(x0, y0), Point(x1, y1), buffer[..];
    var dx: sint32, dy: sint32, sx: sint32, sy: sint32 := Deltas(x0, y0, x1, y1);
    var err: sint32 := dx + dy;
    var x: sint32, y: sint32 := x0, y0;
    ghost var i, j, k := 0, 0, 0;
    LineStart(p, q, dx, 0 - dy);
    PaintedNext(before, p, q, 0, color);
    while true
      invariant x == Toward(x0, x1, i) && y == Toward(y0, y1, j)
      invariant OnLine(dx, 0 - dy, i, j, k) && k <= Steps(p, q) && err == Err(dx, 0 - dy, i, j)
      invariant buffer[..] == Painted(before, p, q, k, color)
      decreases Steps(p, q) - k
    {
      ReachedPoint(p, q, i, j, k);
      PaintedNext(before, p, q, k, color);
      DrawPixel(buffer, x, y, color);
      if x == x1 && y == y1 {
        break;
      }
      ghost var i', j' := NextPoint(p, q, dx, 0 - dy, i, j, k, err);
      var e2: sint32 := err * 2;
      if e2 >= dy {
        err := err + dy;
        x := x + sx;
      }
      if e2 <= dx {
        err := err + dx;
        y := y + sy;
      }
      i, j, k := i', j', k + 1;
    }
  }
}
