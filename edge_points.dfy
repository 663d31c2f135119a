/** `edge_points` of `triangulared/point_generators.py`: the four corners of an
    `xmax` by `ymax` image followed by evenly spaced points along its top,
    bottom, left and right edges. */
module EdgePoints {
  import opened Utils

  datatype Point = Point(x: real, y: real)

  /** Python's `ZeroDivisionError`, the only way `edge_points` fails. */
  datatype EdgeError = ZeroDivision

  /** The `length_scale` that `generate_uniform_random_points` relies on. */
  const DefaultLengthScale: real := 200.0

  /** Python's `int()` of a float: truncation toward zero. */
  function Truncate(r: real): (n: int)
    ensures r >= 0.0 ==> n as real <= r < n as real + 1.0
    ensures r < 0.0 ==> n as real - 1.0 < r <= n as real
  {
    if r >= 0.0 then r.Floor else -((-r).Floor)
  }

  /** A count as given, or `int(extent / length_scale)` when it is `None`. */
  function ResolveCount(count: Option<int>, extent: nat, lengthScale: real): (r: Result<int, EdgeError>)
    ensures count.Some? ==> r == Success(count.value)
    ensures count.None? ==> (r.Failure? <==> lengthScale == 0.0)
  {
    match count
    case Some(n) => Success(n)
    case None =>
      if lengthScale == 0.0 then Failure(ZeroDivision)
      else Success(Truncate(extent as real / lengthScale))
  }

  /** The number of points strictly inside one edge: `len(range(1, n))`. */
  function Steps(n: int): (s: nat)
    ensures s == |RangeSet(1, n)|
  {
    RangeSize(1, n);
    if n > 1 then n - 1 else 0
  }

  /** `k` is one of the integers `range(lo, hi)` yields. */
  predicate InRange(k: int, lo: int, hi: int)
  {
    lo <= k < hi
  }

  /** The integers `range(lo, hi)` yields, as a set. */
  ghost function RangeSet(lo: int, hi: int): set<int>
  {
    set k: int | lo <= k < hi && InRange(k, lo, hi)
  }

  /** `range(lo, hi)` holds `hi - lo` integers, none when `hi <= lo`. */
  lemma {:induction false} RangeSize(lo: int, hi: int)
    ensures |RangeSet(lo, hi)| == if lo < hi then hi - lo else 0
    decreases hi - lo
  {
    if lo < hi {
      var next := lo + 1;
      RangeSize(next, hi);
      assert RangeSet(lo, hi) == RangeSet(next, hi) + {lo};
    } else {
      assert RangeSet(lo, hi) == {};
    }
  }

  /** The point list for resolved counts `h` (horizontal) and `v` (vertical). */
  function Layout(xmax: real, ymax: real, h: int, v: int): (pts: seq<Point>)
    requires h != 0 && v != 0
    ensures |pts| == 4 + 2 * Steps(h) + 2 * Steps(v)
  {
    var dx, dy := xmax / h as real, ymax / v as real;
    [Point(0.0, 0.0), Point(xmax, 0.0), Point(0.0, ymax), Point(xmax, ymax)]
    + seq(Steps(h), k => Point(dx * (k + 1) as real, 0.0))
    + seq(Steps(h), k => Point(dx * (k + 1) as real, ymax))
    + seq(Steps(v), k => Point(0.0, dy * (k + 1) as real))
    + seq(Steps(v), k => Point(xmax, dy * (k + 1) as real))
  }

  /** `edge_points(image, length_scale, n_horizontal_points, n_vertical_points)`
      for an image `ymax` rows high and `xmax` columns wide. It fails exactly
      when a count it divides by is 0, or when `length_scale` is 0 and a count
      must be derived from it; otherwise it returns `Layout` of the counts. */
  function EdgePoints(xmax: nat, ymax: nat, lengthScale: real, nh: Option<int>, nv: Option<int>)
    : (r: Result<seq<Point>, EdgeError>)
    ensures r.Success? <==>
      && ResolveCount(nh, xmax, lengthScale).Success? && ResolveCount(nh, xmax, lengthScale).value != 0
      && ResolveCount(nv, ymax, lengthScale).Success? && ResolveCount(nv, ymax, lengthScale).value != 0
    ensures r.Success? ==>
      |r.value| == 4 + 2 * Steps(ResolveCount(nh, xmax, lengthScale).value) + 2 * Steps(ResolveCount(nv, ymax, lengthScale).value)
    ensures r.Success? ==>
      r.value == Layout(xmax as real, ymax as real, ResolveCount(nh, xmax, lengthScale).value, ResolveCount(nv, ymax, lengthScale).value)
  {
    match ResolveCount(nh, xmax, lengthScale)
    case Failure(e) => Failure(e)
    case Success(h) =>
      match ResolveCount(nv, ymax, lengthScale)
      case Failure(e) => Failure(e)
      case Success(v) =>
        if h == 0 || v == 0 then Failure(ZeroDivision)
        else Success(Layout(xmax as real, ymax as real, h, v))
  }

  // ---------------------------------------------------------------------------
  // Counts

  /** A derived count is the floor of extent / length_scale for a positive
      length scale: the largest n with n * length_scale <= extent. */
  lemma DerivedCountIsFloor(extent: nat, lengthScale: real)
    requires lengthScale > 0.0
    ensures ResolveCount(None, extent, lengthScale) == Success((extent as real / lengthScale).Floor)
    ensures ResolveCount(None, extent, lengthScale).value >= 0
  {
    DivideNonNegative(extent as real, lengthScale);
  }

  /** With the default length scale of 200 and no counts, an image narrower or
      lower than 200 pixels makes `edge_points` divide by zero. */
  lemma DefaultCountsNeedLargeImage(xmax: nat, ymax: nat)
    ensures EdgePoints(xmax, ymax, DefaultLengthScale, None, None).Success? <==> xmax >= 200 && ymax >= 200
  {
    DerivedCountIsFloor(xmax, DefaultLengthScale);
    DerivedCountIsFloor(ymax, DefaultLengthScale);
    FloorPositive(xmax as real / DefaultLengthScale);
    FloorPositive(ymax as real / DefaultLengthScale);
  }

  lemma FloorPositive(r: real)
    requires r >= 0.0
    ensures r.Floor != 0 <==> r >= 1.0
  {
  }

  lemma DivideNonNegative(a: real, b: real)
    requires a >= 0.0 && b > 0.0
    ensures a / b >= 0.0
  {
  }

  // ---------------------------------------------------------------------------
  // Layout

  /** The first four points are the corners (0,0), (xmax,0), (0,ymax), (xmax,ymax). */
  lemma LayoutCorners(xmax: real, ymax: real, h: int, v: int)
    requires h != 0 && v != 0
    ensures Layout(xmax, ymax, h, v)[..4] == [Point(0.0, 0.0), Point(xmax, 0.0), Point(0.0, ymax), Point(xmax, ymax)]
  {
  }

  /** After the corners come the top edge (y = 0), the bottom edge (y = ymax), the
      left edge (x = 0) and the right edge (x = xmax); the k-th point of a block,
      k from 1, sits at k * xmax / h or k * ymax / v. */
  lemma LayoutBlocks(xmax: real, ymax: real, h: int, v: int, k: int)
    requires h != 0 && v != 0
    ensures 1 <= k < h ==>
      && Layout(xmax, ymax, h, v)[3 + k] == Point(k as real * (xmax / h as real), 0.0)
      && Layout(xmax, ymax, h, v)[3 + Steps(h) + k] == Point(k as real * (xmax / h as real), ymax)
    ensures 1 <= k < v ==>
      && Layout(xmax, ymax, h, v)[3 + 2 * Steps(h) + k] == Point(0.0, k as real * (ymax / v as real))
      && Layout(xmax, ymax, h, v)[3 + 2 * Steps(h) + Steps(v) + k] == Point(xmax, k as real * (ymax / v as real))
  {
    var pts := Layout(xmax, ymax, h, v);
    var dx, dy := xmax / h as real, ymax / v as real;
    var sh, sv := Steps(h), Steps(v);
    var corners := [Point(0.0, 0.0), Point(xmax, 0.0), Point(0.0, ymax), Point(xmax, ymax)];
    var top := seq(sh, k => Point(dx * (k + 1) as real, 0.0));
    var bottom := seq(sh, k => Point(dx * (k + 1) as real, ymax));
    var left := seq(sv, k => Point(0.0, dy * (k + 1) as real));
    var right := seq(sv, k => Point(xmax, dy * (k + 1) as real));
    assert pts == corners + top + bottom + left + right;
    if 1 <= k < h {
      assert pts[3 + k] == top[k - 1];
      assert pts[3 + sh + k] == bottom[k - 1];
    }
    if 1 <= k < v {
      assert pts[3 + 2 * sh + k] == left[k - 1];
      assert pts[3 + 2 * sh + sv + k] == right[k - 1];
    }
  }

  /** 0 < k * (extent / n) < extent for 0 < k < n and a positive extent; without
      a positive extent, 0 <= ... <= extent. */
  lemma Between(k: real, n: real, extent: real)
    requires 0.0 < k < n && extent >= 0.0
    ensures 0.0 <= k * (extent / n) <= extent
    ensures extent > 0.0 ==> 0.0 < k * (extent / n) < extent
  {
    var d := extent / n;
    assert d * n == extent;
    DivideNonNegative(extent, n);
    assert n * d - k * d == (n - k) * d;
    NonNegativeProduct(n - k, d);
    NonNegativeProduct(k, d);
    if extent > 0.0 {
      assert d > 0.0;
      PositiveProduct(n - k, d);
      PositiveProduct(k, d);
    }
  }

  lemma NonNegativeProduct(a: real, b: real)
    requires a >= 0.0 && b >= 0.0
    ensures a * b >= 0.0
  {
  }

  lemma PositiveProduct(a: real, b: real)
    requires a > 0.0 && b > 0.0
    ensures a * b > 0.0
  {
  }

  /** p lies on the top or bottom edge strictly between x = 0 and x = xmax, or on
      the left or right edge strictly between y = 0 and y = ymax. */
  predicate InsideAnEdge(p: Point, xmax: real, ymax: real)
  {
    || ((p.y == 0.0 || p.y == ymax) && 0.0 < p.x < xmax)
    || ((p.x == 0.0 || p.x == xmax) && 0.0 < p.y < ymax)
  }

  /** Every point lies in [0, xmax] x [0, ymax]. */
  lemma LayoutInBounds(xmax: real, ymax: real, h: int, v: int, i: nat)
    requires h != 0 && v != 0 && xmax >= 0.0 && ymax >= 0.0
    requires i < |Layout(xmax, ymax, h, v)|
    ensures 0.0 <= Layout(xmax, ymax, h, v)[i].x <= xmax && 0.0 <= Layout(xmax, ymax, h, v)[i].y <= ymax
  {
    var pts := Layout(xmax, ymax, h, v);
    if i < 4 {
      LayoutCorners(xmax, ymax, h, v);
      assert pts[i] == pts[..4][i];
      assert pts[i] in [Point(0.0, 0.0), Point(xmax, 0.0), Point(0.0, ymax), Point(xmax, ymax)];
    } else {
      LayoutEdgeInterior(xmax, ymax, h, v, i);
    }
  }

  /** A point of the top or bottom edge lies strictly between the corners (or
      between them, for a zero width). */
  lemma HorizontalInterior(xmax: real, ymax: real, h: int, v: int, k: int)
    requires h != 0 && v != 0 && xmax >= 0.0 && ymax >= 0.0 && 1 <= k < h
    ensures var pts := Layout(xmax, ymax, h, v);
      && pts[3 + k].y == 0.0 && pts[3 + Steps(h) + k].y == ymax
      && pts[3 + k].x == pts[3 + Steps(h) + k].x
      && 0.0 <= pts[3 + k].x <= xmax
      && (xmax > 0.0 ==> 0.0 < pts[3 + k].x < xmax)
  {
    LayoutBlocks(xmax, ymax, h, v, k);
    Between(k as real, h as real, xmax);
  }

  /** A point of the left or right edge lies strictly between the corners (or
      between them, for a zero height). */
  lemma VerticalInterior(xmax: real, ymax: real, h: int, v: int, k: int)
    requires h != 0 && v != 0 && xmax >= 0.0 && ymax >= 0.0 && 1 <= k < v
    ensures var pts := Layout(xmax, ymax, h, v);
      && pts[3 + 2 * Steps(h) + k].x == 0.0 && pts[3 + 2 * Steps(h) + Steps(v) + k].x == xmax
      && pts[3 + 2 * Steps(h) + k].y == pts[3 + 2 * Steps(h) + Steps(v) + k].y
      && 0.0 <= pts[3 + 2 * Steps(h) + k].y <= ymax
      && (ymax > 0.0 ==> 0.0 < pts[3 + 2 * Steps(h) + k].y < ymax)
  {
    LayoutBlocks(xmax, ymax, h, v, k);
    Between(k as real, v as real, ymax);
  }

  /** Every point after the four corners lies on an edge strictly between that
      edge's corners (when the extent along the edge is positive, and between
      them otherwise). */
  lemma LayoutEdgeInterior(xmax: real, ymax: real, h: int, v: int, i: nat)
    requires h != 0 && v != 0 && xmax >= 0.0 && ymax >= 0.0
    requires 4 <= i < |Layout(xmax, ymax, h, v)|
    ensures 0.0 <= Layout(xmax, ymax, h, v)[i].x <= xmax && 0.0 <= Layout(xmax, ymax, h, v)[i].y <= ymax
    ensures xmax > 0.0 && ymax > 0.0 ==> InsideAnEdge(Layout(xmax, ymax, h, v)[i], xmax, ymax)
  {
    var pts := Layout(xmax, ymax, h, v);
    var sh, sv := Steps(h), Steps(v);
    if i < 4 + 2 * sh {
      var k := if i < 4 + sh then i - 3 else i - 3 - sh;
      HorizontalInterior(xmax, ymax, h, v, k);
    } else {
      var k := if i < 4 + 2 * sh + sv then i - 3 - 2 * sh else i - 3 - 2 * sh - sv;
      VerticalInterior(xmax, ymax, h, v, k);
    }
  }

  /** A successful `edge_points` starts with the four corners, and every point it
      returns lies in `[0, xmax] x [0, ymax]`. */
  lemma EdgePointsShape(xmax: nat, ymax: nat, lengthScale: real, nh: Option<int>, nv: Option<int>)
    requires EdgePoints(xmax, ymax, lengthScale, nh, nv).Success?
    ensures var pts := EdgePoints(xmax, ymax, lengthScale, nh, nv).value;
      && |pts| >= 4
      && pts[..4] == [Point(0.0, 0.0), Point(xmax as real, 0.0), Point(0.0, ymax as real), Point(xmax as real, ymax as real)]
      && forall i :: 0 <= i < |pts| ==>
           0.0 <= pts[i].x <= xmax as real && 0.0 <= pts[i].y <= ymax as real
  {
    var h, v := ResolveCount(nh, xmax, lengthScale).value, ResolveCount(nv, ymax, lengthScale).value;
    var xr, yr := xmax as real, ymax as real;
    var pts := Layout(xr, yr, h, v);
    LayoutCorners(xr, yr, h, v);
    forall i | 0 <= i < |pts|
      ensures 0.0 <= pts[i].x <= xr && 0.0 <= pts[i].y <= yr
    {
      LayoutInBounds(xr, yr, h, v, i);
    }
  }
}
