/** `get_triangle_colour` of `triangulared/utils.py`: every pixel is located in
    the triangulation, the pixels are grouped by triangle index, each RGB channel
    is aggregated per group, the groups are reindexed to `0 .. n_triangles - 1`
    with 0 for a triangle that received no pixel, and everything is divided by
    256. Point location (`find_simplex`) is the parameter `findSimplex`. */
module TriangleColour {
  import opened Grids
  import Stats

  /** One image pixel: its red, green and blue intensities. */
  datatype Pixel = Pixel(r: int, g: int, b: int)

  /** One output row: a colour with channels scaled by 1/256. */
  datatype Colour = Colour(r: real, g: real, b: real)

  datatype Channel = Red | Green | Blue

  /** The aggregate applied per channel: `np.median` (the default) or `np.mean`. */
  datatype AggFunc = Median | Mean

  function PixelValue(p: Pixel, ch: Channel): int
  {
    match ch
    case Red => p.r
    case Green => p.g
    case Blue => p.b
  }

  function ColourValue(c: Colour, ch: Channel): real
  {
    match ch
    case Red => c.r
    case Green => c.g
    case Blue => c.b
  }

  /** `agg_func` applied to one group: a value between the group's extremes. */
  function Aggregate(agg: AggFunc, bucket: seq<int>): (r: real)
    requires |bucket| > 0
    ensures exists lo, hi :: lo in bucket && hi in bucket && lo as real <= r <= hi as real
  {
    match agg
    case Median => Stats.Median(bucket)
    case Mean => Stats.Mean(bucket)
  }

  /** The meshgrid of column and row indices: row y holds `(0, y) .. (xmax - 1, y)`. */
  function Mesh(xmax: nat, ymax: nat): (mesh: seq<seq<Cell>>)
    ensures IsGrid(mesh, ymax, xmax)
  {
    seq(ymax, (y: int) requires 0 <= y < ymax => seq(xmax, (x: int) requires 0 <= x < xmax => Cell(x, y)))
  }

  /** The coordinates of all pixels as `(x, y)` in row-major order: the meshgrid
      flattened. Flat index k is the cell `np.unravel_index` gives for k. */
  function PixelCoords(xmax: nat, ymax: nat): (cs: seq<Cell>)
    ensures |cs| == xmax * ymax
    ensures forall k :: 0 <= k < |cs| ==> cs[k] == Unravel(k, xmax)
  {
    MeshIndex(xmax, ymax);
    Flatten(Mesh(xmax, ymax))
  }

  lemma MeshIndex(xmax: nat, ymax: nat)
    ensures |Flatten(Mesh(xmax, ymax))| == xmax * ymax
    ensures forall k :: 0 <= k < xmax * ymax ==> Flatten(Mesh(xmax, ymax))[k] == Unravel(k, xmax)
  {
    var mesh := Mesh(xmax, ymax);
    FlattenLength(mesh, ymax, xmax);
    assert ymax * xmax == xmax * ymax;
    if xmax > 0 {
      forall k | 0 <= k < xmax * ymax
        ensures Flatten(mesh)[k] == Unravel(k, xmax)
      {
        FlattenIndex(mesh, ymax, xmax, k);
        assert mesh[k / xmax][k % xmax] == Unravel(k, xmax);
      }
    }
  }

  /** The triangle index of every pixel, in the same order as `PixelCoords`. */
  function Labels(xmax: nat, ymax: nat, findSimplex: (int, int) -> int): (labels: seq<int>)
    ensures |labels| == xmax * ymax
  {
    var cs := PixelCoords(xmax, ymax);
    seq(|cs|, k requires 0 <= k < |cs| => findSimplex(cs[k].x, cs[k].y))
  }

  /** One channel of every pixel of the row-major flattened image. */
  function ChannelValues(image: seq<seq<Pixel>>, ch: Channel): (values: seq<int>)
    ensures |values| == |Flatten(image)|
  {
    var flat := Flatten(image);
    seq(|flat|, k requires 0 <= k < |flat| => PixelValue(flat[k], ch))
  }

  /** The values whose label is `t`, in pixel order: one group of the group-by.
      The group keeps repetitions: it holds each value v once per position
      carrying label t and value v. */
  function Bucket(labels: seq<int>, values: seq<int>, t: int): (b: seq<int>)
    requires |labels| == |values|
    ensures forall v :: multiset(b)[v] == |Hits(labels, values, t, v, 0)|
  {
    if labels == [] then
      assert forall v :: Hits(labels, values, t, v, 0) == {};
      []
    else
      var head: seq<int> := if labels[0] == t then [values[0]] else [];
      var tail := Bucket(labels[1..], values[1..], t);
      HitsHeadAll(labels, values, t);
      assert forall v :: multiset(head + tail)[v] == multiset(head)[v] + multiset(tail)[v];
      head + tail
  }

  /** The positions from `lo` on that carry label t and value v. */
  ghost function Hits(labels: seq<int>, values: seq<int>, t: int, v: int, lo: nat): set<nat>
    requires |labels| == |values|
  {
    set k: nat | lo <= k < |labels| && labels[k] == t && values[k] == v
  }

  /** Counting matches over all positions is counting position 0, then the
      matches of the remaining positions. */
  lemma HitsHeadAll(labels: seq<int>, values: seq<int>, t: int)
    requires |labels| == |values| && |labels| > 0
    ensures forall v ::
      |Hits(labels, values, t, v, 0)| ==
      (if labels[0] == t && values[0] == v then 1 else 0) + |Hits(labels[1..], values[1..], t, v, 0)|
  {
    forall v
      ensures |Hits(labels, values, t, v, 0)| ==
        (if labels[0] == t && values[0] == v then 1 else 0) + |Hits(labels[1..], values[1..], t, v, 0)|
    {
      HitsStep(labels, values, t, v, 0);
      HitsShift(labels, values, t, v, 0);
    }
  }

  /** Dropping the first position shifts every later match down by one. */
  lemma {:induction false} HitsShift(labels: seq<int>, values: seq<int>, t: int, v: int, lo: nat)
    requires |labels| == |values| && lo < |labels|
    ensures |Hits(labels, values, t, v, lo + 1)| == |Hits(labels[1..], values[1..], t, v, lo)|
    decreases |labels| - lo
  {
    if lo + 1 == |labels| {
      assert Hits(labels, values, t, v, lo + 1) == {};
      assert Hits(labels[1..], values[1..], t, v, lo) == {};
    } else {
      HitsShift(labels, values, t, v, lo + 1);
      HitsStep(labels, values, t, v, lo + 1);
      HitsStep(labels[1..], values[1..], t, v, lo);
      assert labels[1..][lo] == labels[lo + 1] && values[1..][lo] == values[lo + 1];
    }
  }

  /** The aggregate of group `t` after reindexing: the fill value 0 exactly when
      no position has label `t`, otherwise the aggregate of its non-empty group. */
  function GroupValue(labels: seq<int>, values: seq<int>, t: int, agg: AggFunc): (r: real)
    requires |labels| == |values|
    ensures t !in labels ==> r == 0.0
    ensures t in labels ==> |Bucket(labels, values, t)| > 0 && r == Aggregate(agg, Bucket(labels, values, t))
  {
    BucketEmpty(labels, values, t);
    var bucket := Bucket(labels, values, t);
    if |bucket| == 0 then 0.0 else Aggregate(agg, bucket)
  }

  /** Pixel (x, y) lies in the image and is located in triangle t. */
  predicate InTriangle(xmax: nat, ymax: nat, findSimplex: (int, int) -> int, t: int, x: int, y: int)
  {
    0 <= x < xmax && 0 <= y < ymax && findSimplex(x, y) == t
  }

  /** Some pixel of the image is located in triangle t. */
  ghost predicate Covered(xmax: nat, ymax: nat, findSimplex: (int, int) -> int, t: int)
  {
    exists x, y :: InTriangle(xmax, ymax, findSimplex, t, x, y)
  }

  /** `get_triangle_colour(triangles, image, agg_func)`: one colour per triangle,
      in triangle order; a triangle that no pixel falls in is black. */
  function GetTriangleColour(image: seq<seq<Pixel>>, xmax: nat, nTriangles: nat,
                             findSimplex: (int, int) -> int, agg: AggFunc := Median): (colours: seq<Colour>)
    requires IsGrid(image, |image|, xmax)
    ensures |colours| == nTriangles
    ensures forall t :: 0 <= t < nTriangles && !Covered(xmax, |image|, findSimplex, t) ==>
      colours[t] == Colour(0.0, 0.0, 0.0)
  {
    var labels := Labels(xmax, |image|, findSimplex);
    FlattenLength(image, |image|, xmax);
    var red, green, blue := ChannelValues(image, Red), ChannelValues(image, Green), ChannelValues(image, Blue);
    var colours := seq(nTriangles, t =>
      Colour(GroupValue(labels, red, t, agg) / 256.0,
             GroupValue(labels, green, t, agg) / 256.0,
             GroupValue(labels, blue, t, agg) / 256.0));
    assert forall t :: 0 <= t < nTriangles && !Covered(xmax, |image|, findSimplex, t) ==>
      colours[t] == Colour(0.0, 0.0, 0.0) by {
      forall t | 0 <= t < nTriangles && !Covered(xmax, |image|, findSimplex, t)
        ensures colours[t] == Colour(0.0, 0.0, 0.0)
      {
        forall ch ensures |Bucket(labels, ChannelValues(image, ch), t)| == 0 {
          BucketEmptyIfUncovered(image, xmax, findSimplex, t, ch);
        }
      }
    }
    colours
  }

  // ---------------------------------------------------------------------------
  // Grouping

  /** A value is in group t exactly when some position carries label t and that value. */
  lemma {:induction false} BucketMembers(labels: seq<int>, values: seq<int>, t: int, v: int)
    requires |labels| == |values|
    ensures v in Bucket(labels, values, t) <==> exists k :: 0 <= k < |labels| && labels[k] == t && values[k] == v
  {
    if labels != [] {
      BucketMembers(labels[1..], values[1..], t, v);
      if v in Bucket(labels[1..], values[1..], t) {
        var k :| 0 <= k < |labels| - 1 && labels[1..][k] == t && values[1..][k] == v;
        assert labels[k + 1] == t && values[k + 1] == v;
      }
      if exists k :: 0 <= k < |labels| && labels[k] == t && values[k] == v {
        var k :| 0 <= k < |labels| && labels[k] == t && values[k] == v;
        if k > 0 {
          assert labels[1..][k - 1] == t && values[1..][k - 1] == v;
        }
      }
    }
  }

  /** The positions from `lo` on: position `lo` if it matches, then those from `lo + 1` on. */
  lemma HitsStep(labels: seq<int>, values: seq<int>, t: int, v: int, lo: nat)
    requires |labels| == |values| && lo < |labels|
    ensures |Hits(labels, values, t, v, lo)| ==
      |Hits(labels, values, t, v, lo + 1)| + (if labels[lo] == t && values[lo] == v then 1 else 0)
  {
    var rest := Hits(labels, values, t, v, lo + 1);
    assert lo !in rest;
    if labels[lo] == t && values[lo] == v {
      assert Hits(labels, values, t, v, lo) == rest + {lo};
    } else {
      assert Hits(labels, values, t, v, lo) == rest;
    }
  }

  /** Group t is empty exactly when no position carries label t. */
  lemma {:induction false} BucketEmpty(labels: seq<int>, values: seq<int>, t: int)
    requires |labels| == |values|
    ensures |Bucket(labels, values, t)| == 0 <==> t !in labels
  {
    if labels != [] {
      BucketEmpty(labels[1..], values[1..], t);
      assert labels == [labels[0]] + labels[1..];
    }
  }

  /** Values at positions labelled something other than t do not affect group t. */
  lemma {:induction false} BucketIgnoresOtherLabels(labels: seq<int>, values: seq<int>, values': seq<int>, t: int)
    requires |labels| == |values| == |values'|
    requires forall k :: 0 <= k < |labels| && labels[k] == t ==> values[k] == values'[k]
    ensures Bucket(labels, values, t) == Bucket(labels, values', t)
  {
    if labels != [] {
      BucketIgnoresOtherLabels(labels[1..], values[1..], values'[1..], t);
    }
  }

  // ---------------------------------------------------------------------------
  // Pixel coordinates and colours

  /** Flat position k holds the label of pixel (k % xmax, k / xmax) and that
      pixel's own channel value: coordinates and colours are flattened alike. */
  lemma PixelPairing(image: seq<seq<Pixel>>, xmax: nat, findSimplex: (int, int) -> int, ch: Channel, k: nat)
    requires IsGrid(image, |image|, xmax)
    requires k < xmax * |image|
    ensures |ChannelValues(image, ch)| == |Labels(xmax, |image|, findSimplex)| == xmax * |image|
    ensures 0 <= k / xmax < |image| && 0 <= k % xmax < xmax
    ensures Labels(xmax, |image|, findSimplex)[k] == findSimplex(k % xmax, k / xmax)
    ensures ChannelValues(image, ch)[k] == PixelValue(image[k / xmax][k % xmax], ch)
  {
    FlattenIndex(image, |image|, xmax, k);
    assert xmax * |image| == |image| * xmax;
  }

  /** A value is in the group of triangle t for channel ch exactly when some pixel
      located in t has that value in ch. */
  lemma TriangleMembers(image: seq<seq<Pixel>>, xmax: nat, findSimplex: (int, int) -> int, t: int, ch: Channel, v: int)
    requires IsGrid(image, |image|, xmax)
    ensures |Labels(xmax, |image|, findSimplex)| == |ChannelValues(image, ch)|
    ensures v in Bucket(Labels(xmax, |image|, findSimplex), ChannelValues(image, ch), t) <==>
      exists x, y :: InTriangle(xmax, |image|, findSimplex, t, x, y) && PixelValue(image[y][x], ch) == v
  {
    var labels, values := Labels(xmax, |image|, findSimplex), ChannelValues(image, ch);
    FlattenLength(image, |image|, xmax);
    assert xmax * |image| == |image| * xmax;
    BucketMembers(labels, values, t, v);
    if v in Bucket(labels, values, t) {
      BucketToTriangle(image, xmax, findSimplex, t, ch, v);
    }
    if exists x, y :: InTriangle(xmax, |image|, findSimplex, t, x, y) && PixelValue(image[y][x], ch) == v {
      TriangleToBucket(image, xmax, findSimplex, t, ch, v);
    }
  }

  /** A value in a triangle's bucket comes from a pixel of that triangle. */
  lemma BucketToTriangle(image: seq<seq<Pixel>>, xmax: nat, findSimplex: (int, int) -> int, t: int, ch: Channel, v: int)
    requires IsGrid(image, |image|, xmax)
    requires |Labels(xmax, |image|, findSimplex)| == |ChannelValues(image, ch)|
    requires exists k ::
      && 0 <= k < |Labels(xmax, |image|, findSimplex)|
      && Labels(xmax, |image|, findSimplex)[k] == t && ChannelValues(image, ch)[k] == v
    ensures exists x, y :: InTriangle(xmax, |image|, findSimplex, t, x, y) && PixelValue(image[y][x], ch) == v
  {
    var labels, values := Labels(xmax, |image|, findSimplex), ChannelValues(image, ch);
    var k :| 0 <= k < |labels| && labels[k] == t && values[k] == v;
    FlatToPixel(image, xmax, findSimplex, t, ch, k);
  }

  /** A pixel of a triangle puts its value in that triangle's bucket. */
  lemma TriangleToBucket(image: seq<seq<Pixel>>, xmax: nat, findSimplex: (int, int) -> int, t: int, ch: Channel, v: int)
    requires IsGrid(image, |image|, xmax)
    requires exists x, y :: InTriangle(xmax, |image|, findSimplex, t, x, y) && PixelValue(image[y][x], ch) == v
    ensures exists k ::
      && 0 <= k < |Labels(xmax, |image|, findSimplex)| && k < |ChannelValues(image, ch)|
      && Labels(xmax, |image|, findSimplex)[k] == t && ChannelValues(image, ch)[k] == v
  {
    var x, y :| InTriangle(xmax, |image|, findSimplex, t, x, y) && PixelValue(image[y][x], ch) == v;
    PixelToFlat(image, xmax, findSimplex, t, ch, x, y);
  }

  lemma FlatToPixel(image: seq<seq<Pixel>>, xmax: nat, findSimplex: (int, int) -> int, t: int, ch: Channel, k: nat)
    requires IsGrid(image, |image|, xmax)
    requires k < |Labels(xmax, |image|, findSimplex)| && Labels(xmax, |image|, findSimplex)[k] == t
    ensures InTriangle(xmax, |image|, findSimplex, t, k % xmax, k / xmax)
    ensures k < |ChannelValues(image, ch)|
    ensures ChannelValues(image, ch)[k] == PixelValue(image[k / xmax][k % xmax], ch)
  {
    PixelPairing(image, xmax, findSimplex, ch, k);
  }

  /** A pixel located in t sits at a flat position labelled t, with the same value. */
  lemma PixelToFlat(image: seq<seq<Pixel>>, xmax: nat, findSimplex: (int, int) -> int, t: int, ch: Channel, x: nat, y: nat)
    requires IsGrid(image, |image|, xmax)
    requires InTriangle(xmax, |image|, findSimplex, t, x, y)
    ensures y * xmax + x < |Labels(xmax, |image|, findSimplex)| == |ChannelValues(image, ch)|
    ensures Labels(xmax, |image|, findSimplex)[y * xmax + x] == t
    ensures ChannelValues(image, ch)[y * xmax + x] == PixelValue(image[y][x], ch)
  {
    var k := y * xmax + x;
    RowMajorPosition(y, x, xmax);
    RowMajorBefore(y, x, |image|, 0, xmax);
    PixelPairing(image, xmax, findSimplex, ch, k);
  }

  /** The pixels `(x, y)` located in triangle t whose channel ch holds v. */
  ghost function PixelsWith(image: seq<seq<Pixel>>, xmax: nat, findSimplex: (int, int) -> int,
                            t: int, ch: Channel, v: int): set<Cell>
    requires IsGrid(image, |image|, xmax)
  {
    set x: nat, y: nat | x < xmax && y < |image| && findSimplex(x, y) == t &&
                         PixelValue(image[y][x], ch) == v :: Cell(x, y)
  }

  /** Triangle t's group for channel ch holds each value v exactly once per
      pixel located in t with that value: its multiset is the channel values of
      the triangle's pixels. */
  lemma PixelCount(image: seq<seq<Pixel>>, xmax: nat, findSimplex: (int, int) -> int, t: int, ch: Channel, v: int)
    requires IsGrid(image, |image|, xmax)
    ensures |Labels(xmax, |image|, findSimplex)| == |ChannelValues(image, ch)|
    ensures multiset(Bucket(Labels(xmax, |image|, findSimplex), ChannelValues(image, ch), t))[v]
         == |PixelsWith(image, xmax, findSimplex, t, ch, v)|
  {
    var labels, values := Labels(xmax, |image|, findSimplex), ChannelValues(image, ch);
    FlattenLength(image, |image|, xmax);
    assert xmax * |image| == |image| * xmax;
    var hits := Hits(labels, values, t, v, 0);
    if xmax == 0 {
      assert hits == {};
      assert PixelsWith(image, xmax, findSimplex, t, ch, v) == {};
    } else {
      HitsArePixels(image, xmax, findSimplex, t, ch, v);
      UnravelImageSize(hits, xmax);
    }
  }

  /** The pixels located in t with value v are the flat positions labelled t
      with value v, unravelled. */
  lemma HitsArePixels(image: seq<seq<Pixel>>, xmax: nat, findSimplex: (int, int) -> int, t: int, ch: Channel, v: int)
    requires IsGrid(image, |image|, xmax) && xmax > 0
    ensures |Labels(xmax, |image|, findSimplex)| == |ChannelValues(image, ch)|
    ensures PixelsWith(image, xmax, findSimplex, t, ch, v) ==
      set k | k in Hits(Labels(xmax, |image|, findSimplex), ChannelValues(image, ch), t, v, 0) :: Unravel(k, xmax)
  {
    var labels, values := Labels(xmax, |image|, findSimplex), ChannelValues(image, ch);
    FlattenLength(image, |image|, xmax);
    assert xmax * |image| == |image| * xmax;
    var hits := Hits(labels, values, t, v, 0);
    var pixels := PixelsWith(image, xmax, findSimplex, t, ch, v);
    var unravelled := set k | k in hits :: Unravel(k, xmax);
    forall k | k in hits
      ensures Unravel(k, xmax) in pixels
    {
      FlatToPixel(image, xmax, findSimplex, t, ch, k);
    }
    forall p | p in pixels
      ensures p in unravelled
    {
      PixelInHits(image, xmax, findSimplex, t, ch, v, p.x, p.y);
    }
  }

  /** A pixel located in t with value v unravels from a flat position labelled t with value v. */
  lemma PixelInHits(image: seq<seq<Pixel>>, xmax: nat, findSimplex: (int, int) -> int, t: int, ch: Channel, v: int,
                    x: nat, y: nat)
    requires IsGrid(image, |image|, xmax)
    requires Cell(x, y) in PixelsWith(image, xmax, findSimplex, t, ch, v)
    ensures x < xmax && |Labels(xmax, |image|, findSimplex)| == |ChannelValues(image, ch)|
    ensures y * xmax + x in Hits(Labels(xmax, |image|, findSimplex), ChannelValues(image, ch), t, v, 0)
    ensures Unravel(y * xmax + x, xmax) == Cell(x, y)
  {
    PixelToFlat(image, xmax, findSimplex, t, ch, x, y);
    RowMajorPosition(y, x, xmax);
  }

  /** Distinct flat positions are distinct pixels. */
  lemma UnravelInjective(k1: nat, k2: nat, xmax: nat)
    requires xmax > 0 && k1 != k2
    ensures Unravel(k1, xmax) != Unravel(k2, xmax)
  {
    assert k1 == (k1 / xmax) * xmax + k1 % xmax;
    assert k2 == (k2 / xmax) * xmax + k2 % xmax;
  }

  /** A set of flat positions and the pixels they unravel to have the same size. */
  lemma {:induction false} UnravelImageSize(s: set<nat>, xmax: nat)
    requires xmax > 0
    ensures |set k | k in s :: Unravel(k, xmax)| == |s|
    decreases |s|
  {
    if s != {} {
      var k :| k in s;
      var s' := s - {k};
      UnravelImageSize(s', xmax);
      var image', p := set k' | k' in s' :: Unravel(k', xmax), Unravel(k, xmax);
      forall k' | k' in s'
        ensures Unravel(k', xmax) != p
      {
        UnravelInjective(k', k, xmax);
      }
      assert (set k' | k' in s :: Unravel(k', xmax)) == image' + {p};
    }
  }

  /** The group of a triangle no pixel falls in is empty. */
  lemma BucketEmptyIfUncovered(image: seq<seq<Pixel>>, xmax: nat, findSimplex: (int, int) -> int, t: int, ch: Channel)
    requires IsGrid(image, |image|, xmax)
    requires !Covered(xmax, |image|, findSimplex, t)
    ensures |Labels(xmax, |image|, findSimplex)| == |ChannelValues(image, ch)|
    ensures |Bucket(Labels(xmax, |image|, findSimplex), ChannelValues(image, ch), t)| == 0
  {
    var labels, values := Labels(xmax, |image|, findSimplex), ChannelValues(image, ch);
    FlattenLength(image, |image|, xmax);
    assert xmax * |image| == |image| * xmax;
    if |Bucket(labels, values, t)| != 0 {
      var v := Bucket(labels, values, t)[0];
      TriangleMembers(image, xmax, findSimplex, t, ch, v);
      assert false;
    }
  }

  /** A covered triangle's group is not empty. */
  lemma BucketNonEmptyIfCovered(image: seq<seq<Pixel>>, xmax: nat, findSimplex: (int, int) -> int, t: int, ch: Channel)
    requires IsGrid(image, |image|, xmax)
    requires Covered(xmax, |image|, findSimplex, t)
    ensures |Labels(xmax, |image|, findSimplex)| == |ChannelValues(image, ch)|
    ensures |Bucket(Labels(xmax, |image|, findSimplex), ChannelValues(image, ch), t)| > 0
  {
    var x, y :| InTriangle(xmax, |image|, findSimplex, t, x, y);
    TriangleMembers(image, xmax, findSimplex, t, ch, PixelValue(image[y][x], ch));
  }

  // ---------------------------------------------------------------------------
  // Properties of the colours

  /** Channel ch of row t is the aggregate of that channel over triangle t's
      group, or 0 for an empty group, divided by 256. */
  lemma ColourChannel(image: seq<seq<Pixel>>, xmax: nat, nTriangles: nat, findSimplex: (int, int) -> int,
                      agg: AggFunc, t: nat, ch: Channel)
    requires IsGrid(image, |image|, xmax) && t < nTriangles
    ensures |Labels(xmax, |image|, findSimplex)| == |ChannelValues(image, ch)|
    ensures ColourValue(GetTriangleColour(image, xmax, nTriangles, findSimplex, agg)[t], ch)
      == GroupValue(Labels(xmax, |image|, findSimplex), ChannelValues(image, ch), t, agg) / 256.0
    ensures forall v ::
      multiset(Bucket(Labels(xmax, |image|, findSimplex), ChannelValues(image, ch), t))[v]
      == |PixelsWith(image, xmax, findSimplex, t, ch, v)|
  {
    FlattenLength(image, |image|, xmax);
    assert xmax * |image| == |image| * xmax;
    forall v
      ensures multiset(Bucket(Labels(xmax, |image|, findSimplex), ChannelValues(image, ch), t))[v]
        == |PixelsWith(image, xmax, findSimplex, t, ch, v)|
    {
      PixelCount(image, xmax, findSimplex, t, ch, v);
    }
  }

  /** The aggregate depends only on how often each value occurs in the bucket. */
  lemma AggregateOfPermutation(agg: AggFunc, a: seq<int>, b: seq<int>)
    requires |a| > 0 && multiset(a) == multiset(b)
    ensures |b| > 0 && Aggregate(agg, a) == Aggregate(agg, b)
  {
    match agg
    case Median => Stats.MedianOfPermutation(a, b);
    case Mean => Stats.MeanOfPermutation(a, b);
  }

  /** Channel ch of row t is the aggregate of the channel values of the pixels
      located in triangle t, each pixel counted once and in any order (0 for no
      pixel), divided by 256. */
  lemma ColourOfPixels(image: seq<seq<Pixel>>, xmax: nat, nTriangles: nat, findSimplex: (int, int) -> int,
                       agg: AggFunc, t: nat, ch: Channel, b: seq<int>)
    requires IsGrid(image, |image|, xmax) && t < nTriangles
    requires forall v :: multiset(b)[v] == |PixelsWith(image, xmax, findSimplex, t, ch, v)|
    ensures ColourValue(GetTriangleColour(image, xmax, nTriangles, findSimplex, agg)[t], ch)
      == (if |b| == 0 then 0.0 else Aggregate(agg, b)) / 256.0
  {
    ColourChannel(image, xmax, nTriangles, findSimplex, agg, t, ch);
    var bucket := Bucket(Labels(xmax, |image|, findSimplex), ChannelValues(image, ch), t);
    assert forall v :: multiset(bucket)[v] == multiset(b)[v];
    assert multiset(bucket) == multiset(b);
    assert |bucket| == |multiset(bucket)| == |multiset(b)| == |b|;
    if |b| > 0 {
      AggregateOfPermutation(agg, bucket, b);
    }
  }

  /** If every pixel of a covered triangle has channel ch in [lo, hi], the
      triangle's channel lies in [lo/256, hi/256], for the median and the mean. */
  lemma ColourWithin(image: seq<seq<Pixel>>, xmax: nat, nTriangles: nat, findSimplex: (int, int) -> int,
                     agg: AggFunc, t: nat, ch: Channel, lo: int, hi: int)
    requires IsGrid(image, |image|, xmax) && t < nTriangles
    requires Covered(xmax, |image|, findSimplex, t)
    requires forall x, y :: InTriangle(xmax, |image|, findSimplex, t, x, y) ==> lo <= PixelValue(image[y][x], ch) <= hi
    ensures lo as real / 256.0 <= ColourValue(GetTriangleColour(image, xmax, nTriangles, findSimplex, agg)[t], ch)
                                <= hi as real / 256.0
  {
    var labels, values := Labels(xmax, |image|, findSimplex), ChannelValues(image, ch);
    ColourChannel(image, xmax, nTriangles, findSimplex, agg, t, ch);
    BucketNonEmptyIfCovered(image, xmax, findSimplex, t, ch);
    var bucket := Bucket(labels, values, t);
    forall k | 0 <= k < |bucket|
      ensures lo <= bucket[k] <= hi
    {
      TriangleMembers(image, xmax, findSimplex, t, ch, bucket[k]);
    }
    match agg
    case Median => Stats.MedianWithin(bucket, lo, hi);
    case Mean => Stats.MeanWithin(bucket, lo, hi);
  }

  /** In an image of a single colour p, every triangle that some pixel falls in
      gets p scaled by 1/256 and every other triangle is black, for the median
      and the mean. */
  lemma SolidImageColour(image: seq<seq<Pixel>>, xmax: nat, nTriangles: nat, findSimplex: (int, int) -> int,
                         agg: AggFunc, p: Pixel, t: nat)
    requires IsGrid(image, |image|, xmax) && t < nTriangles
    requires forall y, x :: 0 <= y < |image| && 0 <= x < xmax ==> image[y][x] == p
    ensures GetTriangleColour(image, xmax, nTriangles, findSimplex, agg)[t] ==
      if Covered(xmax, |image|, findSimplex, t)
      then Colour(p.r as real / 256.0, p.g as real / 256.0, p.b as real / 256.0)
      else Colour(0.0, 0.0, 0.0)
  {
    if Covered(xmax, |image|, findSimplex, t) {
      SolidCovered(image, xmax, nTriangles, findSimplex, agg, p, t);
    }
  }

  /** A covered triangle of a single-colour image gets that colour. */
  lemma SolidCovered(image: seq<seq<Pixel>>, xmax: nat, nTriangles: nat, findSimplex: (int, int) -> int,
                     agg: AggFunc, p: Pixel, t: nat)
    requires IsGrid(image, |image|, xmax) && t < nTriangles
    requires Covered(xmax, |image|, findSimplex, t)
    requires forall y, x :: 0 <= y < |image| && 0 <= x < xmax ==> image[y][x] == p
    ensures GetTriangleColour(image, xmax, nTriangles, findSimplex, agg)[t] ==
      Colour(p.r as real / 256.0, p.g as real / 256.0, p.b as real / 256.0)
  {
    var c := GetTriangleColour(image, xmax, nTriangles, findSimplex, agg)[t];
    forall ch
      ensures ColourValue(c, ch) == PixelValue(p, ch) as real / 256.0
    {
      SolidChannel(image, xmax, nTriangles, findSimplex, agg, p, t, ch);
    }
    SolidFromChannels(c, p);
  }

  /** A colour whose every channel is the pixel's channel / 256 is that pixel's colour / 256. */
  lemma SolidFromChannels(c: Colour, p: Pixel)
    requires forall ch :: ColourValue(c, ch) == PixelValue(p, ch) as real / 256.0
    ensures c == Colour(p.r as real / 256.0, p.g as real / 256.0, p.b as real / 256.0)
  {
    SameChannels(c, Colour(p.r as real / 256.0, p.g as real / 256.0, p.b as real / 256.0));
  }

  /** Two colours agreeing on every channel are equal. */
  lemma SameChannels(c: Colour, d: Colour)
    requires ColourValue(c, Red) == ColourValue(d, Red)
    requires ColourValue(c, Green) == ColourValue(d, Green)
    requires ColourValue(c, Blue) == ColourValue(d, Blue)
    ensures c == d
  {
  }

  /** One channel of a covered triangle in a single-colour image. */
  lemma SolidChannel(image: seq<seq<Pixel>>, xmax: nat, nTriangles: nat, findSimplex: (int, int) -> int,
                     agg: AggFunc, p: Pixel, t: nat, ch: Channel)
    requires IsGrid(image, |image|, xmax) && t < nTriangles
    requires Covered(xmax, |image|, findSimplex, t)
    requires forall y, x :: 0 <= y < |image| && 0 <= x < xmax ==> image[y][x] == p
    ensures ColourValue(GetTriangleColour(image, xmax, nTriangles, findSimplex, agg)[t], ch) ==
      PixelValue(p, ch) as real / 256.0
  {
    ColourWithin(image, xmax, nTriangles, findSimplex, agg, t, ch, PixelValue(p, ch), PixelValue(p, ch));
  }

  /** With 8-bit channels every output channel lies in [0, 255/256]. */
  lemma ColourRange(image: seq<seq<Pixel>>, xmax: nat, nTriangles: nat, findSimplex: (int, int) -> int,
                    agg: AggFunc, t: nat, ch: Channel)
    requires IsGrid(image, |image|, xmax) && t < nTriangles
    requires forall y, x :: 0 <= y < |image| && 0 <= x < xmax ==> 0 <= PixelValue(image[y][x], ch) <= 255
    ensures 0.0 <= ColourValue(GetTriangleColour(image, xmax, nTriangles, findSimplex, agg)[t], ch) <= 255.0 / 256.0
  {
    if Covered(xmax, |image|, findSimplex, t) {
      ColourWithin(image, xmax, nTriangles, findSimplex, agg, t, ch, 0, 255);
    }
  }

  /** A pixel that `find_simplex` places in no output triangle (in particular
      one outside the triangulation, -1) contributes to no row: recolouring it
      leaves every colour unchanged. */
  lemma OutsidePixelIgnored(image: seq<seq<Pixel>>, xmax: nat, nTriangles: nat, findSimplex: (int, int) -> int,
                            agg: AggFunc, x: nat, y: nat, p: Pixel)
    requires IsGrid(image, |image|, xmax) && y < |image| && x < xmax
    requires !(0 <= findSimplex(x, y) < nTriangles)
    ensures IsGrid(image[y := image[y][x := p]], |image|, xmax)
    ensures GetTriangleColour(image[y := image[y][x := p]], xmax, nTriangles, findSimplex, agg)
         == GetTriangleColour(image, xmax, nTriangles, findSimplex, agg)
  {
    var image' := image[y := image[y][x := p]];
    assert IsGrid(image', |image|, xmax);
    var before, after := GetTriangleColour(image, xmax, nTriangles, findSimplex, agg),
                         GetTriangleColour(image', xmax, nTriangles, findSimplex, agg);
    forall t | 0 <= t < nTriangles
      ensures after[t] == before[t]
    {
      OutsideChannel(image, xmax, nTriangles, findSimplex, agg, x, y, p, t, Red);
      OutsideChannel(image, xmax, nTriangles, findSimplex, agg, x, y, p, t, Green);
      OutsideChannel(image, xmax, nTriangles, findSimplex, agg, x, y, p, t, Blue);
      SameChannels(after[t], before[t]);
    }
  }

  /** One channel of one triangle's colour does not see a pixel outside every triangle. */
  lemma OutsideChannel(image: seq<seq<Pixel>>, xmax: nat, nTriangles: nat, findSimplex: (int, int) -> int,
                       agg: AggFunc, x: nat, y: nat, p: Pixel, t: nat, ch: Channel)
    requires IsGrid(image, |image|, xmax) && y < |image| && x < xmax
    requires !(0 <= findSimplex(x, y) < nTriangles) && t < nTriangles
    ensures IsGrid(image[y := image[y][x := p]], |image|, xmax)
    ensures ColourValue(GetTriangleColour(image[y := image[y][x := p]], xmax, nTriangles, findSimplex, agg)[t], ch)
         == ColourValue(GetTriangleColour(image, xmax, nTriangles, findSimplex, agg)[t], ch)
  {
    var image' := image[y := image[y][x := p]];
    assert IsGrid(image', |image|, xmax);
    var labels := Labels(xmax, |image|, findSimplex);
    var values, values' := ChannelValues(image, ch), ChannelValues(image', ch);
    ColourChannel(image, xmax, nTriangles, findSimplex, agg, t, ch);
    ColourChannel(image', xmax, nTriangles, findSimplex, agg, t, ch);
    forall k | 0 <= k < |labels| && labels[k] == t
      ensures values[k] == values'[k]
    {
      OutsideValue(image, xmax, findSimplex, x, y, p, t, ch, k);
    }
    BucketIgnoresOtherLabels(labels, values, values', t);
  }

  /** A flattened position labelled with triangle `t` is not the changed pixel,
      so it holds the same value in both images. */
  lemma OutsideValue(image: seq<seq<Pixel>>, xmax: nat, findSimplex: (int, int) -> int,
                     x: nat, y: nat, p: Pixel, t: int, ch: Channel, k: nat)
    requires IsGrid(image, |image|, xmax) && y < |image| && x < xmax
    requires findSimplex(x, y) != t
    requires k < |Labels(xmax, |image|, findSimplex)| && Labels(xmax, |image|, findSimplex)[k] == t
    ensures IsGrid(image[y := image[y][x := p]], |image|, xmax)
    ensures k < |ChannelValues(image, ch)| == |ChannelValues(image[y := image[y][x := p]], ch)|
    ensures ChannelValues(image, ch)[k] == ChannelValues(image[y := image[y][x := p]], ch)[k]
  {
    var image' := image[y := image[y][x := p]];
    assert IsGrid(image', |image|, xmax);
    PixelPairing(image, xmax, findSimplex, ch, k);
    PixelPairing(image', xmax, findSimplex, ch, k);
  }

}
