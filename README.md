# triangulared core in Dafny

This project models the algorithmic core of the `triangulared` image
low-poly tool:

- **Boundary points** (`edge_points`): the four corners of an `xmax` by `ymax`
  image, then evenly spaced points along the top, bottom, left and right
  edges. A count that is not given is derived from `length_scale`. The model
  is the pure function `EdgePoints.EdgePoints`, with Python's
  `ZeroDivisionError` as a `Failure`.
- **Maximum-entropy sampling** (`generate_max_entropy_points`): the parameter
  defaulting and the greedy loop. The loop runs `n_points` times. Each round
  takes the first row-major maximum of a buffer, records it as `(x, y)` and
  subtracts a Gaussian bump centred there from the buffer in place. The
  method `EntropyPoints.GenerateMaxEntropyPoints` keeps the buffer as an
  `array2<real>` and is proved equal to the functional specification
  `EntropyPoints.MaxEntropyPoints`. The m-th point is proved to be the first
  row-major maximum of the entropy map minus the bumps at the points before
  it.
- **Triangle colours** (`get_triangle_colour`): every pixel is located in the
  triangulation. Pixels are grouped by triangle, and each RGB channel is
  aggregated by median or mean. Triangles with no pixel are filled with 0,
  labels outside `0 .. n_triangles - 1` are dropped, and everything is
  divided by 256. This is the function `TriangleColour.GetTriangleColour`,
  with lemmas on its grouping, its fill value, its range and its insensitivity
  to pixels outside every triangle.
- **Helpers**: `default` (`Utils.Default`) and `gaussian_mask`
  (`Utils.GaussianMask`).

Modules:

| module | file | contents |
|---|---|---|
| `Grids` | `grids.dfy` | rectangular grids, row-major flattening and unravelling, grids read from an `array2` |
| `Utils` | `utils.dfy` | `Option`, `Result`, `default`, `gaussian_mask` |
| `Stats` | `stats.dfy` | median (over an insertion sort) and mean of a bucket |
| `TriangleColour` | `triangle_colour.dfy` | `get_triangle_colour` |
| `EdgePoints` | `edge_points.dfy` | `edge_points` |
| `EntropyPoints` | `entropy_points.dfy` | defaulting and the greedy loop of `generate_max_entropy_points` |

Foreign numerics are function-valued parameters: `exp` in `gaussian_mask`,
`sqrt` in the length scale, and `find_simplex` for point location. No
property is assumed of them except where a lemma states it as a `requires`:
`exp(0) == 1` for the peak, and monotonicity for the decrease.

Floating-point numbers are modelled as `real` and pixel values as `int`.

With the default `length_scale` of 200 and no counts, `edge_points` divides
by zero on any image narrower or lower than 200 pixels. This is the call
`generate_uniform_random_points` makes, and so does the command-line program
(`triangleit.py:11` calls `edge_points(image)` with the defaults), so it fails
on any image smaller than 200 by 200. `EdgePoints.DefaultCountsNeedLargeImage`
states the condition exactly.

## Model

| member | source | states |
|---|---|---|
| `Utils.Default` | triangulared/utils.py:61-67 | the default exactly when the value is `None`, otherwise the value unchanged |
| `Utils.SquaredDistance` | triangulared/utils.py:57 | the squared distance of a cell to the bump's centre is non-negative |
| `Utils.Spread` | triangulared/utils.py:57 | the denominator `2 * sigma ** 2` is positive for a non-zero sigma |
| `Utils.GaussianValue` | triangulared/utils.py:57 | the bump is `amp * exp(0)` at its centre, and positive everywhere for a positive amplitude when `exp` is positive on non-positive arguments: its exponent is never positive |
| `Utils.GaussianMask` | triangulared/utils.py:43-58 | a grid of `shape[0]` rows and `shape[1]` columns; cell (row j, column i) is `amp * exp(-((i-x)^2 + (j-y)^2) / (2 sigma^2))` |
| `Utils.GaussianMaskPeak` | triangulared/utils.py:56-58 | at the integer centre `(x, y)` the mask holds exactly `amp` (given `exp(0) == 1`) |
| `Utils.GaussianMaskDecreasing` | triangulared/utils.py:56-58 | for a positive amplitude and an increasing `exp`, a cell strictly nearer the centre holds a strictly larger value |
| `Grids.FlattenLength` | triangulared/utils.py:24-26 | flattening `rows` rows of `cols` cells gives `rows * cols` values |
| `Grids.FlattenAt` | triangulared/utils.py:16-26 | row-major flattening puts cell (row j, column i) at position `j * cols + i` |
| `Grids.FlattenIndex` | triangulared/utils.py:16-26 | flat position k holds cell (row `k / cols`, column `k % cols`) |
| `Grids.Unravel` | triangulared/point_generators.py:96 | `np.unravel_index`: column `x < cols` and row `y` with `y * cols + x == k`; also the order of the raveled meshgrid of pixel coordinates |
| `Grids.GridOf` | triangulared/point_generators.py:94-101 | an array whose cells equal a grid's cells reads back as that grid |
| `Stats.Insert` | triangulared/utils.py:35 | inserting into a sorted bucket gives a sorted bucket with one more occurrence of the value |
| `Stats.Sort` | triangulared/utils.py:35 | the bucket sorted for the median: a sorted permutation |
| `Stats.Median` | triangulared/utils.py:35 | the median lies between two values of the bucket |
| `Stats.Mean` | triangulared/utils.py:35 | `np.mean` of a non-empty bucket lies between two values of the bucket |
| `Stats.SumWithin` | triangulared/utils.py:35 | a bucket with values in [lo, hi] sums to between `n * lo` and `n * hi` |
| `Stats.MedianWithin` | triangulared/utils.py:35 | the median of values in [lo, hi] lies in [lo, hi] |
| `Stats.MeanWithin` | triangulared/utils.py:35 | the mean of values in [lo, hi] lies in [lo, hi] |
| `Stats.MedianOfConstant` | triangulared/utils.py:35 | a bucket of equal values `c` has median `c` |
| `Stats.MeanOfConstant` | triangulared/utils.py:35 | a bucket of equal values `c` has mean `c` |
| `Stats.SortedUnique` | triangulared/utils.py:35 | two sorted sequences with the same elements (counted with repetition) are equal |
| `Stats.MedianOfPermutation` | triangulared/utils.py:35 | the median depends only on how often each value occurs in the bucket, not on its order |
| `Stats.SumOfPermutation` | triangulared/utils.py:35 | the sum depends only on how often each value occurs |
| `Stats.MeanOfPermutation` | triangulared/utils.py:35 | the mean depends only on how often each value occurs in the bucket, not on its order |
| `TriangleColour.Mesh` | triangulared/utils.py:16 | the meshgrid has `ymax` rows of `xmax` coordinate pairs |
| `TriangleColour.MeshIndex` | triangulared/utils.py:16-17 | the raveled meshgrid holds `(k % xmax, k / xmax)` at position k |
| `TriangleColour.PixelCoords` | triangulared/utils.py:15-17 | `xmax * ymax` pixel coordinates, position k being `(x = k mod xmax, y = k div xmax)` |
| `TriangleColour.Labels` | triangulared/utils.py:20 | one triangle label per pixel |
| `TriangleColour.ChannelValues` | triangulared/utils.py:24-26 | one channel value per pixel of the flattened image |
| `TriangleColour.GetTriangleColour` | triangulared/utils.py:5-40 | exactly `n_triangles` rows; a triangle no pixel falls in gets `(0, 0, 0)` |
| `TriangleColour.BucketMembers` | triangulared/utils.py:31-35 | a value is in group t if and only if some position carries label t and that value |
| `TriangleColour.Bucket` | triangulared/utils.py:31-34 | `groupby("triangle")`: group t holds each value v exactly as often as positions carry label t and value v, so the group-by keeps repetitions |
| `TriangleColour.HitsHeadAll` | triangulared/utils.py:31-34 | the positions carrying label t and value v are position 0 if it matches, then the matches among the remaining positions |
| `TriangleColour.Aggregate` | triangulared/utils.py:35 | `agg_func` (median or mean) of a non-empty group lies between two values of the group |
| `TriangleColour.GroupValue` | triangulared/utils.py:35-37 | after `reindex(range(n_triangles), fill_value=0)`: 0 when no position carries label t, otherwise the aggregate of t's group, which is then non-empty |
| `TriangleColour.BucketEmpty` | triangulared/utils.py:31-37 | group t is empty if and only if no position carries label t |
| `TriangleColour.BucketIgnoresOtherLabels` | triangulared/utils.py:31-36 | values at positions labelled other than t do not change group t |
| `TriangleColour.PixelPairing` | triangulared/utils.py:15-26 | flat position k carries the label of pixel `(k % xmax, k / xmax)` and that same pixel's channel value |
| `TriangleColour.TriangleMembers` | triangulared/utils.py:14-35 | a value is in triangle t's group for a channel if and only if some pixel located in t has that value in that channel |
| `TriangleColour.BucketToTriangle` | triangulared/utils.py:14-35 | every value in triangle t's group comes from a pixel located in t |
| `TriangleColour.TriangleToBucket` | triangulared/utils.py:14-35 | every pixel located in t puts its value in t's group |
| `TriangleColour.FlatToPixel` | triangulared/utils.py:15-26 | a flat position labelled t is a pixel located in t, with that pixel's value |
| `TriangleColour.PixelToFlat` | triangulared/utils.py:15-26 | pixel `(x, y)` located in t sits at flat position `y * xmax + x`, labelled t, with its own value |
| `TriangleColour.PixelCount` | triangulared/utils.py:14-35 | triangle t's group for a channel holds each value v exactly once per pixel located in t with that value |
| `TriangleColour.HitsArePixels` | triangulared/utils.py:15-26 | the pixels located in t with value v are exactly the flat positions labelled t with value v, unravelled |
| `TriangleColour.PixelInHits` | triangulared/utils.py:15-26 | a pixel located in t with value v unravels from its own flat position `y * xmax + x` |
| `TriangleColour.UnravelInjective` | triangulared/utils.py:16-17 | distinct flat positions are distinct pixel coordinates |
| `TriangleColour.UnravelImageSize` | triangulared/utils.py:16-17 | a set of flat positions and the pixels it unravels to have the same size |
| `TriangleColour.BucketEmptyIfUncovered` | triangulared/utils.py:31-37 | a triangle that no pixel falls in has an empty group |
| `TriangleColour.BucketNonEmptyIfCovered` | triangulared/utils.py:31-35 | a triangle some pixel falls in has a non-empty group |
| `TriangleColour.ColourChannel` | triangulared/utils.py:29-40 | row t, channel ch is the aggregate of that channel over t's group (0 when empty), divided by 256; the group holds each value once per pixel located in t with that value |
| `TriangleColour.AggregateOfPermutation` | triangulared/utils.py:35 | median and mean depend only on how often each value occurs in the bucket |
| `TriangleColour.ColourOfPixels` | triangulared/utils.py:5-40 | row t, channel ch is the aggregate over any bucket holding the channel values of the pixels located in t, each pixel once and in any order (0 for no pixel), divided by 256 |
| `TriangleColour.ColourWithin` | triangulared/utils.py:31-40 | if a covered triangle's pixels have channel values in [lo, hi], its output channel is in [lo/256, hi/256], for median and mean |
| `TriangleColour.SolidImageColour` | triangulared/utils.py:5-40 | in a single-colour image every covered triangle gets that colour / 256, and every other triangle gets 0 |
| `TriangleColour.SolidCovered` | triangulared/utils.py:31-40 | a covered triangle of a single-colour image gets that colour / 256 |
| `TriangleColour.SolidChannel` | triangulared/utils.py:31-40 | one channel of such a triangle is the pixel's channel / 256 |
| `TriangleColour.ColourRange` | triangulared/utils.py:40 | channel values in 0..255 give output channels in [0, 255/256] |
| `TriangleColour.OutsidePixelIgnored` | triangulared/utils.py:20-36 | recolouring a pixel whose label is not an output triangle (such as -1) leaves every output row unchanged |
| `TriangleColour.OutsideChannel` | triangulared/utils.py:20-36 | the same, for one channel of one triangle |
| `TriangleColour.OutsideValue` | triangulared/utils.py:20-26 | a flat position labelled t is not the recoloured pixel, so it keeps its value |
| `EdgePoints.Truncate` | triangulared/point_generators.py:25 | Python's `int()` of a float truncates toward zero |
| `EdgePoints.ResolveCount` | triangulared/point_generators.py:24-28 | a given count is used as is; a missing one is `int(extent / length_scale)`, and it fails if and only if `length_scale` is 0 |
| `EdgePoints.Steps` | triangulared/point_generators.py:35-38 | the number of integers `range(1, n)` yields |
| `EdgePoints.RangeSize` | triangulared/point_generators.py:35-38 | `range(lo, hi)` yields `hi - lo` integers, none when `hi <= lo` |
| `EdgePoints.Layout` | triangulared/point_generators.py:30-39 | `4 + 2 * len(range(1, nh)) + 2 * len(range(1, nv))` points |
| `EdgePoints.EdgePoints` | triangulared/point_generators.py:6-39 | fails exactly when a resolved count is 0 or cannot be derived; otherwise it returns `4 + 2 * len(range(1, nh)) + 2 * len(range(1, nv))` points, the `Layout` of the resolved counts |
| `EdgePoints.EdgePointsShape` | triangulared/point_generators.py:33-39 | a successful result starts with the four corners in order and every point lies in `[0, xmax] x [0, ymax]` |
| `EdgePoints.DerivedCountIsFloor` | triangulared/point_generators.py:24-28 | for a positive length scale a derived count is the floor of `extent / length_scale`, and non-negative |
| `EdgePoints.DefaultCountsNeedLargeImage` | triangulared/point_generators.py:6-31 | with `length_scale` 200 and no counts, `edge_points` succeeds if and only if the image is at least 200 by 200 |
| `EdgePoints.LayoutCorners` | triangulared/point_generators.py:34 | the first four points are `(0,0), (xmax,0), (0,ymax), (xmax,ymax)` in that order |
| `EdgePoints.LayoutBlocks` | triangulared/point_generators.py:35-38 | then the top (y = 0), bottom (y = ymax), left (x = 0) and right (x = xmax) blocks; the k-th point of a block is at `k * xmax / nh` or `k * ymax / nv` |
| `EdgePoints.LayoutInBounds` | triangulared/point_generators.py:33-39 | every point lies in `[0, xmax] x [0, ymax]` |
| `EdgePoints.HorizontalInterior` | triangulared/point_generators.py:35-36 | the k-th top point (y = 0) and the k-th bottom point (y = ymax) share an x in [0, xmax], strictly inside when xmax > 0 |
| `EdgePoints.VerticalInterior` | triangulared/point_generators.py:37-38 | the k-th left point (x = 0) and the k-th right point (x = xmax) share a y in [0, ymax], strictly inside when ymax > 0 |
| `EdgePoints.LayoutEdgeInterior` | triangulared/point_generators.py:35-38 | every non-corner point lies on an edge strictly between that edge's corners |
| `EntropyPoints.SamplerSettings` | triangulared/point_generators.py:76-81 | fails if and only if `n_points` is 0; the widths are `sqrt(xmax*ymax / n_points)` times the given factor or 0.2, 0.1 and 0.3; the amplitude is the given one or 3 |
| `EntropyPoints.FirstMaxIndex` | triangulared/point_generators.py:96 | `np.argmax`: an index holding the maximum, with every earlier value strictly smaller |
| `EntropyPoints.ArgMaxCell` | triangulared/point_generators.py:96 | the selected cell is inside the grid |
| `EntropyPoints.ArgMaxCellIsFirstMax` | triangulared/point_generators.py:96 | the selected cell holds the grid's maximum and every cell before it in row-major order is strictly smaller |
| `EntropyPoints.FirstMaxCellUnique` | triangulared/point_generators.py:96 | at most one cell is the first row-major maximum |
| `EntropyPoints.FirstMaxCell` | triangulared/point_generators.py:96 | the flat argmax, unravelled, is the first row-major maximum |
| `EntropyPoints.FirstMaxInGrid` | triangulared/point_generators.py:96 | a first maximum of the flattened grid is a first row-major maximum of the grid |
| `EntropyPoints.BumpMask` | triangulared/point_generators.py:97-100 | a bump's mask has the buffer's shape and holds the bump at every cell |
| `EntropyPoints.GaussianBumpMask` | triangulared/point_generators.py:97-100 | the mask subtracted in each round, built from the bump `EntropyPoints.Gaussian` with the suppression amplitude and width, is `gaussian_mask(x, y, shape, amp, sigma)` |
| `EntropyPoints.Suppress` | triangulared/point_generators.py:97-100 | `im2 -= mask` keeps the shape and lowers each cell by exactly the bump's value there |
| `EntropyPoints.SuppressAll` | triangulared/point_generators.py:95-101 | suppressing at a list of cells keeps the shape |
| `EntropyPoints.SuppressAllValue` | triangulared/point_generators.py:95-101 | only subtraction changes the buffer: each cell ends as its entropy minus the bumps of all selected cells there |
| `EntropyPoints.Greedy` | triangulared/point_generators.py:94-104 | the selection has exactly `n_points` cells, each inside the map |
| `EntropyPoints.GreedyUnfold` | triangulared/point_generators.py:95-101 | the selection is the argmax followed by the selection from the map suppressed there |
| `EntropyPoints.SuppressAllCons` | triangulared/point_generators.py:95-101 | suppressing at `[c] + cs` is suppressing at c, then at cs |
| `EntropyPoints.SuppressAllAppend` | triangulared/point_generators.py:95-101 | suppressing at `cs + [c]` is suppressing at cs, then at c |
| `EntropyPoints.GreedySelectsFirstMax` | triangulared/point_generators.py:94-104 | the m-th cell is the argmax of the map suppressed at the m cells before it |
| `EntropyPoints.MaxEntropyPoints` | triangulared/point_generators.py:56-104 | fails with zero points or an empty map; otherwise succeeds if and only if the suppression width is non-zero |
| `EntropyPoints.MaxEntropyPointsSelection` | triangulared/point_generators.py:76-104 | on success: `n_points` cells in selection order, each inside the map; the m-th is the first row-major maximum of the entropy map minus the bumps at the earlier cells; the first is the first maximum of the entropy map |
| `EntropyPoints.GenerateMaxEntropyPoints` | triangulared/point_generators.py:76-104 | the loop over a mutable buffer returns exactly `MaxEntropyPoints` |
| `EntropyPoints.SelectPoints` | triangulared/point_generators.py:94-104 | the loop returns the greedy selection and leaves the buffer as the entropy map suppressed at every selected cell |
| `EntropyPoints.Round` | triangulared/point_generators.py:96-100 | one round returns the argmax cell and leaves the buffer suppressed there |
| `EntropyPoints.GreedyStep` | triangulared/point_generators.py:94-101 | one round keeps both loop invariants: the buffer is the map suppressed at the points so far, and those points followed by the rest of the selection are the whole selection |
| `EntropyPoints.GreedyDone` | triangulared/point_generators.py:103-104 | when no round is left, the points so far are the whole selection |

## Left out

- The image pipeline of `generate_max_entropy_points` is not modelled: grayscale conversion, Gaussian blur, the cast to `uint8` and rank entropy. Its entropy map is an input.
- As a result, `entropy_width` and `filter_width` are defaulted and scaled (`EntropyPoints.SamplerSettings`) but used by nothing in the model.
- `sqrt`, `exp` and `find_simplex` are floating-point or foreign-library computations; they are function-valued parameters.
- The Delaunay triangulation and point location are foreign; `find_simplex` may return any label, and labels outside `0 .. n_triangles - 1` are dropped as `reindex` drops them.
- `generate_uniform_random_points` is driven by `np.random`, so there is nothing deterministic to state.
- The drawing helpers, the command-line program and image file I/O are library glue, not algorithm.
- Floating-point rounding, NaN and infinity are not modelled: all arithmetic is exact `real` arithmetic.
- `Utils.GaussianMask`: a `sigma` of 0 is refused by its precondition. numpy accepts it: the exponent is `-inf` away from the centre, so those cells are 0, and `0 / 0.0` is NaN at a centre that is a grid cell. The result is an all-zero grid when the centre is not a grid cell, and zeros with one NaN when it is.
- `TriangleColour.GetTriangleColour`: `agg_func` is limited to `np.median` (the default, as in the source) and `np.mean`; other callables are not modelled.
- `TriangleColour.GetTriangleColour`: images are limited to three integer channels, since the source reshapes to `(-1, 3)`.
- `EntropyPoints.MaxEntropyPoints`: a suppression width of 0 is refused as `DegenerateWidth`. In the source, `-d / 0.0` is `-inf` wherever d > 0, so the mask is 0 there, and `0 / 0.0` is NaN at the chosen cell. That cell of the buffer becomes NaN, `np.argmax` returns the first NaN, and every later round picks the same cell again: the source returns `n_points` copies of the first point. The model does not represent NaN, so it does not produce that result.
- `EntropyPoints.GenerateMaxEntropyPoints`: `n_points` is a natural number. A negative `n_points` gives a NaN length scale, and so NaN widths, which reach `filters.gaussian` and `morphology.disk` before the loop runs. What happens then is decided by those foreign calls and lies outside the model.
- `EntropyPoints.SelectPoints`: the loop is proved for any bump `(x, y, i, j) -> real`, and is tied to `gaussian_mask` by `EntropyPoints.Gaussian` and `EntropyPoints.GaussianBumpMask`.
- `EntropyPoints.SelectPoints`: the mask is computed as a value and subtracted cell by cell; numpy's vectorised temporary array is not modelled.
- `EdgePoints.EdgePoints`: the result is a sequence of points rather than a numpy array; integer and float coordinates are not distinguished.
