/** The greedy selection loop of `generate_max_entropy_points` in
    `triangulared/point_generators.py`: starting from an entropy map, repeatedly
    take the first row-major cell holding the maximum, record it, and subtract a
    Gaussian bump centred there from the map in place. The entropy map itself
    (grayscale, blur and rank entropy) is an input; `sqrt` and `exp` are
    parameters. */
module EntropyPoints {
  import opened Grids
  import opened Utils

  datatype SamplerError =
    | ZeroPoints       // `xmax*ymax / n_points` with `n_points == 0`: ZeroDivisionError
    | EmptyImage       // `np.argmax` of an array with no cells: ValueError
    | DegenerateWidth  // a suppression width of 0: numpy divides by zero in the mask

  /** The four tuning values after defaulting. */
  datatype Settings = Settings(entropyWidth: real, filterWidth: real, suppressionWidth: real, suppressionAmplitude: real)

  /** Parameter defaulting: the widths are `length_scale = sqrt(xmax*ymax / n_points)`
      times the given factor (0.2, 0.1 and 0.3 when `None`); the amplitude is the
      given one, 3 when `None`. Fails only for zero points. */
  function SamplerSettings(rows: nat, cols: nat, nPoints: nat,
                           entropyWidth: Option<real>, filterWidth: Option<real>,
                           suppressionWidth: Option<real>, suppressionAmplitude: Option<real>,
                           sqrt: real -> real): (r: Result<Settings, SamplerError>)
    ensures r.Failure? <==> nPoints == 0
    ensures r.Failure? ==> r.error == ZeroPoints
    ensures r.Success? ==>
      var scale := sqrt((cols * rows) as real / nPoints as real);
      && r.value.entropyWidth == scale * (if entropyWidth.None? then 0.2 else entropyWidth.value)
      && r.value.filterWidth == scale * (if filterWidth.None? then 0.1 else filterWidth.value)
      && r.value.suppressionWidth == scale * (if suppressionWidth.None? then 0.3 else suppressionWidth.value)
      && r.value.suppressionAmplitude == (if suppressionAmplitude.None? then 3.0 else suppressionAmplitude.value)
  {
    if nPoints == 0 then Failure(ZeroPoints)
    else
      var lengthScale := sqrt((cols * rows) as real / nPoints as real);
      Success(Settings(lengthScale * Default(entropyWidth, 0.2),
                       lengthScale * Default(filterWidth, 0.1),
                       lengthScale * Default(suppressionWidth, 0.3),
                       Default(suppressionAmplitude, 3.0)))
  }

  // ---------------------------------------------------------------------------
  // np.argmax + np.unravel_index

  /** The first index holding the maximum of `s` (what `np.argmax` returns). */
  function FirstMaxIndex(s: seq<real>): (k: nat)
    requires |s| > 0
    ensures k < |s|
    ensures forall m :: 0 <= m < |s| ==> s[m] <= s[k]
    ensures forall m :: 0 <= m < k ==> s[m] < s[k]
  {
    if |s| == 1 then 0
    else
      var k0 := FirstMaxIndex(s[..|s| - 1]);
      if s[|s| - 1] > s[k0] then |s| - 1 else k0
  }

  /** `c` is a cell of the grid holding its maximum, and every cell before it in
      row-major order is strictly smaller. */
  predicate IsFirstMaxCell(g: seq<seq<real>>, rows: nat, cols: nat, c: Cell)
    requires IsGrid(g, rows, cols)
  {
    && c.y < rows && c.x < cols
    && (forall j, i :: 0 <= j < rows && 0 <= i < cols ==> g[j][i] <= g[c.y][c.x])
    && (forall j, i :: 0 <= j < rows && 0 <= i < cols && (j < c.y || (j == c.y && i < c.x)) ==>
          g[j][i] < g[c.y][c.x])
  }

  /** `np.unravel_index(np.argmax(g), g.shape)`: a cell of the grid (and, by
      `ArgMaxCellIsFirstMax`, its first row-major maximum). */
  function ArgMaxCell(g: seq<seq<real>>, rows: nat, cols: nat): (c: Cell)
    requires IsGrid(g, rows, cols) && rows > 0 && cols > 0
    ensures c.y < rows && c.x < cols
  {
    FirstMaxCell(g, rows, cols);
    Unravel(FirstMaxIndex(Flatten(g)), cols)
  }

  /** The cell `ArgMaxCell` picks holds the maximum of the grid, and every cell
      before it in row-major order is strictly smaller. */
  lemma ArgMaxCellIsFirstMax(g: seq<seq<real>>, rows: nat, cols: nat)
    requires IsGrid(g, rows, cols) && rows > 0 && cols > 0
    ensures IsFirstMaxCell(g, rows, cols, ArgMaxCell(g, rows, cols))
  {
    FirstMaxCell(g, rows, cols);
  }

  /** A grid has at most one first row-major maximum, so `ArgMaxCell` is the
      only cell meeting `IsFirstMaxCell`. */
  lemma FirstMaxCellUnique(g: seq<seq<real>>, rows: nat, cols: nat, c1: Cell, c2: Cell)
    requires IsGrid(g, rows, cols)
    requires IsFirstMaxCell(g, rows, cols, c1) && IsFirstMaxCell(g, rows, cols, c2)
    ensures c1 == c2
  {
    assert g[c1.y][c1.x] == g[c2.y][c2.x];
  }

  /** The flat argmax of a non-empty grid, read back as a cell. */
  lemma FirstMaxCell(g: seq<seq<real>>, rows: nat, cols: nat)
    requires IsGrid(g, rows, cols) && rows > 0 && cols > 0
    ensures |Flatten(g)| > 0
    ensures IsFirstMaxCell(g, rows, cols, Unravel(FirstMaxIndex(Flatten(g)), cols))
  {
    FlattenLength(g, rows, cols);
    MulNonNegative(rows - 1, cols);
    assert rows * cols == (rows - 1) * cols + cols;
    var k := FirstMaxIndex(Flatten(g));
    FirstMaxInGrid(g, rows, cols, k);
  }

  /** A first maximum of the flattened grid, read back as (row k / cols, column
      k % cols), is a first maximum of the grid in row-major order. */
  lemma FirstMaxInGrid(g: seq<seq<real>>, rows: nat, cols: nat, k: nat)
    requires IsGrid(g, rows, cols) && cols > 0
    requires k < rows * cols && |Flatten(g)| == rows * cols
    requires forall m :: 0 <= m < rows * cols ==> Flatten(g)[m] <= Flatten(g)[k]
    requires forall m :: 0 <= m < k ==> Flatten(g)[m] < Flatten(g)[k]
    ensures k / cols < rows && k % cols < cols
    ensures forall j, i :: 0 <= j < rows && 0 <= i < cols ==> g[j][i] <= g[k / cols][k % cols]
    ensures forall j, i :: 0 <= j < rows && 0 <= i < cols && (j < k / cols || (j == k / cols && i < k % cols)) ==>
      g[j][i] < g[k / cols][k % cols]
  {
    FlattenIndexAll(g, rows, cols);
    var y, x := k / cols, k % cols;
    assert k == y * cols + x;
    forall j, i | 0 <= j < rows && 0 <= i < cols
      ensures g[j][i] <= g[y][x]
      ensures j < y || (j == y && i < x) ==> g[j][i] < g[y][x]
    {
      var m := j * cols + i;
      RowMajorBefore(j, i, rows, 0, cols);
      RowMajorPosition(j, i, cols);
      assert Flatten(g)[m] == g[j][i];
      RowMajorBefore(j, i, y, x, cols);
    }
  }

  // ---------------------------------------------------------------------------
  // Suppression

  /** The value in column i, row j of a bump centred at (x, y). */
  type Bump = (real, real, int, int) -> real

  /** `gaussian_mask` with amplitude `amp` and width `sigma`, as a bump. */
  function Gaussian(amp: real, sigma: real, exp: real -> real): (bump: Bump)
    requires sigma != 0.0
    ensures forall x, y, i, j :: bump(x, y, i, j) == GaussianValue(x, y, i, j, amp, sigma, exp)
  {
    (x: real, y: real, i: int, j: int) => GaussianValue(x, y, i, j, amp, sigma, exp)
  }

  /** The grid of a bump centred at (x, y): `rows` rows of `cols` cells. */
  function BumpMask(bump: Bump, x: real, y: real, rows: nat, cols: nat): (g: seq<seq<real>>)
    ensures IsGrid(g, rows, cols)
    ensures forall j, i :: 0 <= j < rows && 0 <= i < cols ==> g[j][i] == bump(x, y, i, j)
  {
    seq(rows, j => seq(cols, i => bump(x, y, i, j)))
  }

  /** The Gaussian bump's grid is `gaussian_mask(x, y, (rows, cols), amp, sigma)`. */
  lemma GaussianBumpMask(x: real, y: real, rows: nat, cols: nat, amp: real, sigma: real, exp: real -> real)
    requires sigma != 0.0
    ensures BumpMask(Gaussian(amp, sigma, exp), x, y, rows, cols) == GaussianMask(x, y, rows, cols, amp, sigma, exp)
  {
    SameGrid(BumpMask(Gaussian(amp, sigma, exp), x, y, rows, cols), GaussianMask(x, y, rows, cols, amp, sigma, exp), rows, cols);
  }

  /** `g - mask` for the bump's mask centred at cell `c`: every cell loses the
      bump's value there, and the shape is kept. */
  function Suppress(g: seq<seq<real>>, rows: nat, cols: nat, c: Cell, bump: Bump)
    : (r: seq<seq<real>>)
    requires IsGrid(g, rows, cols)
    ensures IsGrid(r, rows, cols)
    ensures forall j, i :: 0 <= j < rows && 0 <= i < cols ==>
      r[j][i] == g[j][i] - bump(c.x as real, c.y as real, i, j)
  {
    seq(rows, j requires 0 <= j < rows => seq(cols, i requires 0 <= i < cols => g[j][i] - bump(c.x as real, c.y as real, i, j)))
  }

  /** The map after suppressing at each of `cs` in turn. */
  function SuppressAll(g: seq<seq<real>>, rows: nat, cols: nat, cs: seq<Cell>, bump: Bump)
    : (r: seq<seq<real>>)
    requires IsGrid(g, rows, cols)
    ensures IsGrid(r, rows, cols)
    decreases |cs|
  {
    if cs == [] then g
    else SuppressAll(Suppress(g, rows, cols, cs[0], bump), rows, cols, cs[1..], bump)
  }

  /** Total of the bumps centred at the cells of `cs`, in column i, row j. */
  function MaskSum(cs: seq<Cell>, i: int, j: int, bump: Bump): real
  {
    if cs == [] then 0.0
    else bump(cs[0].x as real, cs[0].y as real, i, j) + MaskSum(cs[1..], i, j, bump)
  }

  /** Only subtraction changes the map: after suppressing at `cs`, each cell is its
      original value minus the bumps of all of `cs` there. */
  lemma {:induction false} SuppressAllValue(g: seq<seq<real>>, rows: nat, cols: nat, cs: seq<Cell>,
                                           bump: Bump, j: nat, i: nat)
    requires IsGrid(g, rows, cols) && j < rows && i < cols
    ensures SuppressAll(g, rows, cols, cs, bump)[j][i] == g[j][i] - MaskSum(cs, i, j, bump)
    decreases |cs|
  {
    if cs != [] {
      var g1 := Suppress(g, rows, cols, cs[0], bump);
      SuppressAllValue(g1, rows, cols, cs[1..], bump, j, i);
    }
  }

  // ---------------------------------------------------------------------------
  // The greedy selection

  /** The `n` cells the loop selects from map `g`: the argmax, then the selection
      from the map suppressed there. */
  function Greedy(g: seq<seq<real>>, rows: nat, cols: nat, n: nat, bump: Bump)
    : (r: seq<Cell>)
    requires IsGrid(g, rows, cols) && rows > 0 && cols > 0
    ensures |r| == n
    ensures forall m :: 0 <= m < n ==> r[m].x < cols && r[m].y < rows
    decreases n
  {
    if n == 0 then []
    else
      var c := ArgMaxCell(g, rows, cols);
      [c] + Greedy(Suppress(g, rows, cols, c, bump), rows, cols, n - 1, bump)
  }

  /** The selection starts with the argmax and continues from the map suppressed
      there. */
  lemma GreedyUnfold(g: seq<seq<real>>, rows: nat, cols: nat, n: nat, bump: Bump)
    requires IsGrid(g, rows, cols) && rows > 0 && cols > 0 && n > 0
    ensures var c := ArgMaxCell(g, rows, cols);
      Greedy(g, rows, cols, n, bump) == [c] + Greedy(Suppress(g, rows, cols, c, bump), rows, cols, n - 1, bump)
  {
  }

  /** Suppressing at `[c] + cs` is suppressing at `c`, then at `cs`. */
  lemma SuppressAllCons(g: seq<seq<real>>, rows: nat, cols: nat, c: Cell, cs: seq<Cell>, bump: Bump)
    requires IsGrid(g, rows, cols)
    ensures SuppressAll(g, rows, cols, [c] + cs, bump) == SuppressAll(Suppress(g, rows, cols, c, bump), rows, cols, cs, bump)
  {
    assert ([c] + cs)[0] == c && ([c] + cs)[1..] == cs;
  }

  /** The m-th selected cell is the first row-major maximum of the map after
      suppressing at the cells selected before it. */
  lemma {:induction false} GreedySelectsFirstMax(g: seq<seq<real>>, rows: nat, cols: nat, n: nat,
                                                bump: Bump, m: nat)
    requires IsGrid(g, rows, cols) && rows > 0 && cols > 0 && m < n
    ensures var r := Greedy(g, rows, cols, n, bump);
      r[m] == ArgMaxCell(SuppressAll(g, rows, cols, r[..m], bump), rows, cols)
    decreases m
  {
    var c := ArgMaxCell(g, rows, cols);
    var g1 := Suppress(g, rows, cols, c, bump);
    var r1 := Greedy(g1, rows, cols, n - 1, bump);
    GreedyUnfold(g, rows, cols, n, bump);
    if m == 0 {
      assert Greedy(g, rows, cols, n, bump)[..0] == [];
    } else {
      GreedySelectsFirstMax(g1, rows, cols, n - 1, bump, m - 1);
      assert Greedy(g, rows, cols, n, bump)[..m] == [c] + r1[..m - 1];
      SuppressAllCons(g, rows, cols, c, r1[..m - 1], bump);
    }
  }

  /** The result of `generate_max_entropy_points` for an entropy map of `rows`
      rows and `cols` columns, or the error it stops with. */
  function MaxEntropyPoints(entropy: seq<seq<real>>, rows: nat, cols: nat, nPoints: nat,
                            entropyWidth: Option<real>, filterWidth: Option<real>,
                            suppressionWidth: Option<real>, suppressionAmplitude: Option<real>,
                            sqrt: real -> real, exp: real -> real): (r: Result<seq<Cell>, SamplerError>)
    requires IsGrid(entropy, rows, cols)
    ensures nPoints == 0 ==> r == Failure(ZeroPoints)
    ensures nPoints > 0 && (rows == 0 || cols == 0) ==> r == Failure(EmptyImage)
    ensures r.Success? <==>
      && SamplerSettings(rows, cols, nPoints, entropyWidth, filterWidth, suppressionWidth, suppressionAmplitude, sqrt).Success?
      && rows > 0 && cols > 0
      && SamplerSettings(rows, cols, nPoints, entropyWidth, filterWidth, suppressionWidth, suppressionAmplitude, sqrt).value.suppressionWidth != 0.0
  {
    match SamplerSettings(rows, cols, nPoints, entropyWidth, filterWidth, suppressionWidth, suppressionAmplitude, sqrt)
    case Failure(e) => Failure(e)
    case Success(s) =>
      if rows == 0 || cols == 0 then Failure(EmptyImage)
      else if s.suppressionWidth == 0.0 then Failure(DegenerateWidth)
      else Success(Greedy(entropy, rows, cols, nPoints, Gaussian(s.suppressionAmplitude, s.suppressionWidth, exp)))
  }

  /** On success there are exactly `n_points` cells, each inside the map, and the
      m-th is the first row-major maximum of the entropy map minus the bumps at
      the cells chosen before it; in particular the first is the first maximum of
      the entropy map itself. */
  lemma MaxEntropyPointsSelection(entropy: seq<seq<real>>, rows: nat, cols: nat, nPoints: nat,
                                  entropyWidth: Option<real>, filterWidth: Option<real>,
                                  suppressionWidth: Option<real>, suppressionAmplitude: Option<real>,
                                  sqrt: real -> real, exp: real -> real, m: nat)
    requires IsGrid(entropy, rows, cols)
    requires MaxEntropyPoints(entropy, rows, cols, nPoints, entropyWidth, filterWidth, suppressionWidth, suppressionAmplitude, sqrt, exp).Success?
    requires m < nPoints
    ensures var s := SamplerSettings(rows, cols, nPoints, entropyWidth, filterWidth, suppressionWidth, suppressionAmplitude, sqrt).value;
      var pts := MaxEntropyPoints(entropy, rows, cols, nPoints, entropyWidth, filterWidth, suppressionWidth, suppressionAmplitude, sqrt, exp).value;
      && |pts| == nPoints
      && pts[m].x < cols && pts[m].y < rows
      && s.suppressionWidth != 0.0
      && pts[m] == ArgMaxCell(SuppressAll(entropy, rows, cols, pts[..m], Gaussian(s.suppressionAmplitude, s.suppressionWidth, exp)), rows, cols)
      && IsFirstMaxCell(SuppressAll(entropy, rows, cols, pts[..m], Gaussian(s.suppressionAmplitude, s.suppressionWidth, exp)), rows, cols, pts[m])
      && (m == 0 ==> IsFirstMaxCell(entropy, rows, cols, pts[0]))
  {
    var s := SamplerSettings(rows, cols, nPoints, entropyWidth, filterWidth, suppressionWidth, suppressionAmplitude, sqrt).value;
    var bump := Gaussian(s.suppressionAmplitude, s.suppressionWidth, exp);
    GreedySelectsFirstMax(entropy, rows, cols, nPoints, bump, m);
    var pts := Greedy(entropy, rows, cols, nPoints, bump);
    ArgMaxCellIsFirstMax(SuppressAll(entropy, rows, cols, pts[..m], bump), rows, cols);
    assert pts[..0] == [];
  }

  // ---------------------------------------------------------------------------
  // The loop itself

  /** `generate_max_entropy_points` from its entropy map on: defaults the
      parameters, copies the map into a buffer, then `n_points` times takes the
      argmax cell, subtracts the bump centred there from the buffer in place and
      appends the cell. */
  method GenerateMaxEntropyPoints(entropy: seq<seq<real>>, rows: nat, cols: nat, nPoints: nat,
                                  entropyWidth: Option<real>, filterWidth: Option<real>,
                                  suppressionWidth: Option<real>, suppressionAmplitude: Option<real>,
                                  sqrt: real -> real, exp: real -> real)
    returns (r: Result<seq<Cell>, SamplerError>)
    requires IsGrid(entropy, rows, cols)
    ensures r == MaxEntropyPoints(entropy, rows, cols, nPoints, entropyWidth, filterWidth, suppressionWidth, suppressionAmplitude, sqrt, exp)
  {
    var settings := SamplerSettings(rows, cols, nPoints, entropyWidth, filterWidth, suppressionWidth, suppressionAmplitude, sqrt);
    if settings.Failure? {
      return Failure(settings.error);
    }
    if rows == 0 || cols == 0 {
      return Failure(EmptyImage);
    }
    var amp, sigma := settings.value.suppressionAmplitude, settings.value.suppressionWidth;
    if sigma == 0.0 {
      return Failure(DegenerateWidth);
    }
    var im2 := new real[rows, cols];
    forall j, i | 0 <= j < rows && 0 <= i < cols {
      im2[j, i] := entropy[j][i];
    }
    var points := SelectPoints(im2, entropy, nPoints, Gaussian(amp, sigma, exp));
    return Success(points);
  }

  /** The selection loop of `generate_max_entropy_points` over the buffer `im2`, which starts as the entropy
      map: `n_points` times take the argmax cell, subtract the bump centred there
      from the buffer in place and append the cell. The points are the greedy
      selection, and the buffer ends as the entropy map suppressed at all of them. */
  method SelectPoints(im2: array2<real>, entropy: seq<seq<real>>, nPoints: nat, bump: Bump)
    returns (points: seq<Cell>)
    requires IsGrid(entropy, im2.Length0, im2.Length1) && im2.Length0 > 0 && im2.Length1 > 0
    requires forall j, i :: 0 <= j < im2.Length0 && 0 <= i < im2.Length1 ==> im2[j, i] == entropy[j][i]
    modifies im2
    ensures points == Greedy(entropy, im2.Length0, im2.Length1, nPoints, bump)
    ensures Grid(im2) == SuppressAll(entropy, im2.Length0, im2.Length1, points, bump)
  {
    var rows, cols := im2.Length0, im2.Length1;
    points := [];
    ghost var buffer := entropy;
    GridOf(im2, entropy);
    for n := 0 to nPoints
      invariant buffer == SuppressAll(entropy, rows, cols, points, bump)
      invariant Grid(im2) == buffer
      invariant points + Greedy(buffer, rows, cols, nPoints - n, bump)
             == Greedy(entropy, rows, cols, nPoints, bump)
    {
      var c := Round(im2, buffer, bump);
      GreedyStep(entropy, buffer, rows, cols, points, nPoints, nPoints - n, bump);
      buffer := Suppress(buffer, rows, cols, c, bump);
      points := points + [c];
    }
    GreedyDone(entropy, buffer, rows, cols, points, nPoints, bump);
  }

  /** One round of the loop on an array holding the grid `g`: `unravel_index` of
      `argmax`, then `a -= mask` with the bump's mask centred at that cell.
      Afterwards the array holds `g` suppressed at the returned cell. */
  method Round(a: array2<real>, ghost g: seq<seq<real>>, bump: Bump) returns (c: Cell)
    requires IsGrid(g, a.Length0, a.Length1) && a.Length0 > 0 && a.Length1 > 0
    requires forall j, i :: 0 <= j < a.Length0 && 0 <= i < a.Length1 ==> a[j, i] == g[j][i]
    modifies a
    ensures c == ArgMaxCell(g, a.Length0, a.Length1)
    ensures Grid(a) == Suppress(g, a.Length0, a.Length1, c, bump)
  {
    GridOf(a, g);
    c := ArgMaxCell(Grid(a), a.Length0, a.Length1);
    var mask := BumpMask(bump, c.x as real, c.y as real, a.Length0, a.Length1);
    forall j, i | 0 <= j < a.Length0 && 0 <= i < a.Length1 {
      a[j, i] := a[j, i] - mask[j][i];
    }
    GridOf(a, Suppress(g, a.Length0, a.Length1, c, bump));
  }

  /** When no round is left, the cells taken so far are the whole selection. */
  lemma GreedyDone(entropy: seq<seq<real>>, buffer: seq<seq<real>>, rows: nat, cols: nat,
                   points: seq<Cell>, total: nat, bump: Bump)
    requires IsGrid(entropy, rows, cols) && IsGrid(buffer, rows, cols) && rows > 0 && cols > 0
    requires points + Greedy(buffer, rows, cols, 0, bump) == Greedy(entropy, rows, cols, total, bump)
    ensures points == Greedy(entropy, rows, cols, total, bump)
  {
    assert points + [] == points;
  }

  /** One round of the loop keeps its two invariants: the buffer is the entropy
      map suppressed at the cells taken so far, and those cells followed by the
      selection still to come from the buffer are the whole selection. */
  lemma GreedyStep(entropy: seq<seq<real>>, buffer: seq<seq<real>>, rows: nat, cols: nat, points: seq<Cell>,
                   total: nat, left: nat, bump: Bump)
    requires IsGrid(entropy, rows, cols) && rows > 0 && cols > 0 && left > 0
    requires buffer == SuppressAll(entropy, rows, cols, points, bump)
    requires points + Greedy(buffer, rows, cols, left, bump) == Greedy(entropy, rows, cols, total, bump)
    ensures var c := ArgMaxCell(buffer, rows, cols);
      var next := Suppress(buffer, rows, cols, c, bump);
      && next == SuppressAll(entropy, rows, cols, points + [c], bump)
      && (points + [c]) + Greedy(next, rows, cols, left - 1, bump) == Greedy(entropy, rows, cols, total, bump)
  {
    var c := ArgMaxCell(buffer, rows, cols);
    var next := Suppress(buffer, rows, cols, c, bump);
    var rest := Greedy(next, rows, cols, left - 1, bump);
    GreedyUnfold(buffer, rows, cols, left, bump);
    assert (points + [c]) + rest == points + ([c] + rest);
    SuppressAllAppend(entropy, rows, cols, points, c, bump);
  }

  /** Suppressing at one more cell continues from the map already suppressed. */
  lemma {:induction false} SuppressAllAppend(g: seq<seq<real>>, rows: nat, cols: nat, cs: seq<Cell>, c: Cell,
                                            bump: Bump)
    requires IsGrid(g, rows, cols)
    ensures SuppressAll(g, rows, cols, cs + [c], bump)
         == Suppress(SuppressAll(g, rows, cols, cs, bump), rows, cols, c, bump)
    decreases |cs|
  {
    if cs != [] {
      var g1 := Suppress(g, rows, cols, cs[0], bump);
      assert (cs + [c])[0] == cs[0] && (cs + [c])[1..] == cs[1..] + [c];
      SuppressAllAppend(g1, rows, cols, cs[1..], c, bump);
    } else {
      assert cs + [c] == [c];
    }
  }
}
