/** Rectangular grids as nested sequences, and the row-major flattening that
    numpy's `ravel`, `reshape(-1, ...)`, `argmax` and `unravel_index` share. */
module Grids {

  /** `g` has `rows` rows of `cols` cells each (a numpy array of that shape). */
  predicate IsGrid<T>(g: seq<seq<T>>, rows: nat, cols: nat)
  {
    |g| == rows && forall j :: 0 <= j < rows ==> |g[j]| == cols
  }

  /** A pixel or grid cell: column `x`, row `y`, written `(x, y)`. */
  datatype Cell = Cell(x: nat, y: nat)

  /** `np.unravel_index(k, (rows, cols))`: the cell at flat row-major position k. */
  function Unravel(k: nat, cols: nat): (c: Cell)
    requires cols > 0
    ensures c.x < cols && c.y * cols + c.x == k
  {
    Cell(k % cols, k / cols)
  }

  /** The rows of `g` laid end to end: row-major order. */
  function Flatten<T>(g: seq<seq<T>>): seq<T>
  {
    if g == [] then [] else g[0] + Flatten(g[1..])
  }

  lemma {:induction false} FlattenLength<T>(g: seq<seq<T>>, rows: nat, cols: nat)
    requires IsGrid(g, rows, cols)
    ensures |Flatten(g)| == rows * cols
  {
    if rows > 0 {
      FlattenLength(g[1..], rows - 1, cols);
      assert (rows - 1) * cols == rows * cols - cols;
    }
  }

  /** Product of non-negative integers is non-negative (a step the solver's
      non-linear arithmetic does not find on its own). */
  lemma MulNonNegative(a: int, b: int)
    requires a >= 0 && b >= 0
    ensures a * b >= 0
  {
  }

  /** `q` and `r` are the quotient and remainder of `k` by `c` when `k == q * c + r`
      and `0 <= r < c`. */
  lemma DivModUnique(k: int, c: int, q: int, r: int)
    requires c > 0 && 0 <= r < c && k == q * c + r
    ensures k / c == q && k % c == r
  {
    var q0, r0 := k / c, k % c;
    assert k == q0 * c + r0;
    assert (q - q0) * c == r0 - r;
    if q > q0 {
      MulNonNegative(q - q0 - 1, c);
    } else if q < q0 {
      MulNonNegative(q0 - q - 1, c);
    }
  }

  /** `(n + 1) * v` unfolds to `n * v + v`. */
  lemma MulSucc(n: int, v: int)
    ensures (n + 1) * v == n * v + v
  {
  }

  /** Cell (row j, column i) sits at flat position `j * cols + i`. */
  lemma {:induction false} FlattenAt<T>(g: seq<seq<T>>, rows: nat, cols: nat, j: nat, i: nat)
    requires IsGrid(g, rows, cols) && j < rows && i < cols
    ensures |Flatten(g)| == rows * cols
    ensures j * cols + i < |Flatten(g)| && Flatten(g)[j * cols + i] == g[j][i]
  {
    FlattenLength(g, rows, cols);
    FlattenLength(g[1..], rows - 1, cols);
    assert Flatten(g) == g[0] + Flatten(g[1..]);
    if j > 0 {
      FlattenAt(g[1..], rows - 1, cols, j - 1, i);
      MulSucc(j - 1, cols);
    }
  }

  /** Flat index k of a grid with `cols` columns is row k / cols, column k % cols. */
  lemma FlattenIndex<T>(g: seq<seq<T>>, rows: nat, cols: nat, k: nat)
    requires IsGrid(g, rows, cols) && cols > 0
    requires k < rows * cols
    ensures |Flatten(g)| == rows * cols
    ensures k / cols < rows && Flatten(g)[k] == g[k / cols][k % cols]
  {
    var j, i := k / cols, k % cols;
    assert k == j * cols + i;
    RowMajorBefore(j, i, rows, 0, cols);
    FlattenAt(g, rows, cols, j, i);
  }

  /** Every flat index at once. */
  lemma FlattenIndexAll<T>(g: seq<seq<T>>, rows: nat, cols: nat)
    requires IsGrid(g, rows, cols) && cols > 0
    ensures |Flatten(g)| == rows * cols
    ensures forall k :: 0 <= k < rows * cols ==> k / cols < rows && Flatten(g)[k] == g[k / cols][k % cols]
  {
    FlattenLength(g, rows, cols);
    forall k | 0 <= k < rows * cols
      ensures k / cols < rows && Flatten(g)[k] == g[k / cols][k % cols]
    {
      FlattenIndex(g, rows, cols, k);
    }
  }

  /** Row-major position of cell (row j, column i): `j * cols + i`. */
  lemma RowMajorPosition(j: nat, i: nat, cols: nat)
    requires i < cols
    ensures (j * cols + i) / cols == j && (j * cols + i) % cols == i
  {
    DivModUnique(j * cols + i, cols, j, i);
  }

  /** Row-major order of cells agrees with the order of their flat positions. */
  lemma RowMajorBefore(j1: nat, i1: nat, j2: nat, i2: nat, cols: nat)
    requires i1 < cols && i2 < cols
    ensures j1 * cols + i1 < j2 * cols + i2 <==> j1 < j2 || (j1 == j2 && i1 < i2)
  {
    if j1 < j2 {
      MulNonNegative(j2 - j1 - 1, cols);
      assert j2 * cols == j1 * cols + (j2 - j1 - 1) * cols + cols;
    } else if j1 > j2 {
      MulNonNegative(j1 - j2 - 1, cols);
      assert j1 * cols == j2 * cols + (j1 - j2 - 1) * cols + cols;
    }
  }

  /** The contents of a 2-D array as a grid value. */
  function Grid<T>(a: array2<T>): (g: seq<seq<T>>)
    reads a
    ensures IsGrid(g, a.Length0, a.Length1)
    ensures forall j, i :: 0 <= j < a.Length0 && 0 <= i < a.Length1 ==> g[j][i] == a[j, i]
  {
    seq(a.Length0, j requires 0 <= j < a.Length0 reads a =>
      seq(a.Length1, i requires 0 <= i < a.Length1 reads a => a[j, i]))
  }

  /** Two grids of one shape that agree cell by cell are equal. */
  lemma SameGrid<T>(g: seq<seq<T>>, h: seq<seq<T>>, rows: nat, cols: nat)
    requires IsGrid(g, rows, cols) && IsGrid(h, rows, cols)
    requires forall j, i :: 0 <= j < rows && 0 <= i < cols ==> g[j][i] == h[j][i]
    ensures g == h
  {
    forall j | 0 <= j < rows
      ensures g[j] == h[j]
    {
      assert forall i :: 0 <= i < cols ==> g[j][i] == h[j][i];
    }
  }

  /** A 2-D array whose cells agree with a grid of its shape holds that grid. */
  lemma GridOf<T>(a: array2<T>, g: seq<seq<T>>)
    requires IsGrid(g, a.Length0, a.Length1)
    requires forall j, i :: 0 <= j < a.Length0 && 0 <= i < a.Length1 ==> a[j, i] == g[j][i]
    ensures Grid(a) == g
  {
    SameGrid(Grid(a), g, a.Length0, a.Length1);
  }
}
