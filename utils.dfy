/** Helpers of `triangulared/utils.py`: the null-coalescing `default` and the
    Gaussian bump `gaussian_mask`. The exponential is a parameter `exp`,
    since floating-point `exp` is not part of this model. */
module Utils {
  import opened Grids

  /** A Python value that may be `None`. */
  datatype Option<T> = None | Some(value: T)

  /** A value, or the exception the Python code raises instead. */
  datatype Result<T, E> = Success(value: T) | Failure(error: E)

  /** `default(value, default_value)`: the default exactly when the value is
      `None`, otherwise the value itself. */
  function Default<T>(value: Option<T>, defaultValue: T): (r: T)
    ensures value.None? ==> r == defaultValue
    ensures value.Some? ==> r == value.value
  {
    match value
    case None => defaultValue
    case Some(v) => v
  }

  /** Squared distance from integer cell (column i, row j) to the point (x, y). */
  function SquaredDistance(i: int, j: int, x: real, y: real): (d: real)
    ensures d >= 0.0
  {
    (i as real - x) * (i as real - x) + (j as real - y) * (j as real - y)
  }

  /** The denominator `2 * sigma ** 2` of the bump's exponent. */
  function Spread(sigma: real): (s: real)
    requires sigma != 0.0
    ensures s > 0.0
  {
    var twice := 2.0 * sigma;
    twice * sigma
  }

  /** The value of the bump centred at (x, y) in cell (column i, row j). */
  function GaussianValue(x: real, y: real, i: int, j: int, amp: real, sigma: real, exp: real -> real): (v: real)
    requires sigma != 0.0
    ensures i as real == x && j as real == y ==> v == amp * exp(0.0)
    ensures amp > 0.0 && (forall z :: z <= 0.0 ==> exp(z) > 0.0) ==> v > 0.0
  {
    var d, s := SquaredDistance(i, j, x, y), Spread(sigma);
    NonNegativeQuotient(d, s);
    ZeroDividend(s);
    assert i as real == x && j as real == y ==> d == 0.0 && -d / s == 0.0;
    amp * exp(-SquaredDistance(i, j, x, y) / Spread(sigma))
  }

  /** `gaussian_mask(x, y, shape, amp, sigma)`: a grid of `rows` rows and `cols`
      columns holding the bump centred at (x, y), row index j and column index i. */
  function GaussianMask(x: real, y: real, rows: nat, cols: nat, amp: real, sigma: real, exp: real -> real)
    : (g: seq<seq<real>>)
    requires sigma != 0.0
    ensures IsGrid(g, rows, cols)
    ensures forall j, i :: 0 <= j < rows && 0 <= i < cols ==> g[j][i] == GaussianValue(x, y, i, j, amp, sigma, exp)
  {
    seq(rows, j => seq(cols, i => GaussianValue(x, y, i, j, amp, sigma, exp)))
  }

  /** At the centre cell the mask holds exactly `amp`, when `exp(0) == 1`. */
  lemma GaussianMaskPeak(x: nat, y: nat, rows: nat, cols: nat, amp: real, sigma: real, exp: real -> real)
    requires sigma != 0.0 && exp(0.0) == 1.0
    requires y < rows && x < cols
    ensures GaussianMask(x as real, y as real, rows, cols, amp, sigma, exp)[y][x] == amp
  {
    assert SquaredDistance(x, y, x as real, y as real) == 0.0;
    ZeroDividend(Spread(sigma));
  }

  /** With a positive amplitude and an increasing `exp`, a cell nearer the centre
      holds a strictly larger value. */
  lemma GaussianMaskDecreasing(x: real, y: real, rows: nat, cols: nat, amp: real, sigma: real, exp: real -> real,
                               j1: nat, i1: nat, j2: nat, i2: nat)
    requires sigma != 0.0 && amp > 0.0
    requires forall u, v :: u < v ==> exp(u) < exp(v)
    requires j1 < rows && i1 < cols && j2 < rows && i2 < cols
    requires SquaredDistance(i1, j1, x, y) < SquaredDistance(i2, j2, x, y)
    ensures GaussianMask(x, y, rows, cols, amp, sigma, exp)[j1][i1] > GaussianMask(x, y, rows, cols, amp, sigma, exp)[j2][i2]
  {
    var d1, d2 := SquaredDistance(i1, j1, x, y), SquaredDistance(i2, j2, x, y);
    DivideIncreasing(d1, d2, Spread(sigma));
    var e1, e2 := exp(-d1 / Spread(sigma)), exp(-d2 / Spread(sigma));
    assert e1 > e2;
    PositiveScaling(amp, e2, e1);
    var g := GaussianMask(x, y, rows, cols, amp, sigma, exp);
    assert g[j1][i1] == GaussianValue(x, y, i1, j1, amp, sigma, exp) == amp * e1;
    assert g[j2][i2] == GaussianValue(x, y, i2, j2, amp, sigma, exp) == amp * e2;
  }

  lemma ZeroDividend(s: real)
    requires s > 0.0
    ensures 0.0 / s == 0.0
  {
  }

  lemma NonNegativeQuotient(d: real, s: real)
    requires d >= 0.0 && s > 0.0
    ensures -d / s <= 0.0
  {
  }

  lemma DivideIncreasing(a: real, b: real, s: real)
    requires s > 0.0 && a < b
    ensures -b / s < -a / s
  {
    assert b / s - a / s == (b - a) / s;
  }

  lemma PositiveScaling(k: real, a: real, b: real)
    requires k > 0.0 && a < b
    ensures k * a < k * b
  {
  }
}
