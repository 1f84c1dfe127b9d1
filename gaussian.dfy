/**
 * `getGaussianKernel`: a square kernel of side 2*int(3*sigma)+1 whose entry
 * at offset (dy, dx) from the centre is exp(-(dy*dy + dx*dx) / (2*sigma*sigma)),
 * divided by the sum of all entries.
 *
 * The exponential is not modelled: the caller passes `weight`, the map
 * from a squared distance d to the unnormalised entry (for the source,
 * d => exp(-0.5 * d / sigma^2)). Every property proved here holds for any
 * positive weight, and therefore for the exponential.
 */
module Gaussian {
  import opened Grids
  import opened Convolution

  /** Python's `int(x)` on a float: truncation toward zero. */
  function Trunc(x: real): (n: int)
    ensures x >= 0.0 ==> n >= 0 && n as real <= x < n as real + 1.0
    ensures x < 0.0 ==> n <= 0 && n as real - 1.0 < x <= n as real
  {
    if x >= 0.0 then x.Floor else -((-x).Floor)
  }

  /** `halfSize = int(3*sigma)`. */
  function HalfSize(sigma: real): (h: int)
    ensures sigma >= 0.0 ==> h >= 0 && h as real <= 3.0 * sigma < h as real + 1.0
    ensures sigma < 0.0 ==> h <= 0 && h as real - 1.0 < 3.0 * sigma <= h as real
  {
    Trunc(3.0 * sigma)
  }

  /** n*n, built up as a sum of odd numbers so that no product enters the kernel's proofs. */
  function Square(n: nat): nat
  {
    if n == 0 then 0 else Square(n - 1) + 2 * n - 1
  }

  lemma {:induction false} SquareIsProduct(n: nat)
    ensures Square(n) == n * n
  {
    if n > 0 {
      SquareIsProduct(n - 1);
    }
  }

  /** `dist2dSq`: the squared distance of entry (i, j) from the centre (h, h). */
  function SqDist(i: int, j: int, h: int): nat
  {
    Square(Dist(i, h)) + Square(Dist(j, h))
  }

  /** The unnormalised kernel: `weight` of the squared distance, on a (2h+1) x (2h+1) grid. */
  function WeightGrid(h: nat, weight: nat -> real): (g: Grid<real>)
    requires forall d: nat :: weight(d) > 0.0
    ensures IsGrid(g, 2 * h + 1, 2 * h + 1)
    ensures forall i, j | 0 <= i < |g| && 0 <= j < |g[i]| :: g[i][j] == weight(SqDist(i, j, h))
  {
    seq(2 * h + 1, i => seq(2 * h + 1, j => weight(SqDist(i, j, h))))
  }

  /** The weights add up to a positive total, so the division is defined. */
  lemma WeightTotalPositive(h: nat, weight: nat -> real)
    requires forall d: nat :: weight(d) > 0.0
    ensures GridSum(WeightGrid(h, weight)) > 0.0
  {
    GridSumPositive(WeightGrid(h, weight));
  }

  /** Every entry of `g` divided by `t`, as `kernel / np.sum(kernel)` does. */
  function Normalise(g: Grid<real>, t: real): (u: Grid<real>)
    requires t != 0.0
    ensures |u| == |g| && forall r | 0 <= r < |g| :: |u[r]| == |g[r]| && RowScaled(g, t, u, r)
  {
    seq(|g|, r requires 0 <= r < |g| => seq(|g[r]|, c requires 0 <= c < |g[r]| => g[r][c] / t))
  }

  /**
   * `getGaussianKernel(sigma)`. When int(3*sigma) is negative numpy's
   * `arange` is empty and so is the kernel; otherwise it is the normalised
   * weight grid of half size int(3*sigma), a square of odd side.
   */
  function GaussianKernel(sigma: real, weight: nat -> real): (k: Grid<real>)
    requires forall d: nat :: weight(d) > 0.0
    ensures HalfSize(sigma) < 0 ==> k == []
    ensures HalfSize(sigma) >= 0 ==> IsGrid(k, 2 * HalfSize(sigma) + 1, 2 * HalfSize(sigma) + 1)
    ensures HalfSize(sigma) >= 0 ==> k == KernelOfHalfSize(HalfSize(sigma), weight)
  {
    var h := HalfSize(sigma);
    if h < 0 then [] else KernelOfHalfSize(h, weight)
  }

  /** The kernel of half size `h`: the weight grid divided by its total. */
  function KernelOfHalfSize(h: nat, weight: nat -> real): (k: Grid<real>)
    requires forall d: nat :: weight(d) > 0.0
    ensures IsGrid(k, 2 * h + 1, 2 * h + 1)
  {
    var raw := WeightGrid(h, weight);
    WeightTotalPositive(h, weight);
    NormaliseKeepsShape(raw, GridSum(raw), 2 * h + 1, 2 * h + 1);
    Normalise(raw, GridSum(raw))
  }

  /** Dividing by the total keeps a rectangular grid rectangular, with the same sides. */
  lemma NormaliseKeepsShape(g: Grid<real>, t: real, n: int, m: int)
    requires t != 0.0 && IsGrid(g, n, m)
    ensures IsGrid(Normalise(g, t), n, m)
  {
  }

  /** Entry (i, j) is the weight of its squared distance from the centre over the total weight. */
  lemma KernelEntry(h: nat, weight: nat -> real, i: int, j: int)
    requires forall d: nat :: weight(d) > 0.0
    requires 0 <= i < 2 * h + 1 && 0 <= j < 2 * h + 1
    ensures GridSum(WeightGrid(h, weight)) > 0.0
    ensures KernelOfHalfSize(h, weight)[i][j] == weight(SqDist(i, j, h)) / GridSum(WeightGrid(h, weight))
  {
    var raw := WeightGrid(h, weight);
    WeightTotalPositive(h, weight);
    assert RowScaled(raw, GridSum(raw), KernelOfHalfSize(h, weight), i);
  }

  /** `kernel / np.sum(kernel)`: the kernel sums to exactly one. */
  lemma KernelNormalised(h: nat, weight: nat -> real)
    requires forall d: nat :: weight(d) > 0.0
    ensures GridSum(KernelOfHalfSize(h, weight)) == 1.0
  {
    var raw := WeightGrid(h, weight);
    WeightTotalPositive(h, weight);
    var total := GridSum(raw);
    GridSumScaled(raw, total, Normalise(raw, total));
    DivideSelf(total);
  }

  /** Every entry is positive. */
  lemma KernelPositive(h: nat, weight: nat -> real, i: int, j: int)
    requires forall d: nat :: weight(d) > 0.0
    requires 0 <= i < 2 * h + 1 && 0 <= j < 2 * h + 1
    ensures KernelOfHalfSize(h, weight)[i][j] > 0.0
  {
    KernelEntry(h, weight, i, j);
    DividePositive(weight(SqDist(i, j, h)), GridSum(WeightGrid(h, weight)));
  }

  /** Two entries at the same squared distance from the centre are equal. */
  lemma KernelRadial(h: nat, weight: nat -> real, i: int, j: int, i': int, j': int)
    requires forall d: nat :: weight(d) > 0.0
    requires 0 <= i < 2 * h + 1 && 0 <= j < 2 * h + 1 && 0 <= i' < 2 * h + 1 && 0 <= j' < 2 * h + 1
    requires SqDist(i, j, h) == SqDist(i', j', h)
    ensures KernelOfHalfSize(h, weight)[i][j] == KernelOfHalfSize(h, weight)[i'][j']
  {
    KernelEntry(h, weight, i, j);
    KernelEntry(h, weight, i', j');
  }

  /** Flipping the kernel upside down leaves it unchanged. */
  lemma KernelRowFlip(h: nat, weight: nat -> real, i: int, j: int)
    requires forall d: nat :: weight(d) > 0.0
    requires 0 <= i < 2 * h + 1 && 0 <= j < 2 * h + 1
    ensures KernelOfHalfSize(h, weight)[i][j] == KernelOfHalfSize(h, weight)[2 * h - i][j]
  {
    assert SqDist(2 * h - i, j, h) == SqDist(i, j, h);
    KernelRadial(h, weight, i, j, 2 * h - i, j);
  }

  /** Flipping the kernel left to right leaves it unchanged. */
  lemma KernelColumnFlip(h: nat, weight: nat -> real, i: int, j: int)
    requires forall d: nat :: weight(d) > 0.0
    requires 0 <= i < 2 * h + 1 && 0 <= j < 2 * h + 1
    ensures KernelOfHalfSize(h, weight)[i][j] == KernelOfHalfSize(h, weight)[i][2 * h - j]
  {
    assert SqDist(i, 2 * h - j, h) == SqDist(i, j, h);
    KernelRadial(h, weight, i, j, i, 2 * h - j);
  }

  /** Transposing the kernel leaves it unchanged. */
  lemma KernelTranspose(h: nat, weight: nat -> real, i: int, j: int)
    requires forall d: nat :: weight(d) > 0.0
    requires 0 <= i < 2 * h + 1 && 0 <= j < 2 * h + 1
    ensures KernelOfHalfSize(h, weight)[i][j] == KernelOfHalfSize(h, weight)[j][i]
  {
    KernelRadial(h, weight, i, j, j, i);
  }

  /**
   * When the weight does not grow with the distance (as the exponential
   * does not), the centre entry is the largest.
   */
  lemma KernelPeaksAtCentre(h: nat, weight: nat -> real, i: int, j: int)
    requires forall d: nat :: weight(d) > 0.0
    requires forall d: nat, e: nat | d <= e :: weight(e) <= weight(d)
    requires 0 <= i < 2 * h + 1 && 0 <= j < 2 * h + 1
    ensures KernelOfHalfSize(h, weight)[i][j] <= KernelOfHalfSize(h, weight)[h][h]
  {
    KernelEntry(h, weight, i, j);
    KernelEntry(h, weight, h, h);
    assert SqDist(h, h, h) == 0;
    DivideMonotone(weight(SqDist(i, j, h)), weight(0), GridSum(WeightGrid(h, weight)));
  }

  lemma DivideSelf(t: real)
    requires t != 0.0
    ensures t / t == 1.0
  {
  }

  lemma DividePositive(a: real, t: real)
    requires a > 0.0 && t > 0.0
    ensures a / t > 0.0
  {
  }

  lemma DivideMonotone(a: real, b: real, t: real)
    requires t > 0.0 && a <= b
    ensures a / t <= b / t
  {
  }

  /** For sigma >= 0 the side is 2*floor(3*sigma)+1: odd, and at least 3 once sigma >= 1/3. */
  lemma GaussianSide(sigma: real, weight: nat -> real)
    requires forall d: nat :: weight(d) > 0.0
    requires sigma >= 0.0
    ensures |GaussianKernel(sigma, weight)| == 2 * (3.0 * sigma).Floor + 1
    ensures |GaussianKernel(sigma, weight)| % 2 == 1
    ensures 3.0 * sigma >= 1.0 ==> |GaussianKernel(sigma, weight)| >= 3
  {
  }

  /** Smoothing with the Gaussian kernel leaves a flat image unchanged. */
  lemma KernelPreservesFlat(img: Grid<real>, c: real, h: nat, weight: nat -> real, y: int, x: int)
    requires forall d: nat :: weight(d) > 0.0
    requires NonEmpty(img) && Flat(img, c)
    ensures CorrelateAt(img, KernelOfHalfSize(h, weight), y, x) == c
  {
    var k := KernelOfHalfSize(h, weight);
    KernelNormalised(h, weight);
    CorrelateFlat(img, k, c, y, x);
  }
}
