/**
 * Grids: the value-level view of the two-dimensional numpy arrays the
 * Canny stage works on, the uint8 pixel type of its edge maps, the error
 * outcomes numpy raises, and the sums the kernels need.
 */
module Grids {

  /** A pixel of a uint8 edge map. */
  type Byte = x: int | 0 <= x < 256

  /** The edge classes `doubleThresholding` writes and `edgeTracking` resolves (non-edges are 0). */
  const Weak: Byte := 127
  const Strong: Byte := 255

  /** The exceptions the modelled code can raise. */
  datatype Error =
    | IndexOutOfRange   // reading the fill row or column (index -1, or 0 for a negative shift) of an empty axis
    | ShapeMismatch     // numpy cannot broadcast a slice assignment
    | UnsupportedAxis   // shift along an axis other than 0 or 1

  datatype Result<T> = Ok(value: T) | Err(error: Error)

  /** A row-major grid, indexed [row][column]. */
  type Grid<T> = seq<seq<T>>

  /** `g` has `h` rows of `w` entries each. */
  predicate IsGrid<T>(g: Grid<T>, h: int, w: int)
  {
    |g| == h && forall r | 0 <= r < |g| :: |g[r]| == w
  }

  function Width<T>(g: Grid<T>): nat
  {
    if |g| == 0 then 0 else |g[0]|
  }

  /** A rectangular grid with at least one row and one column. */
  predicate NonEmpty<T>(g: Grid<T>)
  {
    |g| > 0 && Width(g) > 0 && IsGrid(g, |g|, Width(g))
  }

  function Dist(i: int, j: int): nat
  {
    if i <= j then j - i else i - j
  }

  /**
   * The valid index of an axis of length `size` nearest to `i`: the
   * row or column that border replication reads for position `i`.
   */
  function Clamp(i: int, size: int): (j: int)
    requires size > 0
    ensures 0 <= j < size
    ensures 0 <= i < size ==> j == i
  {
    if i < 0 then 0 else if i >= size then size - 1 else i
  }

  /** No valid index is nearer to `i` than `Clamp(i, size)`. */
  lemma ClampIsNearest(i: int, size: int, k: int)
    requires size > 0 && 0 <= k < size
    ensures Dist(i, Clamp(i, size)) <= Dist(i, k)
  {
  }

  /** The current contents of a two-dimensional array, as a grid. */
  function Snapshot<T>(a: array2<T>): (g: Grid<T>)
    reads a
    ensures IsGrid(g, a.Length0, a.Length1)
    ensures forall r, c | 0 <= r < a.Length0 && 0 <= c < a.Length1 :: g[r][c] == a[r, c]
  {
    seq(a.Length0, r requires 0 <= r < a.Length0 reads a =>
      seq(a.Length1, c requires 0 <= c < a.Length1 reads a => a[r, c]))
  }

  /** `g` holds the current contents of `a`. */
  ghost predicate Mirrors<T>(g: Grid<T>, a: array2<T>)
    reads a
  {
    IsGrid(g, a.Length0, a.Length1) && forall r, c | 0 <= r < a.Length0 && 0 <= c < a.Length1 :: g[r][c] == a[r, c]
  }

  /** An array that agrees with a grid entry by entry has that grid as its snapshot. */
  lemma SnapshotIs<T>(a: array2<T>, g: Grid<T>)
    requires IsGrid(g, a.Length0, a.Length1)
    requires forall r, c | 0 <= r < a.Length0 && 0 <= c < a.Length1 :: a[r, c] == g[r][c]
    ensures Snapshot(a) == g
  {
    var s := Snapshot(a);
    forall r | 0 <= r < a.Length0
      ensures s[r] == g[r]
    {
      assert forall c | 0 <= c < a.Length1 :: s[r][c] == g[r][c];
    }
  }

  /** `Im.copy()`: a fresh array with the same contents. */
  method CopyGrid<T(0)>(a: array2<T>) returns (b: array2<T>)
    ensures fresh(b)
    ensures b.Length0 == a.Length0 && b.Length1 == a.Length1
    ensures Snapshot(b) == Snapshot(a)
  {
    b := new T[a.Length0, a.Length1];
    var r := 0;
    while r < a.Length0
      invariant 0 <= r <= a.Length0
      invariant forall y, x | 0 <= y < r && 0 <= x < a.Length1 :: b[y, x] == a[y, x]
    {
      var c := 0;
      while c < a.Length1
        invariant 0 <= c <= a.Length1
        invariant forall y, x | 0 <= y < r && 0 <= x < a.Length1 :: b[y, x] == a[y, x]
        invariant forall x | 0 <= x < c :: b[r, x] == a[r, x]
      {
        b[r, c] := a[r, c];
        c := c + 1;
      }
      r := r + 1;
    }
    SnapshotIs(b, Snapshot(a));
  }

  /** The sum of a sequence, added left to right. */
  function Sum(s: seq<real>): real
  {
    if |s| == 0 then 0.0 else Sum(s[..|s| - 1]) + s[|s| - 1]
  }

  /** `np.sum` of a grid: the sum of its row sums. */
  function GridSum(g: Grid<real>): real
  {
    if |g| == 0 then 0.0 else GridSum(g[..|g| - 1]) + Sum(g[|g| - 1])
  }

  /** Dividing every entry by `t` divides the sum by `t`. */
  lemma {:induction false} SumScaled(s: seq<real>, t: real, u: seq<real>)
    requires t != 0.0
    requires |u| == |s| && forall i | 0 <= i < |s| :: u[i] == s[i] / t
    ensures Sum(u) == Sum(s) / t
  {
    if |s| > 0 {
      SumScaled(s[..|s| - 1], t, u[..|u| - 1]);
    }
  }

  /** Row `r` of `u` is row `r` of `g` with every entry divided by `t`. */
  predicate RowScaled(g: Grid<real>, t: real, u: Grid<real>, r: int)
    requires t != 0.0 && 0 <= r < |g| && r < |u|
  {
    |u[r]| == |g[r]| && forall c | 0 <= c < |g[r]| :: u[r][c] == g[r][c] / t
  }

  lemma {:induction false} GridSumScaled(g: Grid<real>, t: real, u: Grid<real>)
    requires t != 0.0
    requires |u| == |g| && forall r | 0 <= r < |g| :: RowScaled(g, t, u, r)
    ensures GridSum(u) == GridSum(g) / t
  {
    if |g| > 0 {
      var n := |g| - 1;
      assert forall r | 0 <= r < n :: RowScaled(g[..n], t, u[..n], r) by {
        forall r | 0 <= r < n ensures RowScaled(g[..n], t, u[..n], r) {
          assert RowScaled(g, t, u, r);
        }
      }
      GridSumScaled(g[..n], t, u[..n]);
      assert RowScaled(g, t, u, n);
      SumScaled(g[n], t, u[n]);
      DivideSum(GridSum(g[..n]), Sum(g[n]), t);
    }
  }

  lemma DivideSum(a: real, b: real, t: real)
    requires t != 0.0
    ensures a / t + b / t == (a + b) / t
  {
  }

  /** A non-empty sum of positive entries is positive. */
  lemma {:induction false} SumPositive(s: seq<real>)
    requires |s| > 0 && forall i | 0 <= i < |s| :: s[i] > 0.0
    ensures Sum(s) > 0.0
  {
    if |s| > 1 {
      SumPositive(s[..|s| - 1]);
    }
  }

  lemma {:induction false} GridSumPositive(g: Grid<real>)
    requires |g| > 0
    requires forall r | 0 <= r < |g| :: |g[r]| > 0 && forall c | 0 <= c < |g[r]| :: g[r][c] > 0.0
    ensures GridSum(g) > 0.0
  {
    SumPositive(g[|g| - 1]);
    if |g| > 1 {
      GridSumPositive(g[..|g| - 1]);
    }
  }
}
