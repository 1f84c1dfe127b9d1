/**
 * `ConvFilter`: correlation of an image with a kernel, with border
 * replication. For every kernel offset the code shifts the image along
 * both axes with `shift_pixel`, weights the shifted copy by the kernel
 * entry and adds the copies up, so that
 *   out[y][x] = sum over (a, b) of G[a][b] * I[clampY(y+a-hY)][clampX(x+b-hX)]
 * with hY, hX the kernel's half sizes, rounded down. The kernel is not
 * flipped.
 */
module Convolution {
  import opened Grids
  import opened Shift

  /** The pixel that border replication reads for position (y, x), which may lie outside the image. */
  function Tap(img: Grid<real>, y: int, x: int): real
    requires NonEmpty(img)
  {
    img[Clamp(y, |img|)][Clamp(x, Width(img))]
  }

  /** The weighted taps of kernel row `a`, columns `0 .. nb-1`, for output pixel (y, x). */
  function KernelRowSum(img: Grid<real>, k: Grid<real>, y: int, x: int, a: int, nb: int): real
    requires NonEmpty(img) && NonEmpty(k)
    requires 0 <= a < |k| && 0 <= nb <= Width(k)
    decreases nb
  {
    if nb == 0 then 0.0
    else KernelRowSum(img, k, y, x, a, nb - 1) + k[a][nb - 1] * Tap(img, y + a - |k| / 2, x + (nb - 1) - Width(k) / 2)
  }

  /** The weighted taps of kernel rows `0 .. na-1` for output pixel (y, x). */
  function KernelSum(img: Grid<real>, k: Grid<real>, y: int, x: int, na: int): real
    requires NonEmpty(img) && NonEmpty(k)
    requires 0 <= na <= |k|
    decreases na
  {
    if na == 0 then 0.0
    else KernelSum(img, k, y, x, na - 1) + KernelRowSum(img, k, y, x, na - 1, Width(k))
  }

  /** Output pixel (y, x) of the correlation of `img` with `k`. */
  function CorrelateAt(img: Grid<real>, k: Grid<real>, y: int, x: int): (v: real)
    requires NonEmpty(img) && NonEmpty(k)
    ensures |k| == 1 && Width(k) == 1 ==> v == k[0][0] * Tap(img, y, x)
  {
    KernelSum(img, k, y, x, |k|)
  }

  /** Every shift `ConvFilter` asks for (rows by -hY .. kh-1-hY, columns by -hX .. kw-1-hX) succeeds. */
  predicate ConvDefined(h: int, w: int, kh: int, kw: int)
  {
    && (forall i | -(kh / 2) <= i < kh - kh / 2 :: ShiftDefined(h, i))
    && (forall j | -(kw / 2) <= j < kw - kw / 2 :: ShiftDefined(w, j))
  }

  /** `acc += wgt * s`, entry by entry. */
  method AddScaled(acc: array2<real>, wgt: real, s: array2<real>)
    requires acc != s
    requires s.Length0 == acc.Length0 && s.Length1 == acc.Length1
    modifies acc
    ensures forall y, x | 0 <= y < acc.Length0 && 0 <= x < acc.Length1 :: acc[y, x] == old(acc[y, x]) + wgt * s[y, x]
  {
    var y := 0;
    while y < acc.Length0
      invariant 0 <= y <= acc.Length0
      invariant forall y', x | 0 <= y' < acc.Length0 && 0 <= x < acc.Length1 ::
        acc[y', x] == if y' < y then old(acc[y', x]) + wgt * s[y', x] else old(acc[y', x])
    {
      var x := 0;
      while x < acc.Length1
        invariant 0 <= x <= acc.Length1
        invariant forall y', x' | 0 <= y' < acc.Length0 && 0 <= x' < acc.Length1 ::
          acc[y', x'] == if y' < y || (y' == y && x' < x) then old(acc[y', x']) + wgt * s[y', x'] else old(acc[y', x'])
      {
        acc[y, x] := acc[y, x] + wgt * s[y, x];
        x := x + 1;
      }
      y := y + 1;
    }
  }

  /** Adds `wgt * shift_pixel(shift_pixel(img, 0, i), 1, j)` to `acc`; raises when a shift raises. */
  method AddShifted(acc: array2<real>, img: array2<real>, ghost g: Grid<real>, wgt: real, i: int, j: int)
    returns (r: Result<()>)
    requires acc != img && acc.Length0 == img.Length0 && acc.Length1 == img.Length1
    requires Mirrors(g, img)
    modifies acc
    ensures r.Ok? <==> ShiftDefined(img.Length0, i) && ShiftDefined(img.Length1, j)
    ensures r.Ok? ==> forall y, x | 0 <= y < acc.Length0 && 0 <= x < acc.Length1 ::
      acc[y, x] == old(acc[y, x]) + wgt * Tap(g, y + i, x + j)
  {
    var shifted := ShiftBoth(img, i, j);
    if shifted.Err? {
      return Err(shifted.error);
    }
    label Before:
    AddScaled(acc, wgt, shifted.value);
    forall y, x | 0 <= y < acc.Length0 && 0 <= x < acc.Length1
      ensures acc[y, x] == old(acc[y, x]) + wgt * Tap(g, y + i, x + j)
    {
      var t := shifted.value[y, x];
      assert t == Tap(g, y + i, x + j);
      assert acc[y, x] == old@Before(acc[y, x]) + wgt * t;
    }
    return Ok(());
  }

  /**
   * `ConvFilter(Igs, G)`: a new image of the same shape whose pixel (y, x) is
   * the correlation sum; it raises when one of the shifts raises (an
   * empty image, or a kernel too large for the image).
   */
  method ConvFilter(img: array2<real>, k: array2<real>) returns (r: Result<array2<real>>)
    requires k.Length0 > 0 && k.Length1 > 0
    ensures r.Ok? <==> ConvDefined(img.Length0, img.Length1, k.Length0, k.Length1)
    ensures r.Ok? ==> img.Length0 > 0 && img.Length1 > 0
    ensures r.Ok? ==> fresh(r.value) && r.value.Length0 == img.Length0 && r.value.Length1 == img.Length1
    ensures r.Ok? ==> forall y, x | 0 <= y < img.Length0 && 0 <= x < img.Length1 ::
      r.value[y, x] == CorrelateAt(Snapshot(img), Snapshot(k), y, x)
  {
    ghost var g, kg := Snapshot(img), Snapshot(k);
    r := SumShiftedCopies(img, k, g, kg);
  }

  /** The loop of `ConvFilter`, with the image and the kernel as grids `g` and `kg` beside their arrays. */
  method SumShiftedCopies(img: array2<real>, k: array2<real>, ghost g: Grid<real>, ghost kg: Grid<real>)
    returns (r: Result<array2<real>>)
    requires k.Length0 > 0 && k.Length1 > 0
    requires Mirrors(g, img) && Mirrors(kg, k)
    ensures r.Ok? <==> ConvDefined(img.Length0, img.Length1, k.Length0, k.Length1)
    ensures r.Ok? ==> img.Length0 > 0 && img.Length1 > 0
    ensures r.Ok? ==> fresh(r.value) && r.value.Length0 == img.Length0 && r.value.Length1 == img.Length1
    ensures r.Ok? ==> forall y, x | 0 <= y < img.Length0 && 0 <= x < img.Length1 ::
      r.value[y, x] == CorrelateAt(g, kg, y, x)
  {
    var h, w := img.Length0, img.Length1;
    var kh := k.Length0;
    var hY := kh / 2;
    assert NonEmpty(kg);
    var acc := new real[h, w]((y, x) => 0.0);
    // for i in range(-hY, kh - hY), with kernel row a = i + hY
    var a := 0;
    while a < kh
      invariant 0 <= a <= kh
      invariant acc.Length0 == h && acc.Length1 == w
      invariant forall i' | -hY <= i' < a - hY :: ShiftDefined(h, i')
      invariant a > 0 ==> ColumnShiftsDefined(w, k.Length1)
      invariant forall y, x | 0 <= y < h && 0 <= x < w :: acc[y, x] == KernelSum(g, kg, y, x, a)
    {
      var added := AccumulateRow(acc, img, k, g, kg, a, a - hY);
      if added.Err? {
        return Err(added.error);
      }
      a := a + 1;
    }
    assert ShiftDefined(h, -hY) && ShiftDefined(w, -(k.Length1 / 2));
    return Ok(acc);
  }

  /** Every column shift `ConvFilter` asks for with a kernel of width `kw` succeeds. */
  predicate ColumnShiftsDefined(w: int, kw: int)
  {
    forall j | -(kw / 2) <= j < kw - kw / 2 :: ShiftDefined(w, j)
  }

  /**
   * The inner loop of `ConvFilter` for kernel row `a`: adds every entry of
   * that row times the image shifted by (i, j) = (a - hY, b - hX), which
   * extends the partial correlation sums by one kernel row.
   */
  method AccumulateRow(acc: array2<real>, img: array2<real>, k: array2<real>, ghost g: Grid<real>, ghost kg: Grid<real>, a: int, i: int)
    returns (r: Result<()>)
    requires acc != img && acc != k && acc.Length0 == img.Length0 && acc.Length1 == img.Length1
    requires Mirrors(g, img) && Mirrors(kg, k) && NonEmpty(kg)
    requires 0 <= a < |kg| && i == a - |kg| / 2
    requires forall y, x | 0 <= y < acc.Length0 && 0 <= x < acc.Length1 :: acc[y, x] == KernelSum(g, kg, y, x, a)
    modifies acc
    ensures r.Ok? <==> ShiftDefined(img.Length0, i) && ColumnShiftsDefined(img.Length1, k.Length1)
    ensures r.Ok? ==> forall y, x | 0 <= y < acc.Length0 && 0 <= x < acc.Length1 ::
      acc[y, x] == KernelSum(g, kg, y, x, a + 1)
  {
    var h, w := img.Length0, img.Length1;
    var kw := k.Length1;
    var hX := kw / 2;
    var j := -hX;
    while j < kw - hX
      invariant -hX <= j <= kw - hX
      invariant forall j' | -hX <= j' < j :: ShiftDefined(w, j')
      invariant j > -hX ==> ShiftDefined(h, i)
      invariant forall y, x | 0 <= y < h && 0 <= x < w ::
        acc[y, x] == KernelSum(g, kg, y, x, a) + KernelRowSum(g, kg, y, x, a, j + hX)
    {
      var added := AccumulateTap(acc, img, g, kg, k[a, j + hX], a, j + hX, i, j);
      if added.Err? {
        return Err(added.error);
      }
      j := j + 1;
    }
    return Ok(());
  }

  /**
   * The body of the inner loop of `ConvFilter` for kernel entry (a, b):
   * adds that entry times the image shifted by (i, j) = (a - hY, b - hX), which
   * extends the partial correlation sums by one kernel column.
   */
  method AccumulateTap(acc: array2<real>, img: array2<real>, ghost g: Grid<real>, ghost kg: Grid<real>, wgt: real, a: int, b: int, i: int, j: int)
    returns (r: Result<()>)
    requires acc != img && acc.Length0 == img.Length0 && acc.Length1 == img.Length1
    requires Mirrors(g, img) && NonEmpty(kg)
    requires 0 <= a < |kg| && 0 <= b < Width(kg) && wgt == kg[a][b]
    requires i == a - |kg| / 2 && j == b - Width(kg) / 2
    requires forall y, x | 0 <= y < acc.Length0 && 0 <= x < acc.Length1 ::
      acc[y, x] == KernelSum(g, kg, y, x, a) + KernelRowSum(g, kg, y, x, a, b)
    modifies acc
    ensures r.Ok? <==> ShiftDefined(img.Length0, i) && ShiftDefined(img.Length1, j)
    ensures r.Ok? ==> forall y, x | 0 <= y < acc.Length0 && 0 <= x < acc.Length1 ::
      acc[y, x] == KernelSum(g, kg, y, x, a) + KernelRowSum(g, kg, y, x, a, b + 1)
  {
    label Before:
    r := AddShifted(acc, img, g, wgt, i, j);
    if r.Ok? {
      forall y, x | 0 <= y < acc.Length0 && 0 <= x < acc.Length1
        ensures acc[y, x] == KernelSum(g, kg, y, x, a) + KernelRowSum(g, kg, y, x, a, b + 1)
      {
        KernelRowStep(g, kg, y, x, a, b, wgt, old@Before(acc[y, x]), acc[y, x]);
      }
    }
  }

  /**
   * One more kernel column: if `before` holds the partial sum up to column
   * `b` and `after` adds the weighted tap of column `b`, then `after` holds
   * the partial sum up to column `b + 1`.
   */
  lemma KernelRowStep(img: Grid<real>, k: Grid<real>, y: int, x: int, a: int, b: int, wgt: real, before: real, after: real)
    requires NonEmpty(img) && NonEmpty(k)
    requires 0 <= a < |k| && 0 <= b < Width(k) && wgt == k[a][b]
    requires before == KernelSum(img, k, y, x, a) + KernelRowSum(img, k, y, x, a, b)
    requires after == before + wgt * Tap(img, y + a - |k| / 2, x + b - Width(k) / 2)
    ensures after == KernelSum(img, k, y, x, a) + KernelRowSum(img, k, y, x, a, b + 1)
  {
  }

  // ---------------------------------------------------------------
  // What the correlation computes
  // ---------------------------------------------------------------

  /** A kh x kw kernel that is 1 at (a0, b0) and 0 elsewhere. */
  function UnitKernel(kh: nat, kw: nat, a0: int, b0: int): (k: Grid<real>)
    ensures IsGrid(k, kh, kw)
  {
    seq(kh, a => seq(kw, b => if a == a0 && b == b0 then 1.0 else 0.0))
  }

  lemma {:induction false} UnitKernelRow(img: Grid<real>, k: Grid<real>, y: int, x: int, a: int, nb: int, b0: int)
    requires NonEmpty(img) && NonEmpty(k)
    requires 0 <= a < |k| && 0 <= nb <= Width(k) && 0 <= b0 < Width(k)
    requires forall b | 0 <= b < Width(k) :: k[a][b] == if b == b0 then 1.0 else 0.0
    ensures KernelRowSum(img, k, y, x, a, nb) ==
      if nb > b0 then Tap(img, y + a - |k| / 2, x + b0 - Width(k) / 2) else 0.0
  {
    if nb > 0 {
      UnitKernelRow(img, k, y, x, a, nb - 1, b0);
    }
  }

  lemma {:induction false} ZeroKernelRow(img: Grid<real>, k: Grid<real>, y: int, x: int, a: int, nb: int)
    requires NonEmpty(img) && NonEmpty(k)
    requires 0 <= a < |k| && 0 <= nb <= Width(k)
    requires forall b | 0 <= b < Width(k) :: k[a][b] == 0.0
    ensures KernelRowSum(img, k, y, x, a, nb) == 0.0
  {
    if nb > 0 {
      ZeroKernelRow(img, k, y, x, a, nb - 1);
    }
  }

  lemma {:induction false} UnitKernelRows(img: Grid<real>, kh: nat, kw: nat, a0: int, b0: int, y: int, x: int, na: int)
    requires NonEmpty(img) && kh > 0 && kw > 0
    requires 0 <= a0 < kh && 0 <= b0 < kw && 0 <= na <= kh
    ensures KernelSum(img, UnitKernel(kh, kw, a0, b0), y, x, na) ==
      if na > a0 then Tap(img, y + a0 - kh / 2, x + b0 - kw / 2) else 0.0
  {
    var k := UnitKernel(kh, kw, a0, b0);
    if na > 0 {
      UnitKernelRows(img, kh, kw, a0, b0, y, x, na - 1);
      if na - 1 == a0 {
        UnitKernelRow(img, k, y, x, na - 1, kw, b0);
      } else {
        ZeroKernelRow(img, k, y, x, na - 1, kw);
      }
    }
  }

  /**
   * A unit impulse at kernel entry (a0, b0) reads the image at offset
   * (a0 - hY, b0 - hX): the kernel is applied as correlation, not
   * flipped as a convolution would be.
   */
  lemma CorrelateUnitKernel(img: Grid<real>, kh: nat, kw: nat, a0: int, b0: int, y: int, x: int)
    requires NonEmpty(img) && 0 <= a0 < kh && 0 <= b0 < kw
    ensures CorrelateAt(img, UnitKernel(kh, kw, a0, b0), y, x) == Tap(img, y + a0 - kh / 2, x + b0 - kw / 2)
  {
    UnitKernelRows(img, kh, kw, a0, b0, y, x, kh);
  }

  /** The kernel that is 1 at its centre and 0 elsewhere leaves every pixel unchanged. */
  lemma CorrelateIdentity(img: Grid<real>, kh: nat, kw: nat, y: int, x: int)
    requires NonEmpty(img) && kh > 0 && kw > 0
    requires 0 <= y < |img| && 0 <= x < Width(img)
    ensures CorrelateAt(img, UnitKernel(kh, kw, kh / 2, kw / 2), y, x) == img[y][x]
  {
    CorrelateUnitKernel(img, kh, kw, kh / 2, kw / 2, y, x);
  }

  /** Every pixel of `img` is `c`. */
  predicate Flat(img: Grid<real>, c: real)
  {
    forall y | 0 <= y < |img| :: forall x | 0 <= x < |img[y]| :: img[y][x] == c
  }

  /** The entries of `s`, each multiplied by `c`, summed left to right. */
  function ScaledSum(s: seq<real>, c: real): real
  {
    if |s| == 0 then 0.0 else ScaledSum(s[..|s| - 1], c) + s[|s| - 1] * c
  }

  /** The entries of `g`, each multiplied by `c`, summed row by row. */
  function GridScaledSum(g: Grid<real>, c: real): real
  {
    if |g| == 0 then 0.0 else GridScaledSum(g[..|g| - 1], c) + ScaledSum(g[|g| - 1], c)
  }

  /** On a flat image every tap of kernel row `a` reads `c`. */
  lemma {:induction false} FlatKernelRow(img: Grid<real>, k: Grid<real>, c: real, y: int, x: int, a: int, nb: int)
    requires NonEmpty(img) && NonEmpty(k) && Flat(img, c)
    requires 0 <= a < |k| && 0 <= nb <= Width(k)
    ensures KernelRowSum(img, k, y, x, a, nb) == ScaledSum(k[a][..nb], c)
  {
    if nb > 0 {
      FlatKernelRow(img, k, c, y, x, a, nb - 1);
      assert k[a][..nb][..nb - 1] == k[a][..nb - 1];
    }
  }

  lemma {:induction false} FlatKernelRows(img: Grid<real>, k: Grid<real>, c: real, y: int, x: int, na: int)
    requires NonEmpty(img) && NonEmpty(k) && Flat(img, c)
    requires 0 <= na <= |k|
    ensures KernelSum(img, k, y, x, na) == GridScaledSum(k[..na], c)
  {
    if na > 0 {
      FlatKernelRows(img, k, c, y, x, na - 1);
      FlatKernelRow(img, k, c, y, x, na - 1, Width(k));
      assert k[..na][..na - 1] == k[..na - 1];
      assert k[na - 1][..Width(k)] == k[na - 1];
    }
  }

  /** Multiplying every entry by `c` multiplies the sum by `c`. */
  lemma {:induction false} ScaledSumIs(s: seq<real>, c: real)
    ensures ScaledSum(s, c) == c * Sum(s)
  {
    if |s| > 0 {
      ScaledSumIs(s[..|s| - 1], c);
      ScaleSum(c, Sum(s), Sum(s[..|s| - 1]), s[|s| - 1]);
    }
  }

  lemma {:induction false} GridScaledSumIs(g: Grid<real>, c: real)
    ensures GridScaledSum(g, c) == c * GridSum(g)
  {
    if |g| > 0 {
      GridScaledSumIs(g[..|g| - 1], c);
      ScaledSumIs(g[|g| - 1], c);
      ScaleSum(c, GridSum(g), GridSum(g[..|g| - 1]), Sum(g[|g| - 1]));
    }
  }

  /** Scaling a sum of two parts scales each part. */
  lemma ScaleSum(c: real, total: real, s: real, t: real)
    requires total == s + t
    ensures c * total == c * s + c * t
  {
  }

  /** On a flat image of value c every output pixel is c times the sum of the kernel. */
  lemma CorrelateFlat(img: Grid<real>, k: Grid<real>, c: real, y: int, x: int)
    requires NonEmpty(img) && NonEmpty(k) && Flat(img, c)
    ensures CorrelateAt(img, k, y, x) == c * GridSum(k)
  {
    FlatKernelRows(img, k, c, y, x, |k|);
    assert k[..|k|] == k;
    GridScaledSumIs(k, c);
  }

  /** The Sobel kernels `EdgeDetection` uses for the x and y gradients. */
  const SobelX: Grid<real> := [[-1.0, 0.0, 1.0], [-2.0, 0.0, 2.0], [-1.0, 0.0, 1.0]]
  const SobelY: Grid<real> := [[1.0, 2.0, 1.0], [0.0, 0.0, 0.0], [-1.0, -2.0, -1.0]]

  /** Both Sobel kernels give a zero gradient everywhere on a flat image. */
  lemma SobelFlatIsZero(img: Grid<real>, c: real, y: int, x: int)
    requires NonEmpty(img) && Flat(img, c)
    ensures CorrelateAt(img, SobelX, y, x) == 0.0
    ensures CorrelateAt(img, SobelY, y, x) == 0.0
  {
    SumOfThreeRows(SobelX);
    CorrelateFlat(img, SobelX, c, y, x);
    SumOfThreeRows(SobelY);
    CorrelateFlat(img, SobelY, c, y, x);
  }

  lemma SumOfThree(s: seq<real>)
    requires |s| == 3
    ensures Sum(s) == s[0] + s[1] + s[2]
  {
    assert Sum(s[..1]) == s[0] by {
      assert s[..1][..0] == [];
    }
    assert Sum(s[..2]) == s[0] + s[1] by {
      assert s[..2][..1] == s[..1];
    }
  }

  lemma SumOfThreeRows(g: Grid<real>)
    requires IsGrid(g, 3, 3)
    ensures GridSum(g) == Sum(g[0]) + Sum(g[1]) + Sum(g[2])
    ensures Sum(g[0]) == g[0][0] + g[0][1] + g[0][2]
    ensures Sum(g[1]) == g[1][0] + g[1][1] + g[1][2]
    ensures Sum(g[2]) == g[2][0] + g[2][1] + g[2][2]
  {
    SumOfThree(g[0]);
    SumOfThree(g[1]);
    SumOfThree(g[2]);
    assert GridSum(g[..1]) == Sum(g[0]) by {
      assert g[..1][..0] == [];
    }
    assert GridSum(g[..2]) == Sum(g[0]) + Sum(g[1]) by {
      assert g[..2][..1] == g[..1];
    }
  }
}
