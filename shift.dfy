/**
 * `shift_pixel`: a copy of an image moved by `n` pixels along one axis,
 * with the vacated rows (or columns) filled by replicating the border one.
 * The code builds the copy by tiling the fill row (column) and then
 * assigning a numpy slice into it; this module follows those two steps,
 * including Python's normalisation of out-of-range slice bounds and
 * numpy's broadcasting rule, and proves that the outcome is border
 * clamping.
 */
module Shift {
  import opened Grids

  function Max(a: int, b: int): int
  {
    if a < b then b else a
  }

  /** Python's normalisation of one bound of a slice (step 1) of a sequence of length `len`. */
  function SliceIndex(i: int, len: nat): (j: nat)
    ensures j <= len
  {
    if i < 0 then (if i + len < 0 then 0 else i + len)
    else if i > len then len
    else i
  }

  /** The index range `[lo, hi)` that Python selects with `start:stop` on a sequence of length `len`. */
  function SliceBounds(start: int, stop: int, len: nat): (b: (nat, nat))
    ensures b.0 <= b.1 <= len
  {
    var lo, hi := SliceIndex(start, len), SliceIndex(stop, len);
    (lo, if hi < lo then lo else hi)
  }

  /** Target slice `max(0,-n):size-n` of the slice assignment. */
  function TargetSlice(size: nat, n: int): (nat, nat)
  {
    SliceBounds(Max(0, -n), size - n, size)
  }

  /** Source slice `max(0,+n):size+n` of the slice assignment. */
  function SourceSlice(size: nat, n: int): (nat, nat)
  {
    SliceBounds(Max(0, n), size + n, size)
  }

  /** numpy accepts the slice assignment: equal lengths, or a source of length one that broadcasts. */
  predicate SliceAssignFits(size: nat, n: int)
  {
    var (dLo, dHi) := TargetSlice(size, n);
    var (sLo, sHi) := SourceSlice(size, n);
    dHi - dLo == sHi - sLo || sHi - sLo == 1
  }

  /** The row (column) replicated into the vacated part: the last one for `n >= 0`, else the first. */
  function FillIndex(size: nat, n: int): int
  {
    if n >= 0 then size - 1 else 0
  }

  /** Which input row (column) lands at position `y` after the tile and the slice assignment. */
  function ShiftSource(size: nat, n: int, y: int): int
  {
    var (dLo, dHi) := TargetSlice(size, n);
    var (sLo, sHi) := SourceSlice(size, n);
    if dLo <= y < dHi then (if sHi - sLo == 1 then sLo else sLo + (y - dLo))
    else FillIndex(size, n)
  }

  /**
   * The offsets along an axis of length `size` for which `shift_pixel`
   * returns: the axis is not empty, and `|n| <= size`, `|n| >= 2*size`
   * or `n == 1 - 2*size` (for the last two every slice involved is
   * empty or broadcasts into an empty target).
   */
  predicate ShiftDefined(size: int, n: int)
  {
    size > 0 && (-size <= n <= size || n >= 2 * size || n <= 1 - 2 * size)
  }

  /** The slice assignment succeeds exactly for the offsets `ShiftDefined` admits. */
  lemma SliceAssignFitsIff(size: nat, n: int)
    requires size > 0
    ensures SliceAssignFits(size, n) <==> ShiftDefined(size, n)
  {
  }

  /** Tiling then slice-assigning puts the clamped row (column) at every position. */
  lemma ShiftSourceIsClamp(size: nat, n: int, y: int)
    requires ShiftDefined(size, n) && 0 <= y < size
    ensures ShiftSource(size, n, y) == Clamp(y + n, size)
  {
  }

  /** `shift_pixel(pixel_grid, 0, n)`. */
  method ShiftRows<T(0)>(a: array2<T>, n: int) returns (r: Result<array2<T>>)
    ensures r.Ok? <==> ShiftDefined(a.Length0, n)
    ensures r.Err? ==> r.error == (if a.Length0 == 0 then IndexOutOfRange else ShapeMismatch)
    ensures r.Ok? ==> fresh(r.value) && r.value.Length0 == a.Length0 && r.value.Length1 == a.Length1
    ensures r.Ok? ==> forall y, x | 0 <= y < a.Length0 && 0 <= x < a.Length1 ::
      r.value[y, x] == a[Clamp(y + n, a.Length0), x]
  {
    var h, w := a.Length0, a.Length1;
    if h == 0 {
      return Err(IndexOutOfRange);
    }
    var fill := FillIndex(h, n);
    var out := new T[h, w];
    // np.tile(pixel_grid[fill], (sizeY, 1))
    var y := 0;
    while y < h
      invariant 0 <= y <= h
      invariant forall y', x | 0 <= y' < y && 0 <= x < w :: out[y', x] == a[fill, x]
    {
      var x := 0;
      while x < w
        invariant 0 <= x <= w
        invariant forall y', x' | 0 <= y' < y && 0 <= x' < w :: out[y', x'] == a[fill, x']
        invariant forall x' | 0 <= x' < x :: out[y, x'] == a[fill, x']
      {
        out[y, x] := a[fill, x];
        x := x + 1;
      }
      y := y + 1;
    }
    // after_shift[max(0,-n):sizeY-n, :] = pixel_grid[max(0,+n):sizeY+n, :]
    var (dLo, dHi) := TargetSlice(h, n);
    var (sLo, sHi) := SourceSlice(h, n);
    SliceAssignFitsIff(h, n);
    if dHi - dLo != sHi - sLo && sHi - sLo != 1 {
      return Err(ShapeMismatch);
    }
    y := dLo;
    while y < dHi
      invariant dLo <= y <= dHi
      invariant forall y', x | 0 <= y' < h && 0 <= x < w ::
        out[y', x] == a[if dLo <= y' < y then ShiftSource(h, n, y') else fill, x]
    {
      var src := if sHi - sLo == 1 then sLo else sLo + (y - dLo);
      var x := 0;
      while x < w
        invariant 0 <= x <= w
        invariant forall y', x' | 0 <= y' < h && 0 <= x' < w && y' != y ::
          out[y', x'] == a[if dLo <= y' < y then ShiftSource(h, n, y') else fill, x']
        invariant forall x' | 0 <= x' < x :: out[y, x'] == a[src, x']
        invariant forall x' | x <= x' < w :: out[y, x'] == a[fill, x']
      {
        out[y, x] := a[src, x];
        x := x + 1;
      }
      y := y + 1;
    }
    forall y' | 0 <= y' < h
      ensures ShiftSource(h, n, y') == Clamp(y' + n, h)
    {
      ShiftSourceIsClamp(h, n, y');
    }
    return Ok(out);
  }

  /** `shift_pixel(pixel_grid, 1, n)`. */
  method ShiftColumns<T(0)>(a: array2<T>, n: int) returns (r: Result<array2<T>>)
    ensures r.Ok? <==> ShiftDefined(a.Length1, n)
    ensures r.Err? ==> r.error == (if a.Length1 == 0 then IndexOutOfRange else ShapeMismatch)
    ensures r.Ok? ==> fresh(r.value) && r.value.Length0 == a.Length0 && r.value.Length1 == a.Length1
    ensures r.Ok? ==> forall y, x | 0 <= y < a.Length0 && 0 <= x < a.Length1 ::
      r.value[y, x] == a[y, Clamp(x + n, a.Length1)]
  {
    var h, w := a.Length0, a.Length1;
    if w == 0 {
      return Err(IndexOutOfRange);
    }
    var fill := FillIndex(w, n);
    var out := new T[h, w];
    // np.tile(pixel_grid[:, fill].reshape(-1, 1), sizeX)
    var y := 0;
    while y < h
      invariant 0 <= y <= h
      invariant forall y', x | 0 <= y' < y && 0 <= x < w :: out[y', x] == a[y', fill]
    {
      var x := 0;
      while x < w
        invariant 0 <= x <= w
        invariant forall y', x' | 0 <= y' < y && 0 <= x' < w :: out[y', x'] == a[y', fill]
        invariant forall x' | 0 <= x' < x :: out[y, x'] == a[y, fill]
      {
        out[y, x] := a[y, fill];
        x := x + 1;
      }
      y := y + 1;
    }
    // after_shift[:, max(0,-n):sizeX-n] = pixel_grid[:, max(0,+n):sizeX+n]
    var (dLo, dHi) := TargetSlice(w, n);
    var (sLo, sHi) := SourceSlice(w, n);
    SliceAssignFitsIff(w, n);
    if dHi - dLo != sHi - sLo && sHi - sLo != 1 {
      return Err(ShapeMismatch);
    }
    y := 0;
    while y < h
      invariant 0 <= y <= h
      invariant forall y', x | 0 <= y' < h && 0 <= x < w ::
        out[y', x] == a[y', if y' < y && dLo <= x < dHi then ShiftSource(w, n, x) else fill]
    {
      var x := dLo;
      while x < dHi
        invariant dLo <= x <= dHi
        invariant forall y', x' | 0 <= y' < h && 0 <= x' < w && y' != y ::
          out[y', x'] == a[y', if y' < y && dLo <= x' < dHi then ShiftSource(w, n, x') else fill]
        invariant forall x' | 0 <= x' < w :: out[y, x'] == a[y, if dLo <= x' < x then ShiftSource(w, n, x') else fill]
      {
        out[y, x] := a[y, if sHi - sLo == 1 then sLo else sLo + (x - dLo)];
        x := x + 1;
      }
      y := y + 1;
    }
    forall x' | 0 <= x' < w
      ensures ShiftSource(w, n, x') == Clamp(x' + n, w)
    {
      ShiftSourceIsClamp(w, n, x');
    }
    return Ok(out);
  }

  /**
   * `shift_pixel(pixel_grid, axis, n)`: out[y][x] is the input at the
   * clamped position (y+n, x) for axis 0 and (y, x+n) for axis 1; any other
   * axis raises.
   */
  method ShiftPixel<T(0)>(a: array2<T>, axis: int, n: int) returns (r: Result<array2<T>>)
    ensures r.Ok? <==> (axis == 0 && ShiftDefined(a.Length0, n)) || (axis == 1 && ShiftDefined(a.Length1, n))
    ensures axis != 0 && axis != 1 ==> r == Err(UnsupportedAxis)
    ensures r.Err? && (axis == 0 || axis == 1) ==>
      r.error == (if (if axis == 0 then a.Length0 else a.Length1) == 0 then IndexOutOfRange else ShapeMismatch)
    ensures r.Ok? ==> fresh(r.value) && r.value.Length0 == a.Length0 && r.value.Length1 == a.Length1
    ensures r.Ok? && axis == 0 ==> forall y, x | 0 <= y < a.Length0 && 0 <= x < a.Length1 ::
      r.value[y, x] == a[Clamp(y + n, a.Length0), x]
    ensures r.Ok? && axis == 1 ==> forall y, x | 0 <= y < a.Length0 && 0 <= x < a.Length1 ::
      r.value[y, x] == a[y, Clamp(x + n, a.Length1)]
    ensures r.Ok? && n == 0 ==> Snapshot(r.value) == Snapshot(a)
  {
    if axis == 0 {
      r := ShiftRows(a, n);
    } else if axis == 1 {
      r := ShiftColumns(a, n);
    } else {
      return Err(UnsupportedAxis);
    }
    if r.Ok? && n == 0 {
      SnapshotIs(r.value, Snapshot(a));
    }
  }

  /** `shift_pixel(shift_pixel(grid, 0, i), 1, j)`: the input read at the clamped position (y+i, x+j). */
  method ShiftBoth<T(0)>(a: array2<T>, i: int, j: int) returns (r: Result<array2<T>>)
    ensures r.Ok? <==> ShiftDefined(a.Length0, i) && ShiftDefined(a.Length1, j)
    ensures r.Err? ==> r.error == (if a.Length0 == 0 || (ShiftDefined(a.Length0, i) && a.Length1 == 0)
                                   then IndexOutOfRange else ShapeMismatch)
    ensures r.Ok? ==> fresh(r.value) && r.value.Length0 == a.Length0 && r.value.Length1 == a.Length1
    ensures r.Ok? ==> forall y, x | 0 <= y < a.Length0 && 0 <= x < a.Length1 ::
      r.value[y, x] == a[Clamp(y + i, a.Length0), Clamp(x + j, a.Length1)]
  {
    var rows := ShiftPixel(a, 0, i);
    if rows.Err? {
      return Err(rows.error);
    }
    r := ShiftPixel(rows.value, 1, j);
  }
}
