/**
 * `edgeTracking`, as the code runs it: a copy of the edge map is updated
 * in place, pass after pass, through masks built from the eight
 * border-clamped shifted copies, until a pass promotes nothing; then the
 * weak pixels the last pass saw without a strong neighbour are cleared.
 * The result is proved equal to `Hysteresis.Track`, whose properties are
 * proved there.
 */
module Tracking {
  import opened Grids
  import opened Shift
  import opened Masks
  import opened Hysteresis

  /** Element-wise maximum of `acc` and `s`, stored into `acc`. */
  method MaxInto(acc: array2<Byte>, s: array2<Byte>)
    requires acc != s && s.Length0 == acc.Length0 && s.Length1 == acc.Length1
    modifies acc
    ensures forall y, x | 0 <= y < acc.Length0 && 0 <= x < acc.Length1 ::
      acc[y, x] == MaxByte(old(acc[y, x]), s[y, x])
  {
    var y := 0;
    while y < acc.Length0
      invariant 0 <= y <= acc.Length0
      invariant forall y', x | 0 <= y' < acc.Length0 && 0 <= x < acc.Length1 ::
        acc[y', x] == if y' < y then MaxByte(old(acc[y', x]), s[y', x]) else old(acc[y', x])
    {
      var x := 0;
      while x < acc.Length1
        invariant 0 <= x <= acc.Length1
        invariant forall y', x' | 0 <= y' < acc.Length0 && 0 <= x' < acc.Length1 && y' != y ::
          acc[y', x'] == if y' < y then MaxByte(old(acc[y', x']), s[y', x']) else old(acc[y', x'])
        invariant forall x' | 0 <= x' < acc.Length1 ::
          acc[y, x'] == if x' < x then MaxByte(old(acc[y, x']), s[y, x']) else old(acc[y, x'])
      {
        acc[y, x] := MaxByte(acc[y, x], s[y, x]);
        x := x + 1;
      }
      y := y + 1;
    }
  }

  /** Folds the n-th shifted copy into the running maximum. */
  method FoldNeighbour(acc: array2<Byte>, a: array2<Byte>, ghost g: Grid<Byte>, n: int)
    requires Mirrors(g, a) && NonEmpty(g) && acc != a
    requires acc.Length0 == a.Length0 && acc.Length1 == a.Length1 && 1 <= n < |Offsets|
    requires forall y, x | 0 <= y < a.Length0 && 0 <= x < a.Length1 :: acc[y, x] == MaxUpTo(g, y, x, n)
    modifies acc
    ensures forall y, x | 0 <= y < a.Length0 && 0 <= x < a.Length1 :: acc[y, x] == MaxUpTo(g, y, x, n + 1)
  {
    var shifted := ShiftBoth(a, Offsets[n].0, Offsets[n].1);
    assert shifted.Ok?;
    MaxInto(acc, shifted.value);
  }

  /**
   * `np.max(np.asarray(neighbor), axis=0)` for the eight copies
   * `shift_pixel(shift_pixel(result, 0, i), 1, j)`. The first shift raises
   * on an empty image.
   */
  method NeighbourMaxGrid(a: array2<Byte>, ghost g: Grid<Byte>) returns (r: Result<array2<Byte>>)
    requires Mirrors(g, a)
    ensures r.Ok? <==> a.Length0 > 0 && a.Length1 > 0
    ensures r.Err? ==> r.error == IndexOutOfRange
    ensures r.Ok? ==> fresh(r.value) && r.value.Length0 == a.Length0 && r.value.Length1 == a.Length1
    ensures r.Ok? ==> NonEmpty(g) && forall y, x | 0 <= y < a.Length0 && 0 <= x < a.Length1 ::
      r.value[y, x] == NeighbourMax(g, y, x)
  {
    var first := ShiftBoth(a, Offsets[0].0, Offsets[0].1);
    if first.Err? {
      return Err(first.error);
    }
    assert NonEmpty(g);
    var acc := first.value;
    var n := 1;
    while n < |Offsets|
      invariant 1 <= n <= |Offsets|
      invariant fresh(acc) && acc.Length0 == a.Length0 && acc.Length1 == a.Length1
      invariant forall y, x | 0 <= y < a.Length0 && 0 <= x < a.Length1 :: acc[y, x] == MaxUpTo(g, y, x, n)
    {
      FoldNeighbour(acc, a, g, n);
      n := n + 1;
    }
    return Ok(acc);
  }

  /** `isWeak = result == 127` and `continuity = np.max(neighbor, axis=0) == 255`. */
  method PassMasks(result: array2<Byte>, ghost cur: Grid<Byte>) returns (r: Result<(array2<bool>, array2<bool>)>)
    requires Mirrors(cur, result)
    ensures r.Ok? <==> result.Length0 > 0 && result.Length1 > 0
    ensures r.Err? ==> r.error == IndexOutOfRange
    ensures r.Ok? ==> fresh(r.value.0) && fresh(r.value.1) && NonEmpty(cur)
    ensures r.Ok? ==> r.value.0.Length0 == result.Length0 && r.value.0.Length1 == result.Length1
    ensures r.Ok? ==> r.value.1.Length0 == result.Length0 && r.value.1.Length1 == result.Length1
    ensures r.Ok? ==> forall y, x | 0 <= y < result.Length0 && 0 <= x < result.Length1 ::
      (r.value.0[y, x] <==> cur[y][x] == Weak) && (r.value.1[y, x] <==> Continuity(cur, y, x))
  {
    var isWeak := EqualTo(result, Weak);
    var neighbourMax := NeighbourMaxGrid(result, cur);
    if neighbourMax.Err? {
      return Err(neighbourMax.error);
    }
    var continuity := EqualTo(neighbourMax.value, Strong);
    return Ok((isWeak, continuity));
  }

  /** `result[weakToStrong] = 255`: one pass of the loop. */
  method PromoteWhere(result: array2<Byte>, weakToStrong: array2<bool>, ghost cur: Grid<Byte>)
    requires Mirrors(cur, result) && NonEmpty(cur)
    requires weakToStrong.Length0 == result.Length0 && weakToStrong.Length1 == result.Length1
    requires forall y, x | 0 <= y < result.Length0 && 0 <= x < result.Length1 ::
      weakToStrong[y, x] <==> Promotable(cur, y, x)
    modifies result
    ensures Snapshot(result) == Promote(cur)
  {
    AssignWhere(result, weakToStrong, Strong);
    SnapshotIs(result, Promote(cur));
  }

  /** `result[np.logical_and(isWeak, np.invert(continuity))] = 0`, after the loop. */
  method DropWhere(result: array2<Byte>, isWeak: array2<bool>, continuity: array2<bool>, ghost cur: Grid<Byte>)
    requires Mirrors(cur, result) && NonEmpty(cur)
    requires isWeak.Length0 == result.Length0 && isWeak.Length1 == result.Length1
    requires continuity.Length0 == result.Length0 && continuity.Length1 == result.Length1
    requires forall y, x | 0 <= y < result.Length0 && 0 <= x < result.Length1 ::
      (isWeak[y, x] <==> cur[y][x] == Weak) && (continuity[y, x] <==> Continuity(cur, y, x))
    modifies result
    ensures Snapshot(result) == DropUnlinked(cur)
  {
    var notContinuity := Invert(continuity);
    var unlinked := LogicalAnd(isWeak, notContinuity);
    AssignWhere(result, unlinked, 0);
    SnapshotIs(result, DropUnlinked(cur));
  }

  /**
   * One pass of the `while(True)` loop: the masks, then either the break
   * (nothing to promote; the result reports `false`) or the promotion
   * (`true`).
   */
  method Pass(result: array2<Byte>, ghost cur: Grid<Byte>) returns (r: Result<(bool, array2<bool>, array2<bool>)>)
    requires Mirrors(cur, result)
    modifies result
    ensures r.Ok? <==> result.Length0 > 0 && result.Length1 > 0
    ensures r.Err? ==> r.error == IndexOutOfRange && Snapshot(result) == cur
    ensures r.Ok? ==> NonEmpty(cur) && (r.value.0 <==> AnyPromotion(cur))
    ensures r.Ok? && r.value.0 ==> Snapshot(result) == Promote(cur)
    ensures r.Ok? && !r.value.0 ==> Snapshot(result) == cur && fresh(r.value.1) && fresh(r.value.2)
    ensures r.Ok? && !r.value.0 ==>
      r.value.1.Length0 == result.Length0 && r.value.1.Length1 == result.Length1 &&
      r.value.2.Length0 == result.Length0 && r.value.2.Length1 == result.Length1
    ensures r.Ok? && !r.value.0 ==> forall y, x | 0 <= y < result.Length0 && 0 <= x < result.Length1 ::
      (r.value.1[y, x] <==> cur[y][x] == Weak) && (r.value.2[y, x] <==> Continuity(cur, y, x))
  {
    SnapshotIs(result, cur);
    var masks := PassMasks(result, cur);
    if masks.Err? {
      return Err(masks.error);
    }
    var (isWeak, continuity) := masks.value;
    var weakToStrong := LogicalAnd(isWeak, continuity);
    var any := Any(weakToStrong);
    if !any {
      forall y, x | InGrid(cur, y, x)
        ensures !Promotable(cur, y, x)
      {
        assert !weakToStrong[y, x];
      }
      return Ok((false, isWeak, continuity));
    }
    PromoteWhere(result, weakToStrong, cur);
    return Ok((true, isWeak, continuity));
  }

  /**
   * The `while(True)` loop of `edgeTracking`: passes until one promotes
   * nothing. It returns the masks of that last pass, which the final
   * clearing step reuses.
   */
  method Passes(result: array2<Byte>, ghost g: Grid<Byte>) returns (r: Result<(array2<bool>, array2<bool>)>)
    requires Mirrors(g, result)
    modifies result
    ensures r.Ok? <==> result.Length0 > 0 && result.Length1 > 0
    ensures r.Err? ==> r.error == IndexOutOfRange
    ensures r.Ok? ==> fresh(r.value.0) && fresh(r.value.1) && NonEmpty(g) && Snapshot(result) == Settle(g)
    ensures r.Ok? ==> r.value.0.Length0 == result.Length0 && r.value.0.Length1 == result.Length1
    ensures r.Ok? ==> r.value.1.Length0 == result.Length0 && r.value.1.Length1 == result.Length1
    ensures r.Ok? ==> forall y, x | 0 <= y < result.Length0 && 0 <= x < result.Length1 ::
      (r.value.0[y, x] <==> Settle(g)[y][x] == Weak) && (r.value.1[y, x] <==> Continuity(Settle(g), y, x))
  {
    SnapshotIs(result, g);
    ghost var cur := g;
    while true
      invariant cur == Snapshot(result)
      invariant NonEmpty(g) ==> NonEmpty(cur) && Settle(cur) == Settle(g)
      decreases CountWeak(cur)
    {
      var pass := Pass(result, cur);
      if pass.Err? {
        return Err(pass.error);
      }
      if !pass.value.0 {
        return Ok((pass.value.1, pass.value.2));
      }
      PromoteDecreasesWeak(cur);
      cur := Promote(cur);
    }
  }

  /**
   * `edgeTracking(Im)`: on an empty image the first shift raises; otherwise
   * the result is `Track` of the input, and the input is left unchanged.
   */
  method EdgeTracking(im: array2<Byte>) returns (r: Result<array2<Byte>>)
    ensures r.Ok? <==> im.Length0 > 0 && im.Length1 > 0
    ensures r.Err? ==> r.error == IndexOutOfRange
    ensures r.Ok? ==> fresh(r.value) && r.value.Length0 == im.Length0 && r.value.Length1 == im.Length1
    ensures r.Ok? ==> NonEmpty(Snapshot(im)) && Snapshot(r.value) == Track(Snapshot(im))
  {
    ghost var g := Snapshot(im);
    var result := CopyGrid(im);
    var masks := Passes(result, g);
    if masks.Err? {
      return Err(masks.error);
    }
    // result[np.logical_and(isWeak, np.invert(continuity))] = 0
    DropWhere(result, masks.value.0, masks.value.1, Settle(g));
    return Ok(result);
  }
}
