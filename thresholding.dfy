/**
 * `doubleThresholding`: the suppressed gradient magnitudes are sorted
 * into non-edges (0), weak edges (127) and strong edges (255) by two
 * thresholds, through three masked assignments into a uint8 array of
 * zeros, in the order 0, 127, 255.
 */
module Thresholding {
  import opened Grids
  import opened Masks

  /**
   * The class one magnitude `v` ends up with. The masked assignments are
   * applied in order, so a later mask wins where two overlap.
   */
  function Classify(v: real, t1: real, t2: real): (b: Byte)
    ensures b == 0 || b == Weak || b == Strong
    ensures b == Strong <==> v >= t2
    ensures b == Weak <==> t1 <= v < t2
    ensures b == 0 <==> v < t1 && v < t2
  {
    if v >= t2 then Strong
    else if t1 <= v && v < t2 then Weak
    else 0
  }

  /** With ordered thresholds a magnitude is a non-edge exactly when it is below the low one. */
  lemma ClassifyOrdered(v: real, t1: real, t2: real)
    requires t1 <= t2
    ensures Classify(v, t1, t2) == 0 <==> v < t1
  {
  }

  /** Equal thresholds leave no weak edges: every pixel is 0 or 255. */
  lemma EqualThresholdsNoWeak(v: real, t: real)
    ensures Classify(v, t, t) != Weak
    ensures Classify(v, t, t) == (if v >= t then Strong else 0)
  {
  }

  /** A larger magnitude never gets a lower class. */
  lemma ClassifyMonotone(v: real, v': real, t1: real, t2: real)
    requires v <= v'
    ensures Classify(v, t1, t2) <= Classify(v', t1, t2)
  {
  }

  /** `doubleThresholding(Im, threshold1, threshold2)`. */
  method DoubleThresholding(im: array2<real>, t1: real, t2: real) returns (result: array2<Byte>)
    ensures fresh(result) && result.Length0 == im.Length0 && result.Length1 == im.Length1
    ensures forall y, x | 0 <= y < im.Length0 && 0 <= x < im.Length1 ::
      result[y, x] == Classify(im[y, x], t1, t2)
  {
    // np.zeros_like(Im, dtype=np.uint8)
    result := new Byte[im.Length0, im.Length1]((y, x) => 0);
    var low := Below(im, t1);
    AssignWhere(result, low, 0);
    var atLeastLow := AtLeast(im, t1);
    var belowHigh := Below(im, t2);
    var between := LogicalAnd(atLeastLow, belowHigh);
    AssignWhere(result, between, Weak);
    var high := AtLeast(im, t2);
    AssignWhere(result, high, Strong);
  }
}
