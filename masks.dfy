/**
 * The numpy idioms the thresholding and tracking code is written in:
 * element-wise comparisons that produce boolean masks, `np.logical_and`,
 * `np.invert`, `np.any` and the masked assignment
 * `result[mask] = v`.
 */
module Masks {
  import opened Grids

  /** `a < t`, element by element. */
  method Below(a: array2<real>, t: real) returns (m: array2<bool>)
    ensures fresh(m) && m.Length0 == a.Length0 && m.Length1 == a.Length1
    ensures forall y, x | 0 <= y < a.Length0 && 0 <= x < a.Length1 :: m[y, x] <==> a[y, x] < t
  {
    m := new bool[a.Length0, a.Length1];
    var y := 0;
    while y < a.Length0
      invariant 0 <= y <= a.Length0
      invariant forall y', x | 0 <= y' < y && 0 <= x < a.Length1 :: m[y', x] <==> a[y', x] < t
    {
      var x := 0;
      while x < a.Length1
        invariant 0 <= x <= a.Length1
        invariant forall y', x' | 0 <= y' < y && 0 <= x' < a.Length1 :: m[y', x'] <==> a[y', x'] < t
        invariant forall x' | 0 <= x' < x :: m[y, x'] <==> a[y, x'] < t
      {
        m[y, x] := a[y, x] < t;
        x := x + 1;
      }
      y := y + 1;
    }
  }

  /** `a >= t`, element by element. */
  method AtLeast(a: array2<real>, t: real) returns (m: array2<bool>)
    ensures fresh(m) && m.Length0 == a.Length0 && m.Length1 == a.Length1
    ensures forall y, x | 0 <= y < a.Length0 && 0 <= x < a.Length1 :: m[y, x] <==> a[y, x] >= t
  {
    m := new bool[a.Length0, a.Length1];
    var y := 0;
    while y < a.Length0
      invariant 0 <= y <= a.Length0
      invariant forall y', x | 0 <= y' < y && 0 <= x < a.Length1 :: m[y', x] <==> a[y', x] >= t
    {
      var x := 0;
      while x < a.Length1
        invariant 0 <= x <= a.Length1
        invariant forall y', x' | 0 <= y' < y && 0 <= x' < a.Length1 :: m[y', x'] <==> a[y', x'] >= t
        invariant forall x' | 0 <= x' < x :: m[y, x'] <==> a[y, x'] >= t
      {
        m[y, x] := a[y, x] >= t;
        x := x + 1;
      }
      y := y + 1;
    }
  }

  /** `a == v`, element by element. */
  method EqualTo(a: array2<Byte>, v: Byte) returns (m: array2<bool>)
    ensures fresh(m) && m.Length0 == a.Length0 && m.Length1 == a.Length1
    ensures forall y, x | 0 <= y < a.Length0 && 0 <= x < a.Length1 :: m[y, x] <==> a[y, x] == v
  {
    m := new bool[a.Length0, a.Length1];
    var y := 0;
    while y < a.Length0
      invariant 0 <= y <= a.Length0
      invariant forall y', x | 0 <= y' < y && 0 <= x < a.Length1 :: m[y', x] <==> a[y', x] == v
    {
      var x := 0;
      while x < a.Length1
        invariant 0 <= x <= a.Length1
        invariant forall y', x' | 0 <= y' < y && 0 <= x' < a.Length1 :: m[y', x'] <==> a[y', x'] == v
        invariant forall x' | 0 <= x' < x :: m[y, x'] <==> a[y, x'] == v
      {
        m[y, x] := a[y, x] == v;
        x := x + 1;
      }
      y := y + 1;
    }
  }

  /** `np.logical_and(p, q)` on masks of one shape. */
  method LogicalAnd(p: array2<bool>, q: array2<bool>) returns (m: array2<bool>)
    requires q.Length0 == p.Length0 && q.Length1 == p.Length1
    ensures fresh(m) && m.Length0 == p.Length0 && m.Length1 == p.Length1
    ensures forall y, x | 0 <= y < p.Length0 && 0 <= x < p.Length1 :: m[y, x] <==> p[y, x] && q[y, x]
  {
    m := new bool[p.Length0, p.Length1];
    var y := 0;
    while y < p.Length0
      invariant 0 <= y <= p.Length0
      invariant forall y', x | 0 <= y' < y && 0 <= x < p.Length1 :: m[y', x] <==> p[y', x] && q[y', x]
    {
      var x := 0;
      while x < p.Length1
        invariant 0 <= x <= p.Length1
        invariant forall y', x' | 0 <= y' < y && 0 <= x' < p.Length1 :: m[y', x'] <==> p[y', x'] && q[y', x']
        invariant forall x' | 0 <= x' < x :: m[y, x'] <==> p[y, x'] && q[y, x']
      {
        m[y, x] := p[y, x] && q[y, x];
        x := x + 1;
      }
      y := y + 1;
    }
  }

  /** `np.invert(p)` on a boolean mask. */
  method Invert(p: array2<bool>) returns (m: array2<bool>)
    ensures fresh(m) && m.Length0 == p.Length0 && m.Length1 == p.Length1
    ensures forall y, x | 0 <= y < p.Length0 && 0 <= x < p.Length1 :: m[y, x] <==> !p[y, x]
  {
    m := new bool[p.Length0, p.Length1];
    var y := 0;
    while y < p.Length0
      invariant 0 <= y <= p.Length0
      invariant forall y', x | 0 <= y' < y && 0 <= x < p.Length1 :: m[y', x] <==> !p[y', x]
    {
      var x := 0;
      while x < p.Length1
        invariant 0 <= x <= p.Length1
        invariant forall y', x' | 0 <= y' < y && 0 <= x' < p.Length1 :: m[y', x'] <==> !p[y', x']
        invariant forall x' | 0 <= x' < x :: m[y, x'] <==> !p[y, x']
      {
        m[y, x] := !p[y, x];
        x := x + 1;
      }
      y := y + 1;
    }
  }

  /** `np.any(p)`: some entry of the mask is set. */
  method Any(p: array2<bool>) returns (b: bool)
    ensures b <==> exists y, x | 0 <= y < p.Length0 && 0 <= x < p.Length1 :: p[y, x]
  {
    var y := 0;
    while y < p.Length0
      invariant 0 <= y <= p.Length0
      invariant forall y', x | 0 <= y' < y && 0 <= x < p.Length1 :: !p[y', x]
    {
      var x := 0;
      while x < p.Length1
        invariant 0 <= x <= p.Length1
        invariant forall x' | 0 <= x' < x :: !p[y, x']
      {
        if p[y, x] {
          return true;
        }
        x := x + 1;
      }
      y := y + 1;
    }
    return false;
  }

  /** `a[p] = v`: every entry under the mask becomes `v`, the others keep their value. */
  method AssignWhere(a: array2<Byte>, p: array2<bool>, v: Byte)
    requires p.Length0 == a.Length0 && p.Length1 == a.Length1
    modifies a
    ensures forall y, x | 0 <= y < a.Length0 && 0 <= x < a.Length1 ::
      a[y, x] == if p[y, x] then v else old(a[y, x])
  {
    var y := 0;
    while y < a.Length0
      invariant 0 <= y <= a.Length0
      invariant forall y', x | 0 <= y' < a.Length0 && 0 <= x < a.Length1 ::
        a[y', x] == if y' < y && p[y', x] then v else old(a[y', x])
    {
      var x := 0;
      while x < a.Length1
        invariant 0 <= x <= a.Length1
        invariant forall y', x' | 0 <= y' < a.Length0 && 0 <= x' < a.Length1 && y' != y ::
          a[y', x'] == if y' < y && p[y', x'] then v else old(a[y', x'])
        invariant forall x' | 0 <= x' < a.Length1 ::
          a[y, x'] == if x' < x && p[y, x'] then v else old(a[y, x'])
      {
        if p[y, x] {
          a[y, x] := v;
        }
        x := x + 1;
      }
      y := y + 1;
    }
  }
}
