/**
 * What `edgeTracking` computes, on values. Each pass of its loop compares
 * every pixel with the maximum of its eight border-clamped shifted copies
 * and turns every weak pixel (127) that sees a strong one (255) into a
 * strong one, all at once; the loop stops at the first pass that changes
 * nothing, and the weak pixels left over become 0.
 *
 * The main results: the loop terminates, only weak pixels change, no weak
 * pixel survives, and a weak pixel of the input ends strong exactly when a
 * chain of 8-connected weak input pixels leads from it to a pixel next to
 * a strong input pixel.
 */
module Hysteresis {
  import opened Grids

  /** The offsets (i, j) of the eight shifted copies, in the order of the two nested loops. */
  const Offsets: seq<(int, int)> := [(-1, -1), (-1, 0), (-1, 1), (0, -1), (0, 1), (1, -1), (1, 0), (1, 1)]

  /** (y, x) is a pixel of `g`. */
  predicate InGrid<T>(g: Grid<T>, y: int, x: int)
  {
    0 <= y < |g| && 0 <= x < |g[y]|
  }

  /** The index of offset (i, j) among the eight. */
  function OffsetIndex(i: int, j: int): (n: int)
    requires -1 <= i <= 1 && -1 <= j <= 1 && (i != 0 || j != 0)
    ensures 0 <= n < |Offsets| && Offsets[n] == (i, j)
  {
    var k := 3 * (i + 1) + (j + 1);
    if k < 4 then k else k - 1
  }

  /** The value the n-th shifted copy holds at (y, x): the input at the border-clamped position. */
  function NeighbourAt(g: Grid<Byte>, y: int, x: int, n: int): Byte
    requires NonEmpty(g) && 0 <= n < |Offsets|
  {
    g[Clamp(y + Offsets[n].0, |g|)][Clamp(x + Offsets[n].1, Width(g))]
  }

  function MaxByte(a: Byte, b: Byte): Byte
  {
    if a < b then b else a
  }

  /** `np.max(neighbor, axis=0)` at (y, x), over the first `n` shifted copies. */
  function MaxUpTo(g: Grid<Byte>, y: int, x: int, n: int): Byte
    requires NonEmpty(g) && 1 <= n <= |Offsets|
  {
    if n == 1 then NeighbourAt(g, y, x, 0)
    else MaxByte(MaxUpTo(g, y, x, n - 1), NeighbourAt(g, y, x, n - 1))
  }

  function NeighbourMax(g: Grid<Byte>, y: int, x: int): Byte
    requires NonEmpty(g)
  {
    MaxUpTo(g, y, x, |Offsets|)
  }

  /**
   * `continuity`: the largest shifted value at (y, x) is strong. Since 255
   * is the largest uint8 value, that is so exactly when one of the eight
   * shifted copies holds 255 there.
   */
  function Continuity(g: Grid<Byte>, y: int, x: int): (c: bool)
    requires NonEmpty(g)
    ensures c <==> exists n | 0 <= n < |Offsets| :: NeighbourAt(g, y, x, n) == Strong
  {
    MaxUpToIsMax(g, y, x, |Offsets|);
    NeighbourMax(g, y, x) == Strong
  }

  /** `weakToStrong` at (y, x): a weak pixel with a strong true 8-neighbour. */
  function Promotable(g: Grid<Byte>, y: int, x: int): (p: bool)
    requires NonEmpty(g) && InGrid(g, y, x)
    ensures p <==> g[y][x] == Weak && TouchesStrong(g, y, x)
  {
    if g[y][x] == Weak then
      ContinuityIff(g, y, x);
      Continuity(g, y, x)
    else
      false
  }

  /** `np.any(weakToStrong)`: it holds exactly when the pass would change the grid. */
  ghost function AnyPromotion(g: Grid<Byte>): (a: bool)
    requires NonEmpty(g)
    ensures a <==> Promote(g) != g
  {
    PromoteChangesIff(g);
    exists y, x | InGrid(g, y, x) :: Promotable(g, y, x)
  }

  /** A pass changes the grid exactly when some pixel is promotable. */
  lemma PromoteChangesIff(g: Grid<Byte>)
    requires NonEmpty(g)
    ensures (exists y, x | InGrid(g, y, x) :: Promotable(g, y, x)) <==> Promote(g) != g
  {
    var p := Promote(g);
    if exists y, x | InGrid(g, y, x) :: Promotable(g, y, x) {
      var y, x :| InGrid(g, y, x) && Promotable(g, y, x);
      assert p[y][x] != g[y][x];
    } else {
      forall y | 0 <= y < |g|
        ensures p[y] == g[y]
      {
        assert forall x | 0 <= x < |g[y]| :: p[y][x] == g[y][x];
      }
    }
  }

  /** One pass of the loop: `result[weakToStrong] = 255`, all pixels decided on the old grid. */
  function Promote(g: Grid<Byte>): (p: Grid<Byte>)
    requires NonEmpty(g)
    ensures NonEmpty(p) && |p| == |g| && Width(p) == Width(g)
    ensures forall y, x | InGrid(g, y, x) :: p[y][x] == if Promotable(g, y, x) then Strong else g[y][x]
  {
    seq(|g|, y requires 0 <= y < |g| =>
      seq(Width(g), x requires 0 <= x < Width(g) => if Promotable(g, y, x) then Strong else g[y][x]))
  }

  /** The number of weak pixels in a row. */
  function CountRow(r: seq<Byte>): nat
  {
    if |r| == 0 then 0 else CountRow(r[..|r| - 1]) + (if r[|r| - 1] == Weak then 1 else 0)
  }

  /** The number of weak pixels in a grid: the measure that bounds the loop. */
  function CountWeak(g: Grid<Byte>): nat
  {
    if |g| == 0 then 0 else CountWeak(g[..|g| - 1]) + CountRow(g[|g| - 1])
  }

  /** The passes of the loop, until one promotes nothing. */
  ghost function Settle(g: Grid<Byte>): (s: Grid<Byte>)
    requires NonEmpty(g)
    ensures NonEmpty(s) && |s| == |g| && Width(s) == Width(g)
    decreases CountWeak(g)
  {
    if AnyPromotion(g) then
      PromoteDecreasesWeak(g);
      Settle(Promote(g))
    else g
  }

  /** After the loop: `result[isWeak & ~continuity] = 0`, from the last pass's masks. */
  function DropUnlinked(g: Grid<Byte>): (d: Grid<Byte>)
    requires NonEmpty(g)
    ensures NonEmpty(d) && |d| == |g| && Width(d) == Width(g)
    ensures forall y, x | InGrid(g, y, x) :: d[y][x] == if g[y][x] == Weak && !Continuity(g, y, x) then 0 else g[y][x]
  {
    seq(|g|, y requires 0 <= y < |g| =>
      seq(Width(g), x requires 0 <= x < Width(g) => if g[y][x] == Weak && !Continuity(g, y, x) then 0 else g[y][x]))
  }

  /** `edgeTracking(Im)` on a non-empty image. */
  ghost function Track(g: Grid<Byte>): (t: Grid<Byte>)
    requires NonEmpty(g)
    ensures NonEmpty(t) && |t| == |g| && Width(t) == Width(g)
  {
    DropUnlinked(Settle(g))
  }

  // ---------------------------------------------------------------
  // Termination
  // ---------------------------------------------------------------

  /** Fewer weak pixels, pointwise, in a row of the same length means a smaller count. */
  lemma {:induction false} CountRowShrinks(r: seq<Byte>, r': seq<Byte>)
    requires |r'| == |r| && forall i | 0 <= i < |r| :: r'[i] == Weak ==> r[i] == Weak
    ensures CountRow(r') <= CountRow(r)
    ensures (exists i | 0 <= i < |r| :: r[i] == Weak && r'[i] != Weak) ==> CountRow(r') < CountRow(r)
  {
    if |r| > 0 {
      var n := |r| - 1;
      CountRowShrinks(r[..n], r'[..n]);
      if exists i | 0 <= i < |r| :: r[i] == Weak && r'[i] != Weak {
        var i :| 0 <= i < |r| && r[i] == Weak && r'[i] != Weak;
        if i < n {
          assert r[..n][i] == Weak && r'[..n][i] != Weak;
        }
      }
    }
  }

  lemma {:induction false} CountWeakShrinks(g: Grid<Byte>, g': Grid<Byte>)
    requires |g'| == |g| && forall y | 0 <= y < |g| :: |g'[y]| == |g[y]|
    requires forall y, x | InGrid(g, y, x) :: g'[y][x] == Weak ==> g[y][x] == Weak
    ensures CountWeak(g') <= CountWeak(g)
    ensures (exists y, x | InGrid(g, y, x) :: g[y][x] == Weak && g'[y][x] != Weak) ==> CountWeak(g') < CountWeak(g)
  {
    if |g| > 0 {
      var n := |g| - 1;
      CountWeakShrinks(g[..n], g'[..n]);
      CountRowShrinks(g[n], g'[n]);
      if exists y, x | InGrid(g, y, x) :: g[y][x] == Weak && g'[y][x] != Weak {
        var y, x :| InGrid(g, y, x) && g[y][x] == Weak && g'[y][x] != Weak;
        if y < n {
          assert InGrid(g[..n], y, x) && g[..n][y][x] == Weak && g'[..n][y][x] != Weak;
        } else {
          assert g[n][x] == Weak && g'[n][x] != Weak;
        }
      }
    }
  }

  /** A pass that promotes something removes at least one weak pixel, so the loop terminates. */
  lemma PromoteDecreasesWeak(g: Grid<Byte>)
    requires NonEmpty(g) && AnyPromotion(g)
    ensures CountWeak(Promote(g)) < CountWeak(g)
  {
    var p := Promote(g);
    var y, x :| InGrid(g, y, x) && Promotable(g, y, x);
    assert g[y][x] == Weak && p[y][x] != Weak;
    CountWeakShrinks(g, p);
  }

  // ---------------------------------------------------------------
  // The neighbourhood the shifted copies cover
  // ---------------------------------------------------------------

  /** Two distinct pixels that touch, along an edge or at a corner. */
  predicate Adjacent(y: int, x: int, y': int, x': int)
  {
    Dist(y, y') <= 1 && Dist(x, x') <= 1 && (y != y' || x != x')
  }

  /** Some 8-neighbour of (y, x) in `g` is strong. */
  ghost predicate TouchesStrong(g: Grid<Byte>, y: int, x: int)
  {
    exists y', x' | InGrid(g, y', x') && Adjacent(y, x, y', x') :: g[y'][x'] == Strong
  }

  /** A clamped shift by one of the eight offsets lands on a true 8-neighbour or on the pixel itself. */
  lemma ClampedNeighbourIsAdjacentOrSelf(g: Grid<Byte>, y: int, x: int, n: int)
    requires NonEmpty(g) && InGrid(g, y, x) && 0 <= n < |Offsets|
    ensures InGrid(g, Clamp(y + Offsets[n].0, |g|), Clamp(x + Offsets[n].1, Width(g)))
    ensures Adjacent(y, x, Clamp(y + Offsets[n].0, |g|), Clamp(x + Offsets[n].1, Width(g)))
      || (Clamp(y + Offsets[n].0, |g|) == y && Clamp(x + Offsets[n].1, Width(g)) == x)
  {
  }

  /** The fold is the maximum of the shifted values: it bounds each of them and equals one. */
  lemma {:induction false} MaxUpToIsMax(g: Grid<Byte>, y: int, x: int, n: int)
    requires NonEmpty(g) && 1 <= n <= |Offsets|
    ensures forall m | 0 <= m < n :: NeighbourAt(g, y, x, m) <= MaxUpTo(g, y, x, n)
    ensures exists m | 0 <= m < n :: NeighbourAt(g, y, x, m) == MaxUpTo(g, y, x, n)
  {
    if n > 1 {
      MaxUpToIsMax(g, y, x, n - 1);
    } else {
      assert NeighbourAt(g, y, x, 0) == MaxUpTo(g, y, x, 1);
    }
  }

  /** A strong value among the shifted copies comes from a true 8-neighbour, unless it is the pixel itself. */
  lemma ContinuitySeesNeighbour(g: Grid<Byte>, y: int, x: int)
    requires NonEmpty(g) && InGrid(g, y, x) && g[y][x] != Strong && Continuity(g, y, x)
    ensures TouchesStrong(g, y, x)
  {
    MaxUpToIsMax(g, y, x, |Offsets|);
    var m :| 0 <= m < |Offsets| && NeighbourAt(g, y, x, m) == Strong;
    ClampedNeighbourIsAdjacentOrSelf(g, y, x, m);
    var y', x' := Clamp(y + Offsets[m].0, |g|), Clamp(x + Offsets[m].1, Width(g));
    assert InGrid(g, y', x') && Adjacent(y, x, y', x') && g[y'][x'] == Strong;
  }

  /** Every true 8-neighbour is one of the shifted copies. */
  lemma NeighbourSeen(g: Grid<Byte>, y: int, x: int, y': int, x': int)
    requires NonEmpty(g) && InGrid(g, y, x) && InGrid(g, y', x') && Adjacent(y, x, y', x')
    ensures NeighbourAt(g, y, x, OffsetIndex(y' - y, x' - x)) == g[y'][x']
  {
  }

  /**
   * For a pixel that is not itself strong, `continuity` holds exactly when
   * one of its true 8-neighbours is strong: border clamping adds only the
   * pixel itself.
   */
  lemma ContinuityIff(g: Grid<Byte>, y: int, x: int)
    requires NonEmpty(g) && InGrid(g, y, x) && g[y][x] != Strong
    ensures Continuity(g, y, x) <==> TouchesStrong(g, y, x)
  {
    if Continuity(g, y, x) {
      ContinuitySeesNeighbour(g, y, x);
    }
    if TouchesStrong(g, y, x) {
      var y', x' :| InGrid(g, y', x') && Adjacent(y, x, y', x') && g[y'][x'] == Strong;
      NeighbourSeen(g, y, x, y', x');
      MaxUpToIsMax(g, y, x, |Offsets|);
    }
  }

  // ---------------------------------------------------------------
  // Chains of weak pixels
  // ---------------------------------------------------------------

  /** A non-empty path of weak pixels of `g`, each touching the next. */
  predicate WeakChain(g: Grid<Byte>, path: seq<(int, int)>)
  {
    && |path| > 0
    && (forall i | 0 <= i < |path| :: InGrid(g, path[i].0, path[i].1) && g[path[i].0][path[i].1] == Weak)
    && (forall i | 0 <= i < |path| - 1 :: Adjacent(path[i].0, path[i].1, path[i + 1].0, path[i + 1].1))
  }

  /** A chain of weak pixels leads from (y, x) to a pixel that touches a strong one. */
  ghost predicate LinkedToStrong(g: Grid<Byte>, y: int, x: int)
  {
    exists path: seq<(int, int)> | WeakChain(g, path) && path[0] == (y, x) :: TouchesStrong(g, path[|path| - 1].0, path[|path| - 1].1)
  }

  /** A weak pixel next to the start of a chain extends it. */
  lemma ChainExtend(g: Grid<Byte>, y: int, x: int, path: seq<(int, int)>)
    requires WeakChain(g, path) && InGrid(g, y, x) && g[y][x] == Weak
    requires Adjacent(y, x, path[0].0, path[0].1)
    ensures WeakChain(g, [(y, x)] + path)
  {
    var ext := [(y, x)] + path;
    forall i | 0 <= i < |ext| - 1
      ensures Adjacent(ext[i].0, ext[i].1, ext[i + 1].0, ext[i + 1].1)
    {
      if i > 0 {
        assert ext[i] == path[i - 1] && ext[i + 1] == path[i];
      }
    }
  }

  /** The tail of a chain of length two or more is a chain. */
  lemma ChainTail(g: Grid<Byte>, path: seq<(int, int)>)
    requires WeakChain(g, path) && |path| > 1
    ensures WeakChain(g, path[1..])
  {
    var tail := path[1..];
    forall i | 0 <= i < |tail| - 1
      ensures Adjacent(tail[i].0, tail[i].1, tail[i + 1].0, tail[i + 1].1)
    {
      assert tail[i] == path[i + 1] && tail[i + 1] == path[i + 2];
    }
  }

  // ---------------------------------------------------------------
  // What the loop keeps true
  // ---------------------------------------------------------------

  /** `s` is `g` with some weak pixels turned strong, and nothing else changed. */
  ghost predicate Grows(g: Grid<Byte>, s: Grid<Byte>)
    requires NonEmpty(g)
  {
    IsGrid(s, |g|, Width(g)) && forall y, x | InGrid(g, y, x) :: s[y][x] == g[y][x] || (g[y][x] == Weak && s[y][x] == Strong)
  }

  /** Every pixel of `s` that was weak in `g` and is strong now is linked to a strong pixel of `g`. */
  ghost predicate Explained(g: Grid<Byte>, s: Grid<Byte>)
    requires NonEmpty(g) && Grows(g, s)
  {
    forall y, x | InGrid(g, y, x) && g[y][x] == Weak && s[y][x] == Strong :: LinkedToStrong(g, y, x)
  }

  /** A pixel a pass promotes is linked to a strong pixel of `g`. */
  lemma PromotedIsLinked(g: Grid<Byte>, s: Grid<Byte>, y: int, x: int)
    requires NonEmpty(g) && Grows(g, s) && Explained(g, s)
    requires InGrid(g, y, x) && Promotable(s, y, x)
    ensures LinkedToStrong(g, y, x)
  {
    ContinuityIff(s, y, x);
    var y', x' :| InGrid(s, y', x') && Adjacent(y, x, y', x') && s[y'][x'] == Strong;
    if g[y'][x'] == Strong {
      var path := [(y, x)];
      assert TouchesStrong(g, y, x);
      assert WeakChain(g, path) && path[0] == (y, x);
    } else {
      var path: seq<(int, int)> :| WeakChain(g, path) && path[0] == (y', x')
        && TouchesStrong(g, path[|path| - 1].0, path[|path| - 1].1);
      ChainExtend(g, y, x, path);
      var ext := [(y, x)] + path;
      assert ext[0] == (y, x) && ext[|ext| - 1] == path[|path| - 1];
    }
  }

  /** One pass keeps both invariants. */
  lemma PromoteKeeps(g: Grid<Byte>, s: Grid<Byte>)
    requires NonEmpty(g) && Grows(g, s) && Explained(g, s)
    ensures Grows(g, Promote(s)) && Explained(g, Promote(s))
  {
    var p := Promote(s);
    forall y, x | InGrid(g, y, x) && g[y][x] == Weak && p[y][x] == Strong
      ensures LinkedToStrong(g, y, x)
    {
      if s[y][x] != Strong {
        PromotedIsLinked(g, s, y, x);
      }
    }
  }

  /** The whole loop keeps both invariants and ends at a grid no pass changes. */
  lemma {:induction false} SettleKeeps(g: Grid<Byte>, s: Grid<Byte>)
    requires NonEmpty(g) && Grows(g, s) && Explained(g, s)
    ensures Grows(g, Settle(s)) && Explained(g, Settle(s)) && !AnyPromotion(Settle(s))
    decreases CountWeak(s)
  {
    if AnyPromotion(s) {
      PromoteKeeps(g, s);
      PromoteDecreasesWeak(s);
      SettleKeeps(g, Promote(s));
    }
  }

  /** In a grid no pass changes, a pixel that touches a strong one is not weak. */
  lemma StableTouchingIsNotWeak(s: Grid<Byte>, y: int, x: int)
    requires NonEmpty(s) && InGrid(s, y, x) && !AnyPromotion(s) && TouchesStrong(s, y, x)
    ensures s[y][x] != Weak
  {
    if s[y][x] != Strong {
      ContinuityIff(s, y, x);
      assert !Promotable(s, y, x);
    }
  }

  /** In a grid grown from `g` that no pass changes, the start of every linked chain of `g` is strong. */
  lemma {:induction false} StableChain(g: Grid<Byte>, s: Grid<Byte>, path: seq<(int, int)>)
    requires NonEmpty(g) && Grows(g, s) && !AnyPromotion(s)
    requires WeakChain(g, path) && TouchesStrong(g, path[|path| - 1].0, path[|path| - 1].1)
    ensures s[path[0].0][path[0].1] == Strong
    decreases |path|
  {
    var (y, x) := path[0];
    if |path| == 1 {
      var y', x' :| InGrid(g, y', x') && Adjacent(y, x, y', x') && g[y'][x'] == Strong;
      assert s[y'][x'] == Strong;
    } else {
      ChainTail(g, path);
      StableChain(g, s, path[1..]);
      assert Adjacent(y, x, path[1].0, path[1].1);
    }
    assert TouchesStrong(s, y, x);
    StableTouchingIsNotWeak(s, y, x);
  }

  // ---------------------------------------------------------------
  // What `edgeTracking` returns
  // ---------------------------------------------------------------

  /** Pixels other than weak ones keep their value, and every weak pixel ends as 0 or 255. */
  lemma TrackOutcome(g: Grid<Byte>)
    requires NonEmpty(g)
    ensures forall y, x | InGrid(g, y, x) :: g[y][x] != Weak ==> Track(g)[y][x] == g[y][x]
    ensures forall y, x | InGrid(g, y, x) :: g[y][x] == Weak ==> Track(g)[y][x] == 0 || Track(g)[y][x] == Strong
    ensures forall y, x | InGrid(g, y, x) :: Track(g)[y][x] != Weak
  {
    SettleKeeps(g, g);
    var s := Settle(g);
    forall y, x | InGrid(g, y, x) && s[y][x] == Weak
      ensures !Continuity(s, y, x)
    {
      assert !Promotable(s, y, x);
    }
  }

  /**
   * The hysteresis theorem: a weak pixel of the input ends strong exactly
   * when a chain of 8-connected weak pixels leads from it to a pixel next
   * to a strong one.
   */
  lemma TrackLinksExactly(g: Grid<Byte>, y: int, x: int)
    requires NonEmpty(g) && InGrid(g, y, x) && g[y][x] == Weak
    ensures Track(g)[y][x] == Strong <==> LinkedToStrong(g, y, x)
  {
    SettleKeeps(g, g);
    var s := Settle(g);
    if LinkedToStrong(g, y, x) {
      var path: seq<(int, int)> :| WeakChain(g, path) && path[0] == (y, x)
        && TouchesStrong(g, path[|path| - 1].0, path[|path| - 1].1);
      StableChain(g, s, path);
    }
  }
}
