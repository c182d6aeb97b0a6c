/** Square integer fields held in place (`array2`), their value-level view (`Grid`), the
    extremum scan, the range, and the in-place rescale onto [0, target - 1]. */
module Grids {

  /** A grid as a value: a sequence of rows, indexed [row][col]. */
  type Grid<T> = seq<seq<T>>

  predicate IsRect<T>(m: Grid<T>, rows: nat, cols: nat) {
    |m| == rows && forall r :: 0 <= r < rows ==> |m[r]| == cols
  }

  /** At least one row, and no empty row. */
  predicate NonEmpty<T>(m: Grid<T>) {
    |m| > 0 && forall r :: 0 <= r < |m| ==> |m[r]| > 0
  }

  /** The current contents of an in-place grid, row by row. */
  function Cells<T>(g: array2<T>): (m: Grid<T>)
    reads g
    ensures IsRect(m, g.Length0, g.Length1)
    ensures forall r, c :: 0 <= r < g.Length0 && 0 <= c < g.Length1 ==> m[r][c] == g[r, c]
  {
    seq(g.Length0, r requires 0 <= r < g.Length0 reads g =>
      seq(g.Length1, c requires 0 <= c < g.Length1 reads g => g[r, c]))
  }

  /** Two grids with the same shape and the same cells are equal. */
  lemma GridExt<T>(a: Grid<T>, b: Grid<T>)
    requires |a| == |b|
    requires forall r :: 0 <= r < |a| ==> |a[r]| == |b[r]|
    requires forall r, c :: 0 <= r < |a| && 0 <= c < |a[r]| ==> a[r][c] == b[r][c]
    ensures a == b
  {
    forall r | 0 <= r < |a|
      ensures a[r] == b[r]
    {
    }
  }

  // ---------------------------------------------------------------------------
  // blankMap

  /** `size` rows of `size` zeros. */
  function Blank(n: nat): (m: Grid<int>)
    ensures IsRect(m, n, n) && NonEmpty(m) == (n > 0)
    ensures forall r, c :: 0 <= r < n && 0 <= c < n ==> m[r][c] == 0
  {
    seq(n, _ => seq(n, _ => 0))
  }

  /** Builds the blank map cell by cell. */
  method BlankMap(n: nat) returns (g: array2<int>)
    ensures fresh(g) && g.Length0 == n && g.Length1 == n
    ensures forall r, c :: 0 <= r < n && 0 <= c < n ==> g[r, c] == 0
    ensures Cells(g) == Blank(n)
  {
    g := new int[n, n];
    for i := 0 to n
      invariant forall r, c :: 0 <= r < i && 0 <= c < n ==> g[r, c] == 0
    {
      for j := 0 to n
        invariant forall r, c :: 0 <= r < i && 0 <= c < n ==> g[r, c] == 0
        invariant forall c :: 0 <= c < j ==> g[i, c] == 0
      {
        g[i, j] := 0;
      }
    }
    GridExt(Cells(g), Blank(n));
  }

  // ---------------------------------------------------------------------------
  // Extremum, as value-level specification

  /** The smallest element of a row, found left to right. */
  function RowMin(s: seq<int>): (v: int)
    requires |s| > 0
    ensures v in s
    ensures forall i :: 0 <= i < |s| ==> v <= s[i]
  {
    if |s| == 1 then s[0]
    else
      var w := RowMin(s[..|s| - 1]);
      if s[|s| - 1] < w then s[|s| - 1] else w
  }

  /** The largest element of a row, found left to right. */
  function RowMax(s: seq<int>): (v: int)
    requires |s| > 0
    ensures v in s
    ensures forall i :: 0 <= i < |s| ==> s[i] <= v
  {
    if |s| == 1 then s[0]
    else
      var w := RowMax(s[..|s| - 1]);
      if s[|s| - 1] > w then s[|s| - 1] else w
  }

  /** The smallest cell of the grid: attained, and below or equal to every cell. */
  function GridMin(m: Grid<int>): (v: int)
    requires NonEmpty(m)
    ensures exists r, c :: 0 <= r < |m| && 0 <= c < |m[r]| && v == m[r][c]
    ensures forall r, c :: 0 <= r < |m| && 0 <= c < |m[r]| ==> v <= m[r][c]
  {
    var last := RowMin(m[|m| - 1]);
    if |m| == 1 then last
    else
      var w := GridMin(m[..|m| - 1]);
      if last < w then last else w
  }

  /** The largest cell of the grid: attained, and above or equal to every cell. */
  function GridMax(m: Grid<int>): (v: int)
    requires NonEmpty(m)
    ensures exists r, c :: 0 <= r < |m| && 0 <= c < |m[r]| && v == m[r][c]
    ensures forall r, c :: 0 <= r < |m| && 0 <= c < |m[r]| ==> m[r][c] <= v
  {
    var last := RowMax(m[|m| - 1]);
    if |m| == 1 then last
    else
      var w := GridMax(m[..|m| - 1]);
      if last > w then last else w
  }

  /** highestPoint - lowestPoint, which is never negative. */
  function Range(m: Grid<int>): (d: int)
    requires NonEmpty(m)
    ensures d >= 0
  {
    GridMax(m) - GridMin(m)
  }

  /** A grid is flat exactly when its range is zero, that is when all cells are equal. */
  lemma {:induction false} FlatIffRangeZero(m: Grid<int>)
    requires NonEmpty(m)
    ensures Range(m) == 0 <==>
      forall r, c :: 0 <= r < |m| && 0 <= c < |m[r]| ==> m[r][c] == m[0][0]
  {
    if Range(m) != 0 {
      var r1, c1 :| 0 <= r1 < |m| && 0 <= c1 < |m[r1]| && GridMin(m) == m[r1][c1];
      var r2, c2 :| 0 <= r2 < |m| && 0 <= c2 < |m[r2]| && GridMax(m) == m[r2][c2];
      assert m[r1][c1] != m[r2][c2];
    }
  }

  // ---------------------------------------------------------------------------
  // bestInGrid, lowestPoint, highestPoint, rangeOf

  /** Row-major scan from grid[0][0] that replaces the running best only when a cell is
      strictly better. For a strict order, no cell is better than the result, and when no
      cell is better than grid[0][0] the result is grid[0][0] itself. */
  method BestInGrid(g: array2<int>, betterThan: (int, int) -> bool) returns (best: int)
    requires g.Length0 > 0 && g.Length1 > 0
    requires forall a :: !betterThan(a, a)
    requires forall a, b, c :: betterThan(a, b) && betterThan(b, c) ==> betterThan(a, c)
    ensures exists r, c :: 0 <= r < g.Length0 && 0 <= c < g.Length1 && best == g[r, c]
    ensures forall r, c :: 0 <= r < g.Length0 && 0 <= c < g.Length1 ==> !betterThan(g[r, c], best)
    ensures (forall r, c :: 0 <= r < g.Length0 && 0 <= c < g.Length1 ==> !betterThan(g[r, c], g[0, 0])) ==>
      best == g[0, 0]
  {
    best := g[0, 0];
    var row := 0;
    while row < g.Length0
      invariant 0 <= row <= g.Length0
      invariant exists r, c :: 0 <= r < g.Length0 && 0 <= c < g.Length1 && best == g[r, c]
      invariant forall r, c :: 0 <= r < row && 0 <= c < g.Length1 ==> !betterThan(g[r, c], best)
      invariant Unbeaten(g, betterThan) ==> best == g[0, 0]
    {
      var col := 0;
      while col < g.Length1
        invariant 0 <= col <= g.Length1
        invariant exists r, c :: 0 <= r < g.Length0 && 0 <= c < g.Length1 && best == g[r, c]
        invariant forall r, c :: 0 <= r < row && 0 <= c < g.Length1 ==> !betterThan(g[r, c], best)
        invariant forall c :: 0 <= c < col ==> !betterThan(g[row, c], best)
        invariant Unbeaten(g, betterThan) ==> best == g[0, 0]
      {
        if betterThan(g[row, col], best) {
          forall r, c | (0 <= r < row && 0 <= c < g.Length1) || (r == row && 0 <= c < col)
            ensures !betterThan(g[r, c], g[row, col])
          {
            NotBetterThanSuccessor(betterThan, g[r, c], best, g[row, col]);
          }
          best := g[row, col];
        }
        col := col + 1;
      }
      row := row + 1;
    }
  }

  /** No cell is better than the first one. */
  predicate Unbeaten(g: array2<int>, betterThan: (int, int) -> bool)
    requires g.Length0 > 0 && g.Length1 > 0
    reads g
  {
    forall r, c :: 0 <= r < g.Length0 && 0 <= c < g.Length1 ==> !betterThan(g[r, c], g[0, 0])
  }

  /** If u is not better than the running best and v is, then u is not better than v. */
  lemma NotBetterThanSuccessor(betterThan: (int, int) -> bool, u: int, best: int, v: int)
    requires forall a, b, c :: betterThan(a, b) && betterThan(b, c) ==> betterThan(a, c)
    requires !betterThan(u, best) && betterThan(v, best)
    ensures !betterThan(u, v)
  {
  }

  method LowestPoint(g: array2<int>) returns (lo: int)
    requires g.Length0 > 0 && g.Length1 > 0
    ensures lo == GridMin(Cells(g))
  {
    lo := BestInGrid(g, (a, b) => a < b);
    var m := Cells(g);
    var r, c :| 0 <= r < |m| && 0 <= c < |m[r]| && GridMin(m) == m[r][c];
    assert !(g[r, c] < lo);
  }

  method HighestPoint(g: array2<int>) returns (hi: int)
    requires g.Length0 > 0 && g.Length1 > 0
    ensures hi == GridMax(Cells(g))
  {
    hi := BestInGrid(g, (a, b) => a > b);
    var m := Cells(g);
    var r, c :| 0 <= r < |m| && 0 <= c < |m[r]| && GridMax(m) == m[r][c];
    assert !(g[r, c] > hi);
  }

  method RangeOf(g: array2<int>) returns (d: int)
    requires g.Length0 > 0 && g.Length1 > 0
    ensures d == Range(Cells(g)) && d >= 0
  {
    var hi := HighestPoint(g);
    var lo := LowestPoint(g);
    d := hi - lo;
  }

  // ---------------------------------------------------------------------------
  // redistribute

  /** One cell of `redistribute`: floor((v - lo) * (target - 1) / range). Dafny's `/` with a
      positive divisor rounds towards minus infinity, as Math.floor does. */
  function Rescale(v: int, lo: int, range: int, target: int): int
    requires range > 0
  {
    ((v - lo) * (target - 1)) / range
  }

  lemma DivMonotone(a: int, b: int, d: int)
    requires a <= b && d > 0
    ensures a / d <= b / d
  {
    var qa, qb := a / d, b / d;
    assert d * qa <= a by { assert a == d * qa + a % d; }
    assert b < d * qb + d by { assert b == d * qb + b % d; }
    assert d * (qa - qb - 1) < 0;
    NegativeFactor(d, qa - qb - 1);
  }

  lemma NegativeFactor(d: int, k: int)
    requires d > 0 && d * k < 0
    ensures k < 0
  {
    if k >= 0 {
      MulMonotone(0, k, d);
    }
  }

  lemma MulMonotone(a: int, b: int, k: int)
    requires a <= b && k >= 0
    ensures a * k <= b * k
  {
    assert b * k - a * k == (b - a) * k;
  }

  lemma RescaleMonotone(v: int, w: int, lo: int, range: int, target: int)
    requires range > 0 && target >= 1 && v <= w
    ensures Rescale(v, lo, range, target) <= Rescale(w, lo, range, target)
  {
    MulMonotone(v - lo, w - lo, target - 1);
    DivMonotone((v - lo) * (target - 1), (w - lo) * (target - 1), range);
  }

  lemma RescaleEnds(lo: int, range: int, target: int)
    requires range > 0
    ensures Rescale(lo, lo, range, target) == 0
    ensures Rescale(lo + range, lo, range, target) == target - 1
  {
    assert (lo + range - lo) * (target - 1) == range * (target - 1);
    MulDivCancel(target - 1, range);
  }

  lemma MulDivCancel(k: int, d: int)
    requires d > 0
    ensures (d * k) / d == k
  {
    var q, rem := (d * k) / d, (d * k) % d;
    assert d * k == d * q + rem;
    assert d * (k - q) == rem;
    if k - q >= 1 {
      MulMonotone(1, k - q, d);
    } else if k - q <= -1 {
      MulMonotone(k - q, -1, d);
    }
  }

  lemma RescaleBounds(v: int, lo: int, range: int, target: int)
    requires range > 0 && target >= 1 && lo <= v <= lo + range
    ensures 0 <= Rescale(v, lo, range, target) <= target - 1
  {
    RescaleMonotone(lo, v, lo, range, target);
    RescaleMonotone(v, lo + range, lo, range, target);
    RescaleEnds(lo, range, target);
  }

  /** The grid `redistribute` leaves behind when the range is positive. */
  function Normalized(m: Grid<int>, target: int): (n: Grid<int>)
    requires NonEmpty(m) && Range(m) > 0
    ensures |n| == |m| && forall r :: 0 <= r < |m| ==> |n[r]| == |m[r]|
  {
    var lo, range := GridMin(m), Range(m);
    seq(|m|, r requires 0 <= r < |m| =>
      seq(|m[r]|, c requires 0 <= c < |m[r]| => Rescale(m[r][c], lo, range, target)))
  }

  /** Every normalised cell lies in [0, target - 1]; the old minimum cells become 0 and the
      old maximum cells become target - 1, so both ends are attained. */
  lemma NormalizedSpansTarget(m: Grid<int>, target: int)
    requires NonEmpty(m) && Range(m) > 0 && target >= 1
    ensures var n := Normalized(m, target);
      (forall r, c :: 0 <= r < |m| && 0 <= c < |m[r]| ==> 0 <= n[r][c] <= target - 1) &&
      (forall r, c :: 0 <= r < |m| && 0 <= c < |m[r]| && m[r][c] == GridMin(m) ==> n[r][c] == 0) &&
      (forall r, c :: 0 <= r < |m| && 0 <= c < |m[r]| && m[r][c] == GridMax(m) ==> n[r][c] == target - 1) &&
      GridMin(n) == 0 && GridMax(n) == target - 1
  {
    var n := Normalized(m, target);
    var lo, range := GridMin(m), Range(m);
    forall r, c | 0 <= r < |m| && 0 <= c < |m[r]|
      ensures 0 <= n[r][c] <= target - 1
      ensures m[r][c] == lo ==> n[r][c] == 0
      ensures m[r][c] == GridMax(m) ==> n[r][c] == target - 1
    {
      RescaleBounds(m[r][c], lo, range, target);
      RescaleEnds(lo, range, target);
    }
    var r1, c1 :| 0 <= r1 < |m| && 0 <= c1 < |m[r1]| && lo == m[r1][c1];
    var r2, c2 :| 0 <= r2 < |m| && 0 <= c2 < |m[r2]| && GridMax(m) == m[r2][c2];
    assert n[r1][c1] == 0 && n[r2][c2] == target - 1;
  }

  /** The same for a square n x n map: the normalised map is n x n again. */
  lemma NormalizedSquare(m: Grid<int>, n: nat, target: int)
    requires IsRect(m, n, n) && n > 0 && Range(m) > 0 && target >= 1
    ensures var h := Normalized(m, target);
      IsRect(h, n, n) &&
      (forall r, c :: 0 <= r < n && 0 <= c < n ==> 0 <= h[r][c] <= target - 1) &&
      GridMin(h) == 0 && GridMax(h) == target - 1
  {
    NormalizedSpansTarget(m, target);
  }

  /** Normalisation keeps the non-strict order between any two cells. */
  lemma NormalizedKeepsOrder(m: Grid<int>, target: int, r1: int, c1: int, r2: int, c2: int)
    requires NonEmpty(m) && Range(m) > 0 && target >= 1
    requires 0 <= r1 < |m| && 0 <= c1 < |m[r1]| && 0 <= r2 < |m| && 0 <= c2 < |m[r2]|
    requires m[r1][c1] <= m[r2][c2]
    ensures Normalized(m, target)[r1][c1] <= Normalized(m, target)[r2][c2]
  {
    RescaleMonotone(m[r1][c1], m[r2][c2], GridMin(m), Range(m), target);
  }

  /** In place: offset every cell by -lowestPoint and scale by (target - 1) / rangeOf.
      On a flat grid (range 0) the rescale is undefined; the model then reports `false` and
      leaves the grid as it was. */
  method Redistribute(g: array2<int>, target: int) returns (ok: bool)
    requires g.Length0 > 0 && g.Length1 > 0
    modifies g
    ensures ok == (Range(old(Cells(g))) > 0)
    ensures ok ==> Cells(g) == Normalized(old(Cells(g)), target)
    ensures !ok ==> Cells(g) == old(Cells(g))
  {
    ghost var m := Cells(g);
    var lo := LowestPoint(g);
    var range := RangeOf(g);
    if range == 0 {
      return false;
    }
    RescaleCells(g, lo, range, target);
    GridExt(Cells(g), Normalized(m, target));
    ok := true;
  }

  /** The double loop of `redistribute`: every cell, row by row, rescaled in place. */
  method RescaleCells(g: array2<int>, lo: int, range: int, target: int)
    requires range > 0
    modifies g
    ensures forall r, c :: 0 <= r < g.Length0 && 0 <= c < g.Length1 ==>
      g[r, c] == Rescale(old(g[r, c]), lo, range, target)
  {
    for i := 0 to g.Length0
      invariant forall r, c :: 0 <= r < g.Length0 && 0 <= c < g.Length1 ==>
        g[r, c] == if r < i then Rescale(old(g[r, c]), lo, range, target) else old(g[r, c])
    {
      for j := 0 to g.Length1
        invariant forall r, c :: 0 <= r < g.Length0 && 0 <= c < g.Length1 ==>
          g[r, c] == if r < i || (r == i && c < j) then Rescale(old(g[r, c]), lo, range, target) else old(g[r, c])
      {
        g[i, j] := Rescale(g[i, j], lo, range, target);
      }
    }
  }
}
