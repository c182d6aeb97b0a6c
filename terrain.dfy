/** Terrain synthesis: disks of +1 or -1 stamped onto a blank map, then normalisation. */
module Terrain {
  import opened Draws
  import opened Geometry
  import opened Grids

  // ---------------------------------------------------------------------------
  // pushUp, pushDown

  function PushUp(height: int): int {
    height + 1
  }

  function PushDown(height: int): int {
    height - 1
  }

  /** The two adjustments undo each other. */
  lemma PushUpPushDownInverse(height: int)
    ensures PushDown(PushUp(height)) == height && PushUp(PushDown(height)) == height
  {
  }

  datatype Direction = Raise | Lower

  /** The adjustment a stamp applies to each covered cell. */
  function Push(direction: Direction): int -> int {
    if direction == Raise then PushUp else PushDown
  }

  // ---------------------------------------------------------------------------
  // drawCircle

  /** The three conditions of `drawCircle`: inside the bounding box
      [y, y + size] x [x, x + size], inside the grid, and within the disk. */
  predicate Covered(rows: int, cols: int, x: int, y: int, size: int, row: int, col: int) {
    y <= row <= y + size && x <= col <= x + size &&
    0 <= row < rows && 0 <= col < cols &&
    InDisk(x, y, size, row, col)
  }

  /** The grid `drawCircle` leaves behind: f applied once to every covered cell. */
  function DrawCircleOn(m: Grid<int>, x: int, y: int, size: int, f: int -> int): (m': Grid<int>)
    ensures |m'| == |m| && forall r :: 0 <= r < |m| ==> |m'[r]| == |m[r]|
  {
    seq(|m|, r requires 0 <= r < |m| =>
      seq(|m[r]|, c requires 0 <= c < |m[r]| =>
        if Covered(|m|, |m[r]|, x, y, size, r, c) then f(m[r][c]) else m[r][c]))
  }

  /** Bounding-box scan with the disk test, updating the grid in place. */
  method DrawCircle(g: array2<int>, x: int, y: int, size: int, f: int -> int)
    modifies g
    ensures forall r, c :: 0 <= r < g.Length0 && 0 <= c < g.Length1 ==>
      g[r, c] == if Covered(g.Length0, g.Length1, x, y, size, r, c) then f(old(g[r, c])) else old(g[r, c])
    ensures Cells(g) == DrawCircleOn(old(Cells(g)), x, y, size, f)
  {
    ghost var m := Cells(g);
    var row := y;
    while row <= y + size
      invariant y <= row && (size >= 0 ==> row <= y + size + 1)
      invariant forall r, c :: 0 <= r < g.Length0 && 0 <= c < g.Length1 ==>
        g[r, c] == if r < row && Covered(g.Length0, g.Length1, x, y, size, r, c) then f(m[r][c]) else m[r][c]
      decreases y + size + 1 - row
    {
      var col := x;
      while col <= x + size
        invariant x <= col <= x + size + 1
        invariant forall r, c :: 0 <= r < g.Length0 && 0 <= c < g.Length1 ==>
          g[r, c] == if (r < row || (r == row && c < col)) && Covered(g.Length0, g.Length1, x, y, size, r, c)
                     then f(m[r][c]) else m[r][c]
        decreases x + size + 1 - col
      {
        if row < g.Length0 && row >= 0 && col < g.Length1 && col >= 0 && InDisk(x, y, size, row, col) {
          g[row, col] := f(g[row, col]);
        }
        col := col + 1;
      }
      row := row + 1;
    }
    GridExt(Cells(g), DrawCircleOn(m, x, y, size, f));
  }

  /** The worked example: a size-2 raise at (0, 0) on a blank 4x4 map covers the centre
      (1, 1) and its four orthogonal neighbours, and nothing else. */
  lemma SmallDiskExample()
    ensures DrawCircleOn(Blank(4), 0, 0, 2, PushUp) ==
      [[0, 1, 0, 0],
       [1, 1, 1, 0],
       [0, 1, 0, 0],
       [0, 0, 0, 0]]
  {
    var m := DrawCircleOn(Blank(4), 0, 0, 2, PushUp);
    var e := [[0, 1, 0, 0], [1, 1, 1, 0], [0, 1, 0, 0], [0, 0, 0, 0]];
    forall r, c | 0 <= r < 4 && 0 <= c < 4
      ensures m[r][c] == e[r][c]
    {
      assert Blank(4)[r][c] == 0 && |Blank(4)[r]| == 4;
      var p, q := 2 * c - 2, 2 * r - 2;
      assert p == -2 || p == 0 || p == 2 || p == 4;
      assert q == -2 || q == 0 || q == 2 || q == 4;
      assert InDisk(0, 0, 2, r, c) <==> Square(p) + Square(q) <= 4;
      assert Covered(4, 4, 0, 0, 2, r, c) <==> e[r][c] == 1;
      assert e[r][c] == 0 || e[r][c] == 1;
      assert m[r][c] == if Covered(4, 4, 0, 0, 2, r, c) then PushUp(0) else 0;
    }
    GridExt(m, e);
  }

  // ---------------------------------------------------------------------------
  // stamp

  /** The largest disk a stamp draws. */
  const MaxStampSize := 64

  datatype Stamp = Stamp(x: int, y: int, size: int, direction: Direction)

  /** The four calls of the random source that one stamp makes, in order. */
  datatype Draw = Draw(sizeDraw: real, xDraw: real, yDraw: real, directionDraw: real)

  predicate ValidDraw(d: Draw) {
    IsUnit(d.sizeDraw) && IsUnit(d.xDraw) && IsUnit(d.yDraw) && IsUnit(d.directionDraw)
  }

  predicate AllValid(draws: seq<Draw>) {
    forall i :: 0 <= i < |draws| ==> ValidDraw(draws[i])
  }

  /** The stamp that one set of draws selects on a grid of the given width and height:
      size = ceil(64 u), x = floor(u' (width + size)) - size, y likewise, and a raise
      exactly when the last draw is at least 0.5. */
  function DrawStamp(d: Draw, width: nat, height: nat): (s: Stamp)
    requires ValidDraw(d)
    ensures 0 <= s.size <= MaxStampSize
    ensures s.size == 0 <==> d.sizeDraw == 0.0
    ensures -s.size <= s.x && (width > 0 ==> s.x < width)
    ensures -s.size <= s.y && (height > 0 ==> s.y < height)
    ensures s.direction == Raise <==> d.directionDraw >= 0.5
  {
    var size := Ceil(Scale(d.sizeDraw, MaxStampSize as real));
    ScaledUnitBounds(d.sizeDraw, MaxStampSize as real);
    assert 0 <= size <= MaxStampSize;
    FloorOfScaledUnit(d.xDraw, width + size);
    FloorOfScaledUnit(d.yDraw, height + size);
    Stamp(Floor(d.xDraw * (width + size) as real) - size,
          Floor(d.yDraw * (height + size) as real) - size,
          size,
          if d.directionDraw >= 0.5 then Raise else Lower)
  }

  function ApplyStamp(m: Grid<int>, s: Stamp): (m': Grid<int>) {
    DrawCircleOn(m, s.x, s.y, s.size, Push(s.direction))
  }

  /** A stamp changes each covered cell by exactly +1 (raise) or -1 (lower), and no other cell. */
  lemma StampEffect(m: Grid<int>, s: Stamp, r: int, c: int)
    requires 0 <= r < |m| && 0 <= c < |m[r]|
    ensures |ApplyStamp(m, s)| == |m| && |ApplyStamp(m, s)[r]| == |m[r]|
    ensures ApplyStamp(m, s)[r][c] - m[r][c] ==
      if !Covered(|m|, |m[r]|, s.x, s.y, s.size, r, c) then 0
      else if s.direction == Raise then 1 else -1
  {
  }

  /** `stamp`: draw a stamp from the grid's width and height, then draw its disk. */
  method StampOnce(g: array2<int>, d: Draw)
    requires g.Length0 > 0 && ValidDraw(d)
    modifies g
    ensures Cells(g) == ApplyStamp(old(Cells(g)), DrawStamp(d, g.Length1, g.Length0))
  {
    var s := DrawStamp(d, g.Length1, g.Length0);
    DrawCircle(g, s.x, s.y, s.size, Push(s.direction));
  }

  // ---------------------------------------------------------------------------
  // makeNoise

  /** The map after the stamps drawn from `draws`, applied in order; the width and height
      each stamp sees are those of the map it is applied to. */
  function StampAll(m: Grid<int>, draws: seq<Draw>): (r: Grid<int>)
    requires |m| > 0 && AllValid(draws)
    ensures |r| == |m| && forall i :: 0 <= i < |m| ==> |r[i]| == |m[i]|
    decreases |draws|
  {
    if |draws| == 0 then m
    else
      var prev := StampAll(m, draws[..|draws| - 1]);
      ApplyStamp(prev, DrawStamp(draws[|draws| - 1], |prev[0]|, |prev|))
  }

  /** Without stamps the blank map stays flat, so there is nothing to normalise. */
  lemma NoStampsIsFlat(n: nat)
    requires n > 0
    ensures Range(StampAll(Blank(n), [])) == 0
  {
    FlatIffRangeZero(Blank(n));
  }

  /** With `n` > 0: a blank n x n map, one stamp per draw, then `redistribute`. `ok` is false
      exactly when the stamped map is flat; the map is then returned unnormalised. */
  method MakeNoise(n: nat, draws: seq<Draw>, target: int) returns (g: array2<int>, ok: bool)
    requires n > 0 && AllValid(draws)
    ensures fresh(g) && g.Length0 == n && g.Length1 == n
    ensures var stamped := StampAll(Blank(n), draws);
      ok == (Range(stamped) > 0) &&
      Cells(g) == if ok then Normalized(stamped, target) else stamped
  {
    g := BlankMap(n);
    for s := 0 to |draws|
      invariant Cells(g) == StampAll(Blank(n), draws[..s])
    {
      assert draws[..s + 1][..s] == draws[..s];
      StampOnce(g, draws[s]);
    }
    assert draws[..|draws|] == draws;
    ok := Redistribute(g, target);
  }

  /** The terrain invariant: after normalising a non-flat stamped map, the map is n x n, every
      value lies in [0, target - 1], and the minimum is 0 and the maximum target - 1. */
  lemma NoiseSpansTarget(n: nat, draws: seq<Draw>, target: int)
    requires n > 0 && AllValid(draws) && target >= 1
    requires Range(StampAll(Blank(n), draws)) > 0
    ensures var h := Normalized(StampAll(Blank(n), draws), target);
      IsRect(h, n, n) &&
      (forall r, c :: 0 <= r < n && 0 <= c < n ==> 0 <= h[r][c] <= target - 1) &&
      GridMin(h) == 0 && GridMax(h) == target - 1
  {
    NormalizedSquare(StampAll(Blank(n), draws), n, target);
  }
}
