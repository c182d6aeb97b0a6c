/** Flattening a grid into image data: four values per cell, row-major, each computed by a
    channel function of the cell, pushed in the order red, blue, green, alpha. */
module Imaging {
  import opened Grids
  import opened Habitability

  /** The four channel functions of `gridToImgData`, in the order their values are pushed. */
  datatype Palette<-T> = Palette(red: T -> int, blue: T -> int, green: T -> int, alpha: T -> int)

  /** The k-th value pushed for a cell holding v. */
  function Channel<T>(p: Palette<T>, k: int, v: T): int {
    if k == 0 then p.red(v) else if k == 1 then p.blue(v) else if k == 2 then p.green(v) else p.alpha(v)
  }

  function CellPixels<T>(p: Palette<T>, v: T): seq<int> {
    [p.red(v), p.blue(v), p.green(v), p.alpha(v)]
  }

  /** The values pushed for one row, left to right. */
  function RowPixels<T>(p: Palette<T>, row: seq<T>): seq<int> {
    if |row| == 0 then [] else RowPixels(p, row[..|row| - 1]) + CellPixels(p, row[|row| - 1])
  }

  /** The values pushed for a grid, top row first. */
  function Pixels<T>(p: Palette<T>, m: Grid<T>): seq<int> {
    if |m| == 0 then [] else Pixels(p, m[..|m| - 1]) + RowPixels(p, m[|m| - 1])
  }

  lemma {:induction false} RowPixelsAt<T>(p: Palette<T>, row: seq<T>, c: int, k: int)
    requires 0 <= c < |row| && 0 <= k < 4
    ensures |RowPixels(p, row)| == 4 * |row|
    ensures RowPixels(p, row)[4 * c + k] == Channel(p, k, row[c])
  {
    var n := |row| - 1;
    RowPixelsLength(p, row[..n]);
    if c < n {
      RowPixelsAt(p, row[..n], c, k);
    }
  }

  lemma {:induction false} RowPixelsLength<T>(p: Palette<T>, row: seq<T>)
    ensures |RowPixels(p, row)| == 4 * |row|
  {
    if |row| > 0 {
      RowPixelsLength(p, row[..|row| - 1]);
    }
  }

  lemma {:induction false} PixelsLength<T>(p: Palette<T>, m: Grid<T>, cols: nat)
    requires IsRect(m, |m|, cols)
    ensures |Pixels(p, m)| == 4 * (|m| * cols)
  {
    if |m| > 0 {
      var n := |m| - 1;
      PixelsLength(p, m[..n], cols);
      RowPixelsLength(p, m[n]);
      assert (n + 1) * cols == n * cols + cols;
    }
  }

  /** Where value k of cell [r][c] lands in the image data of a grid with `cols` columns. */
  function PixelIndex(cols: int, r: int, c: int, k: int): int {
    4 * (r * cols + c) + k
  }

  lemma PixelIndexBelow(cols: nat, r: int, c: int, k: int, n: int)
    requires 0 <= r < n && 0 <= c < cols && 0 <= k < 4
    ensures 0 <= PixelIndex(cols, r, c, k) < 4 * (n * cols)
  {
    MulMonotone(r + 1, n, cols);
    MulMonotone(0, r, cols);
    assert (r + 1) * cols == r * cols + cols;
  }

  /** The layout of the image data: for an R x C grid there are 4 R C values, and value
      4 (r C + c) + k is channel k of cell [r][c]. */
  lemma {:induction false} PixelsAt<T>(p: Palette<T>, m: Grid<T>, cols: nat, r: int, c: int, k: int)
    requires IsRect(m, |m|, cols) && 0 <= r < |m| && 0 <= c < cols && 0 <= k < 4
    ensures |Pixels(p, m)| == 4 * (|m| * cols)
    ensures 0 <= PixelIndex(cols, r, c, k) < |Pixels(p, m)|
    ensures Pixels(p, m)[PixelIndex(cols, r, c, k)] == Channel(p, k, m[r][c])
  {
    var n := |m| - 1;
    PixelsLength(p, m, cols);
    PixelsLength(p, m[..n], cols);
    PixelIndexBelow(cols, r, c, k, |m|);
    if r < n {
      PixelsAt(p, m[..n], cols, r, c, k);
      PixelIndexBelow(cols, r, c, k, n);
    } else {
      RowPixelsAt(p, m[n], c, k);
      assert PixelIndex(cols, r, c, k) == 4 * (n * cols) + (4 * c + k);
    }
  }

  /** PixelsAt for every cell and channel at once. */
  lemma PixelsLayout<T>(p: Palette<T>, m: Grid<T>, cols: nat)
    requires IsRect(m, |m|, cols)
    ensures |Pixels(p, m)| == 4 * (|m| * cols)
    ensures forall r, c, k :: 0 <= r < |m| && 0 <= c < cols && 0 <= k < 4 ==>
      0 <= PixelIndex(cols, r, c, k) < |Pixels(p, m)| &&
      Pixels(p, m)[PixelIndex(cols, r, c, k)] == Channel(p, k, m[r][c])
  {
    PixelsLength(p, m, cols);
    forall r, c, k | 0 <= r < |m| && 0 <= c < cols && 0 <= k < 4
      ensures 0 <= PixelIndex(cols, r, c, k) < |Pixels(p, m)|
      ensures Pixels(p, m)[PixelIndex(cols, r, c, k)] == Channel(p, k, m[r][c])
    {
      PixelsAt(p, m, cols, r, c, k);
    }
  }

  /** `gridToImgData`: one pass over the rows and columns, pushing four values per cell. */
  method GridToImgData<T>(g: array2<T>, red: T -> int, blue: T -> int, green: T -> int, alpha: T -> int)
    returns (out: seq<int>)
    ensures out == Pixels(Palette(red, blue, green, alpha), Cells(g))
    ensures |out| == 4 * (g.Length0 * g.Length1)
    ensures forall r, c, k :: 0 <= r < g.Length0 && 0 <= c < g.Length1 && 0 <= k < 4 ==>
      0 <= PixelIndex(g.Length1, r, c, k) < |out| &&
      out[PixelIndex(g.Length1, r, c, k)] == Channel(Palette(red, blue, green, alpha), k, g[r, c])
  {
    var p := Palette(red, blue, green, alpha);
    ghost var m := Cells(g);
    out := [];
    for row := 0 to g.Length0
      invariant out == Pixels(p, m[..row])
    {
      ghost var done := out;
      for col := 0 to g.Length1
        invariant out == done + RowPixels(p, m[row][..col])
      {
        assert m[row][..col + 1][..col] == m[row][..col];
        out := out + [red(g[row, col]), blue(g[row, col]), green(g[row, col]), alpha(g[row, col])];
      }
      assert m[row][..g.Length1] == m[row];
      assert m[..row + 1][..row] == m[..row];
    }
    assert m[..g.Length0] == m;
    PixelsLayout(p, m, g.Length1);
  }

  function Identity(v: int): int {
    v
  }

  /** The default alpha channel: every cell fully opaque. */
  function Opaque<T>(v: T): int {
    255
  }

  /** The elevation image: `gridToImgData` with its default channels, the identity for the
      three colours and 255 for alpha. */
  method HeightmapToImgData(g: array2<int>) returns (out: seq<int>)
    ensures |out| == 4 * (g.Length0 * g.Length1)
    ensures forall r, c, k :: 0 <= r < g.Length0 && 0 <= c < g.Length1 && 0 <= k < 4 ==>
      0 <= PixelIndex(g.Length1, r, c, k) < |out| &&
      out[PixelIndex(g.Length1, r, c, k)] == if k < 3 then g[r, c] else 255
  {
    out := GridToImgData(g, Identity, Identity, Identity, Opaque);
  }

  /** The classification image for a given calibration rate: per cell the too-hot,
      habitable and too-cold channels and an opaque alpha. Exactly one of the first three
      values of every cell is 255. */
  method HeatmapToImgData(heat: array2<real>, rate: real) returns (out: seq<int>)
    ensures |out| == 4 * (heat.Length0 * heat.Length1)
    ensures forall r, c, k :: 0 <= r < heat.Length0 && 0 <= c < heat.Length1 && 0 <= k < 4 ==>
      0 <= PixelIndex(heat.Length1, r, c, k) < |out| &&
      out[PixelIndex(heat.Length1, r, c, k)] ==
        if k == 0 then TooHotChannel(rate, heat[r, c])
        else if k == 1 then HabitableChannel(rate, heat[r, c])
        else if k == 2 then TooColdChannel(rate, heat[r, c])
        else 255
    ensures forall r, c :: 0 <= r < heat.Length0 && 0 <= c < heat.Length1 ==>
      ClassPixel(out, PixelIndex(heat.Length1, r, c, 0))
  {
    out := GridToImgData(heat, x => TooHotChannel(rate, x), x => HabitableChannel(rate, x),
                         x => TooColdChannel(rate, x), Opaque);
    forall r, c | 0 <= r < heat.Length0 && 0 <= c < heat.Length1
      ensures ClassPixel(out, PixelIndex(heat.Length1, r, c, 0))
    {
      ExactlyOneClass(rate, heat[r, c]);
      var i := PixelIndex(heat.Length1, r, c, 0);
      assert PixelIndex(heat.Length1, r, c, 1) == i + 1 && PixelIndex(heat.Length1, r, c, 2) == i + 2;
    }
  }

  /** Of the three colour values starting at i, exactly one is 255 and the other two are 0. */
  predicate ClassPixel(out: seq<int>, i: int) {
    0 <= i && i + 2 < |out| &&
    [out[i], out[i + 1], out[i + 2]] in {[255, 0, 0], [0, 255, 0], [0, 0, 255]}
  }
}
