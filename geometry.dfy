/** Distances between integer points, and the disk test used when stamping terrain.
    The script compares `sqrt(radicand)` with a non-negative radius; for a radius r >= 0 that is
    the same as comparing the radicand with r * r, so the model works with the radicand only. */
module Geometry {

  function Square(d: int): nat {
    d * d
  }

  lemma SquareIsZero(d: int)
    ensures Square(d) == 0 <==> d == 0
  {
    if d > 0 {
      assert d * d >= d;
    } else if d < 0 {
      assert d * d == (-d) * (-d) >= -d;
    }
  }

  /** The radicand of `distance`: the sum of the squared coordinate differences. */
  function SquaredDistance(a: seq<int>, b: seq<int>): nat
    requires |a| == |b|
  {
    if |a| == 0 then 0
    else SquaredDistance(a[..|a| - 1], b[..|b| - 1]) + Square(a[|a| - 1] - b[|b| - 1])
  }

  /** The accumulation loop of `distance`, coordinate by coordinate. */
  method Radicand(a: seq<int>, b: seq<int>) returns (radicand: nat)
    requires |a| == |b|
    ensures radicand == SquaredDistance(a, b)
  {
    radicand := 0;
    for i := 0 to |a|
      invariant radicand == SquaredDistance(a[..i], b[..i])
    {
      assert a[..i + 1][..i] == a[..i] && b[..i + 1][..i] == b[..i];
      radicand := radicand + Square(a[i] - b[i]);
    }
    assert a[..|a|] == a && b[..|b|] == b;
  }

  lemma {:induction false} SquaredDistanceSymmetric(a: seq<int>, b: seq<int>)
    requires |a| == |b|
    ensures SquaredDistance(a, b) == SquaredDistance(b, a)
  {
    if |a| > 0 {
      SquaredDistanceSymmetric(a[..|a| - 1], b[..|b| - 1]);
      assert Square(a[|a| - 1] - b[|b| - 1]) == Square(b[|b| - 1] - a[|a| - 1]);
    }
  }

  /** The distance is zero exactly between identical points. */
  lemma {:induction false} SquaredDistanceZero(a: seq<int>, b: seq<int>)
    requires |a| == |b|
    ensures SquaredDistance(a, b) == 0 <==> a == b
  {
    if |a| > 0 {
      var n := |a| - 1;
      SquaredDistanceZero(a[..n], b[..n]);
      SquareIsZero(a[n] - b[n]);
      assert a == a[..n] + [a[n]] && b == b[..n] + [b[n]];
      if a == b {
        assert a[..n] == b[..n];
      }
    }
  }

  /** The disk test of `drawCircle` with every coordinate doubled, so that the centre
      (x + size/2, y + size/2) and the radius size/2 become integers. */
  predicate InDisk(x: int, y: int, size: int, row: int, col: int) {
    Square(2 * col - 2 * x - size) + Square(2 * row - 2 * y - size) <= Square(size)
  }

  /** InDisk is the distance test between the doubled cell [2col, 2row] and the doubled centre. */
  lemma InDiskIsDoubledDistance(x: int, y: int, size: int, row: int, col: int)
    ensures InDisk(x, y, size, row, col)
        <==> SquaredDistance([2 * col, 2 * row], [2 * x + size, 2 * y + size]) <= Square(size)
  {
    var a, b := [2 * col, 2 * row], [2 * x + size, 2 * y + size];
    assert a[..1] == [2 * col] && b[..1] == [2 * x + size];
    assert a[..1][..0] == [] && b[..1][..0] == [];
    assert SquaredDistance(a[..1], b[..1]) == Square(2 * col - 2 * x - size);
  }

  /** InDisk is exactly the script's test `distance([col, row], [x + r, y + r]) <= r` with
      r = size / 2 computed over the reals, squared on both sides. */
  lemma DiskTestIsExact(x: int, y: int, size: int, row: int, col: int)
    requires size >= 0
    ensures var radius := size as real / 2.0;
            var dx := col as real - (x as real + radius);
            var dy := row as real - (y as real + radius);
            dx * dx + dy * dy <= radius * radius <==> InDisk(x, y, size, row, col)
  {
    var radius := size as real / 2.0;
    var p, q := 2 * col - 2 * x - size, 2 * row - 2 * y - size;
    var dx := col as real - (x as real + radius);
    var dy := row as real - (y as real + radius);
    assert dx == p as real / 2.0 && dy == q as real / 2.0;
    assert dx * dx == (p * p) as real / 4.0;
    assert dy * dy == (q * q) as real / 4.0;
    assert radius * radius == (size * size) as real / 4.0;
  }
}
