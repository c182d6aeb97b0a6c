/** Random draws made explicit: every call of the random source becomes a real in [0, 1)
    supplied by the caller, and the rounding the script applies to it is exact. */
module Draws {

  /** A value the random source can return: 0 <= u < 1. */
  predicate IsUnit(u: real) {
    0.0 <= u < 1.0
  }

  /** Rounding towards minus infinity. */
  function Floor(r: real): int {
    r.Floor
  }

  /** Rounding towards plus infinity. */
  function Ceil(r: real): (c: int)
    ensures c as real - 1.0 < r <= c as real
  {
    -((-r).Floor)
  }

  /** A unit draw scaled by n and floored lands in [0, n), or on 0 when n is 0. */
  lemma FloorOfScaledUnit(u: real, n: nat)
    requires IsUnit(u)
    ensures 0 <= Floor(u * n as real)
    ensures n > 0 ==> Floor(u * n as real) < n
  {
    assert 0.0 <= u * n as real;
    if n > 0 {
      assert n as real - u * n as real == (1.0 - u) * n as real;
      assert (1.0 - u) * n as real > 0.0;
    }
  }

  /** A unit draw stretched over a width. */
  function Scale(u: real, width: real): real {
    u * width
  }

  /** A unit draw scaled by a non-negative width stays inside [0, width], and below width
      when width is positive. */
  lemma ScaledUnitBounds(u: real, width: real)
    requires IsUnit(u) && width >= 0.0
    ensures 0.0 <= Scale(u, width) <= width
    ensures width > 0.0 ==> Scale(u, width) < width
  {
    assert width - u * width == (1.0 - u) * width;
    if width > 0.0 {
      assert (1.0 - u) * width > 0.0;
    }
  }
}
