/** The Monte Carlo calibration: habitability sampled in the central band of the heat map,
    and the random search that keeps the best candidate rate. Every call of the random source
    is an explicit draw in [0, 1). */
module Calibration {
  import opened Draws
  import opened Grids
  import opened Habitability

  /** Points sampled per fitness evaluation. */
  const SampleRate: nat := 200
  /** Candidates drawn by the search. */
  const SearchIterations: nat := 600
  /** The search domain of the calibration rate. */
  const MinRate: real := 0.0
  const MaxRate: real := 1000000.0

  // ---------------------------------------------------------------------------
  // randomTest

  /** The two draws of one sample: one for the column, one for the row. */
  datatype Sample = Sample(xDraw: real, yDraw: real)

  predicate ValidSamples(samples: seq<Sample>) {
    forall i :: 0 <= i < |samples| ==> IsUnit(samples[i].xDraw) && IsUnit(samples[i].yDraw)
  }

  /** floor(u * (hi - lo)) + lo: a coordinate in [lo, hi). */
  function SampleCoord(u: real, lo: int, hi: int): (z: int)
    requires IsUnit(u) && lo < hi
    ensures lo <= z < hi
  {
    FloorOfScaledUnit(u, hi - lo);
    Floor(u * (hi - lo) as real) + lo
  }

  /** The rectangle [minX, maxX) x [minY, maxY) lies inside the grid. */
  predicate BoxInside<T>(m: Grid<T>, minX: int, maxX: int, minY: int, maxY: int) {
    0 <= minX < maxX && 0 <= minY < maxY <= |m| &&
    forall r :: 0 <= r < |m| ==> maxX <= |m[r]|
  }

  /** The number of samples whose cell passes the test. */
  function Hits(m: Grid<real>, minX: int, maxX: int, minY: int, maxY: int,
                test: real -> bool, samples: seq<Sample>): (n: nat)
    requires BoxInside(m, minX, maxX, minY, maxY) && ValidSamples(samples)
    ensures n <= |samples|
  {
    if |samples| == 0 then 0
    else
      var s := samples[|samples| - 1];
      var x, y := SampleCoord(s.xDraw, minX, maxX), SampleCoord(s.yDraw, minY, maxY);
      Hits(m, minX, maxX, minY, maxY, test, samples[..|samples| - 1]) + (if test(m[y][x]) then 1 else 0)
  }

  /** When every cell of the box passes the test, every sample is a hit; when none does, no
      sample is. */
  lemma {:induction false} HitsExtremes(m: Grid<real>, minX: int, maxX: int, minY: int, maxY: int,
                                         test: real -> bool, samples: seq<Sample>)
    requires BoxInside(m, minX, maxX, minY, maxY) && ValidSamples(samples)
    ensures (forall r, c :: minY <= r < maxY && minX <= c < maxX ==> test(m[r][c])) ==>
      Hits(m, minX, maxX, minY, maxY, test, samples) == |samples|
    ensures (forall r, c :: minY <= r < maxY && minX <= c < maxX ==> !test(m[r][c])) ==>
      Hits(m, minX, maxX, minY, maxY, test, samples) == 0
  {
    if |samples| > 0 {
      HitsExtremes(m, minX, maxX, minY, maxY, test, samples[..|samples| - 1]);
    }
  }

  /** `randomTest`: SampleRate samples, each counted as a success or a failure; the result is
      the fraction of successes, which lies in [0, 1]. */
  method RandomTest(g: array2<real>, minX: int, maxX: int, minY: int, maxY: int,
                    test: real -> bool, samples: seq<Sample>) returns (fraction: real)
    requires 0 <= minX < maxX <= g.Length1 && 0 <= minY < maxY <= g.Length0
    requires |samples| == SampleRate && ValidSamples(samples)
    ensures fraction == Hits(Cells(g), minX, maxX, minY, maxY, test, samples) as real / SampleRate as real
    ensures 0.0 <= fraction <= 1.0
  {
    ghost var m := Cells(g);
    var success, failure := 0, 0;
    for i := 0 to SampleRate
      invariant success + failure == i
      invariant success == Hits(m, minX, maxX, minY, maxY, test, samples[..i])
    {
      assert samples[..i + 1][..i] == samples[..i];
      var x := SampleCoord(samples[i].xDraw, minX, maxX);
      var y := SampleCoord(samples[i].yDraw, minY, maxY);
      if test(g[y, x]) {
        success := success + 1;
      } else {
        failure := failure + 1;
      }
    }
    assert samples[..SampleRate] == samples;
    fraction := success as real / (success + failure) as real;
  }

  // ---------------------------------------------------------------------------
  // normalRangeHabitability

  /** The lower edge of the central band [7N/16, 9N/16) of an N x N map; exact when N is a
      multiple of 16. */
  function BandLow(n: int): (lo: int)
    requires n > 0 && n % 16 == 0
    ensures 0 < lo < n && 16 * lo == 7 * n
  {
    assert n == 16 * (n / 16);
    n * 7 / 16
  }

  /** The upper edge of the central band. */
  function BandHigh(n: int): (hi: int)
    requires n > 0 && n % 16 == 0
    ensures 0 < hi < n && 16 * hi == 9 * n
  {
    assert n == 16 * (n / 16);
    n * 9 / 16
  }

  /** The habitability test for a given rate. */
  function HabitableAt(rate: real): real -> bool {
    x => IsHabitableHeat(x * rate)
  }

  /** The fraction of sampled cells in the central band that are habitable once scaled. */
  method NormalRangeHabitability(heat: array2<real>, rate: real, samples: seq<Sample>)
    returns (fraction: real)
    requires heat.Length0 > 0 && heat.Length0 % 16 == 0 && BandHigh(heat.Length0) <= heat.Length1
    requires |samples| == SampleRate && ValidSamples(samples)
    ensures var lo, hi := BandLow(heat.Length0), BandHigh(heat.Length0);
      fraction == Hits(Cells(heat), lo, hi, lo, hi, HabitableAt(rate), samples) as real / SampleRate as real
    ensures 0.0 <= fraction <= 1.0
  {
    var minimum := heat.Length0 * 7 / 16;
    var maximum := heat.Length0 * 9 / 16;
    fraction := RandomTest(heat, minimum, maximum, minimum, maximum, HabitableAt(rate), samples);
  }

  // ---------------------------------------------------------------------------
  // maximize

  /** `pairs.reduce((a, b) => a[1] > b[1] ? a : b)`: a left fold that keeps the running
      pair only when its score is strictly greater. */
  function ReduceBest(pairs: seq<(real, real)>): (p: (real, real))
    requires |pairs| > 0
    ensures exists k :: 0 <= k < |pairs| && p == pairs[k] && IsLastArgmax(pairs, k)
  {
    if |pairs| == 1 then pairs[0]
    else
      var a, b := ReduceBest(pairs[..|pairs| - 1]), pairs[|pairs| - 1];
      if a.1 > b.1 then a else b
  }

  /** Pair k has the greatest score, and every later pair a strictly smaller one. */
  predicate IsLastArgmax(pairs: seq<(real, real)>, k: int) {
    0 <= k < |pairs| &&
    (forall j :: 0 <= j < |pairs| ==> pairs[j].1 <= pairs[k].1) &&
    (forall j :: k < j < |pairs| ==> pairs[j].1 < pairs[k].1)
  }

  /** The k-th candidate: minimum + u * (maximum - minimum). */
  function Candidate(minimum: real, maximum: real, u: real): real {
    minimum + Scale(u, maximum - minimum)
  }

  /** Every candidate of a non-empty interval lies inside it. */
  lemma CandidateInRange(minimum: real, maximum: real, u: real)
    requires IsUnit(u) && minimum < maximum
    ensures minimum <= Candidate(minimum, maximum, u) < maximum
  {
    ScaledUnitBounds(u, maximum - minimum);
  }

  /** `maximize` with the candidates' draws and their scores given: the candidate returned is
      the last one whose score is the greatest, and it lies in [minimum, maximum). */
  method Maximize(minimum: real, maximum: real, draws: seq<real>, scores: seq<real>)
    returns (best: real)
    requires |draws| == SearchIterations && |scores| == SearchIterations
    requires forall i :: 0 <= i < |draws| ==> IsUnit(draws[i])
    ensures exists k :: (0 <= k < SearchIterations && best == Candidate(minimum, maximum, draws[k]) &&
      (forall j :: 0 <= j < SearchIterations ==> scores[j] <= scores[k]) &&
      (forall j :: k < j < SearchIterations ==> scores[j] < scores[k]))
    ensures minimum < maximum ==> minimum <= best < maximum
  {
    var range := maximum - minimum;
    var pairs: seq<(real, real)> := [];
    for i := 0 to SearchIterations
      invariant |pairs| == i
      invariant forall j :: 0 <= j < i ==> pairs[j] == (Candidate(minimum, maximum, draws[j]), scores[j])
    {
      var input := minimum + Scale(draws[i], range);
      pairs := pairs + [(input, scores[i])];
      assert pairs[i] == (Candidate(minimum, maximum, draws[i]), scores[i]);
    }
    var p := ReduceBest(pairs);
    best := p.0;
    var k :| 0 <= k < |pairs| && p == pairs[k] && IsLastArgmax(pairs, k);
    assert best == Candidate(minimum, maximum, draws[k]);
    if minimum < maximum {
      CandidateInRange(minimum, maximum, draws[k]);
    }
  }

  /** `findHeatRate`: the search over [0, 1000000), returning the last best candidate. */
  method FindHeatRate(draws: seq<real>, scores: seq<real>) returns (rate: real)
    requires |draws| == SearchIterations && |scores| == SearchIterations
    requires forall i :: 0 <= i < |draws| ==> IsUnit(draws[i])
    ensures MinRate <= rate < MaxRate
    ensures exists k :: (0 <= k < SearchIterations && rate == Candidate(MinRate, MaxRate, draws[k]) &&
      (forall j :: 0 <= j < SearchIterations ==> scores[j] <= scores[k]) &&
      (forall j :: k < j < SearchIterations ==> scores[j] < scores[k]))
  {
    rate := Maximize(MinRate, MaxRate, draws, scores);
  }
}
