# Maui terrain and habitability model

Maui is a single script that does four things:

- It grows a square heightmap by stamping thousands of random disks of +1 or -1 onto a blank map.
- It rescales the heights onto `[0, target - 1]`.
- It serialises the map into RGBA image data.
- It calibrates a heat-scaling rate. It draws candidate rates at random, scores each one by Monte Carlo sampling the central band of the heat map, and keeps the best.

This project models the discrete part of that script in Dafny and proves what each step promises.

The modules follow the script's structure, one file each:

- `draws.dfy`, module `Draws`: the calls of the random source, made explicit. Every draw is a real in `[0, 1)` supplied by the caller, with exact floor, ceiling and scaling.
- `geometry.dfy`, module `Geometry`: `distance` in squared integer form, and the disk test of `drawCircle` as an integer inequality.
- `grids.dfy`, module `Grids`:
  - grids held in place as `array2<int>`, with a value view `Cells(g)`;
  - `blankMap`;
  - the extremum scan `bestInGrid`, and `lowestPoint`, `highestPoint`, `rangeOf`;
  - the in-place `redistribute`.
- `terrain.dfy`, module `Terrain`: `pushUp`/`pushDown`, `drawCircle`, `stamp` and `makeNoise`.
- `habitability.dfy`, module `Habitability`: the habitability band and the three classification channels of the heat image.
- `imaging.dfy`, module `Imaging`: `gridToImgData`, the heightmap image, and the heat image for a given rate.
- `calibration.dfy`, module `Calibration`: `randomTest`, `normalRangeHabitability`, `maximize` and `findHeatRate`, all over given draws and scores.

Each method is specified by a pure function of the grid it reads (for the in-place ones, of the grid's old contents):

- `DrawCircle` by `DrawCircleOn`;
- `Redistribute` by `Normalized`;
- `MakeNoise` by `StampAll` followed by `Normalized`;
- `GridToImgData` by `Pixels`.

The properties the script relies on are proved about those functions:

- value bounds;
- attained minimum and maximum;
- order preservation;
- the pixel layout;
- a partition into exactly one class;
- the argmax.

Two behaviours of the code are easy to misread:

- `maximize` returns the **last** candidate with the greatest score. `reduce((a, b) => a[1] > b[1] ? a : b)` keeps `b` on ties, so the first maximal candidate is not the one returned.
- On a flat map `redistribute` divides by zero and fills the map with `NaN`. The model's `Redistribute` returns `false` in that case and leaves the grid unchanged. When the range is positive it returns `true` and rescales.

## Model

| member | source | states |
|---|---|---|
| Draws.Ceil | src/maui.js:51 | The ceiling is the least integer at or above its argument. |
| Draws.FloorOfScaledUnit | src/maui.js:52-53 | A draw in [0, 1) times n, floored, lies in [0, n). |
| Draws.ScaledUnitBounds | src/maui.js:194 | A draw in [0, 1) stretched over a non-negative width stays in [0, width], and below width when width is positive. |
| Geometry.SquaredDistance | src/maui.js:9-15 | Defined as the sum of the squared coordinate differences, the radicand of `distance`; never negative. |
| Geometry.Radicand | src/maui.js:9-15 | The accumulation loop of `distance` computes the squared Euclidean distance of the two coordinate lists. |
| Geometry.SquaredDistanceSymmetric | src/maui.js:9-15 | The distance does not depend on the order of its arguments. |
| Geometry.SquaredDistanceZero | src/maui.js:9-15 | The distance is zero exactly when the two points coincide. |
| Geometry.InDiskIsDoubledDistance | src/maui.js:21-23 | The integer disk test is the doubled-coordinate squared distance from the cell to the centre (x + size/2, y + size/2), compared with size squared. |
| Geometry.InDisk | src/maui.js:21-23 | Defined as (2col - 2x - size)^2 + (2row - 2y - size)^2 <= size^2, the disk test in doubled integer coordinates. |
| Geometry.DiskTestIsExact | src/maui.js:18-23 | `distance <= radius` with radius = size / 2, squared over the reals, is equivalent to the integer disk test, so no square root is needed. |
| Terrain.PushUp | src/maui.js:30-32 | Defined as height + 1. |
| Terrain.PushDown | src/maui.js:34-36 | Defined as height - 1. |
| Terrain.PushUpPushDownInverse | src/maui.js:30-36 | Raising and lowering by one undo each other. |
| Terrain.DrawCircleOn | src/maui.js:17-28 | The circle leaves the grid's shape unchanged. |
| Terrain.DrawCircle | src/maui.js:17-28 | `f` is applied exactly once to each cell that is in the bounding box [y, y+size] x [x, x+size], inside the grid and in the disk. Every other cell keeps its value. |
| Terrain.SmallDiskExample | src/maui.js:17-28 | A size-2 raise at (0, 0) on a blank 4x4 map sets exactly (0,1), (1,0), (1,1), (1,2) and (2,1) to 1. |
| Terrain.DrawStamp | src/maui.js:50-54 | The stamp's size lies in [0, 64] and is 0 only for a zero draw. Its origins lie in [-size, width) and [-size, height). It raises exactly when the last draw is at least 0.5. |
| Terrain.ApplyStamp | src/maui.js:54 | Defined as drawing the stamp's disk with pushUp for a raise and pushDown for a lower. |
| Terrain.StampEffect | src/maui.js:50-55 | A stamp changes each covered cell by exactly +1 for a raise or -1 for a lower, and no other cell. |
| Terrain.StampOnce | src/maui.js:50-55 | The in-place stamp equals drawing the stamp selected by the draws from the grid's width and height. |
| Terrain.StampAll | src/maui.js:92-95 | Any sequence of stamps keeps the map's shape. |
| Terrain.NoStampsIsFlat | src/maui.js:91-96 | Without stamps the blank map has range 0. |
| Terrain.MakeNoise | src/maui.js:91-98 | The result is a fresh n x n map. It is the normalised stamped blank map when that map is not flat, and `ok` reports exactly whether it is not flat. |
| Terrain.NoiseSpansTarget | src/maui.js:91-98 | A normalised non-flat terrain is n x n. Every value lies in [0, target - 1], and 0 and target - 1 are both attained. |
| Grids.Blank | src/maui.js:38-48 | `size` rows of `size` zeros. |
| Grids.BlankMap | src/maui.js:38-48 | The nested loop builds a fresh n x n grid of zeros, equal to `Blank(n)`. |
| Grids.GridMin | src/maui.js:69-71 | The minimum is attained by some cell and is at most every cell. |
| Grids.GridMax | src/maui.js:73-75 | The maximum is attained by some cell and is at least every cell. |
| Grids.Range | src/maui.js:77-79 | The range is never negative. |
| Grids.FlatIffRangeZero | src/maui.js:77-79 | The range is zero exactly when every cell equals the first cell. |
| Grids.BestInGrid | src/maui.js:57-67 | Scanning from grid[0][0] and replacing only on strict improvement returns a cell of the grid such that no cell is better, for any strict order; when no cell is better than grid[0][0], the result is grid[0][0] itself. |
| Grids.LowestPoint | src/maui.js:69-71 | `bestInGrid` with `<` returns the grid's minimum. |
| Grids.HighestPoint | src/maui.js:73-75 | `bestInGrid` with `>` returns the grid's maximum. |
| Grids.RangeOf | src/maui.js:77-79 | The result is the maximum minus the minimum, and is at least 0. |
| Grids.Rescale | src/maui.js:86 | Defined as floor((v - lo) * (target - 1) / range) in exact integer arithmetic, for a positive range. |
| Grids.RescaleMonotone | src/maui.js:82-86 | The per-cell rescale keeps the non-strict order of values. |
| Grids.RescaleEnds | src/maui.js:82-86 | The minimum maps to 0 and the minimum plus the range to target - 1. |
| Grids.RescaleBounds | src/maui.js:82-86 | Every value between the minimum and the maximum lands in [0, target - 1]. |
| Grids.Normalized | src/maui.js:81-89 | Normalisation keeps the grid's shape. |
| Grids.NormalizedSpansTarget | src/maui.js:81-89 | After normalising, every cell is in [0, target - 1]. The old minimum cells are 0, the old maximum cells are target - 1, and these are the new minimum and maximum. |
| Grids.NormalizedSquare | src/maui.js:81-89 | The same bounds for a square map, which stays n x n. |
| Grids.NormalizedKeepsOrder | src/maui.js:81-89 | If one cell was at most another before normalising, it still is after. |
| Grids.Redistribute | src/maui.js:81-89 | The in-place rescale reports whether the range is positive. If it is, the grid becomes the normalised old grid; otherwise the grid is unchanged. |
| Grids.RescaleCells | src/maui.js:84-88 | The double loop replaces every cell by its rescaled old value. |
| Imaging.Pixels | src/maui.js:100-112 | Defined as the rows' values concatenated top row first, each row its cells' red, blue, green and alpha values left to right. |
| Imaging.PixelsAt | src/maui.js:100-112 | For an R x C grid the data has 4RC values. Value 4(rC + c) + k is channel k of cell [r][c], in the pushed order red, blue, green, alpha. |
| Imaging.PixelsLayout | src/maui.js:100-112 | The same layout, for every cell and channel at once. |
| Imaging.GridToImgData | src/maui.js:100-112 | The nested push loop produces exactly that layout, of length 4 x rows x cols. |
| Imaging.HeightmapToImgData | src/maui.js:100-101 | With the default channel functions, the three colour values of a cell are its height and alpha is 255. |
| Imaging.HeatmapToImgData | src/maui.js:114-121 | Per cell the values are too-hot, habitable, too-cold and 255. Exactly one of the three class values is 255 and the other two are 0. |
| Habitability.IsHabitableHeat | src/maui.js:162-164 | Defined as LowestHabitableTemp <= kelvin <= HighestHabitableTemp. |
| Habitability.TooHotChannel | src/maui.js:118 | Defined as 255 when x * rate is above HighestHabitableTemp, else 0. |
| Habitability.HabitableChannel | src/maui.js:119 | Defined as 255 when x * rate is habitable, else 0. |
| Habitability.TooColdChannel | src/maui.js:120 | Defined as 255 when x * rate is below LowestHabitableTemp, else 0. |
| Habitability.HabitableBand | src/maui.js:162-164 | A temperature is habitable exactly when it lies in [257.65, 307.55]. |
| Habitability.HabitableBoundaries | src/maui.js:4-5 | Both ends of the band are inclusive, and values just outside are excluded. |
| Habitability.ExactlyOneClass | src/maui.js:118-120 | The three channel lambdas partition the scaled values into too hot, too cold and habitable. |
| Calibration.SampleCoord | src/maui.js:172-173 | A sampled coordinate lies in [min, max). |
| Calibration.Hits | src/maui.js:171-179 | The number of successes is at most the number of samples. |
| Calibration.HitsExtremes | src/maui.js:166-181 | If every cell of the box passes the test, every sample succeeds. If none passes, none succeeds. |
| Calibration.RandomTest | src/maui.js:166-181 | After the 200 samples, the result is the success count over 200, and it lies in [0, 1]. |
| Calibration.BandLow | src/maui.js:184 | 7N/16 is an integer strictly inside (0, N) when N is a positive multiple of 16. |
| Calibration.BandHigh | src/maui.js:185 | 9N/16 is an integer strictly inside (0, N) when N is a positive multiple of 16. |
| Calibration.NormalRangeHabitability | src/maui.js:183-188 | The result is the habitable fraction of 200 samples of the band [7N/16, 9N/16) squared, and it lies in [0, 1]. |
| Calibration.ReduceBest | src/maui.js:198 | The fold returns the pair whose score is the greatest, with every later pair's score strictly smaller; that is, the last maximal pair. |
| Calibration.CandidateInRange | src/maui.js:194 | Every candidate `minimum + u * range` lies in [minimum, maximum). |
| Calibration.Maximize | src/maui.js:190-199 | The result is one of the 600 drawn candidates. Its score is at least every score, every later candidate scores strictly less, and it lies in [minimum, maximum). |
| Calibration.FindHeatRate | src/maui.js:201-207 | The rate is a drawn candidate in [0, 1000000) with the greatest score, and every later candidate scores strictly less: the last best candidate. |

## Left out

- The heat integral `calcTemp`, `rayAngle` and `makeHeatmap` (src/maui.js:123-160) is left out. It is floating-point trigonometry with no exact specification, and it has a latent `atan(0/0)` NaN when a point coincides with the sun's path. The heat map is therefore an input of the calibration and of the heat image.
- `Math.random` is not modelled, and neither is its distribution. Every draw is passed in as a real in [0, 1): the four draws of a stamp (`Terrain.Draw`), the two of a sample (`Calibration.Sample`) and one per candidate rate.
- The number of stamps is the length of the draw sequence. The script's defaults of 50000 stamps and a target of 256 are parameters of `Terrain.MakeNoise`.
- Floating-point rounding is not modelled. Floors, ceilings, the disk test and the habitability comparisons are exact over reals and integers.
- Grids.Rescale: models `Math.floor((v + offset) * ((targetRange - 1) / range))` as the exact integer quotient `((v - lo) * (target - 1)) / range`. The floating-point product can round below the exact value. For example, at the default target 256 with range 25, 25 * (255 / 25) is 254.99999999999997 in double precision, so the script sets the maximum cells to 254, not 255. The script can thus put a maximum cell one below target - 1, and the exact maximum stated by Grids.NormalizedSpansTarget and Terrain.NoiseSpansTarget is a property of the exact-arithmetic model that the script does not always have.
- Habitability.HabitableBoundaries: over the reals both ends of the band are inclusive. In double precision 273.15 + 34.4 is 307.54999999999995, so the script's `isHabitableHeat(307.55)` is false and its upper end is not inclusive at the literal 307.55.
- Habitability.ExactlyOneClass and Imaging.HeatmapToImgData: a NaN heat cell, which the `atan(0/0)` case of the heat integral can produce, makes all three channel lambdas return 0, because every comparison with NaN is false. The real-valued model cannot represent NaN, so its "exactly one class" holds only for numeric heat values.
- Grids.Redistribute: on a flat map the script writes NaN into every cell. The model reports `false` and leaves the map unchanged.
- Grids.BestInGrid, Grids.LowestPoint, Grids.HighestPoint, Grids.RangeOf, Grids.Redistribute, Terrain.StampOnce and Terrain.MakeNoise require a non-empty grid (`n > 0` for Terrain.MakeNoise). The script fails on a grid with no rows (reading `grid[0][0]` or `heightmap[0].length`; `makeNoise(0)` fails at src/maui.js:52 or 58), and `bestInGrid` returns `undefined` on rows with no cells; `blankMap(n)` with n > 0 builds neither.
- Grids.BestInGrid requires the comparison to be a strict order. Both comparisons the script passes, `<` and `>`, are strict orders.
- Calibration.NormalRangeHabitability requires the map height N to be a multiple of 16, and at least 9N/16 columns, which is all the sampling reads. Otherwise 7N/16 is not an integer and the script indexes the grid with a fraction. The script's own map, at 1024, is a multiple of 16.
- Calibration.Maximize and Calibration.FindHeatRate: the fitness score of each candidate is given as an input sequence, not computed by calling `normalRangeHabitability` with fresh random samples.
- Imaging.HeatmapToImgData takes the calibration rate as a parameter instead of calling `findHeatRate` itself.
- Grids are modelled as rectangular `array2` values. JavaScript arrays of rows could have unequal lengths, but `blankMap` never builds such a grid.
- The accidental globals `radius` (src/maui.js:18) and `x`/`y` (src/maui.js:172-173) are modelled as locals.
- I/O is left out: `fs`, `pngjs`, the `PNG` objects, the file streams, the `console.log` calls (including the duplicate `reduce` that only logs) and the top-level driver (src/maui.js:1-2, 197, 209-231). Whatever pngjs does with out-of-range values in the pushed data is left out with them.
