# Resampling block of echarts-playground

The playground draws a bar chart from a small constant dataset `DATA` of
`{x, y}` samples with irregular `x`. Before the chart is built, a block of
module-level code resamples `DATA` onto a uniform grid:

1. `minInterval` is the smallest gap between neighbouring `x` values. It is
   found by a left-to-right `Math.min` fold that starts from `Infinity`.
2. `minX` and `maxX` are the smallest and largest `x`.
3. A loop walks the grid `minX, minX + minInterval, …` while the position is
   at most `maxX + minInterval`. A cursor `dataIndex` points at the next
   sample not yet emitted:
   - when the position has reached or passed that sample's `x`, the loop
     pushes `{x: position, y: sample.y}` and advances the cursor;
   - otherwise it pushes a filler row `{x: position, y: 0}`.

The model consists of five modules:

- `Wrappers`: the `Option` type; `None` stands for the `Infinity` start value of
  the `minInterval` fold.
- `Samples`: the dataset, the `minInterval` fold and the extremes.
- `UniformGrid`: the grid the loop walks. It covers the accumulated positions,
  the loop guard, the number of iterations and where a value lands on the grid.
- `Resample`: the loop. It contains:
  - `Resample`, the block as written;
  - `ResampleGuarded`, the block with the missing bound check added;
  - a cursor-free reference definition of every output row (`Expected`), which
    the loop is proved to produce.
- `AppData`: the chart's own `DATA` and the smallest dataset that exposes the
  read past the end.

Numbers are exact reals. The cursor reads `DATA[dataIndex].x` with no bound
check. When the cursor has consumed every sample while the loop guard still
holds, that read is `undefined.x` and the block throws. The `Outcome` datatype
records this as `ReadPastEnd(rows)`, holding the rows pushed before the throw.

## Model

| member | source | states |
|---|---|---|
| `Samples.MinInterval` | src/App.tsx:16-19 | The fold's result is the `Infinity` sentinel exactly when there are fewer than two samples. Otherwise it is no larger than any neighbouring gap, and it equals one of them. |
| `Samples.MinX` | src/App.tsx:21 | `minX` is at most every sample's `x` and is the `x` of some sample. |
| `Samples.MaxX` | src/App.tsx:22 | `maxX` is at least every sample's `x` and is the `x` of some sample. |
| `Samples.PositiveInterval` | src/App.tsx:16-19 | With at least two samples and no equal neighbours, `minInterval` is a positive number. |
| `Samples.ZeroInterval` | src/App.tsx:16-19 | One pair of neighbours with equal `x` makes `minInterval` exactly 0. |
| `Samples.ConstantExtremes` | src/App.tsx:21-22 | When every sample has the same `x`, `minX` and `maxX` are both that `x`. |
| `Samples.AscendingExtremes` | src/App.tsx:21-22 | For ascending input, `minX` is the first sample's `x` and `maxX` the last one's. |
| `Samples.Spread` | src/App.tsx:16-19 | For ascending input, any two samples, adjacent or not, are at least `minInterval` apart. |
| `UniformGrid.Grid.Closed` | src/App.tsx:26 | The accumulated position after `k` increments equals `minX + k * minInterval`. |
| `UniformGrid.Grid.FirstIndex` | src/App.tsx:26-28 | Gives the index of the first grid point at or past `x`: `x` lies in the half-open window (point k-1, point k]. |
| `UniformGrid.Grid.LandsUnique` | src/App.tsx:26-28 | A value lies in exactly one such window. |
| `UniformGrid.Grid.OnGridIff` | src/App.tsx:26 | A value is "on the grid" exactly when some grid point equals it. |
| `UniformGrid.Grid.Steps` | src/App.tsx:26 | The loop runs a finite number of iterations, at most `(maxX - minX) / minInterval + 2`. The last position passes the guard and the next one fails it. |
| `UniformGrid.Grid.Guard` | src/App.tsx:26 | The loop guard holds at grid point `k` exactly when `k` is below the iteration count. |
| `UniformGrid.Grid.LastLanding` | src/App.tsx:26-30 | `maxX` lands two points before the loop ends when it is on the grid, and on the loop's last point when it is not. |
| `Resample.GridOf` | src/App.tsx:16-22 | The grid derived from a dataset with two or more samples and no equal neighbours has a positive step and `minX <= maxX`. |
| `Resample.LandingFrom` | src/App.tsx:27-30 | The reference search returns the first sample from a given index whose first grid point at or past it is point `k`. It returns none exactly when no such sample exists. |
| `Resample.OnePerWindow` | src/App.tsx:27-30 | When samples are at least a step apart, at most one sample lands in any one step window. |
| `Resample.LandingIsUnique` | src/App.tsx:27-30 | The sample landing at point `k` is the one the reference row carries. |
| `Resample.NoLag` | src/App.tsx:27-30 | A later sample lands at a strictly later grid point, so the cursor never falls behind. Distinct samples go to distinct rows, in order. |
| `Resample.AscendingFits` | src/App.tsx:16-22 | An ascending dataset starts at `minX`, ends at `maxX` and is spaced by at least `minInterval` on its own grid. |
| `Resample.Walk` | src/App.tsx:24-34 | Row `k` sits at grid point `k`, and the loop emits at most the iteration count of rows. When the run completes it emits exactly that many. For a dataset that fits the grid, these also hold: <ul><li>every row is the reference row (the landing sample's `y`, or `0`);</li><li>every sample's row is emitted;</li><li>exactly `FirstIndex(maxX) + 1` rows are pushed;</li><li>the run reads past the end exactly when `maxX` is on the grid.</li></ul> |
| `Resample.Stalled` | src/App.tsx:16-33 | On two or more samples that all share one `x`, `minInterval` is 0 and the position stays at `minX = maxX`. Every sample is pushed unchanged, and then the run reads past the end: the outcome is `ReadPastEnd(s)`. |
| `Resample.Spaced` | src/App.tsx:16-34 | On two or more samples whose neighbours all differ, this is the walk on the dataset's own grid, with the `Walk` guarantees stated in terms of `minX`, `maxX` and `minInterval`. For ascending input it adds that the first row is the first sample and the last row carries the last sample's `y`. |
| `Resample.Resample` | src/App.tsx:16-34 | The block as written, on every input on which it stops, with these outcomes: <ul><li>empty input completes with no rows;</li><li>a single sample is pushed, and then the run reads past the end;</li><li>samples that all share one `x` are all pushed, and then the run reads past the end;</li><li>for two or more samples with distinct neighbours, rows are uniform and bounded in number, as in `Walk`.</li></ul> For ascending input it also states: <ul><li>every row matches the reference;</li><li>the first row is the first sample and the last row carries the last sample's `y`;</li><li>`FirstIndex(maxX) + 1` rows are pushed;</li><li>the run ends reading past the end exactly when `maxX` is on the grid.</li></ul> |
| `Resample.WalkGuarded` | src/App.tsx:24-34 | This is the loop with the cursor bound added to its guard. Rows sit on consecutive grid points and never exceed the iteration count. For a dataset that fits the grid, every row is the reference row, every sample's row is emitted, and `FirstIndex(maxX) + 1` rows are returned, as in `Walk`, but with no read past the end. |
| `Resample.StalledGuarded` | src/App.tsx:16-33 | With the bound check, samples that all share one `x` come back exactly as they are. |
| `Resample.ResampleGuarded` | src/App.tsx:16-34 | This is the block with the bound check. Empty input gives no rows, and a single sample gives just that sample. Samples that all share one `x` come back unchanged. For ascending input, every row is the reference row, `FirstIndex(maxX) + 1` rows are returned, the first row is the first sample and the last row carries the last sample's `y`. |
| `Resample.RowsDetermined` | src/App.tsx:27-33 | Two runs that both match the reference and have the same number of rows have the same rows. For ascending input, `Resample.Resample` and `Resample.ResampleGuarded` both match the reference with `FirstIndex(maxX) + 1` rows. So the guarded block returns exactly the rows the block as written pushes before its read past the end. |
| `Resample.SampleRow` | src/App.tsx:27-30 | Every sample is emitted, with its `y` unchanged, at the first grid point at or past its `x`. |
| `Resample.FillerRow` | src/App.tsx:31-32 | A row at which no sample lands is a filler row with `y = 0`. |
| `Resample.FirstRow` | src/App.tsx:24-29 | The first row is `{minX, DATA[0].y}`, which is the first sample itself. |
| `Resample.LastRow` | src/App.tsx:27-30 | The last row pushed carries the last sample's `y`. |
| `AppData.DataMinInterval` | src/App.tsx:4-19 | For the chart's `DATA`, `minInterval` is 0.1 (the gap between 2 and 2.1). |
| `AppData.DataGrid` | src/App.tsx:4-22 | `DATA`'s grid runs from 1 to 7 in steps of 0.1, and `maxX = 7` is grid point 60. |
| `AppData.LoadModule` | src/App.tsx:4-34 | Under exact arithmetic the block run on `DATA` pushes 61 rows, from `{1, 1}` to `{7, 9}`, and then reads past the end. In double precision the positions drift off the grid, so this describes the exact model, not the page as it runs (see the first finding). |
| `AppData.OneTwoGrid` | src/App.tsx:16-26 | For `[{1,1},{2,2}]` the grid is 1, 2, 3 with step 1, and `maxX = 2` is on it. |
| `AppData.RunOneTwo` | src/App.tsx:24-34 | On `[{1,1},{2,2}]` the block pushes both samples and then reads past the end at position 3. |
| `AppData.RunOneTwoGuarded` | src/App.tsx:24-34 | With the bound check, the same input gives back exactly its two samples. |

## Left out

- The `App` component (src/App.tsx:61-75) and the chart option
  (src/App.tsx:36-59) are out of scope. They only mount ECharts and hand it the
  resampled rows, and that is I/O into a library this model does not include.
- IEEE-754 floating point is out of scope. The model computes with exact reals,
  whereas in the running program `i += minInterval` accumulates rounding error.
  Whether `maxX` is "on the grid" can therefore differ between the model and a
  real run. The model states the exact-arithmetic behaviour and makes no claim
  about rounding.
- `Infinity` and `NaN` are not numbers in the model:
  - the `Infinity` start value of the `minInterval` fold is `None`;
  - the empty and single-sample cases, where `Math.min()` of nothing, `NaN`
    bounds and an `Infinity` step arise, are written out directly in
    `Resample.Resample`.
- `Resample.Resample` requires that either no two neighbouring samples share
  an `x`, or every sample has the same `x`. These are exactly the inputs on
  which the block stops. With equal neighbours `minInterval` is 0
  (`Samples.ZeroInterval`), and the position stays at `minX`. Once the cursor
  reaches a sample above `minX`, the loop pushes filler rows forever, so any
  other input never terminates. The model does not represent that case.
- `Resample.Resample` states the row-by-row characterization (`Matches`, first
  and last row, row count, outcome) only for strictly ascending input. For
  unsorted input, the only properties stated are uniform row positions and the
  iteration bound. The block's comment and its only dataset assume sorted input.
- Nothing beyond the block's own output is modelled: each row has exactly the
  fields `x` and `y`, as pushed at src/App.tsx:29 and src/App.tsx:32.

## Findings

| source | as written | input that shows it | evidently intended | confidence | as-written member | corrected member |
|---|---|---|---|---|---|---|
| src/App.tsx:26-30 | The loop guard bounds only the position, not the cursor. Once every sample is consumed, the next iteration reads `DATA[DATA.length].x` and throws. | `[{x:1,y:1},{x:2,y:2}]`: grid 1, 2, 3, and at 3 the cursor is 2. The pair is exact in double precision too. The chart's own `DATA` reads past the end only under exact arithmetic, where `maxX = 7` is grid point 60 and the read at 7.1 is past the end. In doubles, `2.1 - 2` is slightly above 0.1. Worked by hand, point 60 then falls just below 7, 7 is consumed at point 61, and the page's own run completes. | Stop emitting samples once the cursor passes the last one, never reading past it | not executed | `AppData.RunOneTwo` | `AppData.RunOneTwoGuarded` |
| src/App.tsx:16-30 | With a single sample, `minInterval` stays `Infinity`. After the sample is pushed, the position becomes `Infinity`, which still passes the guard, and the next read is past the end. | `[{x:5,y:9}]` | Emit the one sample and stop | not executed | `Resample.Resample` | `Resample.ResampleGuarded` |
