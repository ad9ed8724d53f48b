/**
 The grid walk of the resampling block: walk the grid from `minX` in steps of
 `minInterval` while the position is at most `maxX + minInterval`, with a
 cursor on the next unconsumed sample. When the position has reached or passed
 that sample, emit `{x: position, y: sample.y}` and advance the cursor;
 otherwise emit the filler row `{x: position, y: 0}`.

 The block reads the sample under the cursor without checking that the cursor
 is still inside the dataset, so a run either completes or throws (reading
 `.x` of `undefined`) after pushing some rows. `Resample` models the block as
 written; `ResampleGuarded` is the walk with the missing bound check added.
 */
module Resample {
  import opened Wrappers
  import opened Samples
  import opened UniformGrid

  /** How a run of the block ends, with the rows pushed so far. */
  datatype Outcome =
    | Completed(rows: seq<Datum>)
    | ReadPastEnd(rows: seq<Datum>)  // the cursor reached the end while the loop still ran

  /** The grid the block derives from a dataset with at least two samples. */
  function GridOf(s: seq<Datum>): (g: Grid)
    requires |s| >= 2 && AdjacentDistinct(s)
    ensures g.Valid()
  {
    PositiveInterval(s);
    assert MinX(s) <= s[0].x <= MaxX(s);
    Grid(MinX(s), MaxX(s), MinInterval(s).value)
  }

  /** Row `k` sits at grid point `k`: consecutive rows are exactly one step apart. */
  predicate Uniform(g: Grid, rows: seq<Datum>) {
    forall k {:trigger rows[k]} :: 0 <= k < |rows| ==> rows[k].x == g.Point(k)
  }

  /** The first sample at or after index `j` that lands at grid point `k`. */
  function LandingFrom(s: seq<Datum>, g: Grid, k: int, j: nat): (r: Option<nat>)
    requires j <= |s|
    ensures r.Some? ==> j <= r.value < |s| && g.Lands(s[r.value].x, k)
    ensures r.Some? ==> forall i :: j <= i < r.value ==> !g.Lands(s[i].x, k)
    ensures r.None? ==> forall i :: j <= i < |s| ==> !g.Lands(s[i].x, k)
    decreases |s| - j
  {
    if j == |s| then None
    else if g.Lands(s[j].x, k) then Some(j)
    else LandingFrom(s, g, k, j + 1)
  }

  /** The sample, if any, whose first grid point at or past it is point `k`. */
  function Landing(s: seq<Datum>, g: Grid, k: int): Option<nat> {
    LandingFrom(s, g, k, 0)
  }

  /**
   The reference row at grid point `k`, stated without the cursor: the `y`
   of the sample landing there, or `0` when none does.
   */
  function Expected(s: seq<Datum>, g: Grid, k: int): Datum {
    match Landing(s, g, k)
    case Some(j) => Datum(g.Point(k), s[j].y)
    case None => Datum(g.Point(k), 0.0)
  }

  /** Every row is the reference row for its grid point. */
  predicate Matches(s: seq<Datum>, g: Grid, rows: seq<Datum>) {
    forall k :: 0 <= k < |rows| ==> rows[k] == Expected(s, g, k)
  }

  /** The row at which every sample lands has been emitted. */
  predicate Covers(s: seq<Datum>, g: Grid, rows: seq<Datum>)
    requires g.step > 0.0
  {
    forall j :: 0 <= j < |s| ==> g.FirstIndex(s[j].x) < |rows|
  }

  /**
   At most one sample lands in any window (Point(k-1), Point(k)]: the window
   is one step wide and no two samples are closer than a step.
   */
  lemma OnePerWindow(s: seq<Datum>, g: Grid, i: int, j: int, k: int)
    requires g.step > 0.0 && SpacedBy(s, g.step)
    requires 0 <= i < |s| && 0 <= j < |s|
    requires g.Lands(s[i].x, k) && g.Lands(s[j].x, k)
    ensures i == j
  {
    g.Succ(k - 1);
  }

  /** So the sample that lands at point `k` is the one the reference row carries. */
  lemma LandingIsUnique(s: seq<Datum>, g: Grid, i: int, k: int)
    requires g.step > 0.0 && SpacedBy(s, g.step)
    requires 0 <= i < |s| && g.Lands(s[i].x, k)
    ensures Landing(s, g, k) == Some(i)
  {
    var r := Landing(s, g, k);
    OnePerWindow(s, g, i, r.value, k);
  }

  /**
   The cursor never lags: a later sample lands at a strictly later grid
   point, so distinct samples are emitted on distinct rows, in order.
   */
  lemma NoLag(s: seq<Datum>, g: Grid, i: int, j: int)
    requires g.step > 0.0 && SpacedBy(s, g.step)
    requires 0 <= i < j < |s|
    ensures g.FirstIndex(s[i].x) < g.FirstIndex(s[j].x)
  {
    var a, b := g.FirstIndex(s[i].x), g.FirstIndex(s[j].x);
    g.Succ(a - 1);
    assert s[j].x > g.Point(a);
    g.Mono(b, a);
  }

  /**
   The shape of the chart's dataset relative to its grid: spaced by at
   least a step (so ascending), starting at `lo` and ending at `hi`.
   */
  ghost predicate Fits(s: seq<Datum>, g: Grid) {
    && 0 < |s|
    && g.step > 0.0
    && SpacedBy(s, g.step)
    && s[0].x == g.lo
    && s[|s| - 1].x == g.hi
  }

  /**
   The loop state after `k` rows with the cursor at `i`, on a dataset that
   fits its grid: the consumed samples lie at or below point `k - 1`, the
   cursor's sample lies past it (the cursor never lags), the last sample
   consumed landed on the last row, and every row is the reference row.
   */
  ghost predicate Tracks(s: seq<Datum>, g: Grid, rows: seq<Datum>, k: int, i: int) {
    && |rows| == k
    && 0 <= i <= |s|
    && (i == 0 ==> k == 0)
    && (i < |s| ==> s[i].x > g.Point(k - 1))
    && (0 < i ==> s[i - 1].x <= g.Point(k - 1))
    && (0 < i == |s| ==> g.Lands(s[i - 1].x, k - 1))
    && Matches(s, g, rows)
  }

  lemma MatchesExtend(s: seq<Datum>, g: Grid, rows: seq<Datum>, k: int)
    requires Matches(s, g, rows) && |rows| == k
    ensures Matches(s, g, rows + [Expected(s, g, k)])
  {
  }

  /**
   At point `k` the cursor's sample has been reached: it is the one landing
   there, the row carries its `y`, and the next sample lies past point `k`.
   */
  lemma ConsumeStep(s: seq<Datum>, g: Grid, rows: seq<Datum>, k: int, i: int)
    requires Fits(s, g) && Tracks(s, g, rows, k, i)
    requires i < |s| && s[i].x <= g.Point(k)
    ensures Tracks(s, g, rows + [Datum(g.Point(k), s[i].y)], k + 1, i + 1)
  {
    LandingIsUnique(s, g, i, k);
    MatchesExtend(s, g, rows, k);
    g.Succ(k - 1);
  }

  /**
   At point `k` the cursor's sample is still ahead and every consumed one is
   behind point `k - 1`: nothing lands at `k` and the row is the filler.
   */
  lemma FillerStep(s: seq<Datum>, g: Grid, rows: seq<Datum>, k: int, i: int)
    requires Fits(s, g) && Tracks(s, g, rows, k, i)
    requires i < |s| && g.Point(k) < s[i].x
    ensures Tracks(s, g, rows + [Datum(g.Point(k), 0.0)], k + 1, i)
  {
    SpacedAscending(s, g.step);
    assert Landing(s, g, k) == None;
    MatchesExtend(s, g, rows, k);
    g.Succ(k - 1);
    g.Mono(k - 1, k);
  }

  /** Once the last sample's row is out, so is every other sample's. */
  lemma CoveredByLast(s: seq<Datum>, g: Grid, rows: seq<Datum>)
    requires g.step > 0.0 && SpacedBy(s, g.step)
    requires |s| > 0 && g.FirstIndex(s[|s| - 1].x) < |rows|
    ensures Covers(s, g, rows)
  {
    forall j | 0 <= j < |s| - 1
      ensures g.FirstIndex(s[j].x) < |rows|
    {
      NoLag(s, g, j, |s| - 1);
    }
  }

  /** Once the guard fails every sample has been consumed: the cursor never lags. */
  lemma Exhausted(s: seq<Datum>, g: Grid, rows: seq<Datum>, k: int, i: int)
    requires Fits(s, g) && Tracks(s, g, rows, k, i)
    requires g.Point(k) > g.hi + g.step
    ensures i == |s|
  {
    g.Succ(k - 1);
  }

  /**
   The loop ends, at point `k`, with every sample consumed: whether it ends
   by reading past the last sample or by failing the guard is decided by
   whether `hi` sits on the grid.
   */
  lemma Finish(s: seq<Datum>, g: Grid, rows: seq<Datum>, k: int)
    requires Fits(s, g) && Tracks(s, g, rows, k, |s|)
    ensures Covers(s, g, rows) && k == g.FirstIndex(g.hi) + 1
    ensures g.Point(k) <= g.hi + g.step <==> g.OnGrid(g.hi)
  {
    var n := |s|;
    g.LandsUnique(s[n - 1].x, k - 1, g.FirstIndex(g.hi));
    CoveredByLast(s, g, rows);
    g.Succ(k - 1);
  }

  /**
   The grid loop with its cursor, for given `minX`, `maxX` and `minInterval`.
   The cursor is read without a bound check, so the run may end by reading
   past the last sample.
   */
  method Walk(s: seq<Datum>, g: Grid) returns (o: Outcome)
    requires g.Valid()
    ensures Uniform(g, o.rows)
    ensures |o.rows| <= g.Steps()
    ensures o.Completed? ==> |o.rows| == g.Steps()
    ensures Fits(s, g) ==> Matches(s, g, o.rows)
    ensures Fits(s, g) ==> Covers(s, g, o.rows)
    ensures Fits(s, g) ==> |o.rows| == g.FirstIndex(g.hi) + 1
    ensures Fits(s, g) ==> (o.ReadPastEnd? <==> g.OnGrid(g.hi))
  {
    var n := |s|;
    ghost var fits := Fits(s, g);
    var i := g.lo;
    var dataIndex := 0;
    var rows: seq<Datum> := [];
    ghost var k := 0;
    while i <= g.hi + g.step
      invariant 0 <= k <= g.Steps() && |rows| == k && i == g.Point(k)
      invariant 0 <= dataIndex <= n
      invariant Uniform(g, rows)
      invariant fits ==> Tracks(s, g, rows, k, dataIndex)
      decreases g.Steps() - k
    {
      g.Guard(k);
      g.Succ(k);
      if dataIndex == n {
        if fits {
          Finish(s, g, rows, k);
        }
        return ReadPastEnd(rows);
      }
      if i >= s[dataIndex].x {
        if fits {
          ConsumeStep(s, g, rows, k, dataIndex);
        }
        rows := rows + [Datum(i, s[dataIndex].y)];
        dataIndex := dataIndex + 1;
      } else {
        if fits {
          FillerStep(s, g, rows, k, dataIndex);
        }
        rows := rows + [Datum(i, 0.0)];
      }
      i := i + g.step;
      k := k + 1;
    }
    g.Guard(k);
    if fits {
      Exhausted(s, g, rows, k, dataIndex);
      Finish(s, g, rows, k);
    }
    return Completed(rows);
  }

  /** An ascending dataset fits the grid the block derives from it. */
  lemma AscendingFits(s: seq<Datum>)
    requires |s| >= 2 && Ascending(s)
    ensures AdjacentDistinct(s) && Fits(s, GridOf(s))
  {
    AscendingIsAdjacentDistinct(s);
    Spread(s);
    AscendingExtremes(s);
  }

  /**
   The block on at least two samples that all share one `x`: `minInterval`
   is zero and `minX` equals `maxX`, so the position never moves and the
   guard `minX <= maxX + 0` always holds. Each sample is consumed where it
   stands, and the read after the last one is past the end.
   */
  method Stalled(s: seq<Datum>) returns (o: Outcome)
    requires |s| >= 2 && Constant(s)
    ensures o == ReadPastEnd(s)
  {
    assert s[1].x == s[0].x;
    ZeroInterval(s);
    ConstantExtremes(s);
    var n := |s|;
    var minX, maxX, minInterval := MinX(s), MaxX(s), MinInterval(s).value;
    var i := minX;
    var dataIndex := 0;
    var rows: seq<Datum> := [];
    while i <= maxX + minInterval
      invariant i == s[0].x && 0 <= dataIndex <= n && rows == s[..dataIndex]
      decreases n - dataIndex
    {
      if dataIndex == n {
        assert rows == s;
        return ReadPastEnd(rows);
      }
      if i >= s[dataIndex].x {
        rows := rows + [Datum(i, s[dataIndex].y)];
        dataIndex := dataIndex + 1;
      } else {
        assert false;
      }
      i := i + minInterval;
    }
    assert false;
  }

  /**
   The resampling block as written. Its inputs are those on which it stops:
   neighbours that differ in `x`, or one `x` shared by every sample. Equal
   neighbours make `minInterval` zero, and then the loop ends only if no
   sample lies above `minX`.
   */
  method Resample(s: seq<Datum>) returns (o: Outcome)
    requires AdjacentDistinct(s) || Constant(s)
    ensures |s| == 0 ==> o == Completed([])
    ensures |s| == 1 ==> o == ReadPastEnd([s[0]])
    ensures |s| >= 2 && !AdjacentDistinct(s) ==> o == ReadPastEnd(s)
    ensures |s| >= 2 && AdjacentDistinct(s) ==> Uniform(GridOf(s), o.rows)
    ensures |s| >= 2 && AdjacentDistinct(s) ==> |o.rows| <= GridOf(s).Steps()
    ensures |s| >= 2 && AdjacentDistinct(s) && o.Completed? ==> |o.rows| == GridOf(s).Steps()
    ensures |s| >= 2 && AdjacentDistinct(s) && Ascending(s) ==> Matches(s, GridOf(s), o.rows)
    ensures |s| >= 2 && AdjacentDistinct(s) && Ascending(s) ==> Covers(s, GridOf(s), o.rows)
    ensures |s| >= 2 && AdjacentDistinct(s) && Ascending(s) ==> |o.rows| == GridOf(s).FirstIndex(MaxX(s)) + 1
    ensures |s| >= 2 && AdjacentDistinct(s) && Ascending(s) ==> (o.ReadPastEnd? <==> GridOf(s).OnGrid(MaxX(s)))
    ensures |s| >= 2 && AdjacentDistinct(s) && Ascending(s) ==> 0 < |o.rows| && o.rows[0] == s[0]
    ensures |s| >= 2 && AdjacentDistinct(s) && Ascending(s) ==>
      o.rows[|o.rows| - 1] == Datum(GridOf(s).Point(|o.rows| - 1), s[|s| - 1].y)
  {
    if |s| == 0 {
      // minX is Infinity, maxX + minInterval is NaN: the loop guard is false at once.
      return Completed([]);
    }
    if |s| == 1 {
      // The one sample is consumed; the position then jumps to Infinity, which
      // still passes the guard, and the next read is past the end.
      return ReadPastEnd([s[0]]);
    }
    if !AdjacentDistinct(s) {
      o := Stalled(s);
    } else {
      o := Spaced(s);
    }
  }

  /** The block on two or more samples with distinct neighbours: the walk on their own grid. */
  method Spaced(s: seq<Datum>) returns (o: Outcome)
    requires |s| >= 2 && AdjacentDistinct(s)
    ensures Uniform(GridOf(s), o.rows)
    ensures |o.rows| <= GridOf(s).Steps()
    ensures o.Completed? ==> |o.rows| == GridOf(s).Steps()
    ensures Ascending(s) ==> Matches(s, GridOf(s), o.rows)
    ensures Ascending(s) ==> Covers(s, GridOf(s), o.rows)
    ensures Ascending(s) ==> |o.rows| == GridOf(s).FirstIndex(MaxX(s)) + 1
    ensures Ascending(s) ==> (o.ReadPastEnd? <==> GridOf(s).OnGrid(MaxX(s)))
    ensures Ascending(s) ==> 0 < |o.rows| && o.rows[0] == s[0]
    ensures Ascending(s) ==>
      o.rows[|o.rows| - 1] == Datum(GridOf(s).Point(|o.rows| - 1), s[|s| - 1].y)
  {
    o := Walk(s, GridOf(s));
    if Ascending(s) {
      AscendingFits(s);
      FirstRow(s, GridOf(s), o.rows);
      LastRow(s, GridOf(s), o.rows);
    }
  }

  /**
   The grid loop with the bound check the block leaves out: it also stops
   once every sample has been consumed, so it never reads past the end.
   */
  method WalkGuarded(s: seq<Datum>, g: Grid) returns (rows: seq<Datum>)
    requires g.Valid()
    ensures Uniform(g, rows)
    ensures |rows| <= g.Steps()
    ensures Fits(s, g) ==> Matches(s, g, rows)
    ensures Fits(s, g) ==> Covers(s, g, rows)
    ensures Fits(s, g) ==> |rows| == g.FirstIndex(g.hi) + 1
  {
    var n := |s|;
    ghost var fits := Fits(s, g);
    var i := g.lo;
    var dataIndex := 0;
    rows := [];
    ghost var k := 0;
    while i <= g.hi + g.step && dataIndex < n
      invariant 0 <= k <= g.Steps() && |rows| == k && i == g.Point(k)
      invariant 0 <= dataIndex <= n
      invariant Uniform(g, rows)
      invariant fits ==> Tracks(s, g, rows, k, dataIndex)
      decreases g.Steps() - k
    {
      g.Guard(k);
      g.Succ(k);
      if i >= s[dataIndex].x {
        if fits {
          ConsumeStep(s, g, rows, k, dataIndex);
        }
        rows := rows + [Datum(i, s[dataIndex].y)];
        dataIndex := dataIndex + 1;
      } else {
        if fits {
          FillerStep(s, g, rows, k, dataIndex);
        }
        rows := rows + [Datum(i, 0.0)];
      }
      i := i + g.step;
      k := k + 1;
    }
    if fits {
      if dataIndex < n {
        Exhausted(s, g, rows, k, dataIndex);
      }
      Finish(s, g, rows, k);
    }
  }

  /**
   The bound-checked walk on samples that all share one `x`: each is
   consumed where it stands, and the walk stops with the cursor at the end.
   */
  method StalledGuarded(s: seq<Datum>) returns (rows: seq<Datum>)
    requires |s| >= 2 && Constant(s)
    ensures rows == s
  {
    assert s[1].x == s[0].x;
    ZeroInterval(s);
    ConstantExtremes(s);
    var n := |s|;
    var minX, maxX, minInterval := MinX(s), MaxX(s), MinInterval(s).value;
    var i := minX;
    var dataIndex := 0;
    rows := [];
    while i <= maxX + minInterval && dataIndex < n
      invariant i == s[0].x && 0 <= dataIndex <= n && rows == s[..dataIndex]
      decreases n - dataIndex
    {
      if i >= s[dataIndex].x {
        rows := rows + [Datum(i, s[dataIndex].y)];
        dataIndex := dataIndex + 1;
      } else {
        assert false;
      }
      i := i + minInterval;
    }
    assert rows == s;
  }

  /**
   The block with the bound check added. A single sample is emitted as it
   is; otherwise the rows are those of the block as written, without the
   read past the end.
   */
  method ResampleGuarded(s: seq<Datum>) returns (rows: seq<Datum>)
    requires AdjacentDistinct(s) || Constant(s)
    ensures |s| == 0 ==> rows == []
    ensures |s| == 1 ==> rows == [s[0]]
    ensures |s| >= 2 && !AdjacentDistinct(s) ==> rows == s
    ensures |s| >= 2 && AdjacentDistinct(s) ==> Uniform(GridOf(s), rows)
    ensures |s| >= 2 && AdjacentDistinct(s) && Ascending(s) ==> Matches(s, GridOf(s), rows)
    ensures |s| >= 2 && AdjacentDistinct(s) && Ascending(s) ==> Covers(s, GridOf(s), rows)
    ensures |s| >= 2 && AdjacentDistinct(s) && Ascending(s) ==> |rows| == GridOf(s).FirstIndex(MaxX(s)) + 1
    ensures |s| >= 2 && AdjacentDistinct(s) && Ascending(s) ==> 0 < |rows| && rows[0] == s[0]
    ensures |s| >= 2 && AdjacentDistinct(s) && Ascending(s) ==>
      rows[|rows| - 1] == Datum(GridOf(s).Point(|rows| - 1), s[|s| - 1].y)
  {
    if |s| == 0 {
      return [];
    }
    if |s| == 1 {
      return [s[0]];
    }
    if !AdjacentDistinct(s) {
      rows := StalledGuarded(s);
      return;
    }
    rows := WalkGuarded(s, GridOf(s));
    if Ascending(s) {
      AscendingFits(s);
      FirstRow(s, GridOf(s), rows);
      LastRow(s, GridOf(s), rows);
    }
  }

  /**
   Every sample is emitted at the first grid point at or past its `x`, with
   its `y` unchanged.
   */
  lemma SampleRow(s: seq<Datum>, g: Grid, rows: seq<Datum>, j: int)
    requires Fits(s, g) && Matches(s, g, rows) && Covers(s, g, rows)
    requires 0 <= j < |s|
    ensures var m := g.FirstIndex(s[j].x); rows[m] == Datum(g.Point(m), s[j].y)
  {
    LandingIsUnique(s, g, j, g.FirstIndex(s[j].x));
  }

  /** A row at which no sample lands is a filler row: `y` is zero. */
  lemma FillerRow(s: seq<Datum>, g: Grid, rows: seq<Datum>, m: int)
    requires g.step > 0.0 && Matches(s, g, rows)
    requires 0 <= m < |rows|
    requires forall j :: 0 <= j < |s| ==> g.FirstIndex(s[j].x) != m
    ensures rows[m] == Datum(g.Point(m), 0.0)
  {
    var r := Landing(s, g, m);
    if r.Some? {
      g.LandsUnique(s[r.value].x, m, g.FirstIndex(s[r.value].x));
    }
  }

  /** The last row carries the last sample, at the first grid point at or past `maxX`. */
  lemma LastRow(s: seq<Datum>, g: Grid, rows: seq<Datum>)
    requires Fits(s, g) && Matches(s, g, rows) && Covers(s, g, rows)
    requires |rows| == g.FirstIndex(g.hi) + 1
    ensures rows[|rows| - 1] == Datum(g.Point(|rows| - 1), s[|s| - 1].y)
  {
    SampleRow(s, g, rows, |s| - 1);
  }

  /**
   The reference fixes a run's rows once their number is known: two runs
   that both match it and push as many rows push the same rows.
   */
  lemma RowsDetermined(s: seq<Datum>, g: Grid, a: seq<Datum>, b: seq<Datum>)
    requires Matches(s, g, a) && Matches(s, g, b) && |a| == |b|
    ensures a == b
  {
    forall k | 0 <= k < |a|
      ensures a[k] == b[k]
    {
      assert a[k] == Expected(s, g, k);
    }
  }

  /** The first row is the first sample: at `minX` the first sample is always consumed. */
  lemma FirstRow(s: seq<Datum>, g: Grid, rows: seq<Datum>)
    requires Fits(s, g) && Matches(s, g, rows) && Covers(s, g, rows)
    ensures 0 < |rows| && rows[0] == s[0]
  {
    g.Succ(-1);
    g.LandsUnique(s[0].x, 0, g.FirstIndex(s[0].x));
    SampleRow(s, g, rows, 0);
  }
}
