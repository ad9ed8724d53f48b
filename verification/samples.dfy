/**
 The dataset of the chart: an ordered list of `{x, y}` records, and the three
 quantities the resampling block derives from it before walking the grid —
 the smallest adjacent gap `minInterval` and the extremes `minX`, `maxX`.
 */
module Samples {
  import opened Wrappers

  /** One `{x, y}` record. Input samples and output rows have the same shape. */
  datatype Datum = Datum(x: real, y: real)

  function Abs(r: real): real {
    if r < 0.0 then -r else r
  }

  function Min(a: real, b: real): real {
    if a <= b then a else b
  }

  function Max(a: real, b: real): real {
    if a >= b then a else b
  }

  /** `|x[i] - x[i-1]|`, the gap between sample `i` and its predecessor. */
  function Gap(s: seq<Datum>, i: int): real
    requires 0 < i < |s|
  {
    Abs(s[i].x - s[i - 1].x)
  }

  /** No two neighbours share an `x`: exactly the inputs whose `minInterval` is positive. */
  predicate AdjacentDistinct(s: seq<Datum>) {
    forall i :: 0 < i < |s| ==> s[i].x != s[i - 1].x
  }

  /** Every sample has the same `x`. */
  predicate Constant(s: seq<Datum>) {
    forall i :: 0 <= i < |s| ==> s[i].x == s[0].x
  }

  /** Strictly ascending `x`, the shape of the chart's own dataset. */
  predicate Ascending(s: seq<Datum>) {
    forall i, j :: 0 <= i < j < |s| ==> s[i].x < s[j].x
  }

  /** Any two samples, adjacent or not, ascend by at least `d`. */
  predicate SpacedBy(s: seq<Datum>, d: real) {
    forall i, j :: 0 <= i < j < |s| ==> s[j].x - s[i].x >= d
  }

  /**
   The `minInterval` fold: starting from `Infinity` (here `None`), take the
   minimum with each adjacent gap from left to right. With fewer than two
   samples the fold never runs and the sentinel survives.
   */
  function MinInterval(s: seq<Datum>): (r: Option<real>)
    ensures r.None? <==> |s| < 2
    ensures r.Some? ==> forall i :: 0 < i < |s| ==> r.value <= Gap(s, i)
    ensures r.Some? ==> exists i :: 0 < i < |s| && r.value == Gap(s, i)
  {
    if |s| < 2 then None
    else
      var init := s[..|s| - 1];
      assert forall i :: 0 < i < |init| ==> Gap(init, i) == Gap(s, i);
      var g := Gap(s, |s| - 1);
      match MinInterval(init)
      case None => Some(g)
      case Some(m) => Some(Min(g, m))
  }

  /** `Math.min(...DATA.map(d => d.x))` for a non-empty dataset. */
  function MinX(s: seq<Datum>): (r: real)
    requires |s| > 0
    ensures forall i :: 0 <= i < |s| ==> r <= s[i].x
    ensures exists i :: 0 <= i < |s| && r == s[i].x
  {
    if |s| == 1 then s[0].x
    else
      var init := s[..|s| - 1];
      assert forall i :: 0 <= i < |init| ==> init[i] == s[i];
      Min(MinX(init), s[|s| - 1].x)
  }

  /** `Math.max(...DATA.map(d => d.x))` for a non-empty dataset. */
  function MaxX(s: seq<Datum>): (r: real)
    requires |s| > 0
    ensures forall i :: 0 <= i < |s| ==> s[i].x <= r
    ensures exists i :: 0 <= i < |s| && r == s[i].x
  {
    if |s| == 1 then s[0].x
    else
      var init := s[..|s| - 1];
      assert forall i :: 0 <= i < |init| ==> init[i] == s[i];
      Max(MaxX(init), s[|s| - 1].x)
  }

  /** A positive `minInterval` is what makes the grid advance at all. */
  lemma PositiveInterval(s: seq<Datum>)
    requires |s| >= 2 && AdjacentDistinct(s)
    ensures MinInterval(s).Some? && MinInterval(s).value > 0.0
  {
    var i :| 0 < i < |s| && MinInterval(s).value == Gap(s, i);
  }

  /** Conversely, one pair of equal neighbours makes `minInterval` zero. */
  lemma ZeroInterval(s: seq<Datum>)
    requires |s| >= 2 && !AdjacentDistinct(s)
    ensures MinInterval(s) == Some(0.0)
  {
    var i :| 0 < i < |s| && s[i].x == s[i - 1].x;
    assert Gap(s, i) == 0.0;
    var j :| 0 < j < |s| && MinInterval(s).value == Gap(s, j);
  }

  /** With every `x` equal, both extremes are that `x`. */
  lemma ConstantExtremes(s: seq<Datum>)
    requires |s| > 0 && Constant(s)
    ensures MinX(s) == s[0].x && MaxX(s) == s[0].x
  {
    var i :| 0 <= i < |s| && MinX(s) == s[i].x;
    var j :| 0 <= j < |s| && MaxX(s) == s[j].x;
  }

  /** Strictly ascending input has no repeated neighbours. */
  lemma AscendingIsAdjacentDistinct(s: seq<Datum>)
    requires Ascending(s)
    ensures AdjacentDistinct(s)
  {
    forall i | 0 < i < |s|
      ensures s[i].x != s[i - 1].x
    {
      assert s[i - 1].x < s[i].x;
    }
  }

  /** For ascending input the extremes are the first and the last sample. */
  lemma AscendingExtremes(s: seq<Datum>)
    requires |s| > 0 && Ascending(s)
    ensures MinX(s) == s[0].x
    ensures MaxX(s) == s[|s| - 1].x
  {
    var i :| 0 <= i < |s| && MinX(s) == s[i].x;
    if i > 0 {
      assert s[0].x < s[i].x;
    }
    var j :| 0 <= j < |s| && MaxX(s) == s[j].x;
    if j < |s| - 1 {
      assert s[j].x < s[|s| - 1].x;
    }
  }

  /**
   Any two ascending samples, adjacent or not, are at least `minInterval`
   apart: the later one is no lower than the successor of the earlier one.
   */
  lemma Spread(s: seq<Datum>)
    requires |s| >= 2 && Ascending(s)
    ensures SpacedBy(s, MinInterval(s).value)
  {
    SpreadFrom(s, MinInterval(s).value);
  }

  lemma SpreadFrom(s: seq<Datum>, d: real)
    requires Ascending(s)
    requires forall i :: 0 < i < |s| ==> d <= Gap(s, i)
    ensures SpacedBy(s, d)
  {
    forall i, j | 0 <= i < j < |s|
      ensures s[j].x - s[i].x >= d
    {
      assert d <= Gap(s, i + 1);
      assert s[i].x < s[i + 1].x;
      if i + 1 < j {
        assert s[i + 1].x < s[j].x;
      }
    }
  }

  /** Samples spaced by a positive amount ascend. */
  lemma SpacedAscending(s: seq<Datum>, d: real)
    requires d > 0.0 && SpacedBy(s, d)
    ensures Ascending(s)
  {
    forall i, j | 0 <= i < j < |s|
      ensures s[i].x < s[j].x
    {
      assert s[j].x - s[i].x >= d;
    }
  }
}
