/**
 The uniform grid the resampling loop walks: it starts at `minX`, advances by
 `minInterval` and keeps going while the position is at most
 `maxX + minInterval`. Under exact arithmetic the accumulated loop variable
 after `k` increments is `Point(k)`.
 */
module UniformGrid {

  lemma ScaleMono(a: real, b: real, c: real)
    requires a <= b && c > 0.0
    ensures a * c <= b * c
  {
    assert (b - a) * c >= 0.0;
  }

  lemma ScaleStrict(a: real, b: real, c: real)
    requires a < b && c > 0.0
    ensures a * c < b * c
  {
    assert (b - a) * c > 0.0;
  }

  /** Scaling back the ceiling of `d / step`. */
  lemma CeilScaled(d: real, step: real, m: int)
    requires step > 0.0
    requires (m - 1) as real < d / step <= m as real
    ensures (m - 1) as real * step < d <= m as real * step
  {
    var q := d / step;
    assert q * step == d;
    ScaleStrict((m - 1) as real, q, step);
    ScaleMono(q, m as real, step);
  }

  /** Scaling back the floor of `d / step`. */
  lemma FloorScaled(d: real, step: real, m: int)
    requires step > 0.0
    requires m as real <= d / step < (m + 1) as real
    ensures m as real * step <= d < (m + 1) as real * step
  {
    var q := d / step;
    assert q * step == d;
    ScaleMono(m as real, q, step);
    ScaleStrict(q, (m + 1) as real, step);
  }

  /** `lo` is `minX`, `hi` is `maxX`, `step` is `minInterval`. */
  datatype Grid = Grid(lo: real, hi: real, step: real) {

    predicate Valid() {
      step > 0.0 && lo <= hi
    }

    /**
     The grid position after `k` increments of `step` (and, for negative `k`,
     before `-k` of them): the loop variable accumulates, it is never
     recomputed from `k`.
     */
    function Point(k: int): real
      decreases if k < 0 then -k else k
    {
      if k == 0 then lo
      else if k > 0 then Point(k - 1) + step
      else Point(k + 1) - step
    }

    /** Grid point `k` is the first one at or past `x`: `x` lies in (Point(k-1), Point(k)]. */
    predicate Lands(x: real, k: int) {
      Point(k - 1) < x <= Point(k)
    }

    /** `x` sits exactly on a grid point. */
    predicate OnGrid(x: real)
      requires step > 0.0
    {
      Point(FirstIndex(x)) == x
    }

    lemma Succ(k: int)
      ensures Point(k + 1) == Point(k) + step
    {
    }

    /** The accumulated position is the closed form `lo + k * step`: the grid is uniform. */
    lemma {:induction false} Closed(k: int)
      ensures Point(k) == lo + k as real * step
      decreases if k < 0 then -k else k
    {
      if k > 0 {
        Closed(k - 1);
      } else if k < 0 {
        Closed(k + 1);
      }
    }

    lemma {:induction false} Mono(j: int, k: int)
      requires step > 0.0
      ensures j <= k ==> Point(j) <= Point(k)
      ensures j < k ==> Point(j) < Point(k)
      decreases if j < k then k - j else 0
    {
      if j < k {
        Mono(j, k - 1);
        Succ(k - 1);
      }
    }

    /** The index of the first grid point at or past `x`: `ceil((x - lo) / step)`. */
    function FirstIndex(x: real): (k: int)
      requires step > 0.0
      ensures Lands(x, k)
    {
      var k := -((-((x - lo) / step)).Floor);
      CeilScaled(x - lo, step, k);
      Closed(k - 1);
      Closed(k);
      k
    }

    /** A value lands in exactly one window. */
    lemma LandsUnique(x: real, j: int, k: int)
      requires step > 0.0
      requires Lands(x, j) && Lands(x, k)
      ensures j == k
    {
      if j < k {
        Mono(j, k - 1);
      } else if k < j {
        Mono(k, j - 1);
      }
    }

    /** The source's form: `x` is on the grid iff `x == minX + k * minInterval` for some `k`. */
    lemma OnGridIff(x: real)
      requires step > 0.0
      ensures OnGrid(x) <==> exists k: int :: Point(k) == x
    {
      if k: int :| Point(k) == x {
        Succ(k - 1);
        assert Lands(x, k);
        LandsUnique(x, k, FirstIndex(x));
      }
    }

    /**
     The number of loop iterations: grid points `0 .. n-1` satisfy the loop
     guard `Point(k) <= hi + step` and point `n` is the first that fails it.
     */
    function Steps(): (n: nat)
      requires Valid()
      ensures Point(n - 1) <= hi + step < Point(n)
      ensures n as real <= (hi - lo) / step + 2.0
    {
      var f := ((hi - lo) / step).Floor;
      FloorScaled(hi - lo, step, f);
      Closed(f);
      Closed(f + 1);
      Succ(f);
      Succ(f + 1);
      f + 2
    }

    /** The loop guard `Point(k) <= hi + step` holds exactly for `k < Steps()`. */
    lemma Guard(k: int)
      requires Valid()
      ensures Point(k) <= hi + step <==> k < Steps()
    {
      Mono(k, Steps() - 1);
      Mono(Steps(), k);
    }

    /**
     Where the last sample `hi` lands relative to the iteration count: on
     the grid it lands two points before the loop ends, off the grid on the
     loop's last point.
     */
    lemma LastLanding()
      requires Valid()
      ensures OnGrid(hi) ==> FirstIndex(hi) == Steps() - 2
      ensures !OnGrid(hi) ==> FirstIndex(hi) == Steps() - 1
    {
      var n: int := Steps();
      Succ(n - 2);
      Succ(n - 1);
      var c := FirstIndex(hi);
      if Point(n - 2) == hi {
        Mono(n - 3, n - 2);
        LandsUnique(hi, c, n - 2);
      } else {
        LandsUnique(hi, c, n - 1);
      }
    }
  }
}
