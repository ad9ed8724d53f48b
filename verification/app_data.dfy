/**
 The chart's own dataset and the block run on it when the module loads, and
 the smallest dataset that shows the read past the end.
 */
module AppData {
  import opened Wrappers
  import opened Samples
  import opened UniformGrid
  import opened Resample

  /** The `DATA` constant the chart is built from. */
  const DATA: seq<Datum> := [
    Datum(1.0, 1.0),
    Datum(2.0, 2.0),
    Datum(2.1, 3.0),
    Datum(2.5, 4.0),
    Datum(3.0, 5.0),
    Datum(3.789, 6.0),
    Datum(4.23, 7.0),
    Datum(5.0, 8.0),
    Datum(7.0, 9.0)
  ]

  lemma DataAscending()
    ensures Ascending(DATA)
  {
  }

  /** The smallest gap is the one between 2 and 2.1. */
  lemma DataMinInterval()
    ensures MinInterval(DATA) == Some(0.1)
  {
    assert DATA[..2][..1] == DATA[..1];
    assert DATA[..3][..2] == DATA[..2];
    assert DATA[..4][..3] == DATA[..3];
    assert DATA[..5][..4] == DATA[..4];
    assert DATA[..6][..5] == DATA[..5];
    assert DATA[..7][..6] == DATA[..6];
    assert DATA[..8][..7] == DATA[..7];
    assert DATA[..9][..8] == DATA[..8];
    assert DATA[..9] == DATA;
    assert MinInterval(DATA[..2]) == Some(1.0);
    assert MinInterval(DATA[..3]) == Some(0.1);
    assert MinInterval(DATA[..4]) == Some(0.1);
    assert MinInterval(DATA[..5]) == Some(0.1);
    assert MinInterval(DATA[..6]) == Some(0.1);
    assert MinInterval(DATA[..7]) == Some(0.1);
    assert MinInterval(DATA[..8]) == Some(0.1);
  }

  /**
   The grid of `DATA` runs from 1 to 7 in steps of 0.1, and 7 is grid
   point 60: `maxX` sits on the grid.
   */
  lemma DataGrid()
    ensures AdjacentDistinct(DATA) && GridOf(DATA) == Grid(1.0, 7.0, 0.1)
    ensures GridOf(DATA).FirstIndex(7.0) == 60 && GridOf(DATA).OnGrid(7.0)
  {
    DataAscending();
    AscendingIsAdjacentDistinct(DATA);
    AscendingExtremes(DATA);
    DataMinInterval();
    var g := GridOf(DATA);
    g.Closed(59);
    g.Closed(60);
    g.Succ(59);
    g.LandsUnique(7.0, 60, g.FirstIndex(7.0));
  }

  /**
   The block run on `DATA` when the module loads, under exact arithmetic: it
   pushes 61 rows, the last one the final sample at `x = 7`, and then reads
   past the end of `DATA`. In double precision `2.1 - 2` exceeds 0.1, the
   positions drift just below the grid, 7 is consumed one point later and
   the run completes, so this is a property of the exact model only.
   */
  method LoadModule() returns (o: Outcome)
    ensures o.ReadPastEnd? && |o.rows| == 61
    ensures o.rows[0] == Datum(1.0, 1.0) && o.rows[60] == Datum(7.0, 9.0)
  {
    DataAscending();
    DataGrid();
    AscendingExtremes(DATA);
    o := Resample.Resample(DATA);
  }

  /** `[{x: 1, y: 1}, {x: 2, y: 2}]`: grid points 1, 2 and 3, and at 3 the cursor is past the end. */
  const ONE_TWO: seq<Datum> := [Datum(1.0, 1.0), Datum(2.0, 2.0)]

  lemma OneTwoGrid()
    ensures Ascending(ONE_TWO) && AdjacentDistinct(ONE_TWO)
    ensures GridOf(ONE_TWO) == Grid(1.0, 2.0, 1.0)
    ensures GridOf(ONE_TWO).Steps() == 3 && GridOf(ONE_TWO).FirstIndex(2.0) == 1
    ensures GridOf(ONE_TWO).OnGrid(2.0)
  {
    assert ONE_TWO[..1] == [Datum(1.0, 1.0)];
    AscendingIsAdjacentDistinct(ONE_TWO);
    AscendingExtremes(ONE_TWO);
    var g := GridOf(ONE_TWO);
    g.Succ(0);
    g.LandsUnique(2.0, 1, g.FirstIndex(2.0));
  }

  /** The block as written on `ONE_TWO`: both samples are pushed, then the read at 3 fails. */
  method RunOneTwo() returns (o: Outcome)
    ensures o == ReadPastEnd(ONE_TWO)
  {
    OneTwoGrid();
    AscendingExtremes(ONE_TWO);
    o := Resample.Resample(ONE_TWO);
    GridOf(ONE_TWO).Succ(0);
    assert o.rows == [o.rows[0], o.rows[1]];
  }

  /** The guarded walk on `ONE_TWO` returns exactly the two samples. */
  method RunOneTwoGuarded() returns (rows: seq<Datum>)
    ensures rows == ONE_TWO
  {
    OneTwoGrid();
    AscendingExtremes(ONE_TWO);
    rows := ResampleGuarded(ONE_TWO);
    GridOf(ONE_TWO).Succ(0);
    assert rows == [rows[0], rows[1]];
  }
}
