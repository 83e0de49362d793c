/** The fixed-grid broad phase as values: the cell lists that
    assignParticlesToFixedGrid builds, and the sequence of collision calls that
    solveGridCollisionsInRange makes while sweeping a window of cells row by
    row. */
module FixedGrid {
  import opened Particles
  import opened GridCells
  import opened PairSweep

  /** Every particle's min-corner cell lies in the grid. */
  predicate CornersInGrid(ps: seq<Particle>, cellWidth: real, cellCountX: nat, cellCountY: nat)
  {
    forall i :: 0 <= i < |ps| ==> CornerInGrid(ps[i], cellWidth, cellCountX, cellCountY)
  }

  /** The indices of the particles among the first n that the assignment pushes
      into cell c, in the order of the pushes. */
  function Pushed(ps: seq<Particle>, n: nat, c: int, cellWidth: real, cellCountX: nat, cellCountY: nat): seq<int>
    requires n <= |ps| && cellWidth > 0.0
  {
    if n == 0 then []
    else
      var earlier := Pushed(ps, n - 1, c, cellWidth, cellCountX, cellCountY);
      if c in Placement(ps[n - 1], cellWidth, cellCountX, cellCountY) then earlier + [n - 1] else earlier
  }

  /** Cell c receives particle k exactly when c is one of k's placement cells,
      and the particle indices in a cell increase, so none appears twice. */
  lemma {:induction false} PushedMembers(ps: seq<Particle>, n: nat, c: int, cellWidth: real, cellCountX: nat, cellCountY: nat)
    requires n <= |ps| && cellWidth > 0.0
    ensures forall k :: k in Pushed(ps, n, c, cellWidth, cellCountX, cellCountY) <==>
      0 <= k < n && c in Placement(ps[k], cellWidth, cellCountX, cellCountY)
    ensures Increasing(Pushed(ps, n, c, cellWidth, cellCountX, cellCountY))
  {
    if n > 0 {
      PushedMembers(ps, n - 1, c, cellWidth, cellCountX, cellCountY);
      var s := Pushed(ps, n - 1, c, cellWidth, cellCountX, cellCountY);
      assert forall k :: 0 <= k < |s| ==> s[k] in s;
    }
  }

  /** g with v appended to the list of each of the given cells, one push after
      another (a cell outside g is skipped). */
  ghost function AppendToCells(g: seq<seq<int>>, cells: seq<int>, v: int): (r: seq<seq<int>>)
    ensures |r| == |g|
    decreases |cells|
  {
    if cells == [] then g
    else
      var h, last := AppendToCells(g, cells[..|cells| - 1], v), cells[|cells| - 1];
      if 0 <= last < |h| then h[last := h[last] + [v]] else h
  }

  /** Pushing v into cells[k] extends the pushes into cells[..k] by one. */
  lemma AppendToCellsStep(g: seq<seq<int>>, cells: seq<int>, k: nat, v: int)
    requires k < |cells| && 0 <= cells[k] < |g|
    ensures var h := AppendToCells(g, cells[..k], v);
      AppendToCells(g, cells[..k + 1], v) == h[cells[k] := h[cells[k]] + [v]]
  {
    assert cells[..k + 1][..k] == cells[..k];
  }

  /** When every cell lies in g and none is listed twice, each listed cell
      gains v once at its end and every other cell is unchanged. */
  lemma {:induction false} AppendToCellsContents(g: seq<seq<int>>, cells: seq<int>, v: int)
    requires forall k :: 0 <= k < |cells| ==> 0 <= cells[k] < |g|
    requires forall k1, k2 :: 0 <= k1 < k2 < |cells| ==> cells[k1] != cells[k2]
    ensures forall c :: 0 <= c < |g| ==>
      AppendToCells(g, cells, v)[c] == g[c] + (if c in cells then [v] else [])
    decreases |cells|
  {
    if cells != [] {
      var front := cells[..|cells| - 1];
      AppendToCellsContents(g, front, v);
      forall c | 0 <= c < |g|
        ensures (c in cells) == (c in front || c == cells[|cells| - 1])
        ensures c in front ==> c != cells[|cells| - 1]
      {
        assert cells == front + [cells[|cells| - 1]];
      }
    }
  }

  /** The grid once the first n particles are assigned. */
  ghost function AssignedUpTo(g: seq<seq<int>>, ps: seq<Particle>, n: nat, cellWidth: real, cellCountX: nat, cellCountY: nat): (r: seq<seq<int>>)
    requires n <= |ps| && cellWidth > 0.0
    ensures |r| == |g|
  {
    seq(|g|, c requires 0 <= c < |g| => g[c] + Pushed(ps, n, c, cellWidth, cellCountX, cellCountY))
  }

  /** Before any particle is assigned the grid is as it was. */
  lemma AssignedUpToNone(g: seq<seq<int>>, ps: seq<Particle>, cellWidth: real, cellCountX: nat, cellCountY: nat)
    requires cellWidth > 0.0
    ensures AssignedUpTo(g, ps, 0, cellWidth, cellCountX, cellCountY) == g
  {
    var r := AssignedUpTo(g, ps, 0, cellWidth, cellCountX, cellCountY);
    forall c | 0 <= c < |g|
      ensures r[c] == g[c]
    {
      assert g[c] + [] == g[c];
    }
  }

  /** One step of the assignment: pushing particle i into its placement cells
      takes the grid from the first i particles to the first i + 1. */
  lemma AssignStep(g: seq<seq<int>>, ps: seq<Particle>, i: nat, cellWidth: real, cellCountX: nat, cellCountY: nat)
    requires i < |ps| && CornerInGrid(ps[i], cellWidth, cellCountX, cellCountY) && |g| == cellCountX * cellCountY
    ensures AppendToCells(AssignedUpTo(g, ps, i, cellWidth, cellCountX, cellCountY),
      Placement(ps[i], cellWidth, cellCountX, cellCountY), i) == AssignedUpTo(g, ps, i + 1, cellWidth, cellCountX, cellCountY)
  {
    var before := AssignedUpTo(g, ps, i, cellWidth, cellCountX, cellCountY);
    var cells := Placement(ps[i], cellWidth, cellCountX, cellCountY);
    PlacementShape(ps[i], cellWidth, cellCountX, cellCountY);
    AppendToCellsContents(before, cells, i);
    forall c | 0 <= c < |g|
      ensures AppendToCells(before, cells, i)[c] == AssignedUpTo(g, ps, i + 1, cellWidth, cellCountX, cellCountY)[c]
    {
      var earlier := Pushed(ps, i, c, cellWidth, cellCountX, cellCountY);
      if c in cells {
        assert (g[c] + earlier) + [i] == g[c] + (earlier + [i]);
      }
    }
  }

  /** The grid after the assignment: each cell g[c] extended by the particles
      pushed into it. */
  function Assigned(g: seq<seq<int>>, ps: seq<Particle>, cellWidth: real, cellCountX: nat, cellCountY: nat): (r: seq<seq<int>>)
    requires cellWidth > 0.0
    ensures |r| == |g|
  {
    seq(|g|, c requires 0 <= c < |g| => g[c] + Pushed(ps, |ps|, c, cellWidth, cellCountX, cellCountY))
  }

  // ---------------------------------------------------------------------------
  // The sweep

  /** Row y < ye ends no later than row ye begins. */
  lemma RowFits(cellCountX: nat, y: nat, ye: nat)
    requires y < ye
    ensures (y + 1) * cellCountX <= ye * cellCountX
  {
    assert ye * cellCountX - (y + 1) * cellCountX == (ye - y - 1) * cellCountX;
  }

  /** Rows below ye <= cellCountY lie inside a grid of cellCountY rows. */
  lemma RowsFit(cellCountX: nat, ye: nat, cellCountY: nat)
    requires ye <= cellCountY
    ensures ye * cellCountX <= cellCountX * cellCountY
  {
    assert cellCountX * cellCountY - ye * cellCountX == (cellCountY - ye) * cellCountX;
  }

  /** The collision calls for cells x .. xe - 1 of row y. */
  function SweepRow(g: seq<seq<int>>, cellCountX: nat, y: nat, x: nat, xe: nat): seq<(int, int)>
    requires xe <= cellCountX && (y + 1) * cellCountX <= |g|
    decreases xe - x
  {
    if x >= xe then [] else CellPairs(g[CellIndex(cellCountX, x, y)]) + SweepRow(g, cellCountX, y, x + 1, xe)
  }

  /** The collision calls for columns xs .. xe - 1 of rows y .. ye - 1, row by
      row. */
  function SweepRows(g: seq<seq<int>>, cellCountX: nat, xs: nat, xe: nat, y: nat, ye: nat): seq<(int, int)>
    requires xe <= cellCountX && ye * cellCountX <= |g|
    decreases ye - y
  {
    if y >= ye then []
    else
      RowFits(cellCountX, y, ye);
      SweepRow(g, cellCountX, y, xs, xe) + SweepRows(g, cellCountX, xs, xe, y + 1, ye)
  }

  /** The calls for a stretch of a row depend only on the cells of that
      stretch. */
  lemma {:induction false} SweepRowFrame(g: seq<seq<int>>, h: seq<seq<int>>, cellCountX: nat, y: nat, x: nat, xe: nat)
    requires xe <= cellCountX && (y + 1) * cellCountX <= |g| == |h|
    requires forall x': nat :: x <= x' < xe ==> h[CellIndex(cellCountX, x', y)] == g[CellIndex(cellCountX, x', y)]
    ensures SweepRow(h, cellCountX, y, x, xe) == SweepRow(g, cellCountX, y, x, xe)
    decreases xe - x
  {
    if x < xe {
      SweepRowFrame(g, h, cellCountX, y, x + 1, xe);
    }
  }

  /** Cell c lies in columns [xs, xe) and rows [ys, ye). */
  predicate InWindow(cellCountX: nat, c: int, xs: int, xe: int, ys: int, ye: int)
    requires cellCountX > 0
  {
    xs <= c % cellCountX < xe && ys <= c / cellCountX < ye
  }

  /** Every index stored in the grid names one of n particles. */
  ghost predicate HoldsIndices(g: seq<seq<int>>, n: nat)
  {
    forall c, k :: 0 <= c < |g| && 0 <= k < |g[c]| ==> 0 <= g[c][k] < n
  }

  /** The grid part-way through the sweep: rows ys .. y - 1 of the window are
      cleared, and so are columns xs .. x - 1 of row y; every other cell is as
      in g. */
  function SweptGrid(g: seq<seq<int>>, cellCountX: nat, xs: int, xe: int, ys: int, y: int, x: int): (r: seq<seq<int>>)
    requires cellCountX > 0
    ensures |r| == |g|
  {
    seq(|g|, c requires 0 <= c < |g| =>
      if InWindow(cellCountX, c, xs, xe, ys, y) || InWindow(cellCountX, c, xs, x, y, y + 1) then [] else g[c])
  }

  /** Clearing the next cell (x, y) of the row moves the sweep one column on;
      until then that cell still holds its original list. */
  lemma SweptGridStep(g: seq<seq<int>>, cellCountX: nat, xs: int, xe: int, ys: int, y: nat, x: nat)
    requires xs <= x < cellCountX && 0 <= CellIndex(cellCountX, x, y) < |g|
    ensures SweptGrid(g, cellCountX, xs, xe, ys, y, x)[CellIndex(cellCountX, x, y)] == g[CellIndex(cellCountX, x, y)]
    ensures SweptGrid(g, cellCountX, xs, xe, ys, y, x + 1) ==
      SweptGrid(g, cellCountX, xs, xe, ys, y, x)[CellIndex(cellCountX, x, y) := []]
  {
    var index := CellIndex(cellCountX, x, y);
    CellIndexCoordinates(cellCountX, x, y);
    var before, after := SweptGrid(g, cellCountX, xs, xe, ys, y, x), SweptGrid(g, cellCountX, xs, xe, ys, y, x + 1);
    assert !InWindow(cellCountX, index, xs, xe, ys, y) && !InWindow(cellCountX, index, xs, x, y, y + 1);
    assert before[index] == g[index];
    forall c | 0 <= c < |g|
      ensures after[c] == before[index := []][c]
    {
      WindowGrowsByOne(cellCountX, c, xs, x, y);
    }
    assert after == before[index := []];
  }

  /** Widening a one-row window by a column adds exactly the cell at that column. */
  lemma WindowGrowsByOne(cellCountX: nat, c: int, xs: int, x: nat, y: nat)
    requires xs <= x < cellCountX && 0 <= c
    ensures InWindow(cellCountX, c, xs, x + 1, y, y + 1) <==>
      (InWindow(cellCountX, c, xs, x, y, y + 1) || c == CellIndex(cellCountX, x, y))
  {
    CellIndexCoordinates(cellCountX, x, y);
    var q, r := c / cellCountX, c % cellCountX;
    assert c == CellIndex(cellCountX, r, q);
  }

  /** A row swept to its end (or an empty column range) joins the swept rows. */
  lemma SweptGridRowDone(g: seq<seq<int>>, cellCountX: nat, xs: int, xe: int, ys: int, y: int, x: int)
    requires cellCountX > 0 && ys <= y && (x == xe || (x == xs && xs >= xe))
    ensures SweptGrid(g, cellCountX, xs, xe, ys, y, x) == SweptGrid(g, cellCountX, xs, xe, ys, y + 1, xs)
  {
    var before, after := SweptGrid(g, cellCountX, xs, xe, ys, y, x), SweptGrid(g, cellCountX, xs, xe, ys, y + 1, xs);
    forall c | 0 <= c < |g|
      ensures before[c] == after[c]
    {
      var q, r := c / cellCountX, c % cellCountX;
      assert InWindow(cellCountX, c, xs, xe, ys, y) == (xs <= r < xe && ys <= q < y);
      assert InWindow(cellCountX, c, xs, x, y, y + 1) == (xs <= r < x && q == y);
      assert InWindow(cellCountX, c, xs, xe, ys, y + 1) == (xs <= r < xe && ys <= q < y + 1);
      assert !InWindow(cellCountX, c, xs, xs, y + 1, y + 2);
    }
  }

  /** Clearing cells keeps every stored index naming a particle. */
  lemma SweptGridHolds(g: seq<seq<int>>, cellCountX: nat, xs: int, xe: int, ys: int, y: int, x: int, n: nat)
    requires cellCountX > 0 && HoldsIndices(g, n)
    ensures HoldsIndices(SweptGrid(g, cellCountX, xs, xe, ys, y, x), n)
  {
    var r := SweptGrid(g, cellCountX, xs, xe, ys, y, x);
    forall c, k | 0 <= c < |r| && 0 <= k < |r[c]|
      ensures 0 <= r[c][k] < n
    {
      assert r[c] == g[c];
    }
  }

  /** Row y of the window is still untouched when its turn comes, so the
      calls made for it are those of the original grid. */
  lemma SweptGridRowIntact(g: seq<seq<int>>, cellCountX: nat, xs: nat, xe: nat, ys: int, y: nat)
    requires 0 < cellCountX && xe <= cellCountX && (y + 1) * cellCountX <= |g|
    ensures SweepRow(SweptGrid(g, cellCountX, xs, xe, ys, y, xs), cellCountX, y, xs, xe) == SweepRow(g, cellCountX, y, xs, xe)
  {
    var h := SweptGrid(g, cellCountX, xs, xe, ys, y, xs);
    assert (y + 1) * cellCountX == y * cellCountX + cellCountX;
    forall x: nat | xs <= x < xe
      ensures h[CellIndex(cellCountX, x, y)] == g[CellIndex(cellCountX, x, y)]
    {
      var c := CellIndex(cellCountX, x, y);
      CellIndexCoordinates(cellCountX, x, y);
      assert 0 <= c < |g|;
      assert !InWindow(cellCountX, c, xs, xe, ys, y) && !InWindow(cellCountX, c, xs, xs, y, y + 1);
    }
    SweepRowFrame(g, h, cellCountX, y, xs, xe);
  }

  /** Clearing row y of the window moves the sweep on to the next row. */
  lemma SweptGridRowCleared(g: seq<seq<int>>, cellCountX: nat, xs: int, xe: int, ys: int, y: int)
    requires cellCountX > 0 && ys <= y
    ensures forall c :: 0 <= c < |g| ==>
      (SweptGrid(g, cellCountX, xs, xe, ys, y + 1, xs)[c] ==
       if InWindow(cellCountX, c, xs, xe, y, y + 1) then [] else SweptGrid(g, cellCountX, xs, xe, ys, y, xs)[c])
  {
    var before, after := SweptGrid(g, cellCountX, xs, xe, ys, y, xs), SweptGrid(g, cellCountX, xs, xe, ys, y + 1, xs);
    forall c | 0 <= c < |g|
      ensures after[c] == if InWindow(cellCountX, c, xs, xe, y, y + 1) then [] else before[c]
    {
    }
  }

  /** Before the sweep nothing is cleared; after its last row the whole window
      is. */
  lemma SweptGridEnds(g: seq<seq<int>>, cellCountX: nat, xs: int, xe: int, ys: int, ye: int)
    requires cellCountX > 0
    ensures SweptGrid(g, cellCountX, xs, xe, ys, ys, xs) == g
    ensures forall c :: 0 <= c < |g| ==>
      SweptGrid(g, cellCountX, xs, xe, ys, ye, xs)[c] == (if InWindow(cellCountX, c, xs, xe, ys, ye) then [] else g[c])
  {
  }

  /** Every pair of positions of every cell in the window is among the sweep's
      collision calls. */
  lemma {:induction false} SweepRowMember(g: seq<seq<int>>, cellCountX: nat, y: nat, x: nat, xe: nat, x': nat, pair: (int, int))
    requires xe <= cellCountX && (y + 1) * cellCountX <= |g|
    requires x <= x' < xe && pair in CellPairs(g[CellIndex(cellCountX, x', y)])
    ensures pair in SweepRow(g, cellCountX, y, x, xe)
    decreases xe - x
  {
    if x < x' {
      SweepRowMember(g, cellCountX, y, x + 1, xe, x', pair);
    }
  }

  lemma {:induction false} SweepRowsMember(g: seq<seq<int>>, cellCountX: nat, xs: nat, xe: nat, y: nat, ye: nat, x': nat, y': nat, pair: (int, int))
    requires xe <= cellCountX && ye * cellCountX <= |g|
    requires xs <= x' < xe && y <= y' < ye
    requires 0 <= CellIndex(cellCountX, x', y') < |g| && pair in CellPairs(g[CellIndex(cellCountX, x', y')])
    ensures pair in SweepRows(g, cellCountX, xs, xe, y, ye)
    decreases ye - y
  {
    RowFits(cellCountX, y, ye);
    var here, rest := SweepRow(g, cellCountX, y, xs, xe), SweepRows(g, cellCountX, xs, xe, y + 1, ye);
    assert SweepRows(g, cellCountX, xs, xe, y, ye) == here + rest;
    if y < y' {
      SweepRowsMember(g, cellCountX, xs, xe, y + 1, ye, x', y', pair);
      assert pair in rest;
    } else {
      assert y == y';
      SweepRowMember(g, cellCountX, y, xs, xe, x', pair);
      assert pair in here;
    }
  }

  /** Cells whose particle indices increase yield only pairs (a, b) with a < b. */
  lemma {:induction false} SweepRowOrdered(g: seq<seq<int>>, cellCountX: nat, y: nat, x: nat, xe: nat)
    requires xe <= cellCountX && (y + 1) * cellCountX <= |g|
    requires forall c :: 0 <= c < |g| ==> Increasing(g[c])
    ensures forall k :: 0 <= k < |SweepRow(g, cellCountX, y, x, xe)| ==>
      SweepRow(g, cellCountX, y, x, xe)[k].0 < SweepRow(g, cellCountX, y, x, xe)[k].1
    decreases xe - x
  {
    if x < xe {
      var cell := g[CellIndex(cellCountX, x, y)];
      IncreasingCellPairs(cell);
      SweepRowOrdered(g, cellCountX, y, x + 1, xe);
      var a, b := CellPairs(cell), SweepRow(g, cellCountX, y, x + 1, xe);
      assert forall k :: |a| <= k < |a + b| ==> (a + b)[k] == b[k - |a|];
    }
  }

  lemma {:induction false} SweepRowsOrdered(g: seq<seq<int>>, cellCountX: nat, xs: nat, xe: nat, y: nat, ye: nat)
    requires xe <= cellCountX && ye * cellCountX <= |g|
    requires forall c :: 0 <= c < |g| ==> Increasing(g[c])
    ensures forall k :: 0 <= k < |SweepRows(g, cellCountX, xs, xe, y, ye)| ==>
      SweepRows(g, cellCountX, xs, xe, y, ye)[k].0 < SweepRows(g, cellCountX, xs, xe, y, ye)[k].1
    decreases ye - y
  {
    if y < ye {
      RowFits(cellCountX, y, ye);
      SweepRowOrdered(g, cellCountX, y, xs, xe);
      SweepRowsOrdered(g, cellCountX, xs, xe, y + 1, ye);
      var a, b := SweepRow(g, cellCountX, y, xs, xe), SweepRows(g, cellCountX, xs, xe, y + 1, ye);
      assert forall k :: |a| <= k < |a + b| ==> (a + b)[k] == b[k - |a|];
    }
  }

  // ---------------------------------------------------------------------------
  // The fixed-grid broad phase as a whole

  /** Assigning the particles to an empty grid and sweeping all of it never
      asks to collide a particle with itself: every call is a pair (a, b) with
      a < b. */
  lemma FixedGridPairsOrdered(ps: seq<Particle>, cellWidth: real, cellCountX: nat, cellCountY: nat)
    requires cellWidth > 0.0
    ensures var g := Assigned(seq(cellCountX * cellCountY, _ => []), ps, cellWidth, cellCountX, cellCountY);
      forall k :: 0 <= k < |SweepRows(g, cellCountX, 0, cellCountX, 0, cellCountY)| ==>
        SweepRows(g, cellCountX, 0, cellCountX, 0, cellCountY)[k].0 < SweepRows(g, cellCountX, 0, cellCountX, 0, cellCountY)[k].1
  {
    var g := Assigned(seq(cellCountX * cellCountY, _ => []), ps, cellWidth, cellCountX, cellCountY);
    forall c | 0 <= c < |g|
      ensures Increasing(g[c])
    {
      PushedMembers(ps, |ps|, c, cellWidth, cellCountX, cellCountY);
      assert g[c] == Pushed(ps, |ps|, c, cellWidth, cellCountX, cellCountY);
    }
    SweepRowsOrdered(g, cellCountX, 0, cellCountX, 0, cellCountY);
  }

  /** The fixed-grid broad phase misses no pair: assigning the particles to an
      empty grid and sweeping all of it calls the collision routine on every
      pair i < j of particles whose bounding squares meet, provided every
      bounding square fits a cell and starts inside the grid. */
  lemma FixedGridFindsMeetingPairs(ps: seq<Particle>, cellWidth: real, cellCountX: nat, cellCountY: nat, i: nat, j: nat)
    requires CornersInGrid(ps, cellWidth, cellCountX, cellCountY) && cellWidth > 0.0
    requires forall k :: 0 <= k < |ps| ==> FitsCell(ps[k], cellWidth)
    requires i < j < |ps| && SquaresMeet(ps[i], ps[j])
    ensures var g := Assigned(seq(cellCountX * cellCountY, _ => []), ps, cellWidth, cellCountX, cellCountY);
      (i, j) in SweepRows(g, cellCountX, 0, cellCountX, 0, cellCountY)
  {
    var g := Assigned(seq(cellCountX * cellCountY, _ => []), ps, cellWidth, cellCountX, cellCountY);
    SharedCell(ps[i], ps[j], cellWidth, cellCountX, cellCountY);
    var c :| c in Placement(ps[i], cellWidth, cellCountX, cellCountY) && c in Placement(ps[j], cellWidth, cellCountX, cellCountY);
    PlacementShape(ps[i], cellWidth, cellCountX, cellCountY);
    CellInGrid(cellCountX, cellCountY, c);
    var cell := Pushed(ps, |ps|, c, cellWidth, cellCountX, cellCountY);
    assert g[c] == cell;
    PushedMembers(ps, |ps|, c, cellWidth, cellCountX, cellCountY);
    IncreasingCellHasPair(cell, i, j);
    SweepRowsMember(g, cellCountX, 0, cellCountX, 0, cellCountY, c % cellCountX, c / cellCountX, (i, j));
  }

  /** A grid index is the index of the cell at its column and row. */
  lemma CellInGrid(cellCountX: nat, cellCountY: nat, c: int)
    requires 0 <= c < cellCountX * cellCountY
    ensures cellCountX > 0 && 0 <= c % cellCountX < cellCountX && 0 <= c / cellCountX < cellCountY
    ensures CellIndex(cellCountX, c % cellCountX, c / cellCountX) == c
  {
    var x, y := c % cellCountX, c / cellCountX;
    if y >= cellCountY {
      MulAtLeast(y - cellCountY + 1, cellCountX);
    }
  }
}
