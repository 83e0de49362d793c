/** PhysicSolver: the particle store, the fixed grid of per-cell particle lists
    and the solver steps that work on them. The collision routine itself is an
    opaque action here: every call is recorded, in order, in collideLog. */
module Solver {
  import opened Particles
  import opened GridCells
  import opened PairSweep
  import opened FixedGrid
  import opened BoxContainer
  import SpatialHash

  class PhysicSolver {
    const screenSize: Vec2
    const cellWidth: real
    const cellCountX: nat
    const cellCountY: nat
    /** One list of particle indices per cell, row-major. */
    const grid: array<seq<int>>
    var particles: seq<Particle>
    /** The pairs the collision routine has been called with, in order. */
    var collideLog: seq<(int, int)>

    ghost predicate Valid()
      reads this
    {
      cellWidth > 0.0 && cellCountX > 0 && cellCountY > 0 && grid.Length == cellCountX * cellCountY
    }

    /** Every index stored in the grid names a particle. */
    ghost predicate GridHoldsParticles()
      reads this, grid
    {
      HoldsIndices(grid[..], |particles|)
    }

    /** The cell width is the largest particle's diameter and the grid covers
        the screen with less than one cell to spare on each axis. */
    constructor (screenSize: Vec2, largestParticleRadius: real)
      requires screenSize.x > 0.0 && screenSize.y > 0.0 && largestParticleRadius > 0.0
      ensures Valid() && fresh(grid)
      ensures this.screenSize == screenSize && cellWidth == 2.0 * largestParticleRadius
      ensures cellWidth * (cellCountX - 1) as real < screenSize.x <= cellWidth * cellCountX as real
      ensures cellWidth * (cellCountY - 1) as real < screenSize.y <= cellWidth * cellCountY as real
      ensures forall c :: 0 <= c < grid.Length ==> grid[c] == []
      ensures particles == [] && collideLog == []
    {
      var width := 2.0 * largestParticleRadius;
      GridCoversScreen(screenSize.x, width);
      GridCoversScreen(screenSize.y, width);
      var countX, countY := Ceil(screenSize.x / width), Ceil(screenSize.y / width);
      this.screenSize := screenSize;
      cellWidth := width;
      cellCountX := countX;
      cellCountY := countY;
      grid := new seq<int>[countX * countY](_ => []);
      particles := [];
      collideLog := [];
    }

    /** Appends a particle at rest at pos and returns its index. */
    method SpawnParticle(pos: Vec2, radius: real) returns (index: nat)
      modifies this
      ensures particles == old(particles) + [Particle(pos, pos, radius)]
      ensures index == |old(particles)| && particles[index].pos == pos
      ensures collideLog == old(collideLog)
    {
      particles := particles + [Particle(pos, pos, radius)];
      index := |particles| - 1;
    }

    /** The collision routine, as an opaque action: the call is recorded. How
        it moves the two particles is not modelled, so its callers may rely
        only on the number of particles staying the same. */
    method CollideTwoParticles(i: nat, j: nat)
      requires i == j || (i < |particles| && j < |particles|)
      modifies this
      ensures |particles| == |old(particles)|
      ensures collideLog == old(collideLog) + [(i, j)]
    {
      collideLog := collideLog + [(i, j)];
    }

    /** Every pair i < j of particles, outer index first. */
    method SolveParticleCollisionsBruteForce()
      modifies this
      ensures |particles| == |old(particles)|
      ensures collideLog == old(collideLog) + PositionPairs(|particles|)
    {
      var n := |particles|;
      ghost var all := PositionPairs(n);
      for i := 0 to n
        invariant |particles| == |old(particles)|
        invariant collideLog + PairsFrom(Indices(n), i) == old(collideLog) + all
      {
        for j := i + 1 to n
          invariant |particles| == |old(particles)|
          invariant collideLog + (RowPairs(Indices(n), i, j) + PairsFrom(Indices(n), i + 1)) == old(collideLog) + all
        {
          ghost var rest := RowPairs(Indices(n), i, j + 1) + PairsFrom(Indices(n), i + 1);
          AppendAssociative([(i, j)], RowPairs(Indices(n), i, j + 1), PairsFrom(Indices(n), i + 1));
          AppendAssociative(collideLog, [(i, j)], rest);
          CollideTwoParticles(i, j);
        }
      }
    }

    /** The two inner loops of the fixed-grid sweep for one cell's list: every
        pair of positions p1 < p2 of the list, collided as the particle indices
        stored there. */
    method CollideCellPairs(cell: seq<int>)
      requires forall k :: 0 <= k < |cell| ==> 0 <= cell[k] < |particles|
      modifies this
      ensures |particles| == |old(particles)|
      ensures collideLog == old(collideLog) + CellPairs(cell)
    {
      var count := |cell|;
      for p1 := 0 to count
        invariant |particles| == |old(particles)|
        invariant collideLog + PairsFrom(cell, p1) == old(collideLog) + CellPairs(cell)
      {
        for p2 := p1 + 1 to count
          invariant |particles| == |old(particles)|
          invariant collideLog + (RowPairs(cell, p1, p2) + PairsFrom(cell, p1 + 1)) == old(collideLog) + CellPairs(cell)
        {
          ghost var rest := RowPairs(cell, p1, p2 + 1) + PairsFrom(cell, p1 + 1);
          AppendAssociative([(cell[p1], cell[p2])], RowPairs(cell, p1, p2 + 1), PairsFrom(cell, p1 + 1));
          AppendAssociative(collideLog, [(cell[p1], cell[p2])], rest);
          CollideTwoParticles(cell[p1], cell[p2]);
        }
      }
    }

    /** Sweeps the cells of columns [xStart, xEnd) and rows [yStart, yEnd),
        row by row: collides every pair within each cell, then clears it. Cells
        outside the window are left as they are. */
    method SolveGridCollisionsInRange(xStart: nat, xEnd: nat, yStart: nat, yEnd: nat)
      requires Valid() && GridHoldsParticles()
      requires xEnd <= cellCountX && yEnd <= cellCountY
      modifies this, grid
      ensures |particles| == |old(particles)|
      ensures collideLog == old(collideLog) + SweepRows(old(grid[..]), cellCountX, xStart, xEnd, yStart, yEnd)
      ensures forall c :: 0 <= c < grid.Length ==>
        grid[c] == if InWindow(cellCountX, c, xStart, xEnd, yStart, yEnd) then [] else old(grid[c])
    {
      ghost var g0 := grid[..];
      ghost var all := SweepRows(g0, cellCountX, xStart, xEnd, yStart, yEnd);
      RowsFit(cellCountX, yEnd, cellCountY);
      SweptGridEnds(g0, cellCountX, xStart, xEnd, yStart, yStart);
      var y := yStart;
      while y < yEnd
        invariant yStart <= y && (y <= yEnd || y == yStart)
        invariant |particles| == |old(particles)| && GridHoldsParticles()
        invariant collideLog + SweepRows(g0, cellCountX, xStart, xEnd, y, yEnd) == old(collideLog) + all
        invariant grid[..] == SweptGrid(g0, cellCountX, xStart, xEnd, yStart, y, xStart)
        decreases yEnd - y
      {
        RowFits(cellCountX, y, yEnd);
        RowsFit(cellCountX, yEnd, cellCountY);
        SweptGridRowIntact(g0, cellCountX, xStart, xEnd, yStart, y);
        AppendAssociative(collideLog, SweepRow(g0, cellCountX, y, xStart, xEnd),
          SweepRows(g0, cellCountX, xStart, xEnd, y + 1, yEnd));
        SolveGridRow(y, xStart, xEnd);
        SweptGridRowCleared(g0, cellCountX, xStart, xEnd, yStart, y);
        assert grid[..] == SweptGrid(g0, cellCountX, xStart, xEnd, yStart, y + 1, xStart);
        y := y + 1;
      }
      SweptGridEnds(g0, cellCountX, xStart, xEnd, yStart, y);
    }

    /** The loop over x of the sweep for row y: each cell of columns
        [xStart, xEnd) is collided pair by pair and then cleared. */
    method SolveGridRow(y: nat, xStart: nat, xEnd: nat)
      requires Valid() && GridHoldsParticles()
      requires xEnd <= cellCountX && y < cellCountY && (y + 1) * cellCountX <= grid.Length
      modifies this, grid
      ensures |particles| == |old(particles)| && GridHoldsParticles()
      ensures collideLog == old(collideLog) + SweepRow(old(grid[..]), cellCountX, y, xStart, xEnd)
      ensures forall c :: 0 <= c < grid.Length ==>
        grid[c] == if InWindow(cellCountX, c, xStart, xEnd, y, y + 1) then [] else old(grid[c])
    {
      ghost var g0 := grid[..];
      ghost var all := SweepRow(g0, cellCountX, y, xStart, xEnd);
      SweptGridEnds(g0, cellCountX, xStart, xEnd, y, y);
      var x := xStart;
      while x < xEnd
        invariant xStart <= x && (x <= xEnd || x == xStart)
        invariant |particles| == |old(particles)|
        invariant collideLog + SweepRow(g0, cellCountX, y, x, xEnd) == old(collideLog) + all
        invariant grid[..] == SweptGrid(g0, cellCountX, xStart, xEnd, y, y, x)
        decreases xEnd - x
      {
        var index := CellIndex(cellCountX, x, y);
        CellIndexBounds(cellCountX, cellCountY, x, y);
        SweptGridStep(g0, cellCountX, xStart, xEnd, y, y, x);
        AppendAssociative(collideLog, CellPairs(g0[index]), SweepRow(g0, cellCountX, y, x + 1, xEnd));
        CollideCellPairs(grid[index]);
        grid[index] := [];
        x := x + 1;
      }
      SweptGridRowDone(g0, cellCountX, xStart, xEnd, y, y, x);
      SweptGridEnds(g0, cellCountX, xStart, xEnd, y, y + 1);
      SweptGridHolds(g0, cellCountX, xStart, xEnd, y, y + 1, xStart, |particles|);
    }

    /** Pushes every particle into its min-corner cell and into the north, east
        and north-east neighbours its bounding square reaches. */
    method AssignParticlesToFixedGrid()
      requires Valid() && CornersInGrid(particles, cellWidth, cellCountX, cellCountY)
      modifies grid
      ensures forall c :: 0 <= c < grid.Length ==>
        grid[c] == old(grid[c]) + Pushed(particles, |particles|, c, cellWidth, cellCountX, cellCountY)
    {
      ghost var g0 := grid[..];
      var particleCount := |particles|;
      AssignedUpToNone(g0, particles, cellWidth, cellCountX, cellCountY);
      for i := 0 to particleCount
        invariant grid[..] == AssignedUpTo(g0, particles, i, cellWidth, cellCountX, cellCountY)
      {
        AssignParticle(i);
        AssignStep(g0, particles, i, cellWidth, cellCountX, cellCountY);
      }
    }

    /** The body of the assignment loop for particle i: its min-corner cell,
        then the north cell and (when also east) the north-east cell, then the
        east cell, each receiving index i at the end of its list. */
    method AssignParticle(i: nat)
      requires Valid() && i < |particles| && CornerInGrid(particles[i], cellWidth, cellCountX, cellCountY)
      modifies grid
      ensures grid[..] == AppendToCells(old(grid[..]), Placement(particles[i], cellWidth, cellCountX, cellCountY), i)
    {
      var p := particles[i];
      ghost var before := grid[..];
      ghost var placed := Placement(p, cellWidth, cellCountX, cellCountY);
      PlacementOrder(p, cellWidth, cellCountX, cellCountY);
      var cellX, cellY := MinCornerX(p, cellWidth), MinCornerY(p, cellWidth);
      var home := CellIndex(cellCountX, cellX, cellY);
      CellIndexBounds(cellCountX, cellCountY, cellX, cellY);
      AppendToCellsStep(before, placed, 0, i);
      grid[home] := grid[home] + [i];
      ghost var pushes := 1;
      assert grid[..] == AppendToCells(before, placed[..pushes], i);
      var inNorth, inEast := InNorth(p, cellWidth, cellCountY), InEast(p, cellWidth, cellCountX);
      if inNorth {
        var north := CellIndex(cellCountX, cellX, cellY + 1);
        CellIndexBounds(cellCountX, cellCountY, cellX, cellY + 1);
        AppendToCellsStep(before, placed, 1, i);
        grid[north] := grid[north] + [i];
        pushes := 2;
        assert grid[..] == AppendToCells(before, placed[..pushes], i);
        if inEast {
          var northEast := CellIndex(cellCountX, cellX + 1, cellY + 1);
          CellIndexBounds(cellCountX, cellCountY, cellX + 1, cellY + 1);
          AppendToCellsStep(before, placed, 2, i);
          grid[northEast] := grid[northEast] + [i];
          pushes := 3;
          assert grid[..] == AppendToCells(before, placed[..pushes], i);
        }
      }
      if inEast {
        var east := CellIndex(cellCountX, cellX + 1, cellY);
        CellIndexBounds(cellCountX, cellCountY, cellX + 1, cellY);
        AppendToCellsStep(before, placed, pushes, i);
        grid[east] := grid[east] + [i];
        pushes := pushes + 1;
        assert grid[..] == AppendToCells(before, placed[..pushes], i);
      }
      assert placed[..pushes] == placed;
    }

    /** Assigns the particles to the grid, then sweeps all of it, leaving every
        cell empty for the next substep. */
    method SolveParticleCollisionsFixedGrid()
      requires Valid() && GridHoldsParticles() && CornersInGrid(particles, cellWidth, cellCountX, cellCountY)
      modifies this, grid
      ensures |particles| == |old(particles)|
      ensures collideLog == old(collideLog) +
        SweepRows(Assigned(old(grid[..]), old(particles), cellWidth, cellCountX, cellCountY), cellCountX, 0, cellCountX, 0, cellCountY)
      ensures forall c :: 0 <= c < grid.Length ==> grid[c] == []
    {
      ghost var g0 := grid[..];
      AssignParticlesToFixedGrid();
      assert grid[..] == Assigned(g0, particles, cellWidth, cellCountX, cellCountY);
      forall c, k | 0 <= c < grid.Length && 0 <= k < |grid[c]|
        ensures 0 <= grid[c][k] < |particles|
      {
        PushedMembers(particles, |particles|, c, cellWidth, cellCountX, cellCountY);
        var pushed := Pushed(particles, |particles|, c, cellWidth, cellCountX, cellCountY);
        if k >= |g0[c]| {
          assert grid[c][k] == pushed[k - |g0[c]|];
          assert pushed[k - |g0[c]|] in pushed;
        }
      }
      SolveGridCollisionsInRange(0, cellCountX, 0, cellCountY);
      forall c | 0 <= c < grid.Length
        ensures InWindow(cellCountX, c, 0, cellCountX, 0, cellCountY)
      {
        CellInGrid(cellCountX, cellCountY, c);
      }
    }

    /** The counting-sort spatial hash of the particle centres: the per-cell
        offset table (with its sentinel) and the particle indices grouped by
        cell. The hand-over of these arrays to the compute shader is not part
        of this model. */
    method SolveParticleCollisionsSpatialHash() returns (offsets: array<int>, grouped: array<int>)
      requires Valid()
      requires SpatialHash.InRange(CenterCells(particles, cellWidth, cellCountX), cellCountX * cellCountY)
      ensures fresh(offsets) && fresh(grouped)
      ensures offsets.Length == cellCountX * cellCountY + 1 && grouped.Length == |particles|
      ensures SpatialHash.IsGrouping(CenterCells(particles, cellWidth, cellCountX), offsets[..], grouped[..])
    {
      var cells := CenterCells(particles, cellWidth, cellCountX);
      offsets, grouped := SpatialHash.BuildSpatialHash(cells, cellCountX * cellCountY);
    }

    /** Keeps every particle inside the box of the given size and centre: each
        axis is bounced off its high wall or, failing that, its low wall. */
    method ConstrainParticlesToBoxContainer(boxSize: Vec2, boxCenter: Vec2)
      modifies this
      ensures |particles| == |old(particles)| && collideLog == old(collideLog)
      ensures forall k :: 0 <= k < |particles| ==>
        particles[k] == ConstrainParticle(old(particles)[k], BoxAround(boxSize, boxCenter))
    {
      var e := Restitution;
      var box := BoxAround(boxSize, boxCenter);
      for i := 0 to |particles|
        invariant |particles| == |old(particles)| && collideLog == old(collideLog)
        invariant forall k :: 0 <= k < i ==> particles[k] == ConstrainParticle(old(particles)[k], box)
        invariant forall k :: i <= k < |particles| ==> particles[k] == old(particles)[k]
      {
        var p := particles[i];
        var pos, prev := p.pos, p.prevPos;
        if pos.x + p.radius > box.right {
          var displacement := pos.x - prev.x;
          pos := pos.(x := pos.x - 2.0 * (pos.x + p.radius - box.right));
          prev := prev.(x := pos.x + e * displacement);
        } else if pos.x - p.radius < box.left {
          var displacement := prev.x - pos.x;
          pos := pos.(x := pos.x + 2.0 * (box.left - (pos.x - p.radius)));
          prev := prev.(x := pos.x - e * displacement);
        }
        assert (pos.x, prev.x) == Bounce(p.pos.x, p.prevPos.x, p.radius, box.left, box.right);
        if pos.y + p.radius > box.top {
          var displacement := pos.y - prev.y;
          pos := pos.(y := pos.y - 2.0 * (pos.y + p.radius - box.top));
          prev := prev.(y := pos.y + e * displacement);
        } else if pos.y - p.radius < box.bottom {
          var displacement := prev.y - pos.y;
          pos := pos.(y := pos.y + 2.0 * (box.bottom - (pos.y - p.radius)));
          prev := prev.(y := pos.y - e * displacement);
        }
        assert (pos.y, prev.y) == Bounce(p.pos.y, p.prevPos.y, p.radius, box.bottom, box.top);
        particles := particles[i := Particle(pos, prev, p.radius)];
      }
    }
  }

  /** The wall constraint of a substep keeps the spatial hash in range: when
      every particle has a positive radius and lies inside the screen box (the
      box of the screen's size centred on the screen), every centre cell lies
      inside a grid that covers the screen. */
  lemma ScreenParticlesInGrid(ps: seq<Particle>, screenSize: Vec2, cellWidth: real, cellCountX: nat, cellCountY: nat)
    requires cellWidth > 0.0
    requires screenSize.x <= cellWidth * cellCountX as real && screenSize.y <= cellWidth * cellCountY as real
    requires forall k :: 0 <= k < |ps| ==>
      (ps[k].radius > 0.0 && InsideBox(ps[k], BoxAround(screenSize, Vec2(screenSize.x / 2.0, screenSize.y / 2.0))))
    ensures SpatialHash.InRange(CenterCells(ps, cellWidth, cellCountX), cellCountX * cellCountY)
  {
    var box := BoxAround(screenSize, Vec2(screenSize.x / 2.0, screenSize.y / 2.0));
    forall k | 0 <= k < |ps|
      ensures 0 <= CenterCell(ps[k], cellWidth, cellCountX) < cellCountX * cellCountY
    {
      var p := ps[k];
      assert box.left == 0.0 && box.right == screenSize.x && box.bottom == 0.0 && box.top == screenSize.y;
      CenterColumn(p.pos.x, screenSize.x, cellWidth, cellCountX);
      CenterColumn(p.pos.y, screenSize.y, cellWidth, cellCountY);
      CellIndexBounds(cellCountX, cellCountY, Trunc(p.pos.x / cellWidth), Trunc(p.pos.y / cellWidth));
    }
  }

  lemma AppendAssociative<T>(a: seq<T>, b: seq<T>, c: seq<T>)
    ensures (a + b) + c == a + (b + c)
  {
  }
}
