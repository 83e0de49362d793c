# Broad-phase collision grid of a Verlet particle solver, in Dafny

This project models the bookkeeping core of `PhysicSolver` in
`physics/physics.cpp`, a 2D particle simulation that uses Verlet integration.
It covers four parts.

- **Counting-sort spatial hash** (`solveParticleCollisionsSpatialHash`). It has three in-place passes over integer arrays:
  - a count pass per cell;
  - an inclusive prefix sum;
  - a scatter pass that decrements each cell's running offset and writes the particle index there.

  The result is an offset table with one sentinel slot, plus the particle indices grouped by cell. Module `SpatialHash` proves these about the result:
  - it is a permutation;
  - offset `h` counts the particles below cell `h`;
  - each cell's slice holds exactly that cell's particles;
  - indices strictly decrease within a slice.
- **Fixed grid.** `assignParticlesToFixedGrid` pushes each particle into the cell of its bounding square's min corner, and into the north, east and north-east neighbours its square reaches. `solveGridCollisionsInRange` calls the collision routine on every pair of positions within each cell of a window, row by row, and clears the cell. Brute force calls it on every pair `i < j`.
  - Module `PairSweep` specifies the pair enumeration.
  - Module `FixedGrid` specifies the grid contents and the sweep's call sequence.
  - End-to-end, the fixed grid calls the routine on every pair of particles whose bounding squares meet (and so on every pair of touching circles), and never on a particle with itself. This holds under three conditions:
    - every bounding square fits a cell (`FitsCell`: non-negative min corner, diameter at most the cell width);
    - every min corner lies inside the grid (`CornersInGrid`);
    - the grid starts empty.
- **Box-container constraint** (`constrainParticlesToBoxContainer`), over exact reals, in module `BoxContainer`. Per axis, a particle past the high wall is mirrored back inside it. Otherwise, one past the low wall is mirrored back inside that wall. The implicit velocity `pos - prevPos` is reversed and scaled by the restitution 0.25.
- **The solver object**, class `Solver.PhysicSolver`. It holds:
  - the grid, an array of per-cell index lists;
  - the particle list;
  - a log of the pairs the collision routine has been called with. The collision routine is an opaque action that only records its call.

  The methods follow the source's loops. Each is proved against the specification functions of the modules above.

Module `GridCells` holds:
- the cell arithmetic: the row-major index, C++ float-to-int truncation, `std::ceil`;
- the placement of one particle in the fixed grid.

Module `Particles` holds the particle record.

Cell coordinates come from truncation toward zero, as the C++ casts do, and are
never clamped into the grid. For a negative coordinate, truncation differs from
`floor`: a value between -1 and 0 truncates to 0. Where a clamp would matter,
the model requires an in-range index instead (see "Left out").

## Model

| member | source | states |
|---|---|---|
| Solver.PhysicSolver.constructor | physics/physics.cpp:9-23 | Cell width is twice the largest radius; `ceil(size / width)` cells per axis cover the screen with less than one cell to spare; the grid has `cellCountX * cellCountY` empty cells. |
| Solver.PhysicSolver.SpawnParticle | physics/physics.cpp:25-29 | Appends one particle at rest at `pos` and returns its index; nothing else changes. |
| Solver.PhysicSolver.CollideTwoParticles | physics/physics.cpp:274-277 | The collision routine as an opaque action: the pair is appended to the call log and the number of particles stays the same. |
| Solver.PhysicSolver.SolveParticleCollisionsBruteForce | physics/physics.cpp:100-106 | The call log grows by exactly `PositionPairs(n)`: every pair `i < j` once, outer index first. |
| PairSweep.PositionPairsMember | physics/physics.cpp:101-105 | `(a, b)` is enumerated if and only if `0 <= a < b < m`. |
| PairSweep.PositionPairsIncreasing | physics/physics.cpp:101-105 | Pairs come in strictly increasing lexicographic order, so none is repeated. |
| PairSweep.PositionPairsCount | physics/physics.cpp:101-105 | Exactly `m * (m - 1) / 2` pairs are enumerated. |
| PairSweep.CellPairsThroughPositions | physics/physics.cpp:121-127 | The calls for one cell are the position pairs `p1 < p2` of the list, mapped through the stored particle indices. |
| PairSweep.IncreasingCellPairs | physics/physics.cpp:121-127 | A cell whose stored indices increase yields only calls `(a, b)` with `a < b`. |
| PairSweep.IncreasingCellHasPair | physics/physics.cpp:121-127 | A cell whose indices increase and that holds `i < j` calls the routine on `(i, j)`. |
| Solver.PhysicSolver.CollideCellPairs | physics/physics.cpp:120-129 | The two inner loops for one cell append exactly `CellPairs(cell)` to the log. |
| Solver.PhysicSolver.SolveGridCollisionsInRange | physics/physics.cpp:114-134 | The log grows by the row-major sweep of the window over the original grid. Every window cell ends empty and every other cell is unchanged. |
| Solver.PhysicSolver.SolveGridRow | physics/physics.cpp:119-132 | One row of the window: the log grows by the row's calls, the row's window cells end empty, the rest is unchanged, and stored indices still name particles. |
| FixedGrid.SweepRowsMember | physics/physics.cpp:118-133 | Every pair of every window cell is among the sweep's calls. |
| FixedGrid.SweepRowsOrdered | physics/physics.cpp:118-133 | If every cell's indices increase, every call of the sweep is a pair `a < b`. |
| FixedGrid.SweepRowFrame | physics/physics.cpp:119-127 | The calls for a stretch of a row depend only on the cells of that stretch. |
| FixedGrid.SweptGridStep | physics/physics.cpp:119-131 | Clearing cell `(x, y)` moves the partly swept grid one column on; until then that cell still holds its original list. |
| FixedGrid.SweptGridRowIntact | physics/physics.cpp:118-127 | When its turn comes, a row of the window is untouched, so its calls are those of the original grid. |
| FixedGrid.SweptGridEnds | physics/physics.cpp:118-133 | Before the sweep nothing is cleared. After the last row, exactly the window's cells are cleared. |
| Solver.PhysicSolver.AssignParticlesToFixedGrid | physics/physics.cpp:136-164 | Every cell `c` ends as its old list followed by the indices of the particles whose placement includes `c`, in particle order. |
| Solver.PhysicSolver.AssignParticle | physics/physics.cpp:141-162 | The pushes for one particle: index `i` is appended to each of its placement cells in the source's order (home, north, north-east, east). |
| FixedGrid.AssignStep | physics/physics.cpp:140-163 | Pushing particle `i` into its placement cells takes the grid from the first `i` particles to the first `i + 1`. |
| FixedGrid.AppendToCellsContents | physics/physics.cpp:146-162 | With distinct in-grid cells, each listed cell gains the index once at its end and every other cell is unchanged. |
| FixedGrid.PushedMembers | physics/physics.cpp:140-163 | Cell `c` receives particle `k` if and only if `c` is one of `k`'s placement cells. The indices in a cell strictly increase, so none appears twice. |
| GridCells.MinCornerX | physics/physics.cpp:143 | Column of the bounding square's min corner: `(pos.x - radius) / cellWidth` truncated toward zero. |
| GridCells.MinCornerY | physics/physics.cpp:144 | Row of the bounding square's min corner: `(pos.y - radius) / cellWidth` truncated toward zero. |
| GridCells.InNorth | physics/physics.cpp:148-149 | The row above the min corner exists and the square's top edge reaches its lower boundary `cellWidth * (cell_y + 1)`. |
| GridCells.InEast | physics/physics.cpp:150-151 | The column right of the min corner exists and the square's right edge reaches its left boundary `cellWidth * (cell_x + 1)`. |
| GridCells.Placement | physics/physics.cpp:146-161 | The cells one particle is pushed into, in push order: home; north when `in_north`, followed by north-east when also `in_east`; east when `in_east`. |
| GridCells.PlacementShape | physics/physics.cpp:143-162 | A particle goes into 1 to 4 cells, all inside the grid and pairwise distinct, the min-corner cell first. |
| GridCells.PlacementOrder | physics/physics.cpp:146-162 | The placement order is home, then north, then north-east (only when both north and east), then east. |
| GridCells.PlacementCells | physics/physics.cpp:143-162 | Cell `(x, y)` is a placement cell if and only if two things hold. Its column is the min-corner column, or the next one when the east test passes. Its row is the min-corner row, or the next one when the north test passes. |
| GridCells.PlacementCoverage | physics/physics.cpp:143-162 | For a square that fits a cell and starts inside the grid, a cell receives the particle if and only if the bounding square touches it. |
| GridCells.SharedCell | physics/physics.cpp:143-162 | Two such particles whose bounding squares meet share a placement cell. |
| GridCells.CirclesMeetSquaresMeet | physics/physics.cpp:283-287 | Circles whose centres are within the sum of their radii have meeting bounding squares. So every pair the collision routine would push apart is one the broad phase's square test keeps. |
| FixedGrid.FixedGridFindsMeetingPairs | physics/physics.cpp:108-112 | Assigning to an empty grid and sweeping all of it calls the routine on every pair `i < j` whose bounding squares meet. |
| FixedGrid.FixedGridPairsOrdered | physics/physics.cpp:108-112 | Every call made by the fixed-grid broad phase from an empty grid is a pair `a < b`, never a particle with itself. |
| Solver.PhysicSolver.SolveParticleCollisionsFixedGrid | physics/physics.cpp:108-112 | The log grows by the sweep of the whole grid after assignment, and every cell ends empty. |
| GridCells.Trunc | physics/physics.cpp:143-144 | The float-to-int cast truncates toward zero: `t <= r < t + 1` for `r >= 0`, and `t - 1 < r <= t` for `r < 0`. |
| GridCells.Ceil | physics/physics.cpp:19-20 | `std::ceil`: the least integer not below `r`. |
| GridCells.CellIndexCoordinates | physics/physics.cpp:146 | Cell `(x, y)`'s row-major index gives back `y` by division and `x` by remainder. |
| GridCells.CellIndexInjective | physics/physics.cpp:146-161 | Distinct cells have distinct row-major indices. |
| GridCells.GridCoversScreen | physics/physics.cpp:19-20 | `ceil(size / width)` cells are at least one and cover the extent with less than a cell to spare. |
| GridCells.CenterCell | physics/physics.cpp:173-175 | The spatial hash's cell of one particle: both centre coordinates divided by the cell width and truncated, combined row-major. |
| GridCells.CenterCells | physics/physics.cpp:189-191 | One centre cell per particle, in particle order: entry `i` is `CenterCell` of particle `i`. |
| GridCells.CenterColumn | physics/physics.cpp:173-174 | A centre coordinate within a covered screen extent truncates to a cell inside the grid. |
| Solver.ScreenParticlesInGrid | physics/physics.cpp:31-43 | Particles with positive radius inside the screen box have every centre cell in the grid, as the spatial hash's indexing needs. |
| SpatialHash.CountPass | physics/physics.cpp:168-178 | After the count pass, `counts[h]` is the number of particles in cell `h`, and the sentinel slot stays 0. |
| SpatialHash.PrefixSumPass | physics/physics.cpp:180-183 | After the prefix-sum pass, every entry is the sum of itself and all entries before it. |
| SpatialHash.SumOfOccupancies | physics/physics.cpp:180-183 | The prefix sum of the per-cell counts up to `h` is the number of particles in cells below `h`. |
| SpatialHash.ScatterStep | physics/physics.cpp:192-194 | Placing particle `p`: the decremented offset of its cell is its slot, the slot is in bounds, and the scatter invariant then holds for one more particle. |
| SpatialHash.ScatterPass | physics/physics.cpp:185-195 | Starting from the inclusive prefix sums, the scatter pass leaves a grouping: offset `h` equals the count below `h`, and particle `i` sits at `Slot(i)`. |
| SpatialHash.BuildSpatialHash | physics/physics.cpp:166-195 | The three passes produce an offset table of `cellCount + 1` entries and a grouping, with `offsets[0] == 0` and the sentinel equal to the particle count. |
| Solver.PhysicSolver.SolveParticleCollisionsSpatialHash | physics/physics.cpp:166-195 | The spatial hash of the particle centres, under the in-grid precondition. |
| SpatialHash.GroupingIsPermutation | physics/physics.cpp:186-195 | Every slot holds a particle index whose slot it is, so `grouped` is a permutation of `0 .. n - 1`. |
| SpatialHash.GroupingSlice | physics/physics.cpp:186-195 | Offsets are non-decreasing. Cell `h`'s slice `[offs[h], offs[h+1])` holds exactly cell `h`'s particles, latest first. Its indices strictly decrease. |
| SpatialHash.SlotInjective | physics/physics.cpp:193-194 | Distinct particles get distinct slots, so no slot is written twice. |
| SpatialHash.CellMembersComplete | physics/physics.cpp:186-195 | A particle is listed for cell `h` if and only if its cell index is `h`. |
| BoxContainer.BoxAround | physics/physics.cpp:68-75 | The walls lie half the size either side of the centre: width and height equal the size, and the midpoints are the centre. |
| BoxContainer.Bounce | physics/physics.cpp:79-96 | Past the high wall, the position is mirrored inside it and the velocity becomes `-0.25` times the old. Otherwise, past the low wall, the same happens at that wall. Otherwise nothing changes. |
| BoxContainer.BounceMirror | physics/physics.cpp:79-87 | The low-wall rule is the high-wall rule seen in a mirror, unless both walls are crossed. |
| BoxContainer.BouncePrecedence | physics/physics.cpp:79-83 | A particle crossing both walls is always bounced off the high wall. |
| BoxContainer.BounceContains | physics/physics.cpp:79-87 | A particle that fits between the walls and has crossed by no more than its spare room ends inside, and a second bounce leaves it there. |
| BoxContainer.ConstrainParticle | physics/physics.cpp:79-96 | The constraint on one particle: x is bounced between the left and right walls, then y between the bottom and top walls; the radius is kept. |
| BoxContainer.InsideUnchanged | physics/physics.cpp:79-96 | A particle inside the box is left unchanged. |
| BoxContainer.AxesIndependent | physics/physics.cpp:79-96 | The x correction neither reads nor writes y, and the other way round. |
| BoxContainer.ConstrainedInside | physics/physics.cpp:79-96 | A particle that fits the box and has crossed by no more than its spare room ends inside the box. |
| Solver.PhysicSolver.ConstrainParticlesToBoxContainer | physics/physics.cpp:66-98 | Every particle is replaced by its constrained form, axis by axis as the source's `if / else if` does. The list's length and the call log are unchanged. |

## Left out

- The compute-shader hand-off of the spatial hash (physics/physics.cpp:197-271) is left out: it creates GPU buffers, dispatches a shader that is not part of this model, and reads positions back. `SolveParticleCollisionsSpatialHash` returns the two arrays it would upload.
- The numerics of `collideTwoParticles` (physics/physics.cpp:279-294) are left out: square root, normalisation and float position updates. The routine is an opaque action that records its call; its contract promises only that the number of particles stays the same. The brute-force, sweep and fixed-grid methods therefore promise nothing about the particles beyond their count.
- CollideTwoParticles: requires both indices to name particles unless they are equal (the early return for equal indices comes before any indexing). This is the source's own indexing requirement.
- `update`, `applyGravity`, `applyAirResistance` and `updateParticles` (physics/physics.cpp:31-64) are left out: float force accumulation and the Verlet step of `Particle::update`, which is defined in a file that is not part of this model. `ScreenParticlesInGrid` states the one fact the substep sequence relies on between the constraint and the hash.
- Solver.PhysicSolver.constructor: requires a positive screen size and a positive largest radius. The source checks neither. A zero radius makes the cell width zero and divides by it, and a non-positive size leaves an axis with no cells. The model does not cover these inputs.
- The constructor's `sub_steps` and compute-shader fields are left out (GPU state). The `Particle` constructor in physics.hpp is not part of this model; `SpawnParticle` takes it to set the previous position to the position, so a new particle is at rest.
- Floating point: positions, radii and the cell width are exact reals. Float rounding in the box constraint and in the cell arithmetic is not modelled.
- Integer widths: cell indices and counts are unbounded integers. The source's `uint32_t`/`int32_t` arithmetic (index `y * cell_count_x + x`, the counters) is not wrapped.
- SpatialHash.BuildSpatialHash: requires every particle's centre cell index to lie in `[0, cellCount)`. The source truncates and never clamps, so an index outside that range would write out of bounds. `ScreenParticlesInGrid` shows when the substep's wall constraint guarantees it.
- Solver.PhysicSolver.SolveParticleCollisionsSpatialHash: requires the same in-range condition, for the same reason.
- Solver.PhysicSolver.AssignParticlesToFixedGrid: requires every particle's min-corner cell to lie inside the grid (`CornersInGrid`). The source casts to `uint32_t` without a check. Three cases follow:
  - A corner less than one cell left of or below the screen truncates to column or row 0 and is placed there. The requires admits this case, and the model places it the same way.
  - A corner one cell or more left of or below the screen gives a negative value. Its conversion to `uint32_t` is undefined in C++ and in practice yields a column or row far outside the grid. The requires excludes this case.
  - A corner column at or beyond the right edge does not fail in the source. The row-major index `cell_y * cell_count_x + cell_x` lands in a cell of a later row, and is out of bounds only near the end of the grid. The requires excludes this case, so the model does not capture these pushes into another row's cells. A corner row at or beyond the top edge gives an index past the grid; the requires excludes it too.
- Solver.PhysicSolver.SolveGridCollisionsInRange: requires `xEnd <= cellCountX` and `yEnd <= cellCountY`. The source does not check this; a larger window would index past a row or past the grid.
- The per-cell index lists are `seq<int>` values held in an array. In the source they are `std::vector`s, updated with `push_back` and `clear`; aliasing between cell vectors does not arise there.
- Solver.PhysicSolver.SolveGridRow and Solver.PhysicSolver.AssignParticle are the bodies of the source's outer loops, written as methods of their own. The loop nesting and the order of operations are those of the source.
