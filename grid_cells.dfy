/** The uniform grid of PhysicSolver: cell_count_x by cell_count_y square cells
    of side cell_width, numbered row-major (cell (x, y) is y * cell_count_x + x),
    and the cells assignParticlesToFixedGrid puts one particle into. */
module GridCells {
  import opened Particles

  /** A float-to-integer conversion as C++ does it: truncation toward zero. */
  function Trunc(r: real): (t: int)
    ensures 0.0 <= r ==> 0 <= t && t as real <= r < t as real + 1.0
    ensures r < 0.0 ==> t <= 0 && t as real - 1.0 < r <= t as real
  {
    if r >= 0.0 then r.Floor else -((-r).Floor)
  }

  /** std::ceil: the least integer not below r. */
  function Ceil(r: real): (c: int)
    ensures c as real - 1.0 < r <= c as real
  {
    -((-r).Floor)
  }

  /** Row-major index of cell (x, y). */
  function CellIndex(cellCountX: nat, x: int, y: int): int
  {
    y * cellCountX + x
  }

  /** A cell inside the grid has an index inside the grid vector. */
  lemma CellIndexBounds(cellCountX: nat, cellCountY: nat, x: int, y: int)
    requires 0 <= x < cellCountX && 0 <= y < cellCountY
    ensures 0 <= CellIndex(cellCountX, x, y) < cellCountX * cellCountY
  {
    assert (cellCountY - 1 - y) * cellCountX >= 0;
  }

  /** The row and column of a cell are recovered from its index by division
      and remainder, so distinct cells have distinct indices. */
  lemma CellIndexCoordinates(cellCountX: nat, x: int, y: int)
    requires 0 <= x < cellCountX && 0 <= y
    ensures CellIndex(cellCountX, x, y) / cellCountX == y
    ensures CellIndex(cellCountX, x, y) % cellCountX == x
  {
    var c := CellIndex(cellCountX, x, y);
    QuotientUnique(cellCountX, c / cellCountX, c % cellCountX, y, x);
  }

  /** Quotient and remainder by n are unique. */
  lemma QuotientUnique(n: int, q: int, r: int, y: int, x: int)
    requires n > 0 && 0 <= r < n && 0 <= x < n && q * n + r == y * n + x
    ensures q == y && r == x
  {
    if q > y {
      MulAtLeast(q - y, n);
    } else if q < y {
      MulAtLeast(y - q, n);
    }
  }

  lemma MulAtLeast(a: int, n: int)
    requires a >= 1 && n > 0
    ensures a * n >= n
  {
    assert (a - 1) * n >= 0;
  }

  lemma CellIndexInjective(cellCountX: nat, x1: int, y1: int, x2: int, y2: int)
    requires 0 <= x1 < cellCountX && 0 <= y1 && 0 <= x2 < cellCountX && 0 <= y2
    ensures CellIndex(cellCountX, x1, y1) == CellIndex(cellCountX, x2, y2) <==> x1 == x2 && y1 == y2
  {
    CellIndexCoordinates(cellCountX, x1, y1);
    CellIndexCoordinates(cellCountX, x2, y2);
  }

  /** A cell count of ceil(size / cellWidth) covers the screen extent with
      less than one cell to spare. */
  lemma GridCoversScreen(size: real, cellWidth: real)
    requires size > 0.0 && cellWidth > 0.0
    ensures Ceil(size / cellWidth) >= 1
    ensures cellWidth * (Ceil(size / cellWidth) - 1) as real < size <= cellWidth * Ceil(size / cellWidth) as real
  {
    var t := size / cellWidth;
    QuotientNonNegative(size, cellWidth);
    var c := Ceil(t);
    ScaleLt(cellWidth, c as real - 1.0, t);
    ScaleLe(cellWidth, t, c as real);
    assert (c - 1) as real == c as real - 1.0;
  }

  /** The cell of a particle's centre, as the spatial hash computes it: each
      coordinate divided by the cell width and truncated, combined row-major. */
  function CenterCell(p: Particle, cellWidth: real, cellCountX: nat): int
    requires cellWidth > 0.0
  {
    CellIndex(cellCountX, Trunc(p.pos.x / cellWidth), Trunc(p.pos.y / cellWidth))
  }

  /** The centre cell of every particle, in particle order. */
  function CenterCells(ps: seq<Particle>, cellWidth: real, cellCountX: nat): (cells: seq<int>)
    requires cellWidth > 0.0
    ensures |cells| == |ps|
    ensures forall i :: 0 <= i < |ps| ==> cells[i] == CenterCell(ps[i], cellWidth, cellCountX)
  {
    seq(|ps|, i requires 0 <= i < |ps| => CenterCell(ps[i], cellWidth, cellCountX))
  }

  // ---------------------------------------------------------------------------
  // Fixed-grid placement of one particle

  /** Column of the cell holding the lower-left corner of the particle's
      bounding square. */
  function MinCornerX(p: Particle, cellWidth: real): int
    requires cellWidth > 0.0
  {
    Trunc((p.pos.x - p.radius) / cellWidth)
  }

  /** Row of the cell holding the lower-left corner of the particle's bounding
      square. */
  function MinCornerY(p: Particle, cellWidth: real): int
    requires cellWidth > 0.0
  {
    Trunc((p.pos.y - p.radius) / cellWidth)
  }

  /** The min-corner cell lies inside the grid, as the grid vector's indexing
      needs. */
  predicate CornerInGrid(p: Particle, cellWidth: real, cellCountX: nat, cellCountY: nat)
  {
    cellWidth > 0.0 &&
    0 <= MinCornerX(p, cellWidth) < cellCountX && 0 <= MinCornerY(p, cellWidth) < cellCountY
  }

  /** The row above exists and the bounding square reaches it. */
  predicate InNorth(p: Particle, cellWidth: real, cellCountY: nat)
    requires cellWidth > 0.0
  {
    var cy := MinCornerY(p, cellWidth);
    cy + 1 < cellCountY && p.pos.y + p.radius >= cellWidth * (cy + 1) as real
  }

  /** The column to the right exists and the bounding square reaches it. */
  predicate InEast(p: Particle, cellWidth: real, cellCountX: nat)
    requires cellWidth > 0.0
  {
    var cx := MinCornerX(p, cellWidth);
    cx + 1 < cellCountX && p.pos.x + p.radius >= cellWidth * (cx + 1) as real
  }

  /** The cells a particle is pushed into, in the order of the pushes: the
      min-corner cell, then north and north-east, then east. */
  function Placement(p: Particle, cellWidth: real, cellCountX: nat, cellCountY: nat): seq<int>
    requires cellWidth > 0.0
  {
    var cx, cy := MinCornerX(p, cellWidth), MinCornerY(p, cellWidth);
    var north, east := InNorth(p, cellWidth, cellCountY), InEast(p, cellWidth, cellCountX);
    [CellIndex(cellCountX, cx, cy)]
    + (if north then [CellIndex(cellCountX, cx, cy + 1)] + (if east then [CellIndex(cellCountX, cx + 1, cy + 1)] else []) else [])
    + (if east then [CellIndex(cellCountX, cx + 1, cy)] else [])
  }

  /** The order of the placement cells: the min-corner cell, then the north
      cell and (when also east) the north-east cell, then the east cell. */
  lemma PlacementOrder(p: Particle, cellWidth: real, cellCountX: nat, cellCountY: nat)
    requires cellWidth > 0.0
    ensures var cells := Placement(p, cellWidth, cellCountX, cellCountY);
      var cx, cy := MinCornerX(p, cellWidth), MinCornerY(p, cellWidth);
      var north, east := InNorth(p, cellWidth, cellCountY), InEast(p, cellWidth, cellCountX);
      |cells| == 1 + (if north then 1 else 0) + (if north && east then 1 else 0) + (if east then 1 else 0) &&
      cells[0] == CellIndex(cellCountX, cx, cy) &&
      (north ==> cells[1] == CellIndex(cellCountX, cx, cy + 1)) &&
      (north && east ==> cells[2] == CellIndex(cellCountX, cx + 1, cy + 1)) &&
      (east ==> cells[|cells| - 1] == CellIndex(cellCountX, cx + 1, cy))
  {
  }

  /** A particle is placed in one to four grid cells, each inside the grid,
      none twice, the min-corner cell first. */
  lemma PlacementShape(p: Particle, cellWidth: real, cellCountX: nat, cellCountY: nat)
    requires CornerInGrid(p, cellWidth, cellCountX, cellCountY)
    ensures var cells := Placement(p, cellWidth, cellCountX, cellCountY);
      1 <= |cells| <= 4 &&
      cells[0] == CellIndex(cellCountX, MinCornerX(p, cellWidth), MinCornerY(p, cellWidth)) &&
      (forall k :: 0 <= k < |cells| ==> 0 <= cells[k] < cellCountX * cellCountY) &&
      forall k1, k2 :: 0 <= k1 < k2 < |cells| ==> cells[k1] != cells[k2]
  {
    var cx, cy := MinCornerX(p, cellWidth), MinCornerY(p, cellWidth);
    var north, east := InNorth(p, cellWidth, cellCountY), InEast(p, cellWidth, cellCountX);
    var c, n, ne, e := CellIndex(cellCountX, cx, cy), CellIndex(cellCountX, cx, cy + 1),
      CellIndex(cellCountX, cx + 1, cy + 1), CellIndex(cellCountX, cx + 1, cy);
    CellIndexBounds(cellCountX, cellCountY, cx, cy);
    if north {
      CellIndexBounds(cellCountX, cellCountY, cx, cy + 1);
      CellIndexInjective(cellCountX, cx, cy, cx, cy + 1);
    }
    if east {
      CellIndexBounds(cellCountX, cellCountY, cx + 1, cy);
      CellIndexInjective(cellCountX, cx, cy, cx + 1, cy);
    }
    if north && east {
      CellIndexBounds(cellCountX, cellCountY, cx + 1, cy + 1);
      CellIndexInjective(cellCountX, cx, cy, cx + 1, cy + 1);
      CellIndexInjective(cellCountX, cx, cy + 1, cx + 1, cy + 1);
      CellIndexInjective(cellCountX, cx, cy + 1, cx + 1, cy);
      CellIndexInjective(cellCountX, cx + 1, cy + 1, cx + 1, cy);
    }
  }

  /** Cell (x, y) of the grid receives the particle exactly when its column is
      the min-corner column or, if the particle reaches east, the next one, and
      its row is the min-corner row or, if the particle reaches north, the next
      one. So the north-east neighbour is used only when both the north and the
      east conditions hold, and no neighbour outside the grid is ever used. */
  lemma PlacementCells(p: Particle, cellWidth: real, cellCountX: nat, cellCountY: nat, x: int, y: int)
    requires CornerInGrid(p, cellWidth, cellCountX, cellCountY)
    requires 0 <= x < cellCountX && 0 <= y < cellCountY
    ensures CellIndex(cellCountX, x, y) in Placement(p, cellWidth, cellCountX, cellCountY) <==>
      (x == MinCornerX(p, cellWidth) || (x == MinCornerX(p, cellWidth) + 1 && InEast(p, cellWidth, cellCountX))) &&
      (y == MinCornerY(p, cellWidth) || (y == MinCornerY(p, cellWidth) + 1 && InNorth(p, cellWidth, cellCountY)))
  {
    var cx, cy := MinCornerX(p, cellWidth), MinCornerY(p, cellWidth);
    CellIndexInjective(cellCountX, x, y, cx, cy);
    CellIndexInjective(cellCountX, x, y, cx, cy + 1);
    if cx + 1 < cellCountX {
      CellIndexInjective(cellCountX, x, y, cx + 1, cy + 1);
      CellIndexInjective(cellCountX, x, y, cx + 1, cy);
    }
  }

  // ---------------------------------------------------------------------------
  // What the placement covers

  /** The extent [lo, hi] of a bounding square along one axis touches grid
      column (or row) k, whose cells span [k * cellWidth, (k + 1) * cellWidth). */
  predicate Touches(lo: real, hi: real, cellWidth: real, k: int)
  {
    cellWidth * k as real <= hi && lo < cellWidth * (k + 1) as real
  }

  lemma ScaleLe(w: real, a: real, b: real)
    requires w > 0.0 && a <= b
    ensures w * a <= w * b
  {
    assert w * b - w * a == w * (b - a);
  }

  lemma ScaleLt(w: real, a: real, b: real)
    requires w > 0.0 && a < b
    ensures w * a < w * b
  {
    assert w * b - w * a == w * (b - a);
  }

  lemma QuotientNonNegative(lo: real, w: real)
    requires w > 0.0 && 0.0 <= lo
    ensures 0.0 <= lo / w && w * (lo / w) == lo
  {
  }

  /** A centre coordinate inside a screen extent that count cells cover falls
      in one of those cells. */
  lemma CenterColumn(pos: real, size: real, cellWidth: real, count: int)
    requires cellWidth > 0.0 && 0.0 <= pos < size <= cellWidth * count as real
    ensures 0 <= Trunc(pos / cellWidth) < count
  {
    var t := pos / cellWidth;
    QuotientNonNegative(pos, cellWidth);
    var c := Trunc(t);
    if c >= count {
      ScaleLe(cellWidth, count as real, c as real);
      ScaleLe(cellWidth, c as real, t);
    }
  }

  /** Consecutive cell boundaries are one cell width apart. */
  lemma NextBoundary(cellWidth: real, k: int)
    ensures cellWidth * (k + 1) as real == cellWidth * k as real + cellWidth
  {
  }

  /** The truncated corner column c satisfies c * cellWidth <= lo < (c + 1) * cellWidth. */
  lemma CornerColumn(lo: real, cellWidth: real)
    requires cellWidth > 0.0 && 0.0 <= lo
    ensures 0 <= Trunc(lo / cellWidth)
    ensures cellWidth * Trunc(lo / cellWidth) as real <= lo
    ensures lo < cellWidth * (Trunc(lo / cellWidth) + 1) as real
  {
    var t := lo / cellWidth;
    QuotientNonNegative(lo, cellWidth);
    var c := Trunc(t);
    ScaleLe(cellWidth, c as real, t);
    ScaleLt(cellWidth, t, c as real + 1.0);
    assert cellWidth * t < cellWidth * (c as real + 1.0);
    assert cellWidth * t == lo;
    assert (c + 1) as real == c as real + 1.0;
    assert lo < cellWidth * (c + 1) as real;
  }

  /** The placement's columns along one axis: the truncated corner column, and
      the next one when it exists and the extent reaches it. */
  predicate AxisPlaced(lo: real, hi: real, cellWidth: real, count: int, k: int)
    requires cellWidth > 0.0
  {
    var c := Trunc(lo / cellWidth);
    k == c || (k == c + 1 && c + 1 < count && hi >= cellWidth * (c + 1) as real)
  }

  /** Along one axis: with the extent no wider than a cell and starting inside
      the grid, the columns the placement uses are exactly the grid columns the
      extent touches. */
  lemma AxisCoverage(lo: real, hi: real, cellWidth: real, count: int, k: int)
    requires cellWidth > 0.0 && 0.0 <= lo <= hi <= lo + cellWidth
    requires 0 <= k < count
    ensures AxisPlaced(lo, hi, cellWidth, count, k) <==> Touches(lo, hi, cellWidth, k)
  {
    var c := Trunc(lo / cellWidth);
    CornerColumn(lo, cellWidth);
    if k < c {
      LeftOfCorner(lo, hi, cellWidth, c, k);
    } else if k > c + 1 {
      RightOfNext(lo, hi, cellWidth, c, k);
    } else if k == c + 1 {
      NextBoundary(cellWidth, k);
    }
  }

  /** A column left of the corner column ends before the extent starts. */
  lemma LeftOfCorner(lo: real, hi: real, cellWidth: real, c: int, k: int)
    requires cellWidth > 0.0 && cellWidth * c as real <= lo && k < c
    ensures !Touches(lo, hi, cellWidth, k)
  {
    ScaleLe(cellWidth, (k + 1) as real, c as real);
  }

  /** A column two or more past the corner column starts after an extent no
      wider than a cell ends. */
  lemma RightOfNext(lo: real, hi: real, cellWidth: real, c: int, k: int)
    requires cellWidth > 0.0 && lo < cellWidth * (c + 1) as real && hi <= lo + cellWidth && k > c + 1
    ensures !Touches(lo, hi, cellWidth, k)
  {
    ScaleLe(cellWidth, (c + 2) as real, k as real);
    NextBoundary(cellWidth, c + 1);
  }

  /** The bounding square of p: [pos.x - radius, pos.x + radius] by
      [pos.y - radius, pos.y + radius]. The fixed grid needs it inside the
      grid's lower-left quadrant and no wider than a cell, which the cell width
      of twice the largest radius guarantees. */
  predicate FitsCell(p: Particle, cellWidth: real)
  {
    0.0 <= p.radius && 2.0 * p.radius <= cellWidth &&
    0.0 <= p.pos.x - p.radius && 0.0 <= p.pos.y - p.radius
  }

  /** The placement's columns are the axis rule applied to the bounding
      square's horizontal extent. */
  lemma PlacedColumn(p: Particle, cellWidth: real, cellCountX: nat, x: int)
    requires cellWidth > 0.0
    ensures (x == MinCornerX(p, cellWidth) || (x == MinCornerX(p, cellWidth) + 1 && InEast(p, cellWidth, cellCountX))) <==>
      AxisPlaced(p.pos.x - p.radius, p.pos.x + p.radius, cellWidth, cellCountX, x)
  {
  }

  /** The placement's rows are the axis rule applied to the bounding square's
      vertical extent. */
  lemma PlacedRow(p: Particle, cellWidth: real, cellCountY: nat, y: int)
    requires cellWidth > 0.0
    ensures (y == MinCornerY(p, cellWidth) || (y == MinCornerY(p, cellWidth) + 1 && InNorth(p, cellWidth, cellCountY))) <==>
      AxisPlaced(p.pos.y - p.radius, p.pos.y + p.radius, cellWidth, cellCountY, y)
  {
  }

  /** A particle whose bounding square fits a cell is placed in exactly the grid
      cells its bounding square touches. */
  lemma PlacementCoverage(p: Particle, cellWidth: real, cellCountX: nat, cellCountY: nat, x: int, y: int)
    requires CornerInGrid(p, cellWidth, cellCountX, cellCountY) && FitsCell(p, cellWidth)
    requires 0 <= x < cellCountX && 0 <= y < cellCountY
    ensures CellIndex(cellCountX, x, y) in Placement(p, cellWidth, cellCountX, cellCountY) <==>
      Touches(p.pos.x - p.radius, p.pos.x + p.radius, cellWidth, x) &&
      Touches(p.pos.y - p.radius, p.pos.y + p.radius, cellWidth, y)
  {
    PlacementCells(p, cellWidth, cellCountX, cellCountY, x, y);
    PlacedColumn(p, cellWidth, cellCountX, x);
    PlacedRow(p, cellWidth, cellCountY, y);
    AxisCoverage(p.pos.x - p.radius, p.pos.x + p.radius, cellWidth, cellCountX, x);
    AxisCoverage(p.pos.y - p.radius, p.pos.y + p.radius, cellWidth, cellCountY, y);
  }

  /** Two bounding squares that meet (closed squares: touching counts). */
  predicate SquaresMeet(p: Particle, q: Particle)
  {
    p.pos.x - p.radius <= q.pos.x + q.radius && q.pos.x - q.radius <= p.pos.x + p.radius &&
    p.pos.y - p.radius <= q.pos.y + q.radius && q.pos.y - q.radius <= p.pos.y + p.radius
  }

  /** Two circles that overlap or touch have meeting bounding squares. */
  lemma CirclesMeetSquaresMeet(p: Particle, q: Particle)
    requires 0.0 <= p.radius && 0.0 <= q.radius
    requires var dx, dy, s := p.pos.x - q.pos.x, p.pos.y - q.pos.y, p.radius + q.radius;
      dx * dx + dy * dy <= s * s
    ensures SquaresMeet(p, q)
  {
    var dx, dy, s := p.pos.x - q.pos.x, p.pos.y - q.pos.y, p.radius + q.radius;
    SquareBound(dx, s, dy);
    SquareBound(dy, s, dx);
  }

  lemma SquareBound(d: real, s: real, e: real)
    requires 0.0 <= s && d * d + e * e <= s * s
    ensures -s <= d <= s
  {
    assert e * e >= 0.0;
    if d > s {
      ScaleLt(d + s, 0.0, d - s);
    } else if d < -s {
      ScaleLt(s - d, 0.0, -s - d);
    }
  }

  /** Along one axis: the corner column of the extent that starts further up is
      also placed for the other extent, when the two extents meet. */
  lemma AxisShared(lo1: real, hi1: real, lo2: real, hi2: real, cellWidth: real, count: int)
    requires cellWidth > 0.0
    requires 0.0 <= lo1 <= hi1 <= lo1 + cellWidth && 0.0 <= lo2 <= hi2 <= lo2 + cellWidth
    requires lo2 <= lo1 <= hi2 && 0 <= Trunc(lo1 / cellWidth) < count
    ensures AxisPlaced(lo2, hi2, cellWidth, count, Trunc(lo1 / cellWidth))
  {
    var k := Trunc(lo1 / cellWidth);
    CornerColumn(lo1, cellWidth);
    AxisCoverage(lo2, hi2, cellWidth, count, k);
    assert Touches(lo2, hi2, cellWidth, k);
  }

  /** The broad phase misses no pair: two particles whose bounding squares meet
      (and fit cells) are both placed in one common cell, the cell holding the
      corner where the two squares' lower-left extents meet. */
  lemma SharedCell(p: Particle, q: Particle, cellWidth: real, cellCountX: nat, cellCountY: nat)
    requires CornerInGrid(p, cellWidth, cellCountX, cellCountY) && FitsCell(p, cellWidth)
    requires CornerInGrid(q, cellWidth, cellCountX, cellCountY) && FitsCell(q, cellWidth)
    requires SquaresMeet(p, q)
    ensures exists c :: c in Placement(p, cellWidth, cellCountX, cellCountY) && c in Placement(q, cellWidth, cellCountX, cellCountY)
  {
    var pxl, pxh, qxl, qxh := p.pos.x - p.radius, p.pos.x + p.radius, q.pos.x - q.radius, q.pos.x + q.radius;
    var pyl, pyh, qyl, qyh := p.pos.y - p.radius, p.pos.y + p.radius, q.pos.y - q.radius, q.pos.y + q.radius;
    var x, y;
    if pxl >= qxl {
      x := MinCornerX(p, cellWidth);
      AxisShared(pxl, pxh, qxl, qxh, cellWidth, cellCountX);
    } else {
      x := MinCornerX(q, cellWidth);
      AxisShared(qxl, qxh, pxl, pxh, cellWidth, cellCountX);
    }
    if pyl >= qyl {
      y := MinCornerY(p, cellWidth);
      AxisShared(pyl, pyh, qyl, qyh, cellWidth, cellCountY);
    } else {
      y := MinCornerY(q, cellWidth);
      AxisShared(qyl, qyh, pyl, pyh, cellWidth, cellCountY);
    }
    PlacedColumn(p, cellWidth, cellCountX, x);
    PlacedColumn(q, cellWidth, cellCountX, x);
    PlacedRow(p, cellWidth, cellCountY, y);
    PlacedRow(q, cellWidth, cellCountY, y);
    PlacementCells(p, cellWidth, cellCountX, cellCountY, x, y);
    PlacementCells(q, cellWidth, cellCountX, cellCountY, x, y);
    assert CellIndex(cellCountX, x, y) in Placement(q, cellWidth, cellCountX, cellCountY);
  }
}
