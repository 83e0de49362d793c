/** The pair enumeration shared by the brute-force solver and the fixed-grid
    sweep: for a list of particle indices (one grid cell, or all particles),
    every pair of positions p1 < p2, outer position first, each pair given as
    the two particle indices stored at those positions. */
module PairSweep {

  /** The pairs (cell[i], cell[j]), (cell[i], cell[j + 1]), ... up to the end of
      the cell: one pass of the inner loop. */
  function RowPairs(cell: seq<int>, i: nat, j: nat): (r: seq<(int, int)>)
    requires i < |cell|
    ensures |r| == if j < |cell| then |cell| - j else 0
    decreases |cell| - j
  {
    if j >= |cell| then [] else [(cell[i], cell[j])] + RowPairs(cell, i, j + 1)
  }

  /** The pairs produced by the outer loop from position i on. */
  function PairsFrom(cell: seq<int>, i: nat): seq<(int, int)>
    decreases |cell| - i
  {
    if i >= |cell| then [] else RowPairs(cell, i, i + 1) + PairsFrom(cell, i + 1)
  }

  /** Every pair of positions of the cell, in the order the nested loops visit
      them. */
  function CellPairs(cell: seq<int>): seq<(int, int)>
  {
    PairsFrom(cell, 0)
  }

  /** The particle indices 0 .. n - 1, in order. */
  function Indices(n: nat): (r: seq<int>)
    ensures |r| == n && forall i :: 0 <= i < n ==> r[i] == i
  {
    seq(n, i => i)
  }

  /** The pairs of positions p1 < p2 < m themselves. */
  function PositionPairs(m: nat): seq<(int, int)>
  {
    CellPairs(Indices(m))
  }

  /** Strict lexicographic order on pairs. */
  predicate LexLess(a: (int, int), b: (int, int))
  {
    a.0 < b.0 || (a.0 == b.0 && a.1 < b.1)
  }

  predicate StrictlyIncreasing(s: seq<(int, int)>)
  {
    forall k1, k2 :: 0 <= k1 < k2 < |s| ==> LexLess(s[k1], s[k2])
  }

  predicate Increasing(cell: seq<int>)
  {
    forall k1, k2 :: 0 <= k1 < k2 < |cell| ==> cell[k1] < cell[k2]
  }

  // ---------------------------------------------------------------------------
  // Positions

  lemma {:induction false} RowPositions(m: nat, i: nat, j: nat)
    requires i < m
    ensures forall k :: 0 <= k < |RowPairs(Indices(m), i, j)| ==>
      RowPairs(Indices(m), i, j)[k] == (i, j + k)
    decreases m - j
  {
    if j < m {
      RowPositions(m, i, j + 1);
    }
  }

  lemma {:induction false} PairsFromBounds(m: nat, i: nat)
    ensures forall k :: 0 <= k < |PairsFrom(Indices(m), i)| ==>
      i <= PairsFrom(Indices(m), i)[k].0 < PairsFrom(Indices(m), i)[k].1 < m
    decreases m - i
  {
    if i < m {
      RowPositions(m, i, i + 1);
      PairsFromBounds(m, i + 1);
    }
  }

  /** A pair of positions is enumerated if and only if p1 < p2 < m. */
  lemma {:induction false} PairsFromMember(m: nat, i: nat, a: int, b: int)
    ensures (a, b) in PairsFrom(Indices(m), i) <==> i <= a < b < m
    decreases m - i
  {
    if i < m {
      var row, rest := RowPairs(Indices(m), i, i + 1), PairsFrom(Indices(m), i + 1);
      RowPositions(m, i, i + 1);
      PairsFromMember(m, i + 1, a, b);
      if a == i && i < b < m {
        assert row[b - i - 1] == (a, b);
      }
    }
  }

  /** Every pair of positions p1 < p2 < m is enumerated, and nothing else. */
  lemma PositionPairsMember(m: nat, a: int, b: int)
    ensures (a, b) in PositionPairs(m) <==> 0 <= a < b < m
  {
    PairsFromMember(m, 0, a, b);
  }

  /** The enumeration is strictly increasing in lexicographic order, so each
      pair of positions is visited exactly once, outer position first. */
  lemma {:induction false} PairsFromIncreasing(m: nat, i: nat)
    ensures StrictlyIncreasing(PairsFrom(Indices(m), i))
    decreases m - i
  {
    if i < m {
      var row, rest := RowPairs(Indices(m), i, i + 1), PairsFrom(Indices(m), i + 1);
      RowPositions(m, i, i + 1);
      PairsFromBounds(m, i + 1);
      PairsFromIncreasing(m, i + 1);
      forall k1, k2 | 0 <= k1 < k2 < |row + rest|
        ensures LexLess((row + rest)[k1], (row + rest)[k2])
      {
        if k2 < |row| {
        } else if k1 < |row| {
          assert (row + rest)[k2] == rest[k2 - |row|];
        } else {
          assert (row + rest)[k1] == rest[k1 - |row|];
          assert (row + rest)[k2] == rest[k2 - |row|];
        }
      }
    }
  }

  lemma PositionPairsIncreasing(m: nat)
    ensures StrictlyIncreasing(PositionPairs(m))
  {
    PairsFromIncreasing(m, 0);
  }

  /** There are m (m - 1) / 2 pairs of positions. */
  lemma {:induction false} PairsFromCount(m: nat, i: nat)
    requires i <= m
    ensures 2 * |PairsFrom(Indices(m), i)| == (m - i) * (m - i - 1)
    decreases m - i
  {
    if i < m {
      PairsFromCount(m, i + 1);
    }
  }

  lemma PositionPairsCount(m: nat)
    ensures |PositionPairs(m)| == m * (m - 1) / 2
  {
    PairsFromCount(m, 0);
  }

  // ---------------------------------------------------------------------------
  // From positions to particle indices

  lemma {:induction false} RowThroughPositions(cell: seq<int>, i: nat, j: nat)
    requires i < |cell|
    ensures |RowPairs(cell, i, j)| == |RowPairs(Indices(|cell|), i, j)|
    ensures forall k :: 0 <= k < |RowPairs(cell, i, j)| ==>
      RowPairs(cell, i, j)[k] == (cell[i], cell[j + k])
    decreases |cell| - j
  {
    if j < |cell| {
      RowThroughPositions(cell, i, j + 1);
    }
  }

  lemma {:induction false} PairsFromThroughPositions(cell: seq<int>, i: nat)
    ensures |PairsFrom(cell, i)| == |PairsFrom(Indices(|cell|), i)|
    ensures forall k :: 0 <= k < |PairsFrom(cell, i)| ==>
      0 <= PairsFrom(Indices(|cell|), i)[k].0 < PairsFrom(Indices(|cell|), i)[k].1 < |cell| &&
      PairsFrom(cell, i)[k] == (cell[PairsFrom(Indices(|cell|), i)[k].0], cell[PairsFrom(Indices(|cell|), i)[k].1])
    decreases |cell| - i
  {
    var m := |cell|;
    if i < m {
      RowThroughPositions(cell, i, i + 1);
      RowPositions(m, i, i + 1);
      PairsFromThroughPositions(cell, i + 1);
      PairsFromBounds(m, i);
      var row, rest := RowPairs(cell, i, i + 1), PairsFrom(cell, i + 1);
      var prow: seq<(int, int)>, prest: seq<(int, int)> := RowPairs(Indices(m), i, i + 1), PairsFrom(Indices(m), i + 1);
      forall k | 0 <= k < |row + rest|
        ensures (row + rest)[k] == (cell[(prow + prest)[k].0], cell[(prow + prest)[k].1])
      {
        if k >= |row| {
          assert (row + rest)[k] == rest[k - |row|];
          assert (prow + prest)[k] == prest[k - |row|];
        }
      }
    }
  }

  /** The k-th pair the sweep of a cell produces is the pair of particle indices
      stored at the k-th pair of positions. */
  lemma CellPairsThroughPositions(cell: seq<int>)
    ensures |CellPairs(cell)| == |PositionPairs(|cell|)|
    ensures forall k :: 0 <= k < |CellPairs(cell)| ==>
      0 <= PositionPairs(|cell|)[k].0 < PositionPairs(|cell|)[k].1 < |cell| &&
      CellPairs(cell)[k] == (cell[PositionPairs(|cell|)[k].0], cell[PositionPairs(|cell|)[k].1])
  {
    PairsFromThroughPositions(cell, 0);
  }

  /** A cell whose particle indices increase yields only pairs (a, b) with
      a < b, so the collision routine is never asked to collide a particle with
      itself. */
  lemma IncreasingCellPairs(cell: seq<int>)
    requires Increasing(cell)
    ensures forall k :: 0 <= k < |CellPairs(cell)| ==> CellPairs(cell)[k].0 < CellPairs(cell)[k].1
  {
    CellPairsThroughPositions(cell);
  }

  /** In a cell whose particle indices increase, any two of them i < j are
      collided, as the pair (i, j). */
  lemma IncreasingCellHasPair(cell: seq<int>, i: int, j: int)
    requires Increasing(cell) && i in cell && j in cell && i < j
    ensures (i, j) in CellPairs(cell)
  {
    var a :| 0 <= a < |cell| && cell[a] == i;
    var b :| 0 <= b < |cell| && cell[b] == j;
    PositionPairsMember(|cell|, a, b);
    var k :| 0 <= k < |PositionPairs(|cell|)| && PositionPairs(|cell|)[k] == (a, b);
    CellPairsThroughPositions(cell);
    assert CellPairs(cell)[k] == (i, j);
  }
}
