/** The counting-sort spatial hash of PhysicSolver::solveParticleCollisionsSpatialHash.
    Every particle has one cell index (its centre's cell, already combined as
    cell_y * cell_count_x + cell_x); three passes over integer arrays group the
    particle indices by cell and leave a per-cell offset table with one sentinel
    slot at the end.

    Counting functions take a prefix length n: they speak of the first n
    particles, which is what the passes have seen after n iterations. */
module SpatialHash {

  /** Every particle's cell index lies in [0, cellCount). */
  predicate InRange(cells: seq<int>, cellCount: int)
  {
    forall i :: 0 <= i < |cells| ==> 0 <= cells[i] < cellCount
  }

  /** Number of particles among the first n whose cell index is h. */
  function Occupancy(cells: seq<int>, n: nat, h: int): (r: nat)
    requires n <= |cells|
    ensures r <= n
  {
    if n == 0 then 0 else Occupancy(cells, n - 1, h) + (if cells[n - 1] == h then 1 else 0)
  }

  /** Number of particles among the first n whose cell index is below h. */
  function CountBelow(cells: seq<int>, n: nat, h: int): (r: nat)
    requires n <= |cells|
    ensures r <= n
  {
    if n == 0 then 0 else CountBelow(cells, n - 1, h) + (if cells[n - 1] < h then 1 else 0)
  }

  /** The particles among the first n whose cell index is h, latest first: the
      order in which the scatter pass leaves them in the cell's slice. */
  function CellMembers(cells: seq<int>, n: nat, h: int): (r: seq<int>)
    requires n <= |cells|
    ensures |r| == Occupancy(cells, n, h)
  {
    if n == 0 then []
    else if cells[n - 1] == h then [n - 1] + CellMembers(cells, n - 1, h)
    else CellMembers(cells, n - 1, h)
  }

  /** The slot that the scatter pass gives particle i: the start of its cell's
      slice plus the number of later particles in the same cell. */
  function Slot(cells: seq<int>, i: nat): int
    requires i < |cells|
  {
    CountBelow(cells, |cells|, cells[i]) + Occupancy(cells, |cells|, cells[i]) - Occupancy(cells, i + 1, cells[i])
  }

  /** Sum of the first k counters of s. */
  function Sum(s: seq<int>, k: nat): int
    requires k <= |s|
  {
    if k == 0 then 0 else Sum(s, k - 1) + s[k - 1]
  }

  // ---------------------------------------------------------------------------
  // Facts about the counting functions

  /** Counting below h + 1 counts below h and the particles of cell h. */
  lemma {:induction false} CountBelowStep(cells: seq<int>, n: nat, h: int)
    requires n <= |cells|
    ensures CountBelow(cells, n, h + 1) == CountBelow(cells, n, h) + Occupancy(cells, n, h)
  {
    if n > 0 {
      CountBelowStep(cells, n - 1, h);
    }
  }

  /** More particles lie below a higher cell index. */
  lemma {:induction false} CountBelowMonotone(cells: seq<int>, n: nat, h1: int, h2: int)
    requires n <= |cells| && h1 <= h2
    ensures CountBelow(cells, n, h1) <= CountBelow(cells, n, h2)
  {
    if n > 0 {
      CountBelowMonotone(cells, n - 1, h1, h2);
    }
  }

  /** With every index in [0, cellCount), nothing lies below cell 0 and every
      particle lies below cellCount. */
  lemma {:induction false} CountBelowBounds(cells: seq<int>, n: nat, cellCount: int)
    requires n <= |cells| && InRange(cells, cellCount)
    ensures CountBelow(cells, n, 0) == 0
    ensures CountBelow(cells, n, cellCount) == n
  {
    if n > 0 {
      CountBelowBounds(cells, n - 1, cellCount);
    }
  }

  /** No particle has a cell index outside [0, cellCount): the sentinel cell is empty. */
  lemma {:induction false} OccupancyOutside(cells: seq<int>, n: nat, cellCount: int, h: int)
    requires n <= |cells| && InRange(cells, cellCount)
    requires h < 0 || cellCount <= h
    ensures Occupancy(cells, n, h) == 0
  {
    if n > 0 {
      OccupancyOutside(cells, n - 1, cellCount, h);
    }
  }

  /** More particles seen means no fewer particles in any cell. */
  lemma {:induction false} OccupancyMonotone(cells: seq<int>, m: nat, n: nat, h: int)
    requires m <= n <= |cells|
    ensures Occupancy(cells, m, h) <= Occupancy(cells, n, h)
  {
    if m < n {
      OccupancyMonotone(cells, m, n - 1, h);
    }
  }

  /** Every member of cell h is one of the first n particles and lies in cell h;
      the members appear in strictly decreasing index order. */
  lemma {:induction false} CellMembersDecreasing(cells: seq<int>, n: nat, h: int)
    requires n <= |cells|
    ensures forall k :: 0 <= k < |CellMembers(cells, n, h)| ==>
      0 <= CellMembers(cells, n, h)[k] < n && cells[CellMembers(cells, n, h)[k]] == h
    ensures forall k1, k2 :: 0 <= k1 < k2 < |CellMembers(cells, n, h)| ==>
      CellMembers(cells, n, h)[k1] > CellMembers(cells, n, h)[k2]
  {
    if n > 0 {
      CellMembersDecreasing(cells, n - 1, h);
    }
  }

  /** A particle is a member of cell h exactly when its cell index is h. */
  lemma {:induction false} CellMembersComplete(cells: seq<int>, n: nat, h: int, i: int)
    requires n <= |cells|
    ensures i in CellMembers(cells, n, h) <==> 0 <= i < n && cells[i] == h
  {
    if n > 0 {
      CellMembersComplete(cells, n - 1, h, i);
    }
  }

  /** Particle i of cell h stands in CellMembers behind exactly the later
      particles of cell h. */
  lemma {:induction false} CellMembersAt(cells: seq<int>, n: nat, i: nat)
    requires i < n <= |cells|
    ensures Occupancy(cells, i + 1, cells[i]) <= Occupancy(cells, n, cells[i])
    ensures CellMembers(cells, n, cells[i])[Occupancy(cells, n, cells[i]) - Occupancy(cells, i + 1, cells[i])] == i
  {
    if i < n - 1 {
      CellMembersAt(cells, n - 1, i);
    }
  }

  /** Conversely, the k-th member of cell h has exactly k later particles in cell h. */
  lemma {:induction false} CellMembersPosition(cells: seq<int>, n: nat, h: int, k: nat)
    requires n <= |cells| && k < Occupancy(cells, n, h)
    ensures 0 <= CellMembers(cells, n, h)[k] < n
    ensures cells[CellMembers(cells, n, h)[k]] == h
    ensures Occupancy(cells, n, h) - Occupancy(cells, CellMembers(cells, n, h)[k] + 1, h) == k
  {
    if cells[n - 1] != h {
      CellMembersPosition(cells, n - 1, h, k);
    } else if k > 0 {
      CellMembersPosition(cells, n - 1, h, k - 1);
    }
  }

  /** The counters produced by the count pass add up, cell by cell, to the
      number of particles below each cell. */
  lemma {:induction false} SumOfOccupancies(cells: seq<int>, s: seq<int>, k: nat, cellCount: int)
    requires InRange(cells, cellCount)
    requires k <= |s|
    requires forall h :: 0 <= h < |s| ==> s[h] == Occupancy(cells, |cells|, h)
    ensures Sum(s, k) == CountBelow(cells, |cells|, k)
  {
    if k == 0 {
      CountBelowBounds(cells, |cells|, cellCount);
    } else {
      SumOfOccupancies(cells, s, k - 1, cellCount);
      CountBelowStep(cells, |cells|, k - 1);
    }
  }

  /** The cell whose slice holds slot s: the first h at or after `from` whose
      slice ends beyond s. */
  function CellOfSlot(cells: seq<int>, cellCount: int, s: int, from: int): (h: int)
    requires 0 <= from <= cellCount && InRange(cells, cellCount)
    requires CountBelow(cells, |cells|, from) <= s < |cells|
    ensures from <= h < cellCount
    ensures CountBelow(cells, |cells|, h) <= s < CountBelow(cells, |cells|, h + 1)
    decreases cellCount - from
  {
    CountBelowBounds(cells, |cells|, cellCount);
    if s < CountBelow(cells, |cells|, from + 1) then from
    else CellOfSlot(cells, cellCount, s, from + 1)
  }

  // ---------------------------------------------------------------------------
  // Slots

  /** Particle i's slot lies inside its cell's slice
      [CountBelow(cells[i]), CountBelow(cells[i] + 1)). */
  lemma SlotInSlice(cells: seq<int>, i: nat)
    requires i < |cells|
    ensures CountBelow(cells, |cells|, cells[i]) <= Slot(cells, i) < CountBelow(cells, |cells|, cells[i] + 1)
  {
    OccupancyMonotone(cells, i + 1, |cells|, cells[i]);
    CountBelowStep(cells, |cells|, cells[i]);
  }

  /** Two different particles never share a slot: within a cell, the earlier
      particle has more later particles beside it; across cells, the slices
      are disjoint. */
  lemma SlotInjective(cells: seq<int>, i: nat, j: nat)
    requires i < j < |cells|
    ensures Slot(cells, i) != Slot(cells, j)
  {
    var hi, hj := cells[i], cells[j];
    if hi == hj {
      OccupancyMonotone(cells, i + 1, j, hi);
    } else {
      SlotInSlice(cells, i);
      SlotInSlice(cells, j);
      if hi < hj {
        CountBelowMonotone(cells, |cells|, hi + 1, hj);
      } else {
        CountBelowMonotone(cells, |cells|, hj + 1, hi);
      }
    }
  }

  /** The k-th member of cell h, latest first, has slot CountBelow(h) + k. */
  lemma SlotOfMember(cells: seq<int>, h: int, k: nat)
    requires k < Occupancy(cells, |cells|, h)
    ensures 0 <= CellMembers(cells, |cells|, h)[k] < |cells|
    ensures Slot(cells, CellMembers(cells, |cells|, h)[k]) == CountBelow(cells, |cells|, h) + k
  {
    CellMembersPosition(cells, |cells|, h, k);
  }

  // ---------------------------------------------------------------------------
  // The finished grouping

  /** The offset table and grouped array the spatial hash must produce: offset
      h is the number of particles below cell h (so the sentinel holds the
      particle count), and every particle i sits at its slot Slot(i). */
  ghost predicate IsGrouping(cells: seq<int>, offs: seq<int>, g: seq<int>)
  {
    |offs| >= 1 && |g| == |cells| && InRange(cells, |offs| - 1) &&
    (forall h :: 0 <= h < |offs| ==> offs[h] == CountBelow(cells, |cells|, h)) &&
    forall i :: 0 <= i < |cells| ==> 0 <= Slot(cells, i) < |g| && g[Slot(cells, i)] == i
  }

  /** A grouping is a permutation of the particle indices 0 .. n - 1 whose
      inverse is Slot: every particle i sits at Slot(i), and every slot k holds
      a particle index whose slot is k. */
  lemma GroupingIsPermutation(cells: seq<int>, offs: seq<int>, g: seq<int>)
    requires IsGrouping(cells, offs, g)
    ensures forall k :: 0 <= k < |g| ==> 0 <= g[k] < |cells| && Slot(cells, g[k]) == k
  {
    var n, cellCount := |cells|, |offs| - 1;
    CountBelowBounds(cells, n, cellCount);
    forall k | 0 <= k < n
      ensures 0 <= g[k] < n && Slot(cells, g[k]) == k
    {
      var h := CellOfSlot(cells, cellCount, k, 0);
      CountBelowStep(cells, n, h);
      SlotOfMember(cells, h, k - CountBelow(cells, n, h));
    }
  }

  /** Cell h's slice of a grouping, from offset offs[h] to offs[h + 1], holds
      exactly the particles of cell h, latest first, so its particle indices
      strictly decrease. */
  lemma GroupingSlice(cells: seq<int>, offs: seq<int>, g: seq<int>, h: int)
    requires IsGrouping(cells, offs, g) && 0 <= h < |offs| - 1
    ensures 0 <= offs[h] <= offs[h + 1] <= |g|
    ensures g[offs[h]..offs[h + 1]] == CellMembers(cells, |cells|, h)
    ensures forall k1, k2 :: offs[h] <= k1 < k2 < offs[h + 1] ==> g[k1] > g[k2]
  {
    var n := |cells|;
    CountBelowStep(cells, n, h);
    CountBelowMonotone(cells, n, 0, h);
    CellMembersDecreasing(cells, n, h);
    forall k | 0 <= k < Occupancy(cells, n, h)
      ensures g[offs[h] + k] == CellMembers(cells, n, h)[k]
    {
      SlotOfMember(cells, h, k);
    }
  }

  // ---------------------------------------------------------------------------
  // The three passes

  /** Count pass: counts[h] becomes the number of particles in cell h; the
      sentinel slot, which no particle maps to, stays 0. */
  method CountPass(cells: seq<int>, counts: array<int>)
    requires counts.Length >= 1 && InRange(cells, counts.Length - 1)
    requires forall h :: 0 <= h < counts.Length ==> counts[h] == 0
    modifies counts
    ensures forall h :: 0 <= h < counts.Length ==> counts[h] == Occupancy(cells, |cells|, h)
    ensures counts[counts.Length - 1] == 0
  {
    for p := 0 to |cells|
      invariant forall h :: 0 <= h < counts.Length ==> counts[h] == Occupancy(cells, p, h)
    {
      counts[cells[p]] := counts[cells[p]] + 1;
    }
    OccupancyOutside(cells, |cells|, counts.Length - 1, counts.Length - 1);
  }

  /** Prefix-sum pass: every counter becomes the sum of itself and all counters
      before it. */
  method PrefixSumPass(a: array<int>)
    requires a.Length >= 1
    modifies a
    ensures forall k :: 0 <= k < a.Length ==> a[k] == Sum(old(a[..]), k + 1)
  {
    ghost var s := a[..];
    var i := 1;
    while i < a.Length
      invariant 1 <= i <= a.Length
      invariant forall k :: 0 <= k < i ==> a[k] == Sum(s, k + 1)
      invariant forall k :: i <= k < a.Length ==> a[k] == s[k]
    {
      a[i] := a[i] + a[i - 1];
      i := i + 1;
    }
  }

  /** The state of the scatter pass once the first p particles are placed: each
      cell's running offset has moved down from the end of the cell's slice by
      the number of its particles placed so far, the sentinel offset stays at
      the particle count, and every placed particle sits at its slot. */
  ghost predicate Scattered(cells: seq<int>, p: nat, offs: seq<int>, g: seq<int>)
    requires p <= |cells|
  {
    |offs| >= 1 && |g| == |cells| &&
    (forall h :: 0 <= h < |offs| - 1 ==> offs[h] == CountBelow(cells, |cells|, h + 1) - Occupancy(cells, p, h)) &&
    offs[|offs| - 1] == |cells| &&
    forall i :: 0 <= i < p ==> 0 <= Slot(cells, i) < |g| && g[Slot(cells, i)] == i
  }

  /** Placing particle p keeps the scatter state: one below its cell's running
      offset is its own slot, which no earlier particle holds. */
  lemma ScatterStep(cells: seq<int>, p: nat, offs: seq<int>, g: seq<int>)
    requires p < |cells| && |offs| >= 1 && InRange(cells, |offs| - 1)
    requires Scattered(cells, p, offs, g)
    ensures offs[cells[p]] - 1 == Slot(cells, p)
    ensures 0 <= Slot(cells, p) < |g|
    ensures Scattered(cells, p + 1, offs[cells[p] := offs[cells[p]] - 1], g[Slot(cells, p) := p])
  {
    var h := cells[p];
    SlotInSlice(cells, p);
    CountBelowStep(cells, |cells|, h);
    CountBelowBounds(cells, |cells|, |offs| - 1);
    CountBelowMonotone(cells, |cells|, h + 1, |offs| - 1);
    forall i | 0 <= i < p
      ensures Slot(cells, i) != Slot(cells, p)
    {
      SlotInjective(cells, i, p);
    }
  }

  /** After the last particle the scatter state is a grouping. */
  lemma ScatterDone(cells: seq<int>, offs: seq<int>, g: seq<int>)
    requires |offs| >= 1 && InRange(cells, |offs| - 1)
    requires Scattered(cells, |cells|, offs, g)
    ensures IsGrouping(cells, offs, g)
  {
    var cellCount := |offs| - 1;
    CountBelowBounds(cells, |cells|, cellCount);
    forall h | 0 <= h < cellCount
      ensures offs[h] == CountBelow(cells, |cells|, h)
    {
      CountBelowStep(cells, |cells|, h);
    }
  }

  /** Scatter pass: each particle, lowest index first, decrements its cell's
      running offset and is written at the new offset. Starting from the
      inclusive prefix sums, it leaves a grouping. */
  method ScatterPass(cells: seq<int>, offsets: array<int>, grouped: array<int>)
    requires offsets != grouped
    requires offsets.Length >= 1 && InRange(cells, offsets.Length - 1)
    requires grouped.Length == |cells|
    requires forall h :: 0 <= h < offsets.Length ==> offsets[h] == CountBelow(cells, |cells|, h + 1)
    modifies offsets, grouped
    ensures IsGrouping(cells, offsets[..], grouped[..])
  {
    ghost var cellCount := offsets.Length - 1;
    CountBelowBounds(cells, |cells|, cellCount);
    CountBelowMonotone(cells, |cells|, cellCount, cellCount + 1);
    for p := 0 to |cells|
      invariant Scattered(cells, p, offsets[..], grouped[..])
    {
      ghost var offs, g := offsets[..], grouped[..];
      ScatterStep(cells, p, offs, g);
      var h := cells[p];
      offsets[h] := offsets[h] - 1;
      grouped[offsets[h]] := p;
      assert offsets[..] == offs[h := offs[h] - 1];
      assert grouped[..] == g[Slot(cells, p) := p];
    }
    ScatterDone(cells, offsets[..], grouped[..]);
  }

  /** The spatial hash of PhysicSolver::solveParticleCollisionsSpatialHash: from
      the cell index of every particle, an offset table of cellCount + 1 entries
      and the grouped particle indices. */
  method BuildSpatialHash(cells: seq<int>, cellCount: nat) returns (offsets: array<int>, grouped: array<int>)
    requires InRange(cells, cellCount)
    ensures fresh(offsets) && fresh(grouped)
    ensures offsets.Length == cellCount + 1 && grouped.Length == |cells|
    ensures IsGrouping(cells, offsets[..], grouped[..])
    ensures offsets[0] == 0 && offsets[cellCount] == |cells|
  {
    offsets := new int[cellCount + 1](_ => 0);
    grouped := new int[|cells|](_ => 0);
    CountPass(cells, offsets);
    ghost var counted := offsets[..];
    PrefixSumPass(offsets);
    forall h | 0 <= h < offsets.Length
      ensures offsets[h] == CountBelow(cells, |cells|, h + 1)
    {
      SumOfOccupancies(cells, counted, h + 1, cellCount);
    }
    ScatterPass(cells, offsets, grouped);
    CountBelowBounds(cells, |cells|, cellCount);
  }
}
