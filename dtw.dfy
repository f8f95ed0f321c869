/** Dynamic time warping over a fixed-capacity scratch cost matrix (src/app/dtw.hpp).
  *
  * The distance between two sequence elements is pluggable in the firmware
  * (`dtw::distanceMetric`, specialised per element type); here it is the
  * parameter `dist`, an arbitrary function into the naturals.  Costs are kept
  * as naturals, and the preconditions keep every accumulated cost below 2^32,
  * the range of the firmware's `uint32_t` accumulator.
  */
module DynamicTimeWarping {
  import Arithmetic

  const U32: nat := 0x1_0000_0000

  function Min(x: nat, y: nat): (m: nat)
    ensures m <= x && m <= y && (m == x || m == y)
  {
    if x <= y then x else y
  }

  /** The cumulative cost of aligning a[..i+1] with b[..j+1], as the matcher
    * intends it: cell (0, 0) is its own distance, the first column and the
    * first row are running sums of distances (the edge loops, with the one
    * read before cell (0, 0) taken as 0), and only a cell with i >= 1 and
    * j >= 1 adds its own distance to the cheapest of the cells below, left
    * and below-left of it.  No other cell outside the matrix is read. */
  function Cost<T>(a: seq<T>, b: seq<T>, dist: (T, T) -> nat, i: nat, j: nat): nat
    requires i < |a| && j < |b|
    decreases i + j
  {
    var d := dist(a[i], b[j]);
    if i == 0 && j == 0 then d
    else if j == 0 then Cost(a, b, dist, i - 1, 0) + d
    else if i == 0 then Cost(a, b, dist, 0, j - 1) + d
    else Min(Cost(a, b, dist, i - 1, j - 1), Min(Cost(a, b, dist, i - 1, j), Cost(a, b, dist, i, j - 1))) + d
  }

  /** No cell of the |a| x |b| cost matrix leaves the range of a uint32_t. */
  ghost predicate NoOverflow<T>(a: seq<T>, b: seq<T>, dist: (T, T) -> nat) {
    forall i, j :: 0 <= i < |a| && 0 <= j < |b| ==> Cost(a, b, dist, i, j) < U32
  }

  /** Integer division of an accumulated cost by the summed sequence lengths. */
  function Normalise(cost: nat, lengths: nat): (q: nat)
    requires lengths > 0
    ensures q <= cost
  {
    QuotientIsAtMostDividend(cost, lengths);
    cost / lengths
  }

  lemma QuotientIsAtMostDividend(x: nat, y: nat)
    requires y > 0
    ensures x / y <= x
  {
    var q := x / y;
    assert y * q + x % y == x;
    Arithmetic.MulMonotone(q, 1, y);
  }

  /** The normalised score: the last cell divided by the summed lengths. */
  function Score<T>(a: seq<T>, b: seq<T>, dist: (T, T) -> nat): nat
    requires 1 <= |a| && 1 <= |b|
  {
    Normalise(Cost(a, b, dist, |a| - 1, |b| - 1), |a| + |b|)
  }

  /** The matcher object: its only state is the MaxSize x MaxSize scratch matrix. */
  class Dtw<T> {
    const maxSize: nat
    var costMatrix: array2<nat>

    ghost predicate Valid()
      reads this
    {
      costMatrix.Length0 == maxSize && costMatrix.Length1 == maxSize
    }

    constructor (maxSize: nat)
      ensures Valid() && this.maxSize == maxSize && fresh(costMatrix)
    {
      this.maxSize := maxSize;
      costMatrix := new nat[maxSize, maxSize];
    }

    /** Fills the cells [0, |a|) x [0, |b|) of the scratch matrix and returns
      * the normalised score.  The source's edge loop starts at iA = 0 and reads
      * costMatrix[-1][0], and its interior loops start at 0 and read row and
      * column -1; this model follows the evident intent instead: cell (0, 0)
      * is its own distance, the first column and first row are cumulative,
      * and the min-of-three recurrence applies only for iA > 0 and iB > 0. */
    method Compare(a: seq<T>, b: seq<T>, dist: (T, T) -> nat) returns (r: nat)
      requires Valid()
      requires 1 <= |a| <= maxSize && 1 <= |b| <= maxSize
      requires NoOverflow(a, b, dist)
      modifies costMatrix
      ensures Valid()
      ensures r == Score(a, b, dist) && r < U32
      ensures forall i, j {:trigger costMatrix[i, j]} :: 0 <= i < |a| && 0 <= j < |b| ==> costMatrix[i, j] == Cost(a, b, dist, i, j)
      ensures forall i, j :: 0 <= i < maxSize && 0 <= j < maxSize && !(i < |a| && j < |b|) ==>
                costMatrix[i, j] == old(costMatrix[i, j])
    {
      FillEdges(a, b, dist);
      // Fill in the rest of the cost matrix, row by row.
      for iA := 1 to |a|
        invariant forall i {:trigger costMatrix[i, 0]} :: 0 <= i < |a| ==> costMatrix[i, 0] == Cost(a, b, dist, i, 0)
        invariant forall i, j {:trigger costMatrix[i, j]} :: 0 <= i < iA && 0 <= j < |b| ==> costMatrix[i, j] == Cost(a, b, dist, i, j)
        invariant forall i, j :: 0 <= i < maxSize && 0 <= j < maxSize && !(j == 0 && i < |a|) && !(i < iA && j < |b|) ==>
          costMatrix[i, j] == old(costMatrix[i, j])
      {
        FillRow(a, b, dist, iA);
      }
      r := Normalise(costMatrix[|a| - 1, |b| - 1], |a| + |b|);
      assert Cost(a, b, dist, |a| - 1, |b| - 1) < U32;
    }

    /** The two edge loops of the source: the first column, then the first row. */
    method FillEdges(a: seq<T>, b: seq<T>, dist: (T, T) -> nat)
      requires Valid()
      requires 1 <= |a| <= maxSize && 1 <= |b| <= maxSize
      modifies costMatrix
      ensures forall i {:trigger costMatrix[i, 0]} :: 0 <= i < |a| ==> costMatrix[i, 0] == Cost(a, b, dist, i, 0)
      ensures forall j {:trigger costMatrix[0, j]} :: 0 <= j < |b| ==> costMatrix[0, j] == Cost(a, b, dist, 0, j)
      ensures forall i, j :: 0 <= i < maxSize && 0 <= j < maxSize && !(j == 0 && i < |a|) && !(i == 0 && j < |b|) ==>
        costMatrix[i, j] == old(costMatrix[i, j])
    {
      // Evaluate the edge of the cost matrix: first column ...
      for iA := 0 to |a|
        invariant forall i {:trigger costMatrix[i, 0]} :: 0 <= i < iA ==> costMatrix[i, 0] == Cost(a, b, dist, i, 0)
        invariant forall i, j :: 0 <= i < maxSize && 0 <= j < maxSize && !(j == 0 && i < iA) ==>
          costMatrix[i, j] == old(costMatrix[i, j])
      {
        var above: nat := if iA == 0 then 0 else costMatrix[iA - 1, 0];
        costMatrix[iA, 0] := above + dist(a[iA], b[0]);
      }
      // ... then first row.
      for iB := 1 to |b|
        invariant forall i {:trigger costMatrix[i, 0]} :: 0 <= i < |a| ==> costMatrix[i, 0] == Cost(a, b, dist, i, 0)
        invariant forall j {:trigger costMatrix[0, j]} :: 0 <= j < iB ==> costMatrix[0, j] == Cost(a, b, dist, 0, j)
        invariant forall i, j :: 0 <= i < maxSize && 0 <= j < maxSize && !(j == 0 && i < |a|) && !(i == 0 && j < iB) ==>
          costMatrix[i, j] == old(costMatrix[i, j])
      {
        costMatrix[0, iB] := costMatrix[0, iB - 1] + dist(a[0], b[iB]);
      }
    }

    /** The inner loop of the source for one row iA > 0: every cell takes its
      * own distance plus the cheapest of its three predecessors. */
    method FillRow(a: seq<T>, b: seq<T>, dist: (T, T) -> nat, iA: nat)
      requires Valid()
      requires 1 <= iA < |a| <= maxSize && 1 <= |b| <= maxSize
      requires costMatrix[iA, 0] == Cost(a, b, dist, iA, 0)
      requires forall j {:trigger costMatrix[iA - 1, j]} :: 0 <= j < |b| ==> costMatrix[iA - 1, j] == Cost(a, b, dist, iA - 1, j)
      modifies costMatrix
      ensures forall j {:trigger costMatrix[iA, j]} :: 0 <= j < |b| ==> costMatrix[iA, j] == Cost(a, b, dist, iA, j)
      ensures forall i, j :: 0 <= i < maxSize && 0 <= j < maxSize && !(i == iA && 1 <= j < |b|) ==>
        costMatrix[i, j] == old(costMatrix[i, j])
    {
      for iB := 1 to |b|
        invariant forall j {:trigger costMatrix[iA, j]} :: 0 <= j < iB ==> costMatrix[iA, j] == Cost(a, b, dist, iA, j)
        invariant forall i, j :: 0 <= i < maxSize && 0 <= j < maxSize && !(i == iA && 1 <= j < iB) ==>
          costMatrix[i, j] == old(costMatrix[i, j])
      {
        var below := costMatrix[iA - 1, iB];
        var left := costMatrix[iA, iB - 1];
        var belowLeft := costMatrix[iA - 1, iB - 1];
        var cheapestNeighbor := Min(belowLeft, Min(below, left));
        costMatrix[iA, iB] := cheapestNeighbor + dist(a[iA], b[iB]);
      }
    }
  }

  // ---------------------------------------------------------------------------
  // The edges are running sums of distances.

  /** dist(a[0], b0) + ... + dist(a[i], b0). */
  function ColumnSum<T>(a: seq<T>, b0: T, dist: (T, T) -> nat, i: nat): nat
    requires i < |a|
  {
    (if i == 0 then 0 else ColumnSum(a, b0, dist, i - 1)) + dist(a[i], b0)
  }

  /** dist(a0, b[0]) + ... + dist(a0, b[j]). */
  function RowSum<T>(a0: T, b: seq<T>, dist: (T, T) -> nat, j: nat): nat
    requires j < |b|
  {
    (if j == 0 then 0 else RowSum(a0, b, dist, j - 1)) + dist(a0, b[j])
  }

  lemma {:induction false} FirstColumnIsRunningSum<T>(a: seq<T>, b: seq<T>, dist: (T, T) -> nat, i: nat)
    requires i < |a| && 0 < |b|
    ensures Cost(a, b, dist, i, 0) == ColumnSum(a, b[0], dist, i)
  {
    if i > 0 {
      FirstColumnIsRunningSum(a, b, dist, i - 1);
    }
  }

  lemma {:induction false} FirstRowIsRunningSum<T>(a: seq<T>, b: seq<T>, dist: (T, T) -> nat, j: nat)
    requires 0 < |a| && j < |b|
    ensures Cost(a, b, dist, 0, j) == RowSum(a[0], b, dist, j)
  {
    if j > 0 {
      FirstRowIsRunningSum(a, b, dist, j - 1);
    }
  }

  // ---------------------------------------------------------------------------
  // The cost of a cell is the cheapest warping path to it.

  type Cell = (nat, nat)

  /** One warping step: down, right or diagonal. */
  predicate IsStep(p: Cell, q: Cell) {
    (q.0 == p.0 + 1 && q.1 == p.1) || (q.0 == p.0 && q.1 == p.1 + 1) || (q.0 == p.0 + 1 && q.1 == p.1 + 1)
  }

  /** A path of warping steps from (0, 0) to (i, j) inside an n x m grid. */
  predicate IsWarpingPath(p: seq<Cell>, i: nat, j: nat, n: nat, m: nat) {
    |p| >= 1 && p[0] == (0, 0) && p[|p| - 1] == (i, j) &&
    (forall k :: 0 <= k < |p| ==> p[k].0 < n && p[k].1 < m) &&
    (forall k :: 0 < k < |p| ==> IsStep(p[k - 1], p[k]))
  }

  /** The summed distances of the cells on a path. */
  function PathCost<T>(a: seq<T>, b: seq<T>, dist: (T, T) -> nat, p: seq<Cell>): nat
    requires forall k :: 0 <= k < |p| ==> p[k].0 < |a| && p[k].1 < |b|
  {
    if p == [] then 0
    else PathCost(a, b, dist, p[..|p| - 1]) + dist(a[p[|p| - 1].0], b[p[|p| - 1].1])
  }

  /** No warping path to (i, j) is cheaper than Cost(i, j). */
  lemma {:induction false} CostIsAtMostEveryPath<T>(a: seq<T>, b: seq<T>, dist: (T, T) -> nat, p: seq<Cell>, i: nat, j: nat)
    requires i < |a| && j < |b| && IsWarpingPath(p, i, j, |a|, |b|)
    ensures Cost(a, b, dist, i, j) <= PathCost(a, b, dist, p)
    decreases |p|
  {
    if |p| > 1 {
      var q := p[..|p| - 1];
      var prev := q[|q| - 1];
      assert IsStep(prev, (i, j)) by { assert p[|p| - 2] == prev; }
      assert IsWarpingPath(q, prev.0, prev.1, |a|, |b|) by {
        forall k | 0 < k < |q| ensures IsStep(q[k - 1], q[k]) { assert q[k - 1] == p[k - 1] && q[k] == p[k]; }
      }
      CostIsAtMostEveryPath(a, b, dist, q, prev.0, prev.1);
    } else {
      assert p == [(0, 0)];
    }
  }

  /** The predecessor of a cell other than (0, 0) through which its cost is attained. */
  function CheapestPredecessor<T>(a: seq<T>, b: seq<T>, dist: (T, T) -> nat, i: nat, j: nat): (prev: Cell)
    requires i < |a| && j < |b| && (i, j) != (0, 0)
    ensures IsStep(prev, (i, j))
    ensures Cost(a, b, dist, i, j) == Cost(a, b, dist, prev.0, prev.1) + dist(a[i], b[j])
  {
    if j == 0 then (i - 1, 0)
    else if i == 0 then (0, j - 1)
    else
      var diag, below, left := Cost(a, b, dist, i - 1, j - 1), Cost(a, b, dist, i - 1, j), Cost(a, b, dist, i, j - 1);
      if diag <= below && diag <= left then (i - 1, j - 1)
      else if below <= left then (i - 1, j)
      else (i, j - 1)
  }

  /** The path that steps back from (i, j) through cheapest predecessors. */
  function OptimalPath<T>(a: seq<T>, b: seq<T>, dist: (T, T) -> nat, i: nat, j: nat): seq<Cell>
    requires i < |a| && j < |b|
    decreases i + j
  {
    if i == 0 && j == 0 then [(0, 0)]
    else
      var prev := CheapestPredecessor(a, b, dist, i, j);
      OptimalPath(a, b, dist, prev.0, prev.1) + [(i, j)]
  }

  /** Cost(i, j) is attained by a warping path, so together with
    * CostIsAtMostEveryPath it is the cheapest warping-path cost. */
  lemma {:induction false} OptimalPathAttainsCost<T>(a: seq<T>, b: seq<T>, dist: (T, T) -> nat, i: nat, j: nat)
    requires i < |a| && j < |b|
    ensures IsWarpingPath(OptimalPath(a, b, dist, i, j), i, j, |a|, |b|)
    ensures PathCost(a, b, dist, OptimalPath(a, b, dist, i, j)) == Cost(a, b, dist, i, j)
    decreases i + j
  {
    var p := OptimalPath(a, b, dist, i, j);
    if i == 0 && j == 0 {
      assert p == [(0, 0)] && p[..0] == [];
    } else {
      var prev := CheapestPredecessor(a, b, dist, i, j);
      var q := OptimalPath(a, b, dist, prev.0, prev.1);
      assert p == q + [(i, j)];
      OptimalPathAttainsCost(a, b, dist, prev.0, prev.1);
      ExtendPath(a, b, dist, q, prev, (i, j));
    }
  }

  /** Appending one warping step keeps a path a path and adds that cell's distance. */
  lemma ExtendPath<T>(a: seq<T>, b: seq<T>, dist: (T, T) -> nat, q: seq<Cell>, prev: Cell, next: Cell)
    requires IsWarpingPath(q, prev.0, prev.1, |a|, |b|) && IsStep(prev, next) && next.0 < |a| && next.1 < |b|
    ensures IsWarpingPath(q + [next], next.0, next.1, |a|, |b|)
    ensures PathCost(a, b, dist, q + [next]) == PathCost(a, b, dist, q) + dist(a[next.0], b[next.1])
  {
    var p := q + [next];
    assert p[..|p| - 1] == q;
    forall k | 0 < k < |p| ensures IsStep(p[k - 1], p[k]) {
      if k < |q| { assert p[k - 1] == q[k - 1] && p[k] == q[k]; }
    }
  }

  // ---------------------------------------------------------------------------
  // Self-match and overflow.

  lemma {:induction false} DiagonalIsZero<T>(s: seq<T>, dist: (T, T) -> nat, i: nat)
    requires i < |s|
    requires forall k :: 0 <= k < |s| ==> dist(s[k], s[k]) == 0
    ensures Cost(s, s, dist, i, i) == 0
  {
    if i > 0 {
      DiagonalIsZero(s, dist, i - 1);
    }
  }

  /** A sequence matched against itself scores 0 whenever the metric gives
    * 0 for equal elements, as the Euclidean metric of the firmware does. */
  lemma SelfMatchScoresZero<T>(s: seq<T>, dist: (T, T) -> nat)
    requires 1 <= |s|
    requires forall k :: 0 <= k < |s| ==> dist(s[k], s[k]) == 0
    ensures Score(s, s, dist) == 0
  {
    DiagonalIsZero(s, dist, |s| - 1);
  }

  /** A cell's cost is at most D times the length of the longest warping
    * path to it, when no distance exceeds D. */
  lemma {:induction false} CostBound<T>(a: seq<T>, b: seq<T>, dist: (T, T) -> nat, bound: nat, i: nat, j: nat)
    requires i < |a| && j < |b|
    requires forall k, l :: 0 <= k < |a| && 0 <= l < |b| ==> dist(a[k], b[l]) <= bound
    ensures Cost(a, b, dist, i, j) <= (i + j + 1) * bound
    decreases i + j
  {
    assert (i + j + 1) * bound == (i + j) * bound + bound;
    if i > 0 && j > 0 {
      CostBound(a, b, dist, bound, i - 1, j);
      assert (i - 1 + j + 1) * bound == (i + j) * bound;
    } else if j > 0 {
      CostBound(a, b, dist, bound, i, j - 1);
      assert (i + (j - 1) + 1) * bound == (i + j) * bound;
    } else if i > 0 {
      CostBound(a, b, dist, bound, i - 1, j);
      assert (i - 1 + j + 1) * bound == (i + j) * bound;
    }
  }

  /** Bounded distances over short enough sequences keep every cell in uint32_t. */
  lemma BoundedDistancesDoNotOverflow<T>(a: seq<T>, b: seq<T>, dist: (T, T) -> nat, bound: nat)
    requires 1 <= |a| && 1 <= |b|
    requires forall k, l :: 0 <= k < |a| && 0 <= l < |b| ==> dist(a[k], b[l]) <= bound
    requires (|a| + |b| - 1) * bound < U32
    ensures NoOverflow(a, b, dist)
  {
    forall i, j | 0 <= i < |a| && 0 <= j < |b| ensures Cost(a, b, dist, i, j) < U32 {
      CostBound(a, b, dist, bound, i, j);
      ProductBelow(i + j + 1, |a| + |b| - 1, bound);
    }
  }

  lemma ProductBelow(x: nat, y: nat, bound: nat)
    requires x <= y && y * bound < U32
    ensures x * bound < U32
  {
    Arithmetic.MulMonotone(bound, x, y);
  }

  // ---------------------------------------------------------------------------
  // The matrix as the source fills it.

  /** The cell the source's loops leave behind if every read of row -1 or
    * column -1 yields 0: the interior loop starts at 0 and so overwrites the
    * first row and column, whose minimum then always includes a border 0.
    * In the flat matrix, column -1 of row i is the last cell of row i - 1,
    * which stays 0 until a full-capacity sequence has been compared; row -1
    * is memory before the matrix, so the zero reads are an assumption. */
  function AsWrittenCell<T>(a: seq<T>, b: seq<T>, dist: (T, T) -> nat, i: nat, j: nat): nat
    requires i < |a| && j < |b|
    decreases i + j
  {
    var d := dist(a[i], b[j]);
    if i == 0 || j == 0 then d
    else Min(AsWrittenCell(a, b, dist, i - 1, j - 1),
             Min(AsWrittenCell(a, b, dist, i - 1, j), AsWrittenCell(a, b, dist, i, j - 1))) + d
  }

  function AsWrittenScore<T>(a: seq<T>, b: seq<T>, dist: (T, T) -> nat): nat
    requires 1 <= |a| && 1 <= |b|
  {
    Normalise(AsWrittenCell(a, b, dist, |a| - 1, |b| - 1), |a| + |b|)
  }

  function UnitMismatch(x: int, y: int): nat {
    if x == y then 0 else 3
  }

  /** One template element against two equal, different word elements: the
    * intended score counts both distances, the source as written only one. */
  lemma EdgeOverwriteChangesScore()
    ensures Score([0], [1, 1], UnitMismatch) == 2
    ensures AsWrittenScore([0], [1, 1], UnitMismatch) == 1
  {
    assert Cost([0], [1, 1], UnitMismatch, 0, 0) == 3;
    assert Cost([0], [1, 1], UnitMismatch, 0, 1) == 6;
  }
}
