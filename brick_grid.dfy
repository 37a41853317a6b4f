/** The brick wall of the game as a value: a grid of rows of cells, where a
    cell holding 1 is an active brick and any other value (0 in practice) is
    a destroyed one.  The functions here count active bricks and compute the
    wall left after the ball, standing at one point, has knocked out every
    active brick whose closed cell rectangle contains that point. */
module BrickGrid {

  const BrickRowCount := 1
  const BrickColumnCount := 2
  const BrickWidth := 50
  const BrickHeight := 20

  type Grid = seq<seq<int>>

  /** The grid has the fixed dimensions of the game. */
  predicate WellShaped(g: Grid) {
    |g| == BrickRowCount && forall i :: 0 <= i < |g| ==> |g[i]| == BrickColumnCount
  }

  /** Every cell is 0 or 1. */
  predicate Binary(g: Grid) {
    forall i, j :: 0 <= i < |g| && 0 <= j < |g[i]| ==> g[i][j] == 0 || g[i][j] == 1
  }

  /** A rows x cols wall with every brick active. */
  function AllActive(rows: nat, cols: nat): (g: Grid)
    ensures |g| == rows && forall i :: 0 <= i < rows ==> |g[i]| == cols
    ensures forall i, j :: 0 <= i < |g| && 0 <= j < |g[i]| ==> g[i][j] == 1
  {
    seq(rows, _ => seq(cols, _ => 1))
  }

  /** The point (x, y) lies in the closed rectangle of cell (i, j). */
  predicate InBrick(i: int, j: int, x: int, y: int) {
    j * BrickWidth <= x <= j * BrickWidth + BrickWidth &&
    i * BrickHeight <= y <= i * BrickHeight + BrickHeight
  }

  /** A cell holding v at (i, j) is an active brick that the ball at (x, y) touches. */
  predicate Hit(v: int, i: int, j: int, x: int, y: int) {
    v == 1 && InBrick(i, j, x, y)
  }

  /** The value of cell (i, j), holding v, after the ball at (x, y) has passed. */
  function Cleared(v: int, i: int, j: int, x: int, y: int): int {
    if Hit(v, i, j, x, y) then 0 else v
  }

  /** Row i after the ball at (x, y) has passed. */
  function ClearRow(row: seq<int>, i: int, x: int, y: int): seq<int>
  {
    seq(|row|, j requires 0 <= j < |row| => Cleared(row[j], i, j, x, y))
  }

  /** The wall after the ball at (x, y) has knocked out every brick it touches. */
  function ClearHits(g: Grid, x: int, y: int): Grid
  {
    seq(|g|, i requires 0 <= i < |g| => ClearRow(g[i], i, x, y))
  }

  /** Number of active cells among the first n cells of a row. */
  function RowActive(row: seq<int>, n: nat): nat
    requires n <= |row|
  {
    if n == 0 then 0 else RowActive(row, n - 1) + (if row[n - 1] == 1 then 1 else 0)
  }

  /** Number of active cells in the first m rows. */
  function RowsActive(g: Grid, m: nat): nat
    requires m <= |g|
  {
    if m == 0 then 0 else RowsActive(g, m - 1) + RowActive(g[m - 1], |g[m - 1]|)
  }

  function Active(g: Grid): nat {
    RowsActive(g, |g|)
  }

  /** Number of hits among the first n cells of row i. */
  function RowHits(row: seq<int>, i: int, n: nat, x: int, y: int): nat
    requires n <= |row|
  {
    if n == 0 then 0
    else RowHits(row, i, n - 1, x, y) + (if Hit(row[n - 1], i, n - 1, x, y) then 1 else 0)
  }

  /** Number of hits in the first m rows, counted row by row as the game scans them. */
  function RowsHits(g: Grid, m: nat, x: int, y: int): nat
    requires m <= |g|
  {
    if m == 0 then 0 else RowsHits(g, m - 1, x, y) + RowHits(g[m - 1], m - 1, |g[m - 1]|, x, y)
  }

  function Hits(g: Grid, x: int, y: int): nat {
    RowsHits(g, |g|, x, y)
  }

  /** No cell holds an active brick. */
  predicate NoActive(g: Grid) {
    forall i, j :: 0 <= i < |g| && 0 <= j < |g[i]| ==> g[i][j] != 1
  }

  /** Clearing keeps the dimensions, keeps cells in {0, 1}, turns exactly the
      hit cells from 1 to 0, and leaves every other cell as it was. */
  lemma ClearHitsCells(g: Grid, x: int, y: int)
    ensures |ClearHits(g, x, y)| == |g|
    ensures forall i :: 0 <= i < |g| ==> |ClearHits(g, x, y)[i]| == |g[i]|
    ensures forall i, j :: 0 <= i < |g| && 0 <= j < |g[i]| ==>
      ClearHits(g, x, y)[i][j] == if g[i][j] == 1 && InBrick(i, j, x, y) then 0 else g[i][j]
    ensures WellShaped(g) ==> WellShaped(ClearHits(g, x, y))
    ensures Binary(g) ==> Binary(ClearHits(g, x, y))
  {
  }

  lemma {:induction false} RowClearCount(row: seq<int>, i: int, n: nat, x: int, y: int)
    requires n <= |row|
    ensures RowActive(ClearRow(row, i, x, y), n) + RowHits(row, i, n, x, y) == RowActive(row, n)
  {
    if n > 0 {
      RowClearCount(row, i, n - 1, x, y);
    }
  }

  lemma {:induction false} RowsClearCount(g: Grid, m: nat, x: int, y: int)
    requires m <= |g|
    ensures RowsActive(ClearHits(g, x, y), m) + RowsHits(g, m, x, y) == RowsActive(g, m)
  {
    if m > 0 {
      RowsClearCount(g, m - 1, x, y);
      RowClearCount(g[m - 1], m - 1, |g[m - 1]|, x, y);
      assert ClearHits(g, x, y)[m - 1] == ClearRow(g[m - 1], m - 1, x, y);
    }
  }

  /** Every knocked-out brick was active, so the active count drops by
      exactly the number of hits. */
  lemma ClearHitsActive(g: Grid, x: int, y: int)
    ensures Active(ClearHits(g, x, y)) + Hits(g, x, y) == Active(g)
  {
    RowsClearCount(g, |g|, x, y);
  }

  lemma {:induction false} RowNoActive(row: seq<int>, n: nat)
    requires n <= |row|
    ensures RowActive(row, n) == 0 <==> forall j :: 0 <= j < n ==> row[j] != 1
  {
    if n > 0 {
      RowNoActive(row, n - 1);
    }
  }

  lemma {:induction false} RowsNoActive(g: Grid, m: nat)
    requires m <= |g|
    ensures RowsActive(g, m) == 0 <==>
      forall i, j :: 0 <= i < m && 0 <= j < |g[i]| ==> g[i][j] != 1
  {
    if m > 0 {
      RowsNoActive(g, m - 1);
      RowNoActive(g[m - 1], |g[m - 1]|);
    }
  }

  /** "No cell is 1" and "the active count is zero" are the same condition. */
  lemma NoActiveIffZero(g: Grid)
    ensures NoActive(g) <==> Active(g) == 0
  {
    RowsNoActive(g, |g|);
  }

  lemma {:induction false} RowAllActive(row: seq<int>, n: nat)
    requires n <= |row|
    requires forall j :: 0 <= j < |row| ==> row[j] == 1
    ensures RowActive(row, n) == n
  {
    if n > 0 {
      RowAllActive(row, n - 1);
    }
  }

  lemma {:induction false} RowsAllActive(g: Grid, m: nat, cols: nat)
    requires m <= |g|
    requires forall i :: 0 <= i < |g| ==> |g[i]| == cols
    requires forall i, j :: 0 <= i < |g| && 0 <= j < |g[i]| ==> g[i][j] == 1
    ensures RowsActive(g, m) == m * cols
  {
    if m > 0 {
      RowsAllActive(g, m - 1, cols);
      RowAllActive(g[m - 1], cols);
    }
  }

  /** A full rows x cols wall holds rows * cols active bricks. */
  lemma AllActiveCount(rows: nat, cols: nat)
    ensures Active(AllActive(rows, cols)) == rows * cols
  {
    RowsAllActive(AllActive(rows, cols), rows, cols);
  }
}
