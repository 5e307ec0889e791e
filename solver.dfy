/**
 * The seed worklist of the auto-solver. For each row in order,
 * `prepare_solve_game` enqueues the first column whose cell is 0 and still
 * hidden; the `break` leaves only the column loop, so there is at most one
 * seed per row, not one per board.
 */
module Solver {
  import opened Board

  /** A hidden cell whose board value is 0 (`z` is the set of 0 cells, `r` the revealed set). */
  predicate HiddenZero(z: set<Cell>, r: set<Cell>, c: Cell) {
    c in z && c !in r
  }

  /** The seed of row `x` when its columns are scanned from `y` on: the first hidden 0 cell, if any. */
  function RowSeed(n: int, z: set<Cell>, r: set<Cell>, x: int, y: int): seq<Cell>
    decreases n - y
  {
    if y >= n then []
    else if HiddenZero(z, r, (x, y)) then [(x, y)]
    else RowSeed(n, z, r, x, y + 1)
  }

  /** The seeds of rows 0 .. rows - 1, in row order. */
  function Seeds(n: int, z: set<Cell>, r: set<Cell>, rows: nat): seq<Cell>
  {
    if rows == 0 then []
    else Seeds(n, z, r, rows - 1) + RowSeed(n, z, r, rows - 1, 0)
  }

  /**
   * A row scanned from column `y` has no seed exactly when none of its
   * remaining cells is a hidden 0 cell; otherwise its one seed is the first
   * such cell.
   */
  lemma {:induction false} RowSeedIsFirst(n: int, z: set<Cell>, r: set<Cell>, x: int, y: int)
    ensures RowSeed(n, z, r, x, y) == [] <==> forall j :: y <= j < n ==> !HiddenZero(z, r, (x, j))
    ensures var s := RowSeed(n, z, r, x, y);
      s != [] ==>
        && |s| == 1 && s[0].0 == x && y <= s[0].1 < n && HiddenZero(z, r, s[0])
        && forall j :: y <= j < s[0].1 ==> !HiddenZero(z, r, (x, j))
    decreases n - y
  {
    if y < n && !HiddenZero(z, r, (x, y)) {
      RowSeedIsFirst(n, z, r, x, y + 1);
    }
  }

  /**
   * The seeds of rows 0 .. rows - 1: at most one per row, in strictly
   * increasing row order, each a hidden 0 cell on the grid and the first such
   * cell of its row.
   */
  lemma {:induction false} SeedsAreFirstHiddenZeros(n: int, z: set<Cell>, r: set<Cell>, rows: nat)
    ensures var s := Seeds(n, z, r, rows);
      && |s| <= rows
      && (forall k :: 0 <= k < |s| ==> 0 <= s[k].0 < rows && 0 <= s[k].1 < n && HiddenZero(z, r, s[k]))
      && (forall k, j :: 0 <= k < |s| && 0 <= j < s[k].1 ==> !HiddenZero(z, r, (s[k].0, j)))
      && (forall k, l :: 0 <= k < l < |s| ==> s[k].0 < s[l].0)
  {
    if rows > 0 {
      SeedsAreFirstHiddenZeros(n, z, r, rows - 1);
      RowSeedIsFirst(n, z, r, rows - 1, 0);
    }
  }

  /** Every row below `rows` that has a hidden 0 cell on the grid contributes a seed. */
  lemma {:induction false} SeedsCoverRows(n: int, z: set<Cell>, r: set<Cell>, rows: nat, x: int, y: int)
    requires 0 <= x < rows && 0 <= y < n && HiddenZero(z, r, (x, y))
    ensures exists k :: 0 <= k < |Seeds(n, z, r, rows)| && Seeds(n, z, r, rows)[k].0 == x
  {
    var prev := Seeds(n, z, r, rows - 1);
    var row := RowSeed(n, z, r, rows - 1, 0);
    assert Seeds(n, z, r, rows) == prev + row;
    if x == rows - 1 {
      RowSeedIsFirst(n, z, r, x, 0);
      assert row != [];
      assert Seeds(n, z, r, rows)[|prev|].0 == x;
    } else {
      SeedsCoverRows(n, z, r, rows - 1, x, y);
      var k :| 0 <= k < |prev| && prev[k].0 == x;
      assert Seeds(n, z, r, rows)[k].0 == x;
    }
  }
}
