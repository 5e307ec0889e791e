/**
 * Geometry, mine counting and mine placement for a square Minesweeper board.
 *
 * Everything here is a pure function of a mine set; the class in module Game
 * reads its `board` array into such sets.
 */
module Board {

  /** A grid coordinate (row, column). */
  type Cell = (int, int)

  predicate InGrid(n: int, c: Cell) {
    0 <= c.0 < n && 0 <= c.1 < n
  }

  /** All coordinates of an n by n grid. */
  function AllCells(n: nat): (s: set<Cell>)
    ensures forall c :: c in s <==> InGrid(n, c)
  {
    set i, j | 0 <= i < n && 0 <= j < n :: (i, j)
  }

  /** The set of elements of a sequence of cells. */
  function Elems(q: seq<Cell>): (s: set<Cell>)
    ensures forall c :: c in s <==> c in q
  {
    set c | c in q
  }

  /** First index of the clipped window around `x`: max(0, x - 1). */
  function Lo(x: int): int {
    if x - 1 < 0 then 0 else x - 1
  }

  /** One past the last index of the clipped window around `x`: min(n, x + 2). */
  function Hi(n: int, x: int): int {
    if n < x + 2 then n else x + 2
  }

  /** `w` lies in the 3 by 3 block centred on `c` (`c` itself included). */
  predicate Near(c: Cell, w: Cell) {
    -1 <= w.0 - c.0 <= 1 && -1 <= w.1 - c.1 <= 1
  }

  /** `w` is in the window `count_adjacent_mines` scans around `c`: the 3 by 3 block clipped to the grid. */
  predicate InWindow(n: int, c: Cell, w: Cell) {
    InGrid(n, w) && Near(c, w)
  }

  // ---------------------------------------------------------------------------
  // Counting mines in a window
  // ---------------------------------------------------------------------------

  /** Mines among (i, j) for jlo <= j < jhi, counted left to right. */
  function RowMines(m: set<Cell>, i: int, jlo: int, jhi: int): nat
    decreases jhi - jlo
  {
    if jhi <= jlo then 0
    else RowMines(m, i, jlo, jhi - 1) + (if (i, jhi - 1) in m then 1 else 0)
  }

  /** Mines in the block of rows [ilo, ihi) and columns [jlo, jhi), counted row by row. */
  function BlockMines(m: set<Cell>, ilo: int, ihi: int, jlo: int, jhi: int): nat
    decreases ihi - ilo
  {
    if ihi <= ilo then 0
    else BlockMines(m, ilo, ihi - 1, jlo, jhi) + RowMines(m, ihi - 1, jlo, jhi)
  }

  /** The number of mines in the clipped window around (x, y), the value of `count_adjacent_mines`. */
  function AdjCount(m: set<Cell>, n: int, x: int, y: int): nat {
    BlockMines(m, Lo(x), Hi(n, x), Lo(y), Hi(n, y))
  }

  lemma {:induction false} RowMinesZero(m: set<Cell>, i: int, jlo: int, jhi: int)
    ensures RowMines(m, i, jlo, jhi) == 0 <==> forall j :: jlo <= j < jhi ==> (i, j) !in m
    decreases jhi - jlo
  {
    if jhi > jlo {
      RowMinesZero(m, i, jlo, jhi - 1);
    }
  }

  lemma {:induction false} BlockMinesZero(m: set<Cell>, ilo: int, ihi: int, jlo: int, jhi: int)
    ensures BlockMines(m, ilo, ihi, jlo, jhi) == 0
        <==> forall i, j :: ilo <= i < ihi && jlo <= j < jhi ==> (i, j) !in m
    decreases ihi - ilo
  {
    if ihi > ilo {
      BlockMinesZero(m, ilo, ihi - 1, jlo, jhi);
      RowMinesZero(m, ihi - 1, jlo, jhi);
    }
  }

  /** A cell counts 0 exactly when no cell of its clipped window is a mine. */
  lemma AdjCountZero(m: set<Cell>, n: int, x: int, y: int)
    ensures AdjCount(m, n, x, y) == 0 <==> forall w :: InWindow(n, (x, y), w) ==> w !in m
  {
    BlockMinesZero(m, Lo(x), Hi(n, x), Lo(y), Hi(n, y));
    if AdjCount(m, n, x, y) != 0 {
      var i, j :| Lo(x) <= i < Hi(n, x) && Lo(y) <= j < Hi(n, y) && (i, j) in m;
      assert InWindow(n, (x, y), (i, j));
    }
  }

  lemma {:induction false} RowMinesBound(m: set<Cell>, i: int, jlo: int, jhi: int, free: int)
    requires jlo <= jhi
    ensures RowMines(m, i, jlo, jhi) <= jhi - jlo
    ensures jlo <= free < jhi && (i, free) !in m ==> RowMines(m, i, jlo, jhi) <= jhi - jlo - 1
    decreases jhi - jlo
  {
    if jhi > jlo {
      RowMinesBound(m, i, jlo, jhi - 1, free);
    }
  }

  /**
   * A non-mine cell has at most 8 mines around it: its window has at most
   * 3 by 3 cells and the cell itself is one of them.
   */
  lemma AdjCountAtMostEight(m: set<Cell>, n: int, x: int, y: int)
    requires InGrid(n, (x, y)) && (x, y) !in m
    ensures AdjCount(m, n, x, y) <= 8
  {
    var ilo, ihi, jlo, jhi := Lo(x), Hi(n, x), Lo(y), Hi(n, y);
    var w := jhi - jlo;
    assert 1 <= w <= 3 && 1 <= ihi - ilo <= 3;
    // Rows ilo .. ihi - 1, each with at most w mines and row x with at most w - 1.
    var i := ilo;
    while i < ihi
      invariant ilo <= i <= ihi
      invariant BlockMines(m, ilo, i, jlo, jhi) + (if ilo <= x < i then 1 else 0) <= (i - ilo) * w
    {
      RowMinesBound(m, i, jlo, jhi, y);
      i := i + 1;
    }
    assert (ihi - ilo) * w <= 9;
  }

  // ---------------------------------------------------------------------------
  // Mine placement from a sequence of drawn coordinates
  // ---------------------------------------------------------------------------

  /** The cells drawn at positions k, k + 1, ... of `draws`. */
  function DrawnFrom(draws: seq<Cell>, k: nat): set<Cell>
    decreases |draws| - k
  {
    if k >= |draws| then {} else {draws[k]} + DrawnFrom(draws, k + 1)
  }

  /** From position k on, the drawn cells are the elements of the suffix `draws[k..]`. */
  lemma {:induction false} DrawnFromSuffix(draws: seq<Cell>, k: nat)
    requires k <= |draws|
    ensures DrawnFrom(draws, k) == Elems(draws[k..])
    decreases |draws| - k
  {
    if k < |draws| {
      DrawnFromSuffix(draws, k + 1);
      assert draws[k..] == [draws[k]] + draws[k + 1..];
    }
  }

  /**
   * The mine set the placement loop reaches from mine set `m` when `left` more
   * mines are still to be placed and the next draw is `draws[k]`: a draw on a
   * cell that is already a mine places nothing.
   */
  function Drop(m: set<Cell>, draws: seq<Cell>, k: nat, left: nat): set<Cell>
    decreases |draws| - k
  {
    if left == 0 || k >= |draws| then m
    else if draws[k] in m then Drop(m, draws, k + 1, left)
    else Drop(m + {draws[k]}, draws, k + 1, left - 1)
  }

  /**
   * While mines are still to be placed and placement is to end with |m| + left
   * mines, there is a next draw.
   */
  lemma DropHasNext(m: set<Cell>, draws: seq<Cell>, k: nat, left: nat)
    requires left > 0 && |Drop(m, draws, k, left)| == |m| + left
    ensures k < |draws|
  {
  }

  /**
   * With enough distinct new draws, placement adds exactly `left` mines, all
   * of them drawn cells, and keeps the mines already there.
   */
  lemma {:induction false} DropPlacesExactly(m: set<Cell>, draws: seq<Cell>, k: nat, left: nat)
    requires |DrawnFrom(draws, k) - m| >= left
    ensures m <= Drop(m, draws, k, left) <= m + DrawnFrom(draws, k)
    ensures |Drop(m, draws, k, left)| == |m| + left
    decreases |draws| - k
  {
    if left != 0 && k < |draws| {
      var d := draws[k];
      var unused := DrawnFrom(draws, k) - m;
      if d in m {
        assert DrawnFrom(draws, k + 1) - m == unused;
        DropPlacesExactly(m, draws, k + 1, left);
      } else {
        assert unused - {d} == DrawnFrom(draws, k + 1) - (m + {d});
        assert |unused - {d}| == |unused| - 1;
        DropPlacesExactly(m + {d}, draws, k + 1, left - 1);
      }
    }
  }

  /**
   * `place_mines` from an empty board: when the draws hold at least `mines`
   * distinct cells, exactly `mines` mines are placed, each on a drawn cell.
   */
  lemma PlacementFromDraws(draws: seq<Cell>, mines: nat)
    requires mines <= |Elems(draws)|
    ensures |Drop({}, draws, 0, mines)| == mines
    ensures Drop({}, draws, 0, mines) <= Elems(draws)
  {
    DrawnFromSuffix(draws, 0);
    assert draws[0..] == draws;
    DropPlacesExactly({}, draws, 0, mines);
  }
}
