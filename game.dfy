/**
 * The `Minesweeper` game object: the board built in place, the reveal engine
 * and the step-by-step auto-solver.
 *
 * The tkinter button of a cell is abstracted to membership of `revealed`: a
 * cell is in `revealed` exactly when its button is disabled. Flag text on a
 * button is presentation and never blocks a reveal, so only the
 * `marked_mines` set is kept.
 */
module Game {
  import opened Board
  import opened Reveal
  import opened Solver

  /** What one call of `solve_step` did. */
  datatype StepResult =
    | Finished          // both queues were empty: the final sweep ran and no further step is scheduled
    | Idle              // nothing was revealed or marked
    | Opened(cell: Cell) // a replayed step revealed `cell`
    | Marked(cell: Cell) // a replayed step was a mine and `mark_bomb` marked it

  /** What a left click ended in. */
  datatype ClickOutcome = Lost | Won | Playing

  /** A fresh n by n board of zeros (`create_board`). */
  method CreateBoard(n: nat) returns (b: array2<int>)
    ensures fresh(b) && b.Length0 == n && b.Length1 == n
    ensures forall i, j :: 0 <= i < n && 0 <= j < n ==> b[i, j] == 0
  {
    b := new int[n, n]((i, j) => 0);
  }

  class Minesweeper {
    const size: nat
    const mines: nat
    /** The grid: -1 marks a mine, any other value is the number of mines around the cell. */
    const board: array2<int>
    /** Cells whose button is disabled: revealed, or frozen when the game ends. */
    var revealed: set<Cell>
    /** `marked_mines`: cells the solver marked as bombs. */
    var marked: set<Cell>
    /** `solve_queue`: seeds waiting for a breadth-first run. */
    var solveQueue: seq<Cell>
    /** `solve_steps`: cells of the current run waiting to be replayed, one per step. */
    var solveSteps: seq<Cell>

    /** The cells holding -1. */
    ghost function Mines(): set<Cell>
      reads board
    {
      set i, j | 0 <= i < board.Length0 && 0 <= j < board.Length1 && board[i, j] == -1 :: (i, j)
    }

    /** The cells holding 0: the ones a traversal expands. */
    ghost function Zeros(): set<Cell>
      reads board
    {
      set i, j | 0 <= i < board.Length0 && 0 <= j < board.Length1 && board[i, j] == 0 :: (i, j)
    }

    ghost predicate Shaped() {
      board.Length0 == size && board.Length1 == size
    }

    /** Cell (i, j) is a mine or holds the number of mines in its clipped window. */
    ghost predicate CountedAt(i: int, j: int)
      reads board
      requires Shaped() && InGrid(size, (i, j))
    {
      board[i, j] == -1 || board[i, j] == AdjCount(Mines(), size, i, j)
    }

    /** The board-count invariant, for every cell. */
    ghost predicate Counted()
      reads board
      requires Shaped()
    {
      forall i, j :: 0 <= i < size && 0 <= j < size ==> CountedAt(i, j)
    }

    /** The object invariant: a counted board, seeds that are 0 cells, steps on the grid. */
    ghost predicate Valid()
      reads this, board
    {
      && Shaped()
      && Counted()
      && (forall c :: c in solveQueue ==> InGrid(size, c) && c in Zeros())
      && (forall c :: c in solveSteps ==> InGrid(size, c))
    }

    /**
     * No pending step is a mine. It holds from construction on (see Solve); it is
     * kept out of Valid so that `mark_bomb`'s branch stays reachable in the code
     * and its being dead is a proved postcondition of SolveStep.
     */
    ghost predicate StepsSafe()
      reads this, board
    {
      forall c :: c in solveSteps ==> c !in Mines()
    }

    /** `check_win`'s condition on a revealed set: every non-mine cell is revealed. */
    ghost predicate ClearedBy(r: set<Cell>)
      reads board
      requires Shaped()
    {
      forall i, j :: 0 <= i < size && 0 <= j < size && board[i, j] != -1 ==> (i, j) in r
    }

    lemma MinesAre(m: set<Cell>)
      requires Shaped()
      requires forall c :: c in m ==> InGrid(size, c)
      requires forall i, j :: 0 <= i < size && 0 <= j < size ==> (board[i, j] == -1 <==> (i, j) in m)
      ensures Mines() == m
    {
    }

    /** On a counted board a 0 cell is not a mine and has no mine in its window. */
    lemma ZerosAreSafe()
      requires Shaped() && Counted()
      ensures ZeroSafe(size, Zeros(), Mines())
    {
      forall c, w | c in Zeros() && InWindow(size, c, w)
        ensures c !in Mines() && w !in Mines()
      {
        assert CountedAt(c.0, c.1);
        AdjCountZero(Mines(), size, c.0, c.1);
      }
    }

    // -------------------------------------------------------------------------
    // Board model
    // -------------------------------------------------------------------------

    /**
     * `__init__` without the widgets: a zero board, mines placed from the drawn
     * coordinates `draws` (the random generator's output), then the counts.
     */
    constructor (size: nat, mines: nat, draws: seq<Cell>)
      requires forall c :: c in draws ==> InGrid(size, c)
      requires mines <= |Elems(draws)|
      ensures Valid() && StepsSafe()
      ensures fresh(board) && this.size == size && this.mines == mines
      ensures Mines() == Drop({}, draws, 0, mines) && |Mines()| == mines
      ensures revealed == {} && marked == {} && solveQueue == [] && solveSteps == []
    {
      this.size := size;
      this.mines := mines;
      var grid := CreateBoard(size);
      board := grid;
      revealed, marked := {}, {};
      solveQueue, solveSteps := [], [];
      new;
      PlaceMines(draws);
      UpdateNumbers();
    }

    /**
     * `place_mines`: take draws in order until `mines` mines are placed; a draw
     * on a cell that is not 0 (already a mine) places nothing.
     */
    method PlaceMines(draws: seq<Cell>)
      requires Shaped()
      requires forall i, j :: 0 <= i < size && 0 <= j < size ==> board[i, j] == 0
      requires forall c :: c in draws ==> InGrid(size, c)
      requires mines <= |Elems(draws)|
      modifies board
      ensures Mines() == Drop({}, draws, 0, mines) && |Mines()| == mines
      ensures forall i, j :: 0 <= i < size && 0 <= j < size ==>
        board[i, j] == if (i, j) in Mines() then -1 else 0
    {
      var placed := 0;
      var k := 0;
      ghost var m: set<Cell> := {};
      ghost var left: nat := mines;
      ghost var target := Drop({}, draws, 0, mines);
      PlacementFromDraws(draws, mines);
      while placed < mines
        invariant 0 <= k <= |draws| && |m| == placed
        invariant forall c :: c in m ==> InGrid(size, c)
        invariant forall i, j :: 0 <= i < size && 0 <= j < size ==>
          board[i, j] == if (i, j) in m then -1 else 0
        invariant placed <= mines && left == mines - placed
        invariant Drop(m, draws, k, left) == target && |target| == mines
        decreases |draws| - k
      {
        DropHasNext(m, draws, k, left);
        var d := draws[k];
        var x, y := d.0, d.1;
        assert d in draws;
        assert board[x, y] == 0 <==> d !in m;
        if board[x, y] == 0 {
          board[x, y] := -1;
          m := m + {d};
          placed := placed + 1;
          left := left - 1;
        }
        k := k + 1;
      }
      MinesAre(m);
    }

    /**
     * `update_numbers`: overwrite every non-mine cell, in row-major order, with
     * its count. Counts are never -1, so the mines, and hence the counts of the
     * cells still to come, are those of the board before the call.
     */
    method UpdateNumbers()
      requires Shaped()
      modifies board
      ensures Mines() == old(Mines())
      ensures forall i, j :: 0 <= i < size && 0 <= j < size ==>
        board[i, j] == if old(board[i, j]) == -1 then -1 else AdjCount(old(Mines()), size, i, j)
      ensures forall i, j :: 0 <= i < size && 0 <= j < size && board[i, j] != -1 ==> 0 <= board[i, j] <= 8
      ensures Counted()
    {
      ghost var m := Mines();
      var x := 0;
      while x < size
        invariant 0 <= x <= size
        invariant Mines() == m
        invariant forall i, j :: 0 <= i < size && 0 <= j < size ==>
          board[i, j] == if i < x && old(board[i, j]) != -1 then AdjCount(m, size, i, j) else old(board[i, j])
      {
        var y := 0;
        while y < size
          invariant 0 <= y <= size
          invariant Mines() == m
          invariant forall i, j :: 0 <= i < size && 0 <= j < size ==>
            board[i, j] == if (i < x || (i == x && j < y)) && old(board[i, j]) != -1
                           then AdjCount(m, size, i, j) else old(board[i, j])
        {
          if board[x, y] != -1 {
            var count := CountAdjacentMines(x, y);
            board[x, y] := count;
            MinesAre(m);
          }
          y := y + 1;
        }
        x := x + 1;
      }
      forall i, j | 0 <= i < size && 0 <= j < size && board[i, j] != -1
        ensures board[i, j] <= 8
      {
        AdjCountAtMostEight(m, size, i, j);
      }
    }

    /** `count_adjacent_mines`: scan the clipped 3 by 3 window around (x, y) for -1 cells. */
    method CountAdjacentMines(x: int, y: int) returns (count: nat)
      requires Shaped() && InGrid(size, (x, y))
      ensures count == AdjCount(Mines(), size, x, y)
    {
      count := 0;
      var i := Lo(x);
      while i < Hi(size, x)
        invariant Lo(x) <= i <= Hi(size, x)
        invariant count == BlockMines(Mines(), Lo(x), i, Lo(y), Hi(size, y))
      {
        var j := Lo(y);
        while j < Hi(size, y)
          invariant Lo(y) <= j <= Hi(size, y)
          invariant count == BlockMines(Mines(), Lo(x), i, Lo(y), Hi(size, y)) + RowMines(Mines(), i, Lo(y), j)
        {
          assert board[i, j] == -1 <==> (i, j) in Mines();
          if board[i, j] == -1 {
            count := count + 1;
          }
          j := j + 1;
        }
        i := i + 1;
      }
    }

    // -------------------------------------------------------------------------
    // Reveal engine
    // -------------------------------------------------------------------------

    /** `check_win`: true exactly when no non-mine cell is still hidden. */
    method CheckWin() returns (won: bool)
      requires Shaped()
      ensures won == ClearedBy(revealed)
    {
      var x := 0;
      while x < size
        invariant 0 <= x <= size
        invariant forall i, j :: 0 <= i < x && 0 <= j < size && board[i, j] != -1 ==> (i, j) in revealed
      {
        var y := 0;
        while y < size
          invariant 0 <= y <= size
          invariant forall i, j :: (0 <= i < x && 0 <= j < size) || (i == x && 0 <= j < y) ==>
            board[i, j] != -1 ==> (i, j) in revealed
        {
          if board[x, y] != -1 && (x, y) !in revealed {
            return false;
          }
          y := y + 1;
        }
        x := x + 1;
      }
      return true;
    }

    /**
     * `flood_fill`: the breadth-first traversal from (x, y) that disables every
     * visited button. It reveals exactly the visited cells, leaving every other
     * cell's visibility as it was.
     */
    method FloodFill(x: int, y: int)
      requires Shaped() && InGrid(size, (x, y))
      modifies this`revealed
      ensures revealed == old(revealed) + Elems(Flood(size, Zeros(), (x, y)))
    {
      ghost var z := Zeros();
      var queue := [(x, y)];
      var visited: set<Cell> := {};
      ghost var order: seq<Cell> := [];
      while queue != []
        invariant AllInGrid(size, queue)
        invariant order + BfsOrder(size, z, queue, visited) == Flood(size, z, (x, y))
        invariant forall c :: c in revealed <==> c in old(revealed) || c in order
        decreases AllCells(size) - visited, |queue|
      {
        ghost var q0 := queue;
        var (cx, cy) := queue[0];
        queue := queue[1..];
        if (cx, cy) in visited {
          BfsOrderSkip(size, z, q0, visited);
          continue;
        }
        assert (cx, cy) in q0;
        ghost var v0 := visited;
        visited := visited + {(cx, cy)};
        revealed := revealed + {(cx, cy)};
        order := order + [(cx, cy)];
        if board[cx, cy] == 0 {
          assert (cx, cy) in z;
          queue := AppendNeighbours(size, queue, (cx, cy), visited);
        } else {
          assert (cx, cy) !in z;
        }
        BfsOrderVisit(size, z, q0, v0, queue);
      }
    }

    /**
     * `reveal`: nothing on a disabled button; the flood fill on a 0 cell;
     * otherwise disable just this button.
     */
    method Reveal(x: int, y: int)
      requires Shaped() && InGrid(size, (x, y))
      modifies this`revealed
      ensures revealed == AfterReveal(size, Zeros(), old(revealed), (x, y))
    {
      if (x, y) in revealed {
        return;
      }
      if board[x, y] == 0 {
        FloodFill(x, y);
      } else {
        revealed := revealed + {(x, y)};
      }
    }

    /** `disable_buttons`: every button is disabled, so no cell can be revealed any more. */
    method DisableButtons()
      modifies this`revealed
      ensures revealed == AllCells(size)
    {
      revealed := AllCells(size);
    }

    /** `win_game` and `game_over` without the message box and colours: freeze the board. */
    method WinGame()
      modifies this`revealed
      ensures revealed == AllCells(size)
    {
      DisableButtons();
    }

    method GameOver()
      modifies this`revealed
      ensures revealed == AllCells(size)
    {
      DisableButtons();
    }

    /** `on_click`: a mine loses; otherwise reveal, then freeze the board if that won. */
    method OnClick(x: int, y: int) returns (outcome: ClickOutcome)
      requires Shaped() && InGrid(size, (x, y))
      modifies this`revealed
      ensures board[x, y] == -1 ==> outcome == Lost && revealed == AllCells(size)
      ensures board[x, y] != -1 ==>
        var after := AfterReveal(size, Zeros(), old(revealed), (x, y));
        && (outcome == Won <==> ClearedBy(after))
        && (outcome != Lost)
        && revealed == (if outcome == Won then AllCells(size) else after)
    {
      if board[x, y] == -1 {
        GameOver();
        return Lost;
      }
      Reveal(x, y);
      var won := CheckWin();
      if won {
        WinGame();
        return Won;
      }
      return Playing;
    }

    /** `mark_bomb`: record the cell in `marked_mines`; its button stays enabled. */
    method MarkBomb(x: int, y: int)
      modifies this`marked
      ensures marked == old(marked) + {(x, y)}
    {
      marked := marked + {(x, y)};
    }

    // -------------------------------------------------------------------------
    // Auto-solver
    // -------------------------------------------------------------------------

    /**
     * `bfs`: the same traversal as `flood_fill`, appending each visited cell to
     * `solve_steps` instead of revealing it.
     */
    method Bfs(x: int, y: int)
      requires Shaped() && InGrid(size, (x, y))
      modifies this`solveSteps
      ensures solveSteps == old(solveSteps) + Flood(size, Zeros(), (x, y))
    {
      ghost var z := Zeros();
      var queue := [(x, y)];
      var visited: set<Cell> := {};
      ghost var order: seq<Cell> := [];
      while queue != []
        invariant AllInGrid(size, queue)
        invariant order + BfsOrder(size, z, queue, visited) == Flood(size, z, (x, y))
        invariant solveSteps == old(solveSteps) + order
        decreases AllCells(size) - visited, |queue|
      {
        ghost var q0 := queue;
        var (cx, cy) := queue[0];
        queue := queue[1..];
        if (cx, cy) in visited {
          BfsOrderSkip(size, z, q0, visited);
          continue;
        }
        assert (cx, cy) in q0;
        ghost var v0 := visited;
        visited := visited + {(cx, cy)};
        solveSteps := solveSteps + [(cx, cy)];
        order := order + [(cx, cy)];
        if board[cx, cy] == 0 {
          assert (cx, cy) in z;
          queue := AppendNeighbours(size, queue, (cx, cy), visited);
        } else {
          assert (cx, cy) !in z;
        }
        BfsOrderVisit(size, z, q0, v0, queue);
      }
    }

    /**
     * The seeding loop of `prepare_solve_game`: for each row, the first column
     * whose cell is 0 and hidden is appended to `solve_queue`.
     */
    method SeedSolveQueue()
      requires Shaped()
      modifies this`solveQueue
      ensures solveQueue == old(solveQueue) + Seeds(size, Zeros(), revealed, size)
    {
      ghost var z := Zeros();
      var x := 0;
      while x < size
        invariant 0 <= x <= size
        invariant solveQueue == old(solveQueue) + Seeds(size, z, revealed, x)
      {
        var y := 0;
        while y < size
          invariant 0 <= y <= size
          invariant solveQueue == old(solveQueue) + Seeds(size, z, revealed, x)
          invariant RowSeed(size, z, revealed, x, 0) == RowSeed(size, z, revealed, x, y)
        {
          if board[x, y] == 0 && (x, y) !in revealed {
            assert (x, y) in z;
            solveQueue := solveQueue + [(x, y)];
            break;
          }
          assert (x, y) !in z || (x, y) in revealed;
          y := y + 1;
        }
        x := x + 1;
      }
    }

    /**
     * The final sweep of `solve_step`: reveal every hidden non-mine cell in
     * row-major order. Afterwards exactly the non-mine cells have been added.
     */
    method Sweep()
      requires Valid()
      modifies this`revealed
      ensures revealed == old(revealed) + (AllCells(size) - Mines())
    {
      ZerosAreSafe();
      var x := 0;
      while x < size
        invariant 0 <= x <= size
        invariant old(revealed) <= revealed
        invariant forall c :: c in revealed - old(revealed) ==> InGrid(size, c) && c !in Mines()
        invariant forall i, j :: 0 <= i < x && 0 <= j < size && board[i, j] != -1 ==> (i, j) in revealed
      {
        var y := 0;
        while y < size
          invariant 0 <= y <= size
          invariant old(revealed) <= revealed
          invariant forall c :: c in revealed - old(revealed) ==> InGrid(size, c) && c !in Mines()
          invariant forall i, j :: (0 <= i < x && 0 <= j < size) || (i == x && 0 <= j < y) ==>
            board[i, j] != -1 ==> (i, j) in revealed
        {
          if board[x, y] != -1 && (x, y) !in revealed {
            ghost var before := revealed;
            assert (x, y) !in Mines();
            Reveal(x, y);
            RevealGrows(size, Zeros(), before, (x, y));
            RevealAvoidsMines(size, Zeros(), Mines(), before, (x, y));
          }
          y := y + 1;
        }
        x := x + 1;
      }
      forall c | c in AllCells(size) - Mines()
        ensures c in revealed
      {
        assert board[c.0, c.1] != -1;
      }
    }

    /**
     * `solve_step` without the timer: when both queues are empty, sweep and
     * finish; otherwise, if no step is pending, pop one seed and run `bfs` from
     * it when it is still hidden; then replay at most one pending step.
     */
    method SolveStep() returns (result: StepResult)
      requires Valid()
      modifies this
      ensures Valid()
      ensures result == Finished <==> old(solveQueue) == [] && old(solveSteps) == []
      ensures result == Finished ==>
        && ClearedBy(revealed) && revealed == AllCells(size)
        && marked == old(marked) && solveQueue == [] && solveSteps == []
      ensures old(solveSteps) != [] ==>
        solveQueue == old(solveQueue) && solveSteps == old(solveSteps)[1..]
      ensures old(solveSteps) == [] && old(solveQueue) != [] ==>
        && solveQueue == old(solveQueue)[1..]
        && solveSteps == (if old(solveQueue)[0] in old(revealed) then []
                          else Flood(size, Zeros(), old(solveQueue)[0])[1..])
      ensures result.Opened? || result.Marked? ==>
        result.cell == (if old(solveSteps) != [] then old(solveSteps)[0] else old(solveQueue)[0])
      ensures result.Opened? ==>
        && result.cell !in old(revealed) && marked == old(marked)
        && revealed == AfterReveal(size, Zeros(), old(revealed), result.cell)
      ensures result.Marked? ==> revealed == old(revealed) && marked == old(marked) + {result.cell}
      ensures result == Idle ==> revealed == old(revealed) && marked == old(marked)
      // which action the step performs: a popped seed that is already revealed
      // does nothing; otherwise the step replayed is marked when it is a mine and
      // revealed when it is still hidden
      ensures old(solveSteps) == [] && old(solveQueue) != [] && old(solveQueue)[0] in old(revealed) ==>
        result == Idle
      ensures var c := (if old(solveSteps) != [] then old(solveSteps)[0]
                        else if old(solveQueue) != [] then old(solveQueue)[0] else (0, 0));
        (old(solveSteps) != [] || (old(solveQueue) != [] && old(solveQueue)[0] !in old(revealed))) ==>
        result == (if c in Mines() then Marked(c) else if c !in old(revealed) then Opened(c) else Idle)
      ensures old(StepsSafe()) ==> StepsSafe() && !result.Marked?
    {
      if solveSteps == [] && solveQueue == [] {
        Sweep();
        var won := CheckWin();
        assert won;
        if won {
          WinGame();
        }
        return Finished;
      }
      result := Idle;
      if solveSteps == [] {
        var (x, y) := solveQueue[0];
        solveQueue := solveQueue[1..];
        if (x, y) !in revealed {
          Bfs(x, y);
          ZerosAreSafe();
          FloodAvoidsMines(size, Zeros(), Mines(), (x, y));
          BfsOrderVisitsOnce(size, Zeros(), [(x, y)], {});
          assert solveSteps == Flood(size, Zeros(), (x, y));
        }
      }
      if solveSteps != [] {
        var (cx, cy) := solveSteps[0];
        assert (cx, cy) in solveSteps;
        solveSteps := solveSteps[1..];
        if board[cx, cy] == -1 {
          MarkBomb(cx, cy);
          result := Marked((cx, cy));
        } else if (cx, cy) !in revealed {
          Reveal(cx, cy);
          result := Opened((cx, cy));
        }
      }
    }

    /** `prepare_solve_game`: seed the worklist, then take the first step. */
    method PrepareSolve() returns (result: StepResult)
      requires Valid()
      modifies this
      ensures Valid()
      ensures result == Finished ==>
        ClearedBy(revealed) && revealed == AllCells(size) && solveQueue == [] && solveSteps == []
      ensures result == Finished ==> old(solveSteps) == []
      // the worklist gains the per-row seeds, and the first step runs on it
      ensures var seeded := old(solveQueue) + Seeds(size, Zeros(), old(revealed), size);
        && (old(solveSteps) != [] ==> solveQueue == seeded && solveSteps == old(solveSteps)[1..])
        && (old(solveSteps) == [] && seeded != [] ==> solveQueue == seeded[1..])
        && (old(solveSteps) == [] && seeded != [] && seeded[0] in old(revealed) ==> result == Idle)
        && (var c := (if old(solveSteps) != [] then old(solveSteps)[0]
                      else if seeded != [] then seeded[0] else (0, 0));
            (old(solveSteps) != [] || (seeded != [] && seeded[0] !in old(revealed))) ==>
            result == (if c in Mines() then Marked(c) else if c !in old(revealed) then Opened(c) else Idle))
      ensures var seeded := old(solveQueue) + Seeds(size, Zeros(), old(revealed), size);
        && (result == Finished <==> old(solveSteps) == [] && seeded == [])
        && (old(solveSteps) == [] && seeded != [] && InGrid(size, seeded[0]) ==>
              solveSteps == (if seeded[0] in old(revealed) then [] else Flood(size, Zeros(), seeded[0])[1..]))
      ensures result.Opened? || result.Marked? ==> InGrid(size, result.cell)
      ensures result.Opened? ==> marked == old(marked) && revealed == AfterReveal(size, Zeros(), old(revealed), result.cell)
      ensures result.Marked? ==> revealed == old(revealed) && marked == old(marked) + {result.cell}
      ensures result == Idle ==> revealed == old(revealed) && marked == old(marked)
      ensures old(StepsSafe()) ==> StepsSafe() && marked == old(marked)
    {
      SeedSolveQueue();
      SeedsAreFirstHiddenZeros(size, Zeros(), revealed, size);
      result := SolveStep();
    }

    /**
     * The timer chain started by the Solve button, as a loop: prepare, then step
     * until a step reports Finished. It ends with every non-mine cell revealed
     * and the board frozen, and, from a state with no mine among the pending
     * steps (as after construction), it never marks a bomb.
     */
    method Solve()
      requires Valid()
      modifies this
      ensures Valid() && ClearedBy(revealed) && revealed == AllCells(size)
      ensures solveQueue == [] && solveSteps == []
      ensures old(StepsSafe()) ==> marked == old(marked)
    {
      ghost var safe := StepsSafe();
      var result := PrepareSolve();
      while result != Finished
        invariant Valid()
        invariant safe ==> StepsSafe() && marked == old(marked)
        invariant result == Finished ==>
          ClearedBy(revealed) && revealed == AllCells(size) && solveQueue == [] && solveSteps == []
        decreases if result == Finished then 0 else 1, |solveQueue|, |solveSteps|
      {
        result := SolveStep();
      }
    }
  }
}
