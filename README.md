# Minesweeper with a breadth-first auto-solver, in Dafny

This project models the game object of `Minesweeper_BFS_Solver.py` and proves
properties of it. The game object is a `Minesweeper` class that does three
things:

- It builds an N×N board in place: zeros, then randomly drawn mines written as
  -1, then every other cell overwritten with the number of mines in its
  3×3 window clipped to the grid.
- It reveals cells through a breadth-first flood fill.
- It runs an automatic solver. The solver seeds a worklist with hidden 0 cells
  (one per row). From each seed it runs a breadth-first traversal that records
  a visiting order. It then replays that order one step at a time. When
  nothing is left, it reveals every remaining non-mine cell.

The model keeps the same form as the code:

- `Game.Minesweeper` is a class. Its fields are:
  - `board`: an `array2<int>`, updated in place;
  - `revealed`: the set of cells whose button is disabled;
  - `marked`: the code's `marked_mines`;
  - `solveQueue` and `solveSteps`: sequences that stand for the two deques.
- Every loop of the code that changes state step by step is a `while` loop
  with invariants. Two are not: the list comprehension of `create_board` is an
  array initialiser, and the loop of `disable_buttons` is one assignment that
  marks every cell revealed.
- Each method is proved against pure specification functions on sets, in
  modules `Board`, `Reveal` and `Solver`. The lemmas about those functions
  carry the properties.

The properties proved:

- **Placement.** It places exactly `mines` mines, and only on drawn cells. A
  draw that lands on a mine places nothing.
- **Counting.** Every non-mine cell holds its window's mine count, a value from
  0 to 8. Mines stay -1. Overwriting cells in place does not change any later
  count.
- **Traversal.** The flood fill and `bfs` follow one and the same visiting
  order. That order visits each cell at most once. Its cells are exactly the
  least set that holds the start cell and the whole window of each of its 0
  cells.
- **Mines are never reached.** On a counted board, that set holds no mine when
  the start cell is not a mine.
- **Reveal.** It is monotone and idempotent. It is a no-op on a revealed cell.
- **Win check.** `check_win` holds exactly when every non-mine cell is
  revealed.
- **Solver.** Seeding enqueues at most one seed per row. Each solve step pops
  at most one seed and replays at most one step. The final sweep always wins.
  The `mark_bomb` branch of `solve_step` is never taken.

`Scenario` plays a whole game on a 3×3 board whose only mine is the corner
(0, 0):

- it builds the board;
- it checks the counts;
- it clicks (2, 2) and proves that the click wins.

How the outside world enters the model:

- **Random draws.** The draws of `random.randint` are an input sequence `draws`
  of cells.
- **Buttons.** A button's NORMAL/DISABLED state is membership of `revealed`.
- **Timer.** The `after` chain of the solver is the loop of
  `Game.Minesweeper.Solve`.
- **Returned outcomes.** `StepResult` says what a solve step did. `ClickOutcome`
  says what a click ended in.

Facts about the code that the model makes explicit:

- **Seeding.** The `break` at line 108 of `Minesweeper_BFS_Solver.py` leaves
  only the column loop. So the code seeds the first hidden 0 cell of every
  row, one seed per row (`Solver.SeedsAreFirstHiddenZeros`).
- **Flags.** Flags never block a reveal. The code keeps flags only as button
  text and in `marked_mines`, and `reveal` tests only the DISABLED state.
- **Configuration errors.** The code checks no configuration:
  - with size 0 and `mines >= 1`, `place_mines` raises ValueError from
    `randint(0, -1)`;
  - with `0 < size*size < mines`, `place_mines` loops forever;
  - `mines == size*size` is accepted;
  - here the draws must hold at least `mines` distinct cells on the grid.
- **Corner board.** On a 3×3 board whose only mine is (0, 0), the three cells
  next to the mine count 1 (`Scenario.CornerCounts`).
- **Mark actions.** A traversal only expands 0 cells, and no 0 cell borders a
  mine. So no mine is ever reached, and `mark_bomb` at line 132 is never
  called. `Game.Minesweeper.SolveStep` proves this.

## Model

| member | source | states |
|---|---|---|
| `Board.AdjCountZero` | Minesweeper_BFS_Solver.py:49-55 | the count of a cell's clipped window is 0 exactly when no cell of that window is a mine |
| `Board.AdjCountAtMostEight` | Minesweeper_BFS_Solver.py:49-55 | a non-mine cell on the grid has at most 8 mines in its window |
| `Board.RowMinesZero` | Minesweeper_BFS_Solver.py:52-54 | one row of the window scan counts 0 exactly when that row segment holds no mine |
| `Board.BlockMinesZero` | Minesweeper_BFS_Solver.py:51-54 | the row-by-row scan of a block counts 0 exactly when the block holds no mine |
| `Board.RowMinesBound` | Minesweeper_BFS_Solver.py:52-54 | a row segment counts at most its width, and one less when one of its cells is not a mine |
| `Board.DropHasNext` | Minesweeper_BFS_Solver.py:35-37 | while mines remain to be placed and placement is to reach its count, there is another draw to take |
| `Board.DropPlacesExactly` | Minesweeper_BFS_Solver.py:33-40 | from any mine set, placement with enough unused cells among the remaining draws adds exactly the requested number of mines, keeps the old ones and adds only drawn cells |
| `Board.PlacementFromDraws` | Minesweeper_BFS_Solver.py:33-40 | on an empty board, draws with at least `mines` distinct cells place exactly `mines` mines, all on drawn cells |
| `Board.DrawnFromSuffix` | Minesweeper_BFS_Solver.py:36-37 | the cells still to be drawn from position k are the elements of the rest of the draw sequence |
| `Game.CreateBoard` | Minesweeper_BFS_Solver.py:30-31 | a fresh size×size grid of zeros |
| `Game.Minesweeper.constructor` | Minesweeper_BFS_Solver.py:9-16 | the new game has a counted board whose mine set is what placement from the draws gives, exactly `mines` mines, nothing revealed or marked and empty solver queues |
| `Game.Minesweeper.PlaceMines` | Minesweeper_BFS_Solver.py:33-40 | afterwards the -1 cells are exactly the placement of `mines` mines from the draws, `mines` of them, and every other cell is still 0 |
| `Game.Minesweeper.UpdateNumbers` | Minesweeper_BFS_Solver.py:42-47 | mines stay -1 and every other cell becomes the window count of the original mine set, in 0..8, so the board is counted |
| `Game.Minesweeper.CountAdjacentMines` | Minesweeper_BFS_Solver.py:49-55 | returns the number of mines in the clipped 3×3 window around (x, y) |
| `Game.Minesweeper.ZerosAreSafe` | Minesweeper_BFS_Solver.py:42-55 | on a counted board a 0 cell is not a mine and no cell of its window is a mine |
| `Game.Minesweeper.MinesAre` | Minesweeper_BFS_Solver.py:38-39 | the mine set read off the board is the set of cells holding -1 |
| `Game.Minesweeper.CheckWin` | Minesweeper_BFS_Solver.py:227-232 | true exactly when every non-mine cell is revealed |
| `Game.Minesweeper.FloodFill` | Minesweeper_BFS_Solver.py:188-207 | reveals exactly the cells of the traversal from (x, y), and no other cell's state changes |
| `Game.Minesweeper.Reveal` | Minesweeper_BFS_Solver.py:179-186 | the new revealed set is the reveal function of the old one: unchanged on a revealed cell, the flood-fill closure for a 0 cell, the cell alone otherwise |
| `Game.Minesweeper.DisableButtons` | Minesweeper_BFS_Solver.py:223-225 | every cell is disabled |
| `Game.Minesweeper.WinGame` | Minesweeper_BFS_Solver.py:216-221 | the board is frozen, with every cell disabled |
| `Game.Minesweeper.GameOver` | Minesweeper_BFS_Solver.py:209-214 | the board is frozen, with every cell disabled |
| `Game.Minesweeper.OnClick` | Minesweeper_BFS_Solver.py:156-162 | a mine loses and freezes the board; otherwise the cell is revealed, and the click wins, freezing the board, exactly when that reveal leaves no non-mine cell hidden |
| `Game.Minesweeper.MarkBomb` | Minesweeper_BFS_Solver.py:174-177 | adds the cell to the marked set and nothing else |
| `Game.Minesweeper.Bfs` | Minesweeper_BFS_Solver.py:138-154 | appends to the step queue exactly the traversal order from (x, y), the same order the flood fill reveals, and changes nothing else |
| `Game.Minesweeper.SeedSolveQueue` | Minesweeper_BFS_Solver.py:104-108 | appends the per-row seeds: for each row in order, its first hidden 0 cell if it has one |
| `Game.Minesweeper.Sweep` | Minesweeper_BFS_Solver.py:113-116 | afterwards exactly the non-mine cells have been added to the revealed set |
| `Game.Minesweeper.SolveStep` | Minesweeper_BFS_Solver.py:111-136 | finishes, with the board cleared and frozen, exactly when both queues were empty; otherwise pops at most one seed, expanding it when it is hidden, and replays at most one step, the popped seed's first traversal cell or the pending step: a popped seed already revealed does nothing; the replayed cell is marked when it is a mine, revealed (Opened) when it is hidden, and otherwise nothing happens; marking provably never happens when no pending step is a mine |
| `Game.Minesweeper.PrepareSolve` | Minesweeper_BFS_Solver.py:102-109 | appends the per-row seeds to the worklist and takes one step on it: it finishes exactly when no step is pending and the seeded worklist is empty; otherwise the queues after the step (the rest of the seeds, and the popped seed's traversal minus its first cell when that seed was hidden), the action (Idle for a revealed seed, Marked for a mine, Opened for a hidden cell) and the new revealed and marked sets are those of one `SolveStep` on the seeded worklist; the object invariant is kept, and no bomb is marked from a state with no pending mine |
| `Game.Minesweeper.Solve` | Minesweeper_BFS_Solver.py:102-136 | the timer chain ends with every non-mine cell revealed, the board frozen and both queues empty, and marks no bomb from a state with no pending mine |
| `Reveal.RowNewMembers` | Minesweeper_BFS_Solver.py:152-154 | one row of the neighbour loop appends exactly its cells that are not yet visited |
| `Reveal.BlockNewMembers` | Minesweeper_BFS_Solver.py:151-154 | the neighbour loops over a block append exactly its cells that are not yet visited |
| `Reveal.NewNeighboursMembers` | Minesweeper_BFS_Solver.py:150-154 | expanding a cell appends exactly the unvisited cells of its clipped window |
| `Reveal.AppendNeighbours` | Minesweeper_BFS_Solver.py:201-205 | the nested loops append the unvisited window cells in row-major order |
| `Reveal.AppendRow` | Minesweeper_BFS_Solver.py:203-205 | the inner loop appends one row's unvisited cells left to right |
| `Reveal.BfsOrderVisitsOnce` | Minesweeper_BFS_Solver.py:192-196 | the traversal visits only grid cells, never a cell visited before, and each cell at most once |
| `Reveal.Flood` | Minesweeper_BFS_Solver.py:189-196 | the traversal from a cell visits that cell first |
| `Reveal.BfsOrderSkip` | Minesweeper_BFS_Solver.py:193-195 | a dequeued cell that was already visited is dropped |
| `Reveal.BfsOrderVisit` | Minesweeper_BFS_Solver.py:193-205 | a dequeued unvisited cell comes next in the order, and the traversal continues with its window appended when it is 0 |
| `Reveal.BfsOrderComplete` | Minesweeper_BFS_Solver.py:192-205 | when the queue covers the frontier, the visited cells plus the ones still to be visited are closed under expansion of 0 cells and include the queue |
| `Reveal.BfsOrderMinimal` | Minesweeper_BFS_Solver.py:192-205 | every cell the traversal visits lies in any closed set that holds the queue |
| `Reveal.FloodIsClosure` | Minesweeper_BFS_Solver.py:188-207 | the flood fill from s reveals exactly the least set holding s that is closed under expanding 0 cells |
| `Reveal.FloodAvoidsMines` | Minesweeper_BFS_Solver.py:182-183 | on a board where 0 cells border no mine, the flood fill from a non-mine cell reaches no mine |
| `Reveal.RevealGrows` | Minesweeper_BFS_Solver.py:179-186 | reveal never hides a cell, reveals the clicked cell, adds only it and its closure, is a no-op on a revealed cell and reveals a hidden nonzero cell alone |
| `Reveal.RevealIdempotent` | Minesweeper_BFS_Solver.py:179-181 | revealing the same cell twice gives the state after revealing it once |
| `Reveal.RevealAvoidsMines` | Minesweeper_BFS_Solver.py:179-186 | revealing a non-mine cell on such a board reveals no mine and nothing off the grid |
| `Solver.RowSeedIsFirst` | Minesweeper_BFS_Solver.py:105-108 | a row yields no seed exactly when it has no hidden 0 cell, and otherwise yields its first hidden 0 cell only |
| `Solver.SeedsAreFirstHiddenZeros` | Minesweeper_BFS_Solver.py:104-108 | the seeds are at most one per row, in increasing row order, each a hidden 0 cell on the grid and the first of its row |
| `Solver.SeedsCoverRows` | Minesweeper_BFS_Solver.py:104-108 | every row with a hidden 0 cell contributes a seed |
| `Scenario.CornerCounts` | Minesweeper_BFS_Solver.py:49-55 | with the single mine (0, 0) on a 3×3 board, its three neighbours count 1 and the other five non-mine cells count 0 |
| `Scenario.CornerZeroSafe` | Minesweeper_BFS_Solver.py:42-55 | on that board no 0 cell borders the mine |
| `Scenario.CornerClosedCoversAll` | Minesweeper_BFS_Solver.py:201-205 | any set closed under expansion that holds (2, 2) holds all eight non-mine cells |
| `Scenario.CornerFlood` | Minesweeper_BFS_Solver.py:188-207 | the flood fill from (2, 2) reveals exactly the eight non-mine cells |
| `Scenario.CornerBoardZeros` | Minesweeper_BFS_Solver.py:42-47 | the counted corner board has exactly the five 0 cells listed |
| `Scenario.CornerClickClears` | Minesweeper_BFS_Solver.py:227-232 | after revealing (2, 2) on that board, no non-mine cell is hidden |
| `Scenario.CornerGame` | Minesweeper_BFS_Solver.py:156-162 | building the board from the draw (0, 0) and clicking (2, 2) wins |

## Left out

- **Widgets and presentation:** colours, fonts, button text and relief, the log box, the speed slider and the message boxes (lines 17-20, 24-28, 57-92, 103, 141, 149, 175-176, 186, 199, 207, 212, 214, 219, 221). A button is only its enabled/disabled state.
- **Timing and scheduling:**
  - `update_speed`, `time.time` and the BFS duration log are left out.
  - The rescheduling by `master.after` is the loop of `Solve`, with no delay.
- **Overlapping solve chains:** pressing Solve again while a chain runs starts a second chain that interleaves with the first. The model runs one chain at a time.
- **Random draws:** `random.randint` is an input sequence of in-grid draws.
  - The constructor and `PlaceMines` require the draws to hold at least `mines` distinct cells.
  - An unlucky infinite run of repeated draws is not modelled.
  - Neither is the endless loop when `mines > size*size`.
  - Size 0 with `mines > 0` (ValueError from `randint(0, -1)`) is excluded by the draws precondition: a 0×0 grid has no cell to draw.
- **Default arguments:** the defaults `size=10, mines=10` of the constructor (line 9) are not modelled; the constructor takes both explicitly.
- **`reset_game`:** not modelled. It destroys the widgets and runs the constructor again.
- **`on_right_click`:** not modelled. It toggles the "F" text of a button and adds the cell to `marked_mines` on flagging (un-flagging does not remove it). It never affects revealing, winning or the solver.
- **Disabled buttons:** tkinter does not deliver clicks to them. `Game.Minesweeper.OnClick` models the handler alone, for any cell.
- Game.Minesweeper.Solve: its guarantee that no bomb is marked is stated for runs that start with no mine among the pending steps. This holds after construction and is kept by every step. A state built otherwise is outside the code's reach.
