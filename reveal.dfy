/**
 * The breadth-first traversal shared by `flood_fill` and `bfs`, and the
 * effect of `reveal` on the set of revealed cells.
 *
 * A traversal starts from one cell with a FIFO queue and a visited set. A
 * dequeued cell that was visited already is skipped; otherwise it is visited
 * and, when its board value is 0, every cell of its clipped window that is
 * not yet visited is appended to the queue in row-major order. `z` below is
 * always the set of cells whose board value is 0.
 */
module Reveal {
  import opened Board

  // ---------------------------------------------------------------------------
  // Neighbour enqueueing
  // ---------------------------------------------------------------------------

  /** The cells (i, j), jlo <= j < jhi, that are not in `visited`, left to right. */
  function RowNew(i: int, jlo: int, jhi: int, visited: set<Cell>): seq<Cell>
    decreases jhi - jlo
  {
    if jhi <= jlo then []
    else RowNew(i, jlo, jhi - 1, visited) + (if (i, jhi - 1) in visited then [] else [(i, jhi - 1)])
  }

  /** The cells of rows [ilo, ihi) and columns [jlo, jhi) not in `visited`, in row-major order. */
  function BlockNew(ilo: int, ihi: int, jlo: int, jhi: int, visited: set<Cell>): seq<Cell>
    decreases ihi - ilo
  {
    if ihi <= ilo then []
    else BlockNew(ilo, ihi - 1, jlo, jhi, visited) + RowNew(ihi - 1, jlo, jhi, visited)
  }

  /** What one expansion of `c` appends to the queue. */
  function NewNeighbours(n: int, c: Cell, visited: set<Cell>): seq<Cell> {
    BlockNew(Lo(c.0), Hi(n, c.0), Lo(c.1), Hi(n, c.1), visited)
  }

  lemma {:induction false} RowNewMembers(i: int, jlo: int, jhi: int, visited: set<Cell>)
    ensures forall w :: w in RowNew(i, jlo, jhi, visited) <==> w.0 == i && jlo <= w.1 < jhi && w !in visited
    decreases jhi - jlo
  {
    if jhi > jlo {
      RowNewMembers(i, jlo, jhi - 1, visited);
    }
  }

  lemma {:induction false} BlockNewMembers(ilo: int, ihi: int, jlo: int, jhi: int, visited: set<Cell>)
    ensures forall w :: w in BlockNew(ilo, ihi, jlo, jhi, visited)
                    <==> ilo <= w.0 < ihi && jlo <= w.1 < jhi && w !in visited
    decreases ihi - ilo
  {
    if ihi > ilo {
      BlockNewMembers(ilo, ihi - 1, jlo, jhi, visited);
      RowNewMembers(ihi - 1, jlo, jhi, visited);
    }
  }

  /** One expansion appends exactly the cells of the clipped window of `c` that are not yet visited. */
  lemma NewNeighboursMembers(n: int, c: Cell, visited: set<Cell>)
    ensures forall w :: w in NewNeighbours(n, c, visited) <==> InWindow(n, c, w) && w !in visited
  {
    BlockNewMembers(Lo(c.0), Hi(n, c.0), Lo(c.1), Hi(n, c.1), visited);
  }

  /** The nested loops of `flood_fill` and `bfs` that append the unvisited window of `c`. */
  method AppendNeighbours(n: nat, queue: seq<Cell>, c: Cell, visited: set<Cell>) returns (q: seq<Cell>)
    ensures q == queue + NewNeighbours(n, c, visited)
  {
    var ilo, ihi, jlo, jhi := Lo(c.0), Hi(n, c.0), Lo(c.1), Hi(n, c.1);
    q := queue;
    var i := ilo;
    while i < ihi
      invariant ilo <= i && (i <= ihi || i == ilo)
      invariant q == queue + BlockNew(ilo, i, jlo, jhi, visited)
    {
      q := AppendRow(q, i, jlo, jhi, visited);
      assert BlockNew(ilo, i + 1, jlo, jhi, visited)
          == BlockNew(ilo, i, jlo, jhi, visited) + RowNew(i, jlo, jhi, visited);
      i := i + 1;
    }
  }

  /** The inner loop: one row of the window, left to right. */
  method AppendRow(queue: seq<Cell>, i: int, jlo: int, jhi: int, visited: set<Cell>) returns (q: seq<Cell>)
    ensures q == queue + RowNew(i, jlo, jhi, visited)
  {
    q := queue;
    var j := jlo;
    while j < jhi
      invariant jlo <= j && (j <= jhi || j == jlo)
      invariant q == queue + RowNew(i, jlo, j, visited)
    {
      if (i, j) !in visited {
        q := q + [(i, j)];
      }
      j := j + 1;
    }
  }

  // ---------------------------------------------------------------------------
  // The visiting order
  // ---------------------------------------------------------------------------

  predicate AllInGrid(n: int, q: seq<Cell>) {
    forall c :: c in q ==> InGrid(n, c)
  }

  predicate Distinct(q: seq<Cell>) {
    forall k, l :: 0 <= k < l < |q| ==> q[k] != q[l]
  }

  /**
   * The cells the traversal visits, in visiting order, when it continues from
   * `queue` and `visited`.
   */
  function BfsOrder(n: nat, z: set<Cell>, queue: seq<Cell>, visited: set<Cell>): seq<Cell>
    requires AllInGrid(n, queue)
    decreases AllCells(n) - visited, |queue|
  {
    if queue == [] then []
    else
      var c := queue[0];
      if c in visited then BfsOrder(n, z, queue[1..], visited)
      else
        assert c in AllCells(n);
        NewNeighboursMembers(n, c, visited + {c});
        [c] + BfsOrder(n, z, queue[1..] + (if c in z then NewNeighbours(n, c, visited + {c}) else []), visited + {c})
  }

  /**
   * The traversal visits only grid cells, never one visited before, and each
   * at most once.
   */
  lemma {:induction false} BfsOrderVisitsOnce(n: nat, z: set<Cell>, queue: seq<Cell>, visited: set<Cell>)
    requires AllInGrid(n, queue)
    ensures AllInGrid(n, BfsOrder(n, z, queue, visited))
    ensures Distinct(BfsOrder(n, z, queue, visited))
    ensures forall c :: c in BfsOrder(n, z, queue, visited) ==> c !in visited
    decreases AllCells(n) - visited, |queue|
  {
    if queue != [] {
      var c := queue[0];
      if c in visited {
        BfsOrderVisitsOnce(n, z, queue[1..], visited);
      } else {
        assert c in AllCells(n);
        var v' := visited + {c};
        NewNeighboursMembers(n, c, v');
        var next := queue[1..] + (if c in z then NewNeighbours(n, c, v') else []);
        BfsOrderVisitsOnce(n, z, next, v');
        var rest := BfsOrder(n, z, next, v');
        assert BfsOrder(n, z, queue, visited) == [c] + rest;
        assert forall l :: 0 <= l < |rest| ==> rest[l] in rest;
      }
    }
  }

  /** The visiting order of `flood_fill(x, y)` and of `bfs(x, y)` when s = (x, y). */
  function Flood(n: nat, z: set<Cell>, s: Cell): (order: seq<Cell>)
    requires InGrid(n, s)
    ensures |order| > 0 && order[0] == s
  {
    BfsOrder(n, z, [s], {})
  }

  /** One dequeue of a visited cell: it is dropped. */
  lemma BfsOrderSkip(n: nat, z: set<Cell>, queue: seq<Cell>, visited: set<Cell>)
    requires AllInGrid(n, queue) && queue != [] && queue[0] in visited
    ensures AllInGrid(n, queue[1..])
    ensures BfsOrder(n, z, queue, visited) == BfsOrder(n, z, queue[1..], visited)
  {
  }

  /** One dequeue of an unvisited cell: it comes first, then the order from the updated queue. */
  lemma BfsOrderVisit(n: nat, z: set<Cell>, queue: seq<Cell>, visited: set<Cell>, next: seq<Cell>)
    requires AllInGrid(n, queue) && queue != [] && queue[0] !in visited
    requires next == queue[1..] + (if queue[0] in z then NewNeighbours(n, queue[0], visited + {queue[0]}) else [])
    ensures AllInGrid(n, next)
    ensures BfsOrder(n, z, queue, visited) == [queue[0]] + BfsOrder(n, z, next, visited + {queue[0]})
  {
    NewNeighboursMembers(n, queue[0], visited + {queue[0]});
  }

  /** `S` is closed under expansion: with every 0 cell it holds that cell's whole window. */
  ghost predicate Closed(n: int, z: set<Cell>, S: set<Cell>) {
    forall c, w :: c in S && c in z && InWindow(n, c, w) ==> w in S
  }

  /** Every cell of `visited` that is 0 has its window among the visited or queued cells. */
  ghost predicate Frontier(n: int, z: set<Cell>, queue: seq<Cell>, visited: set<Cell>) {
    forall c, w :: c in visited && c in z && InWindow(n, c, w) ==> w in visited || w in queue
  }

  /**
   * Completeness: when the queue covers the frontier of `visited`, the visited
   * cells plus the cells still to be visited form a closed set that holds the queue.
   */
  lemma {:induction false} BfsOrderComplete(n: nat, z: set<Cell>, queue: seq<Cell>, visited: set<Cell>)
    requires AllInGrid(n, queue)
    requires Frontier(n, z, queue, visited)
    ensures Closed(n, z, visited + Elems(BfsOrder(n, z, queue, visited)))
    ensures forall c :: c in queue ==> c in visited || c in BfsOrder(n, z, queue, visited)
    decreases AllCells(n) - visited, |queue|
  {
    if queue != [] {
      var c := queue[0];
      if c in visited {
        assert forall w :: w in queue ==> w == c || w in queue[1..];
        BfsOrderComplete(n, z, queue[1..], visited);
      } else {
        assert c in AllCells(n);
        var v' := visited + {c};
        NewNeighboursMembers(n, c, v');
        var added := if c in z then NewNeighbours(n, c, v') else [];
        var next := queue[1..] + added;
        assert forall w :: w in queue ==> w == c || w in next;
        assert Frontier(n, z, next, v');
        BfsOrderComplete(n, z, next, v');
        var rest := BfsOrder(n, z, next, v');
        assert BfsOrder(n, z, queue, visited) == [c] + rest;
        assert visited + Elems([c] + rest) == v' + Elems(rest);
      }
    }
  }

  /**
   * Minimality: a closed set that holds the queue holds every cell the
   * traversal goes on to visit.
   */
  lemma {:induction false} BfsOrderMinimal(n: nat, z: set<Cell>, queue: seq<Cell>, visited: set<Cell>, S: set<Cell>)
    requires AllInGrid(n, queue)
    requires Closed(n, z, S) && forall c :: c in queue ==> c in S
    ensures forall c :: c in BfsOrder(n, z, queue, visited) ==> c in S
    decreases AllCells(n) - visited, |queue|
  {
    if queue != [] {
      var c := queue[0];
      if c in visited {
        BfsOrderMinimal(n, z, queue[1..], visited, S);
      } else {
        assert c in AllCells(n);
        var v' := visited + {c};
        NewNeighboursMembers(n, c, v');
        var next := queue[1..] + (if c in z then NewNeighbours(n, c, v') else []);
        BfsOrderMinimal(n, z, next, v', S);
      }
    }
  }

  /**
   * The cells `flood_fill` reveals from `s` are exactly the closure of `s`:
   * they hold `s`, are closed under expansion of 0 cells, and lie inside
   * every closed set that holds `s`.
   */
  lemma FloodIsClosure(n: nat, z: set<Cell>, s: Cell)
    requires InGrid(n, s)
    ensures s in Flood(n, z, s)
    ensures Closed(n, z, Elems(Flood(n, z, s)))
    ensures forall S :: s in S && Closed(n, z, S) ==> Elems(Flood(n, z, s)) <= S
  {
    BfsOrderComplete(n, z, [s], {});
    assert {} + Elems(Flood(n, z, s)) == Elems(Flood(n, z, s));
    forall S | s in S && Closed(n, z, S)
      ensures Elems(Flood(n, z, s)) <= S
    {
      BfsOrderMinimal(n, z, [s], {}, S);
    }
  }

  // ---------------------------------------------------------------------------
  // Boards whose 0 cells are not next to mines
  // ---------------------------------------------------------------------------

  /** Every 0 cell is not a mine and has no mine in its window (so holds on a counted board). */
  ghost predicate ZeroSafe(n: int, z: set<Cell>, m: set<Cell>) {
    forall c, w :: c in z && InWindow(n, c, w) ==> c !in m && w !in m
  }

  /** The closure of a non-mine cell on such a board contains no mine. */
  lemma FloodAvoidsMines(n: nat, z: set<Cell>, m: set<Cell>, s: Cell)
    requires ZeroSafe(n, z, m)
    requires InGrid(n, s) && s !in m
    ensures forall c :: c in Flood(n, z, s) ==> c !in m
  {
    var safe := AllCells(n) - m;
    assert Closed(n, z, safe);
    FloodIsClosure(n, z, s);
  }

  // ---------------------------------------------------------------------------
  // reveal
  // ---------------------------------------------------------------------------

  /**
   * The revealed set after `reveal(c)` from revealed set `r`: nothing changes
   * for a revealed cell, a 0 cell reveals its flood-fill closure, any other cell
   * only itself.
   */
  function AfterReveal(n: nat, z: set<Cell>, r: set<Cell>, c: Cell): set<Cell>
    requires InGrid(n, c)
  {
    if c in r then r
    else if c in z then r + Elems(Flood(n, z, c))
    else r + {c}
  }

  /**
   * Revealing never hides a cell, always reveals `c`, and reveals only `c` and
   * its closure; on a revealed cell it changes nothing.
   */
  lemma RevealGrows(n: nat, z: set<Cell>, r: set<Cell>, c: Cell)
    requires InGrid(n, c)
    ensures r <= AfterReveal(n, z, r, c) && c in AfterReveal(n, z, r, c)
    ensures c in r ==> AfterReveal(n, z, r, c) == r
    ensures AfterReveal(n, z, r, c) - r <= {c} + Elems(Flood(n, z, c))
    ensures c !in r && c !in z ==> AfterReveal(n, z, r, c) == r + {c}
  {
    assert c in Flood(n, z, c);
  }

  /** Calling reveal twice on the same cell gives the state of calling it once. */
  lemma RevealIdempotent(n: nat, z: set<Cell>, r: set<Cell>, c: Cell)
    requires InGrid(n, c)
    ensures AfterReveal(n, z, AfterReveal(n, z, r, c), c) == AfterReveal(n, z, r, c)
  {
    RevealGrows(n, z, r, c);
  }

  /** Revealing a cell that is not a mine reveals no mine and nothing off the grid. */
  lemma RevealAvoidsMines(n: nat, z: set<Cell>, m: set<Cell>, r: set<Cell>, c: Cell)
    requires ZeroSafe(n, z, m)
    requires InGrid(n, c) && c !in m
    ensures forall w :: w in AfterReveal(n, z, r, c) - r ==> InGrid(n, w) && w !in m
  {
    RevealGrows(n, z, r, c);
    BfsOrderVisitsOnce(n, z, [c], {});
    FloodAvoidsMines(n, z, m, c);
  }
}
