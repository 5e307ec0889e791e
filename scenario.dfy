/**
 * A worked game: a 3 by 3 board whose only mine is the corner (0, 0).
 *
 * Counted as the code counts, the board is
 *
 *     -1  1  0
 *      1  1  0
 *      0  0  0
 *
 * and one click on (2, 2) flood-fills every non-mine cell, so the click wins.
 */
module Scenario {
  import opened Board
  import opened Reveal
  import opened Game

  const Corner: set<Cell> := {(0, 0)}

  /** The 0 cells of the corner board. */
  const CornerZeros: set<Cell> := {(0, 2), (1, 2), (2, 0), (2, 1), (2, 2)}

  /** The three neighbours of the mine count 1; every other non-mine cell counts 0. */
  lemma CornerCounts()
    ensures AdjCount(Corner, 3, 0, 1) == 1 && AdjCount(Corner, 3, 1, 0) == 1 && AdjCount(Corner, 3, 1, 1) == 1
    ensures forall c :: c in CornerZeros ==> AdjCount(Corner, 3, c.0, c.1) == 0
  {
  }

  /** No 0 cell of the corner board is next to the mine. */
  lemma CornerZeroSafe(n: nat, z: set<Cell>, m: set<Cell>)
    requires n == 3 && z == CornerZeros && m == Corner
    ensures ZeroSafe(n, z, m)
  {
    forall c, w | c in z && InWindow(n, c, w)
      ensures c !in m && w !in m
    {
      assert c.0 == 2 || c.1 == 2;
    }
  }

  /** A closed set holding (2, 2) holds every non-mine cell: (2, 2), then (1, 2) and (2, 1), expand. */
  lemma CornerClosedCoversAll(n: nat, z: set<Cell>, F: set<Cell>)
    requires n == 3 && z == CornerZeros
    requires (2, 2) in F && Closed(n, z, F)
    ensures AllCells(n) - Corner <= F
  {
    assert InWindow(n, (2, 2), (1, 1)) && InWindow(n, (2, 2), (1, 2)) && InWindow(n, (2, 2), (2, 1));
    assert (1, 2) in F && (2, 1) in F && (1, 1) in F;
    assert InWindow(n, (1, 2), (0, 1)) && InWindow(n, (1, 2), (0, 2));
    assert InWindow(n, (2, 1), (1, 0)) && InWindow(n, (2, 1), (2, 0));
    assert (0, 1) in F && (0, 2) in F && (1, 0) in F && (2, 0) in F;
    forall c | c in AllCells(n) - Corner
      ensures c in F
    {
      if c.0 == 0 {
        assert c == (0, 1) || c == (0, 2);
      } else if c.0 == 1 {
        assert c == (1, 0) || c == (1, 1) || c == (1, 2);
      } else {
        assert c == (2, 0) || c == (2, 1) || c == (2, 2);
      }
    }
  }

  /**
   * Flood-filling from (2, 2) reaches exactly the eight non-mine cells
   * (`n`, `z` and `m` are the board size, its 0 cells and its mines).
   */
  lemma CornerFlood(n: nat, z: set<Cell>, m: set<Cell>)
    requires n == 3 && z == CornerZeros && m == Corner
    ensures Elems(Flood(n, z, (2, 2))) == AllCells(n) - m
  {
    var F := Elems(Flood(n, z, (2, 2)));
    FloodIsClosure(n, z, (2, 2));
    CornerClosedCoversAll(n, z, F);
    CornerZeroSafe(n, z, m);
    FloodAvoidsMines(n, z, m, (2, 2));
    BfsOrderVisitsOnce(n, z, [(2, 2)], {});
  }

  /** A counted 3 by 3 board whose only mine is the corner has exactly the 0 cells above. */
  lemma CornerBoardZeros(g: Minesweeper)
    requires g.size == 3 && g.Shaped() && g.Counted() && g.Mines() == Corner
    ensures g.Zeros() == CornerZeros
  {
    CornerCounts();
    forall c | InGrid(3, c)
      ensures g.board[c.0, c.1] == 0 <==> c in CornerZeros
    {
      assert g.CountedAt(c.0, c.1);
    }
  }

  /** On that board, revealing (2, 2) from a fully hidden board clears it. */
  lemma CornerClickClears(g: Minesweeper)
    requires g.size == 3 && g.Shaped() && g.Mines() == Corner && g.Zeros() == CornerZeros
    ensures g.ClearedBy(AfterReveal(3, g.Zeros(), {}, (2, 2)))
  {
    CornerFlood(g.size, g.Zeros(), g.Mines());
    forall i, j | 0 <= i < 3 && 0 <= j < 3 && g.board[i, j] != -1
      ensures (i, j) in AfterReveal(3, g.Zeros(), {}, (2, 2))
    {
      assert (i, j) !in g.Mines();
    }
  }

  /**
   * The whole game on that board: build it from the single draw (0, 0), click
   * (2, 2), and the click wins.
   */
  method CornerGame() returns (outcome: ClickOutcome)
    ensures outcome == Won
  {
    assert Elems([(0, 0)]) == Corner;
    var game := new Minesweeper(3, 1, [(0, 0)]);
    assert game.Mines() == Corner;
    CornerBoardZeros(game);
    CornerClickClears(game);
    assert game.board[2, 2] == 0;
    outcome := game.OnClick(2, 2);
  }
}
