/**
 The opening of a game with clues TOP [2,1,4,2], RIGHT [2,1,3,2],
 BOTTOM [2,3,1,3] and LEFT [2,3,1,2]: a 3 at (0,0) is accepted; a 3 at
 (0,1) clashes with it along the row and a 3 at (1,0) along the column;
 a 3 at (1,1) is accepted.
 */
module Opening {
  import opened Rules
  import opened GameCore

  method PlayOpening() returns (corner: bool, sameRow: bool, sameColumn: bool, diagonal: bool)
    ensures corner && !sameRow && !sameColumn && diagonal
  {
    var game := new GameState([2, 1, 4, 2], [2, 1, 3, 2], [2, 3, 1, 3], [2, 3, 1, 2]);
    assert !Conflict(EmptyGrid(), 0, 0, 3);
    corner := game.MakeMove(0, 0, 3, Human);
    sameRow, sameColumn, diagonal := ContinueOpening(game);
  }

  /** The three attempts after the corner move, on the board holding only that 3. */
  method ContinueOpening(game: GameState) returns (sameRow: bool, sameColumn: bool, diagonal: bool)
    requires game.Valid() && game.Board() == Place(EmptyGrid(), 0, 0, 3)
    modifies game, game.grid
    ensures !sameRow && !sameColumn && diagonal
  {
    ghost var g := game.Board();
    assert Conflict(g, 0, 1, 3);
    sameRow := game.MakeMove(0, 1, 3, Cpu);
    assert Conflict(g, 1, 0, 3);
    sameColumn := game.MakeMove(1, 0, 3, Human);
    assert forall i: Index :: g[1][i] != 3 && g[i][1] != 3;
    diagonal := game.MakeMove(1, 1, 3, Human);
  }
}
