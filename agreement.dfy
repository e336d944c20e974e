/** The two front ends play the same game: started together and fed the same
    clicks, they hold the same board, the same player to move, and agree on
    whether the game is over. */
module Agreement {
  import opened Wrappers
  import opened Board
  import opened Lines
  import opened ReactApp
  import opened VanillaGame

  /** The component state and the script state describe the same position. */
  predicate Corresponds(a: AppState, v: Session) {
    a.board == v.board && a.currentPlayer == v.currentPlayer && v.gameOver == GameOver(a)
  }

  /** Both start from the empty board with red to move and the game running. */
  lemma StartsAgree()
    ensures Corresponds(Initial(), Start())
    ensures !GameOver(Initial())
  {
  }

  /** One click on corresponding states leads to corresponding states; the
      component's recorded winner is the mover exactly when the script's win
      check fires. */
  lemma ClickAgree(a: AppState, v: Session, column: int)
    requires WellFormed(a.board) && 0 <= column < COLS && Corresponds(a, v)
    ensures Corresponds(ColumnClick(a, column), CellClick(v, column))
    ensures !GameOver(a) && LandingRow(a.board, column).Some? ==>
      var r := LandingRow(a.board, column).value;
      (ColumnClick(a, column).winner == Some(a.currentPlayer) <==>
       IsWinning(Place(a.board, r, column, a.currentPlayer), r, column, a.currentPlayer))
  {
    if !GameOver(a) && LandingRow(a.board, column).Some? {
      var r := LandingRow(a.board, column).value;
      var next := Place(a.board, r, column, a.currentPlayer);
      WinningLineIffIsWinning(next, r, column, a.currentPlayer);
    }
  }

  /** The script state after clicking the given columns in order. */
  function Replay(v: Session, columns: seq<int>): (w: Session)
    requires WellFormed(v.board) && ValidColumns(columns)
    ensures WellFormed(w.board)
    decreases |columns|
  {
    if columns == [] then v else Replay(CellClick(v, columns[0]), columns[1..])
  }

  /** Any sequence of clicks keeps the two front ends in step. */
  lemma {:induction false} PlaysAgree(a: AppState, v: Session, columns: seq<int>)
    requires WellFormed(a.board) && ValidColumns(columns) && Corresponds(a, v)
    ensures Corresponds(Play(a, columns), Replay(v, columns))
    decreases |columns|
  {
    if columns != [] {
      ClickAgree(a, v, columns[0]);
      PlaysAgree(ColumnClick(a, columns[0]), CellClick(v, columns[0]), columns[1..]);
    }
  }

  /** From the start, the same clicks give the same board in both front ends. */
  lemma SameClicksSameBoard(columns: seq<int>)
    requires ValidColumns(columns)
    ensures Play(Initial(), columns).board == Replay(Start(), columns).board
    ensures GameOver(Play(Initial(), columns)) == Replay(Start(), columns).gameOver
  {
    StartsAgree();
    PlaysAgree(Initial(), Start(), columns);
  }
}
