/** The plain-script front end: one board array updated in place, the player
    to move and a game-over flag, with the click handler and the reset. */
module VanillaGame {
  import opened Wrappers
  import opened Board
  import opened Lines

  /** The script's three module-level variables as one value. */
  datatype Session = Session(board: Grid, currentPlayer: Player, gameOver: bool)

  /** The state at load time and after a reset. */
  function Start(): Session {
    Session(EmptyBoard(), Red, false)
  }

  /** A click on column `column`. Ignored once the game is over or when the
      column is full; otherwise the mover's token lands in the column's lowest
      empty row, and a winning move or a now-full board ends the game, while any
      other move passes the turn. */
  function CellClick(s: Session, column: int): (t: Session)
    requires WellFormed(s.board) && 0 <= column < COLS
    ensures WellFormed(t.board)
  {
    if s.gameOver then s
    else match LandingRow(s.board, column)
      case None => s
      case Some(r) =>
        var next := Place(s.board, r, column, s.currentPlayer);
        if IsWinning(next, r, column, s.currentPlayer) then Session(next, s.currentPlayer, true)
        else if IsFull(next) then Session(next, s.currentPlayer, true)
        else Session(next, Other(s.currentPlayer), false)
  }

  /** A click is ignored exactly when the game is over or the column is full. */
  lemma CellClickIgnoredIff(s: Session, column: int)
    requires WellFormed(s.board) && 0 <= column < COLS
    ensures CellClick(s, column) == s <==>
      s.gameOver || forall i :: 0 <= i < ROWS ==> s.board[i][column] != Empty
  {
    if !s.gameOver && LandingRow(s.board, column).Some? {
      var r := LandingRow(s.board, column).value;
      assert CellClick(s, column).board[r][column] != s.board[r][column];
    }
  }

  /** An accepted click sets exactly the landing cell, the largest empty row of
      the column, to the mover's token. A win through that cell or a full board
      ends the game with the mover still current; otherwise the turn passes and
      the game goes on. */
  lemma CellClickEffect(s: Session, column: int, r: int)
    requires WellFormed(s.board) && 0 <= column < COLS && !s.gameOver
    requires LandingRow(s.board, column) == Some(r)
    ensures var t := CellClick(s, column);
      var p := s.currentPlayer;
      && s.board[r][column] == Empty
      && (forall i :: r < i < ROWS ==> s.board[i][column] != Empty)
      && t.board == Place(s.board, r, column, p)
      && Filled(t.board) == Filled(s.board) + 1
      && (t.gameOver <==> HasFourThrough(t.board, r, column, p) || IsFull(t.board))
      && (t.gameOver ==> t.currentPlayer == p)
      && (!t.gameOver ==> t.currentPlayer == Other(p))
  {
    var p := s.currentPlayer;
    var next := Place(s.board, r, column, p);
    FilledPlace(s.board, r, column, p);
    WinDetectionSoundAndComplete(next, r, column, p);
  }

  /** A well-formed grid whose every cell is empty is the empty board. */
  lemma AllEmptyIsEmptyBoard(g: Grid)
    requires WellFormed(g)
    requires forall r, c :: InBounds(r, c) ==> g[r][c] == Empty
    ensures g == EmptyBoard()
  {
    forall i | 0 <= i < ROWS
      ensures g[i] == EmptyBoard()[i]
    {
      assert forall j :: 0 <= j < COLS ==> g[i][j] == Empty;
    }
  }

  /** A grid that agrees with `g` except for cell (r, c), which holds `p`'s
      token, is `Place(g, r, c, p)`. */
  lemma PlacedCells(g: Grid, r: int, c: int, p: Player, h: Grid)
    requires WellFormed(g) && WellFormed(h) && InBounds(r, c)
    requires h[r][c] == Token(p)
    requires forall i, j :: InBounds(i, j) && (i != r || j != c) ==> h[i][j] == g[i][j]
    ensures h == Place(g, r, c, p)
  {
    var k := Place(g, r, c, p);
    forall i | 0 <= i < ROWS
      ensures h[i] == k[i]
    {
      assert forall j :: 0 <= j < COLS ==> h[i][j] == k[i][j];
    }
  }

  /** The board as the script holds it: a 6 x 7 array updated in place. */
  class Game {
    const board: array2<Cell>
    var currentPlayer: Player
    var gameOver: bool

    ghost predicate Valid() {
      board.Length0 == ROWS && board.Length1 == COLS
    }

    /** The contents of the board array as rows of cells. */
    ghost function Cells(): (g: Grid)
      reads board
      requires Valid()
      ensures WellFormed(g)
      ensures forall r, c :: InBounds(r, c) ==> g[r][c] == board[r, c]
    {
      seq(ROWS, (r: int) requires 0 <= r < ROWS reads board =>
        seq(COLS, (c: int) requires 0 <= c < COLS reads board => board[r, c]))
    }

    ghost function Snapshot(): Session
      reads this, board
      requires Valid()
    {
      Session(Cells(), currentPlayer, gameOver)
    }

    /** The board, player and flag as the script initialises them. */
    constructor ()
      ensures Valid() && fresh(board) && Snapshot() == Start()
    {
      board := new Cell[ROWS, COLS]((r: int, c: int) => Empty);
      currentPlayer := Red;
      gameOver := false;
      new;
      AllEmptyIsEmptyBoard(Cells());
    }

    /** The largest row index whose cell in `column` is empty, or None when the
        column is full. */
    method AvailableRow(column: int) returns (row: Option<int>)
      requires Valid() && 0 <= column < COLS
      ensures row == LandingRow(Cells(), column)
      ensures row.Some? ==>
        0 <= row.value < ROWS && board[row.value, column] == Empty &&
        forall i :: row.value < i < ROWS ==> board[i, column] != Empty
      ensures row.None? ==> forall i :: 0 <= i < ROWS ==> board[i, column] != Empty
    {
      var r := ROWS - 1;
      while r >= 0
        invariant -1 <= r < ROWS
        invariant LandingRow(Cells(), column) == LowestEmptyFrom(Cells(), column, r)
        decreases r + 1
      {
        if board[r, column] == Empty {
          return Some(r);
        }
        r := r - 1;
      }
      return None;
    }

    /** The number of consecutive cells beyond (row, col), stepping
        step * (dr, dc), that hold the current player's token. */
    method CountDirection(row: int, col: int, dr: int, dc: int, step: int) returns (streak: nat)
      requires Valid() && IsDirection(dr, dc) && (step == 1 || step == -1)
      ensures step == 1 ==> streak == |Forward(Cells(), row, col, currentPlayer, dr, dc)|
      ensures step == -1 ==> streak == |Forward(Cells(), row, col, currentPlayer, -dr, -dc)|
      ensures InBounds(row, col) ==> streak < COLS
    {
      ghost var g := Cells();
      var sr, sc := if step == 1 then dr else -dr, if step == 1 then dc else -dc;
      var r := row + sr;
      var c := col + sc;
      streak := 0;
      while 0 <= r < ROWS && 0 <= c < COLS && board[r, c] == Token(currentPlayer)
        invariant IsDirection(sr, sc)
        invariant streak + Streak(g, r, c, currentPlayer, sr, sc) == Streak(g, row + sr, col + sc, currentPlayer, sr, sc)
        decreases Streak(g, r, c, currentPlayer, sr, sc)
      {
        streak := streak + 1;
        r := r + sr;
        c := c + sc;
      }
      StreakIsRunLength(g, row + sr, col + sc, currentPlayer, sr, sc);
      ForwardBound(g, row, col, currentPlayer, sr, sc);
    }

    /** Whether some axis through (row, col) carries at least four of the
        current player's tokens: the root, plus the runs on both sides. */
    method IsWinningMove(row: int, col: int) returns (won: bool)
      requires Valid()
      ensures won == IsWinning(Cells(), row, col, currentPlayer)
    {
      ghost var g := Cells();
      won := false;
      var i := 0;
      while i < 4 && !won
        invariant 0 <= i <= 4
        invariant won ==> 0 < i && DirectionLength(g, row, col, currentPlayer, i - 1) >= 4
        invariant forall j :: 0 <= j < (if won then i - 1 else i) ==> DirectionLength(g, row, col, currentPlayer, j) < 4
      {
        var (dr, dc) := Direction(i);
        var count := 1;
        var forward := CountDirection(row, col, dr, dc, 1);
        count := count + forward;
        var backward := CountDirection(row, col, dr, dc, -1);
        count := count + backward;
        assert count == DirectionLength(g, row, col, currentPlayer, i);
        won := count >= 4;
        i := i + 1;
      }
    }

    /** No cell of the board is empty. */
    predicate IsBoardFull()
      reads this, board
      requires Valid()
      ensures IsBoardFull() <==> IsFull(Cells())
    {
      forall r, c :: 0 <= r < ROWS && 0 <= c < COLS ==> board[r, c] != Empty
    }

    /** The click handler: drops the mover's token into `column` in place and
        then ends the game or passes the turn, exactly as `CellClick` says. */
    method HandleCellClick(column: int)
      requires Valid() && 0 <= column < COLS
      modifies this, board
      ensures Valid()
      ensures Snapshot() == CellClick(old(Snapshot()), column)
    {
      ghost var s := Snapshot();
      if gameOver {
        return;
      }

      var availableRow := AvailableRow(column);
      if availableRow.None? {
        return;
      }
      var r := availableRow.value;
      ghost var next := Place(s.board, r, column, currentPlayer);

      board[r, column] := Token(currentPlayer);
      PlacedCells(s.board, r, column, currentPlayer, Cells());

      var won := IsWinningMove(r, column);
      if won {
        gameOver := true;
        return;
      }

      if IsBoardFull() {
        gameOver := true;
        return;
      }

      currentPlayer := Other(currentPlayer);
    }

    /** Empties every cell in place and hands the first move to red. */
    method ClearBoard()
      requires Valid()
      modifies this, board
      ensures Valid()
      ensures Snapshot() == Start()
    {
      for row := 0 to ROWS
        invariant forall i, j :: 0 <= i < row && 0 <= j < COLS ==> board[i, j] == Empty
      {
        for col := 0 to COLS
          invariant forall i, j :: 0 <= i < row && 0 <= j < COLS ==> board[i, j] == Empty
          invariant forall j :: 0 <= j < col ==> board[row, j] == Empty
        {
          board[row, col] := Empty;
        }
      }
      currentPlayer := Red;
      gameOver := false;
      AllEmptyIsEmptyBoard(Cells());
    }
  }
}
