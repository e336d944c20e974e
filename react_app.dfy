/** The React front end: the line search helpers and the component state with
    its column-click and reset handlers. Each click is one atomic transition of
    the six state fields. */
module ReactApp {
  import opened Wrappers
  import opened Board
  import opened Lines

  /** Collects the cells next to (row, column), stepping (deltaRow, deltaColumn),
      while they are on the board and hold `player`. */
  method GatherCells(grid: Grid, row: int, column: int, player: Player, deltaRow: int, deltaColumn: int)
    returns (cells: seq<Coord>)
    requires WellFormed(grid) && IsDirection(deltaRow, deltaColumn)
    ensures cells == Forward(grid, row, column, player, deltaRow, deltaColumn)
  {
    cells := [];
    var r := row + deltaRow;
    var c := column + deltaColumn;
    while 0 <= r < ROWS && 0 <= c < COLS && grid[r][c] == Token(player)
      invariant cells + Run(grid, r, c, player, deltaRow, deltaColumn) ==
        Forward(grid, row, column, player, deltaRow, deltaColumn)
      decreases Span(r, c, deltaRow, deltaColumn)
    {
      RunExtend(grid, r, c, player, deltaRow, deltaColumn, cells);
      cells := cells + [Coord(r, c)];
      r := r + deltaRow;
      c := c + deltaColumn;
    }
    assert cells + [] == cells;
  }

  /** Tries the four axes in order and returns the first line through
      (row, column) of at least four cells: the root, the forward run, then the
      backward run. None when no axis has one. */
  method GetWinningCells(grid: Grid, row: int, column: int, player: Player)
    returns (sequence: Option<seq<Coord>>)
    requires WellFormed(grid)
    ensures sequence == WinningLine(grid, row, column, player)
    ensures sequence.Some? ==> |sequence.value| >= 4 && sequence.value[0] == Coord(row, column)
  {
    for i := 0 to 4
      invariant WinningLineFrom(grid, row, column, player, i) == WinningLine(grid, row, column, player)
    {
      var (deltaRow, deltaColumn) := Direction(i);
      var forward := GatherCells(grid, row, column, player, deltaRow, deltaColumn);
      var backward := GatherCells(grid, row, column, player, -deltaRow, -deltaColumn);
      var cells := [Coord(row, column)] + forward + backward;
      assert cells == LineThrough(grid, row, column, player, i);
      if |cells| >= 4 {
        return Some(cells);
      }
    }
    return None;
  }

  /** The handler's downward row scan: the first row, from the bottom one up,
      whose cell in `column` is empty, or None when the column is full. */
  method ScanColumn(grid: Grid, column: int) returns (row: Option<int>)
    requires WellFormed(grid) && 0 <= column < COLS
    ensures row == LandingRow(grid, column)
    ensures row.Some? ==>
      0 <= row.value < ROWS && grid[row.value][column] == Empty &&
      forall i :: row.value < i < ROWS ==> grid[i][column] != Empty
    ensures row.None? <==> forall i :: 0 <= i < ROWS ==> grid[i][column] != Empty
  {
    var rowIndex := ROWS - 1;
    while rowIndex >= 0
      invariant -1 <= rowIndex < ROWS
      invariant LandingRow(grid, column) == LowestEmptyFrom(grid, column, rowIndex)
      decreases rowIndex + 1
    {
      if grid[rowIndex][column] == Empty {
        return Some(rowIndex);
      }
      rowIndex := rowIndex - 1;
    }
    return None;
  }

  // ---------------------------------------------------------------------------
  // The component state and its transitions

  datatype Move = Move(row: int, column: int, player: Player)

  datatype AppState = AppState(
    board: Grid,
    currentPlayer: Player,
    winner: Option<Player>,
    isDraw: bool,
    lastMove: Option<Move>,
    winningCells: seq<Coord>)

  /** The state on mount and after a reset: empty board, red to move, no
      outcome, no last move, no highlighted line. */
  function Initial(): AppState {
    AppState(EmptyBoard(), Red, None, false, None, [])
  }

  predicate GameOver(s: AppState) {
    s.winner.Some? || s.isDraw
  }

  /** A click on column `column`. Ignored when the game is over or the column is
      full; otherwise the mover's token lands in the column's lowest empty row
      and becomes the last move, and then the game is won (the line through the
      new token is recorded), drawn (the board is full), or passed to the other
      player. */
  function ColumnClick(s: AppState, column: int): (t: AppState)
    requires WellFormed(s.board) && 0 <= column < COLS
    ensures WellFormed(t.board)
  {
    if s.winner.Some? || s.isDraw then s
    else match LandingRow(s.board, column)
      case None => s
      case Some(r) =>
        var next := Place(s.board, r, column, s.currentPlayer);
        var moved := s.(board := next, lastMove := Some(Move(r, column, s.currentPlayer)));
        match WinningLine(next, r, column, s.currentPlayer)
        case Some(line) => moved.(winner := Some(s.currentPlayer), winningCells := line)
        case None =>
          if IsFull(next) then moved.(isDraw := true, winningCells := [])
          else moved.(currentPlayer := Other(s.currentPlayer))
  }

  /** What holds of every state the component reaches from its initial state. */
  ghost predicate Consistent(s: AppState) {
    && WellFormed(s.board)
    && Stacked(s.board)
    && !(s.winner.Some? && s.isDraw)
    && (s.isDraw ==> IsFull(s.board))
    && (s.winner.None? ==> s.winningCells == [])
    && (GameOver(s) ==> s.lastMove.Some? && s.lastMove.value.player == s.currentPlayer)
    && (s.winner.Some? ==> s.winner.value == s.currentPlayer && |s.winningCells| >= 4)
    && (s.lastMove.Some? ==>
          var m := s.lastMove.value;
          && InBounds(m.row, m.column)
          && s.board[m.row][m.column] == Token(m.player)
          && (s.winner.Some? <==> WinningLine(s.board, m.row, m.column, m.player).Some?)
          && (s.winner.Some? ==> s.winningCells == WinningLine(s.board, m.row, m.column, m.player).value))
    // strict alternation: red has played as often as yellow, or once more
    && (!GameOver(s) ==>
          Count(s.board, Token(Red)) == Count(s.board, Token(Yellow)) + (if s.currentPlayer == Red then 0 else 1))
    && (GameOver(s) ==>
          Count(s.board, Token(Red)) == Count(s.board, Token(Yellow)) + (if s.currentPlayer == Red then 1 else 0))
  }

  /** The initial state is consistent and holds no token. */
  lemma InitialConsistent()
    ensures Consistent(Initial())
    ensures Filled(Initial().board) == 0
  {
    EmptyBoardHoldsNothing();
  }

  /** Every click keeps the state consistent. */
  lemma ClickPreservesConsistent(s: AppState, column: int)
    requires Consistent(s) && 0 <= column < COLS
    ensures Consistent(ColumnClick(s, column))
  {
    if !GameOver(s) && LandingRow(s.board, column).Some? {
      var r := LandingRow(s.board, column).value;
      var p := s.currentPlayer;
      var next := Place(s.board, r, column, p);
      FilledPlace(s.board, r, column, p);
      PlaceKeepsStacked(s.board, column, p);
      WinningLineShape(next, r, column, p);
    }
  }

  /** A click is ignored exactly when the game is over or the column is full. */
  lemma ClickIgnoredIff(s: AppState, column: int)
    requires WellFormed(s.board) && 0 <= column < COLS
    ensures ColumnClick(s, column) == s <==>
      GameOver(s) || forall i :: 0 <= i < ROWS ==> s.board[i][column] != Empty
  {
    if !GameOver(s) && LandingRow(s.board, column).Some? {
      var r := LandingRow(s.board, column).value;
      assert ColumnClick(s, column).board[r][column] != s.board[r][column];
    }
  }

  /** An accepted click writes the mover's token into the largest empty row of
      the column, changes no other cell, records that cell as the last move, and
      adds exactly one token to the board. */
  lemma ClickDropsIntoLowestEmptyRow(s: AppState, column: int)
    requires WellFormed(s.board) && 0 <= column < COLS && !GameOver(s)
    requires exists i :: 0 <= i < ROWS && s.board[i][column] == Empty
    ensures exists r ::
      && 0 <= r < ROWS
      && s.board[r][column] == Empty
      && (forall i :: r < i < ROWS ==> s.board[i][column] != Empty)
      && ColumnClick(s, column).board == Place(s.board, r, column, s.currentPlayer)
      && ColumnClick(s, column).lastMove == Some(Move(r, column, s.currentPlayer))
    ensures Filled(ColumnClick(s, column).board) == Filled(s.board) + 1
  {
    var r := LandingRow(s.board, column).value;
    FilledPlace(s.board, r, column, s.currentPlayer);
  }

  /** The outcome of an accepted click, with r its landing row and p the mover:
      a four-in-a-row through the new token wins for p and records the line; a
      board filled without one is a draw; otherwise the turn passes to the other
      player. Only in the last case does the current player change. */
  lemma ClickOutcome(s: AppState, column: int, r: int)
    requires WellFormed(s.board) && 0 <= column < COLS && !GameOver(s)
    requires LandingRow(s.board, column) == Some(r)
    ensures var p := s.currentPlayer;
      var t := ColumnClick(s, column);
      && (HasFourThrough(t.board, r, column, p) ==>
            && t.winner == Some(p) && !t.isDraw && t.currentPlayer == p
            && |t.winningCells| >= 4 && t.winningCells[0] == Coord(r, column))
      && (!HasFourThrough(t.board, r, column, p) && IsFull(t.board) ==>
            t.isDraw && t.winner.None? && t.winningCells == [] && t.currentPlayer == p)
      && (!HasFourThrough(t.board, r, column, p) && !IsFull(t.board) ==>
            !GameOver(t) && t.currentPlayer == Other(p) && t.winningCells == s.winningCells)
  {
    var p := s.currentPlayer;
    var next := Place(s.board, r, column, p);
    WinDetectionSoundAndComplete(next, r, column, p);
    WinningLineIffIsWinning(next, r, column, p);
    WinningLineShape(next, r, column, p);
    match WinningLine(next, r, column, p)
    case None =>
    case Some(line) =>
      var i :| 0 <= i < 4 && line == LineThrough(next, r, column, p, i);
      LineThroughCells(next, r, column, p, i);
  }

  // ---------------------------------------------------------------------------
  // Sequences of clicks

  predicate Accepted(s: AppState, column: int)
    requires WellFormed(s.board) && 0 <= column < COLS
  {
    !GameOver(s) && LandingRow(s.board, column).Some?
  }

  predicate ValidColumns(columns: seq<int>) {
    forall i :: 0 <= i < |columns| ==> 0 <= columns[i] < COLS
  }

  /** The state after clicking the given columns in order. */
  function Play(s: AppState, columns: seq<int>): (t: AppState)
    requires WellFormed(s.board) && ValidColumns(columns)
    ensures WellFormed(t.board)
    decreases |columns|
  {
    if columns == [] then s else Play(ColumnClick(s, columns[0]), columns[1..])
  }

  /** How many of the clicks are accepted when played in order from `s`. */
  function AcceptedCount(s: AppState, columns: seq<int>): nat
    requires WellFormed(s.board) && ValidColumns(columns)
    decreases |columns|
  {
    if columns == [] then 0
    else (if Accepted(s, columns[0]) then 1 else 0) + AcceptedCount(ColumnClick(s, columns[0]), columns[1..])
  }

  /** The board holds one token per accepted click. */
  lemma {:induction false} TokensMatchAcceptedClicks(s: AppState, columns: seq<int>)
    requires WellFormed(s.board) && ValidColumns(columns)
    ensures Filled(Play(s, columns).board) == Filled(s.board) + AcceptedCount(s, columns)
    decreases |columns|
  {
    if columns != [] {
      var t := ColumnClick(s, columns[0]);
      if Accepted(s, columns[0]) {
        FilledPlace(s.board, LandingRow(s.board, columns[0]).value, columns[0], s.currentPlayer);
      }
      TokensMatchAcceptedClicks(t, columns[1..]);
    }
  }

  /** Every state reached by clicks from the initial state is consistent. */
  lemma {:induction false} PlayKeepsConsistent(s: AppState, columns: seq<int>)
    requires Consistent(s) && ValidColumns(columns)
    ensures Consistent(Play(s, columns))
    decreases |columns|
  {
    if columns != [] {
      ClickPreservesConsistent(s, columns[0]);
      PlayKeepsConsistent(ColumnClick(s, columns[0]), columns[1..]);
    }
  }

  /** Clicking one more column continues the play. */
  lemma {:induction false} PlayAppend(s: AppState, columns: seq<int>, column: int)
    requires WellFormed(s.board) && ValidColumns(columns) && 0 <= column < COLS
    ensures ValidColumns(columns + [column])
    ensures Play(s, columns + [column]) == ColumnClick(Play(s, columns), column)
    decreases |columns|
  {
    if columns == [] {
      assert [] + [column] == [column];
    } else {
      assert (columns + [column])[1..] == columns[1..] + [column];
      PlayAppend(ColumnClick(s, columns[0]), columns[1..], column);
    }
  }

  // ---------------------------------------------------------------------------
  // The component

  class App {
    var board: Grid
    var currentPlayer: Player
    var winner: Option<Player>
    var isDraw: bool
    var lastMove: Option<Move>
    var winningCells: seq<Coord>
    /** The columns clicked since mount or the last reset. */
    ghost var clicks: seq<int>

    ghost function State(): AppState
      reads this
    {
      AppState(board, currentPlayer, winner, isDraw, lastMove, winningCells)
    }

    /** The state is the one the recorded clicks lead to from the initial state. */
    ghost predicate Valid()
      reads this
    {
      ValidColumns(clicks) && State() == Play(Initial(), clicks)
    }

    /** Every state the component reaches is consistent. */
    lemma ValidIsConsistent()
      requires Valid()
      ensures Consistent(State())
    {
      InitialConsistent();
      PlayKeepsConsistent(Initial(), clicks);
    }

    /** The state hooks' initial values. */
    constructor ()
      ensures Valid() && State() == Initial()
    {
      board := EmptyBoard();
      currentPlayer := Red;
      winner := None;
      isDraw := false;
      lastMove := None;
      winningCells := [];
      clicks := [];
    }

    /** Puts every state field back to its initial value. */
    method ResetGame()
      modifies this
      ensures Valid() && State() == Initial()
    {
      board := EmptyBoard();
      currentPlayer := Red;
      winner := None;
      isDraw := false;
      lastMove := None;
      winningCells := [];
      clicks := [];
    }

    /** The click handler: scans the column upwards from the bottom row, writes
        the mover's token into a copy of the board at the first empty cell, and
        records a win, a draw or the next player, exactly as `ColumnClick` says. */
    method HandleColumnClick(columnIndex: int)
      requires WellFormed(board) && 0 <= columnIndex < COLS
      modifies this
      ensures State() == ColumnClick(old(State()), columnIndex) && clicks == old(clicks)
    {
      ghost var s := State();
      ghost var t := ColumnClick(s, columnIndex);
      if winner.Some? || isDraw {
        return;
      }
      var landing := ScanColumn(board, columnIndex);
      if landing.None? {
        return;
      }
      var rowIndex := landing.value;
      var nextBoard := board[rowIndex := board[rowIndex][columnIndex := Token(currentPlayer)]];
      board := nextBoard;
      lastMove := Some(Move(rowIndex, columnIndex, currentPlayer));

      var winningSequence := GetWinningCells(nextBoard, rowIndex, columnIndex, currentPlayer);
      if winningSequence.Some? {
        winner := Some(currentPlayer);
        winningCells := winningSequence.value;
        assert State() == t;
        return;
      }

      var filled := IsFull(nextBoard);
      if filled {
        isDraw := true;
        winningCells := [];
        assert State() == t;
        return;
      }

      currentPlayer := Other(currentPlayer);
      assert State() == t;
    }

    /** A click on a rendered column button: runs the handler and records the
        column, so the state stays the one the recorded clicks lead to. */
    method ClickColumn(columnIndex: int)
      requires Valid() && 0 <= columnIndex < COLS
      modifies this
      ensures Valid() && clicks == old(clicks) + [columnIndex]
      ensures State() == ColumnClick(old(State()), columnIndex)
    {
      PlayAppend(Initial(), clicks, columnIndex);
      HandleColumnClick(columnIndex);
      clicks := clicks + [columnIndex];
    }
  }
}
