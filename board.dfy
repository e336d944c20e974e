/** The grid both front ends play on: ROWS x COLS cells, each empty or holding
    one player's token. Row 0 is the top row; tokens fall towards row ROWS - 1. */
module Board {
  import opened Wrappers

  const ROWS := 6
  const COLS := 7

  datatype Player = Red | Yellow

  /** `Empty` is the `null` of the source; a token records who dropped it. */
  datatype Cell = Empty | Token(owner: Player)

  datatype Coord = Coord(row: int, column: int)

  type Grid = seq<seq<Cell>>

  /** The turn toggle `red <-> yellow`. */
  function Other(p: Player): (q: Player)
    ensures q != p
  {
    if p == Red then Yellow else Red
  }

  predicate InBounds(r: int, c: int) {
    0 <= r < ROWS && 0 <= c < COLS
  }

  predicate WellFormed(g: Grid) {
    |g| == ROWS && forall r :: 0 <= r < ROWS ==> |g[r]| == COLS
  }

  /** True when cell `x` is on the board and holds a token of `p`. */
  predicate Holds(g: Grid, x: Coord, p: Player)
    requires WellFormed(g)
  {
    InBounds(x.row, x.column) && g[x.row][x.column] == Token(p)
  }

  /** Six rows of seven empty cells. */
  function EmptyBoard(): (g: Grid)
    ensures WellFormed(g)
    ensures forall r, c :: InBounds(r, c) ==> g[r][c] == Empty
  {
    seq(ROWS, _ => seq(COLS, _ => Empty))
  }

  /** The board with `p`'s token written into cell (r, c) and every other cell kept. */
  function Place(g: Grid, r: int, c: int, p: Player): (h: Grid)
    requires WellFormed(g) && InBounds(r, c)
    ensures WellFormed(h)
    ensures h[r][c] == Token(p)
    ensures forall i, j :: InBounds(i, j) && (i != r || j != c) ==> h[i][j] == g[i][j]
  {
    g[r := g[r][c := Token(p)]]
  }

  /** Every cell holds a token. */
  predicate IsFull(g: Grid)
    requires WellFormed(g)
  {
    forall r, c :: 0 <= r < ROWS && 0 <= c < COLS ==> g[r][c] != Empty
  }

  // ---------------------------------------------------------------------------
  // Gravity: the landing row of a column

  /** Scans rows r, r - 1, ..., 0 of column c and yields the first empty one. */
  function LowestEmptyFrom(g: Grid, c: int, r: int): (res: Option<int>)
    requires WellFormed(g) && 0 <= c < COLS && -1 <= r < ROWS
    ensures res.Some? ==>
      0 <= res.value <= r && g[res.value][c] == Empty &&
      forall i :: res.value < i <= r ==> g[i][c] != Empty
    ensures res.None? ==> forall i :: 0 <= i <= r ==> g[i][c] != Empty
    decreases r + 1
  {
    if r < 0 then None
    else if g[r][c] == Empty then Some(r)
    else LowestEmptyFrom(g, c, r - 1)
  }

  /** The row a token dropped into column c comes to rest in: the largest
      empty row index, or None when the column is full. */
  function LandingRow(g: Grid, c: int): (res: Option<int>)
    requires WellFormed(g) && 0 <= c < COLS
    ensures res.Some? ==>
      0 <= res.value < ROWS && g[res.value][c] == Empty &&
      forall i :: res.value < i < ROWS ==> g[i][c] != Empty
    ensures res.None? <==> forall i :: 0 <= i < ROWS ==> g[i][c] != Empty
  {
    LowestEmptyFrom(g, c, ROWS - 1)
  }

  /** No token floats: every cell below a filled cell is filled. */
  predicate Stacked(g: Grid)
    requires WellFormed(g)
  {
    forall r, r', c :: 0 <= r < r' < ROWS && 0 <= c < COLS && g[r][c] != Empty ==> g[r'][c] != Empty
  }

  /** Dropping into the landing row keeps the board stacked. */
  lemma PlaceKeepsStacked(g: Grid, c: int, p: Player)
    requires WellFormed(g) && 0 <= c < COLS && Stacked(g) && LandingRow(g, c).Some?
    ensures Stacked(Place(g, LandingRow(g, c).value, c, p))
  {
    var r := LandingRow(g, c).value;
    var h := Place(g, r, c, p);
    forall i, i', j | 0 <= i < i' < ROWS && 0 <= j < COLS && h[i][j] != Empty
      ensures h[i'][j] != Empty
    {
      if j == c && i == r {
        assert g[i'][j] != Empty;
      } else if j != c || i' != r {
        assert g[i][j] != Empty;
      }
    }
  }

  /** On a stacked board a column accepts a token exactly when its top cell is empty. */
  lemma OpenColumnIffTopEmpty(g: Grid, c: int)
    requires WellFormed(g) && 0 <= c < COLS && Stacked(g)
    ensures LandingRow(g, c).Some? <==> g[0][c] == Empty
  {
  }

  // ---------------------------------------------------------------------------
  // Counting tokens

  function RowCount(row: seq<Cell>, x: Cell): nat {
    if row == [] then 0 else (if row[0] == x then 1 else 0) + RowCount(row[1..], x)
  }

  /** The number of cells of g equal to x. */
  function Count(g: Grid, x: Cell): nat {
    if g == [] then 0 else RowCount(g[0], x) + Count(g[1..], x)
  }

  /** The number of tokens on the board. */
  function Filled(g: Grid): nat {
    Count(g, Token(Red)) + Count(g, Token(Yellow))
  }

  lemma {:induction false} RowCountUpdate(row: seq<Cell>, j: int, y: Cell, x: Cell)
    requires 0 <= j < |row|
    ensures RowCount(row[j := y], x) == RowCount(row, x) - (if row[j] == x then 1 else 0) + (if y == x then 1 else 0)
  {
    if j > 0 {
      assert row[j := y][1..] == row[1..][j - 1 := y];
      RowCountUpdate(row[1..], j - 1, y, x);
    } else {
      assert row[j := y][1..] == row[1..];
    }
  }

  lemma {:induction false} CountUpdate(g: Grid, i: int, newRow: seq<Cell>, x: Cell)
    requires 0 <= i < |g|
    ensures Count(g[i := newRow], x) == Count(g, x) - RowCount(g[i], x) + RowCount(newRow, x)
  {
    if i > 0 {
      assert g[i := newRow][1..] == g[1..][i - 1 := newRow];
      CountUpdate(g[1..], i - 1, newRow, x);
    } else {
      assert g[i := newRow][1..] == g[1..];
    }
  }

  /** Writing one cell moves exactly one unit of count from its old content to its new one. */
  lemma CountPlace(g: Grid, r: int, c: int, p: Player, x: Cell)
    requires WellFormed(g) && InBounds(r, c)
    ensures Count(Place(g, r, c, p), x) ==
      Count(g, x) - (if g[r][c] == x then 1 else 0) + (if Token(p) == x then 1 else 0)
  {
    RowCountUpdate(g[r], c, Token(p), x);
    CountUpdate(g, r, g[r][c := Token(p)], x);
  }

  /** Dropping `p` on an empty cell adds one token of `p`, none of the other
      player's, and one to the total. */
  lemma FilledPlace(g: Grid, r: int, c: int, p: Player)
    requires WellFormed(g) && InBounds(r, c) && g[r][c] == Empty
    ensures Count(Place(g, r, c, p), Token(p)) == Count(g, Token(p)) + 1
    ensures Count(Place(g, r, c, p), Token(Other(p))) == Count(g, Token(Other(p)))
    ensures Filled(Place(g, r, c, p)) == Filled(g) + 1
  {
    CountPlace(g, r, c, p, Token(p));
    CountPlace(g, r, c, p, Token(Other(p)));
    CountPlace(g, r, c, p, Token(Red));
    CountPlace(g, r, c, p, Token(Yellow));
  }

  lemma {:induction false} RowCountZero(row: seq<Cell>, x: Cell)
    ensures RowCount(row, x) == 0 <==> forall j :: 0 <= j < |row| ==> row[j] != x
  {
    if row != [] {
      RowCountZero(row[1..], x);
      assert forall j :: 1 <= j < |row| ==> row[j] == row[1..][j - 1];
    }
  }

  lemma {:induction false} CountZero(g: Grid, x: Cell)
    ensures Count(g, x) == 0 <==> forall i, j :: 0 <= i < |g| && 0 <= j < |g[i]| ==> g[i][j] != x
  {
    if g != [] {
      RowCountZero(g[0], x);
      CountZero(g[1..], x);
      assert forall i :: 1 <= i < |g| ==> g[i] == g[1..][i - 1];
    }
  }

  lemma {:induction false} RowCountTotal(row: seq<Cell>)
    ensures RowCount(row, Empty) + RowCount(row, Token(Red)) + RowCount(row, Token(Yellow)) == |row|
  {
    if row != [] {
      RowCountTotal(row[1..]);
      if row[0].Token? {
        assert row[0].owner.Red? || row[0].owner.Yellow?;
        assert row[0] == Token(row[0].owner);
      }
    }
  }

  lemma {:induction false} CountTotal(g: Grid)
    requires forall i :: 0 <= i < |g| ==> |g[i]| == COLS
    ensures Count(g, Empty) + Filled(g) == |g| * COLS
  {
    if g != [] {
      RowCountTotal(g[0]);
      CountTotal(g[1..]);
    }
  }

  /** The board is full exactly when it holds ROWS * COLS tokens. */
  lemma FullIffAllFilled(g: Grid)
    requires WellFormed(g)
    ensures IsFull(g) <==> Filled(g) == ROWS * COLS
  {
    CountZero(g, Empty);
    CountTotal(g);
  }

  /** The empty board holds no token. */
  lemma EmptyBoardHoldsNothing()
    ensures Filled(EmptyBoard()) == 0
    ensures Count(EmptyBoard(), Token(Red)) == 0 && Count(EmptyBoard(), Token(Yellow)) == 0
    ensures Stacked(EmptyBoard()) && !IsFull(EmptyBoard())
  {
    var g := EmptyBoard();
    CountZero(g, Token(Red));
    CountZero(g, Token(Yellow));
    assert g[0][0] == Empty;
  }
}
