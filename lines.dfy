/** Win detection rooted at the cell just played: walks outward along the four
    axes and measures the run of the mover's tokens through that cell. */
module Lines {
  import opened Wrappers
  import opened Board

  /** One of the eight unit steps (dr, dc) on the grid. */
  predicate IsDirection(dr: int, dc: int) {
    -1 <= dr <= 1 && -1 <= dc <= 1 && (dr != 0 || dc != 0)
  }

  /** The axes checked, in order: horizontal, vertical, down-right diagonal,
      down-left diagonal. */
  function Direction(i: int): (d: (int, int))
    requires 0 <= i < 4
    ensures IsDirection(d.0, d.1) && d.0 >= 0
  {
    if i == 0 then (0, 1) else if i == 1 then (1, 0) else if i == 2 then (1, 1) else (1, -1)
  }

  /** k * d for a unit component d. */
  function Offset(k: int, d: int): int
    requires -1 <= d <= 1
  {
    if d == 1 then k else if d == -1 then -k else 0
  }

  /** The cell k steps from (row, column) along (dr, dc); negative k walks the other way. */
  function Along(row: int, column: int, dr: int, dc: int, k: int): Coord
    requires -1 <= dr <= 1 && -1 <= dc <= 1
  {
    Coord(row + Offset(k, dr), column + Offset(k, dc))
  }

  /** How many steps along (dr, dc) a walk from (r, c) may still take before it
      leaves the board; positive whenever (r, c) is on the board. */
  function Span(r: int, c: int, dr: int, dc: int): int
    requires IsDirection(dr, dc)
  {
    if dc == 1 then COLS - c
    else if dc == -1 then c + 1
    else if dr == 1 then ROWS - r
    else r + 1
  }

  /** Starting one step further along shifts every step index by one. */
  lemma AlongShift(r: int, c: int, dr: int, dc: int, j: int)
    requires -1 <= dr <= 1 && -1 <= dc <= 1
    ensures Along(r + dr, c + dc, dr, dc, j) == Along(r, c, dr, dc, j + 1)
  {
  }

  /** The cells visited from (r, c) on, stepping (dr, dc), for as long as they
      are on the board and hold `p`. */
  function Run(g: Grid, r: int, c: int, p: Player, dr: int, dc: int): seq<Coord>
    requires WellFormed(g) && IsDirection(dr, dc)
    decreases Span(r, c, dr, dc)
  {
    if InBounds(r, c) && g[r][c] == Token(p) then [Coord(r, c)] + Run(g, r + dr, c + dc, p, dr, dc)
    else []
  }

  /** The run of `p`'s tokens next to the root (row, column), going (dr, dc). */
  function Forward(g: Grid, row: int, column: int, p: Player, dr: int, dc: int): seq<Coord>
    requires WellFormed(g) && IsDirection(dr, dc)
  {
    Run(g, row + dr, column + dc, p, dr, dc)
  }

  /** A walk that finds `p` at (r, c) lists that cell and then goes on from the
      next step; appended to cells already collected, it continues them. */
  lemma RunExtend(g: Grid, r: int, c: int, p: Player, dr: int, dc: int, cells: seq<Coord>)
    requires WellFormed(g) && IsDirection(dr, dc) && InBounds(r, c) && g[r][c] == Token(p)
    ensures cells + Run(g, r, c, p, dr, dc) == (cells + [Coord(r, c)]) + Run(g, r + dr, c + dc, p, dr, dc)
  {
    var rest := Run(g, r + dr, c + dc, p, dr, dc);
    assert cells + ([Coord(r, c)] + rest) == (cells + [Coord(r, c)]) + rest;
  }

  /** The number of steps from (r, c) on, stepping (dr, dc), that are on the
      board and hold `p`, counted without listing them. */
  function Streak(g: Grid, r: int, c: int, p: Player, dr: int, dc: int): nat
    requires WellFormed(g) && IsDirection(dr, dc)
    decreases Span(r, c, dr, dc)
  {
    if InBounds(r, c) && g[r][c] == Token(p) then 1 + Streak(g, r + dr, c + dc, p, dr, dc)
    else 0
  }

  /** Counting the walk gives the length of the listed walk. */
  lemma {:induction false} StreakIsRunLength(g: Grid, r: int, c: int, p: Player, dr: int, dc: int)
    requires WellFormed(g) && IsDirection(dr, dc)
    ensures Streak(g, r, c, p, dr, dc) == |Run(g, r, c, p, dr, dc)|
    decreases Span(r, c, dr, dc)
  {
    if InBounds(r, c) && g[r][c] == Token(p) {
      StreakIsRunLength(g, r + dr, c + dc, p, dr, dc);
    }
  }

  /** The run's j-th cell is the j-th step from its start, and every cell of
      the run holds `p`. */
  lemma {:induction false} RunCells(g: Grid, r: int, c: int, p: Player, dr: int, dc: int)
    requires WellFormed(g) && IsDirection(dr, dc)
    ensures forall j :: 0 <= j < |Run(g, r, c, p, dr, dc)| ==>
      Run(g, r, c, p, dr, dc)[j] == Along(r, c, dr, dc, j) && Holds(g, Run(g, r, c, p, dr, dc)[j], p)
    decreases Span(r, c, dr, dc)
  {
    var run := Run(g, r, c, p, dr, dc);
    if InBounds(r, c) && g[r][c] == Token(p) {
      var rest := Run(g, r + dr, c + dc, p, dr, dc);
      RunCells(g, r + dr, c + dc, p, dr, dc);
      forall j | 0 <= j < |run|
        ensures run[j] == Along(r, c, dr, dc, j) && Holds(g, run[j], p)
      {
        if j > 0 {
          assert run[j] == rest[j - 1];
          AlongShift(r, c, dr, dc, j - 1);
        }
      }
    }
  }

  /** The walk stops at the first step that is off the board or does not hold
      `p`, and never takes more steps than the board leaves room for. */
  lemma {:induction false} RunStops(g: Grid, r: int, c: int, p: Player, dr: int, dc: int)
    requires WellFormed(g) && IsDirection(dr, dc)
    ensures !Holds(g, Along(r, c, dr, dc, |Run(g, r, c, p, dr, dc)|), p)
    ensures |Run(g, r, c, p, dr, dc)| <= if Span(r, c, dr, dc) < 0 then 0 else Span(r, c, dr, dc)
    decreases Span(r, c, dr, dc)
  {
    if InBounds(r, c) && g[r][c] == Token(p) {
      var rest := Run(g, r + dr, c + dc, p, dr, dc);
      RunStops(g, r + dr, c + dc, p, dr, dc);
      AlongShift(r, c, dr, dc, |rest|);
    } else {
      assert Along(r, c, dr, dc, 0) == Coord(r, c);
    }
  }

  /** From a cell on the board, the run next to it is shorter than a board row. */
  lemma ForwardBound(g: Grid, row: int, column: int, p: Player, dr: int, dc: int)
    requires WellFormed(g) && IsDirection(dr, dc)
    ensures InBounds(row, column) ==> |Forward(g, row, column, p, dr, dc)| < COLS
  {
    RunStops(g, row + dr, column + dc, p, dr, dc);
  }

  /** The run next to the root is made of the consecutive cells root + k * (dr, dc),
      k = 1, 2, ..., each holding `p`; the next cell does not hold `p`; and the run
      is shorter than a board row. */
  lemma ForwardShape(g: Grid, row: int, column: int, p: Player, dr: int, dc: int)
    requires WellFormed(g) && IsDirection(dr, dc)
    ensures forall k :: 0 <= k < |Forward(g, row, column, p, dr, dc)| ==>
      Forward(g, row, column, p, dr, dc)[k] == Along(row, column, dr, dc, k + 1) &&
      Holds(g, Forward(g, row, column, p, dr, dc)[k], p)
    ensures !Holds(g, Along(row, column, dr, dc, |Forward(g, row, column, p, dr, dc)| + 1), p)
    ensures InBounds(row, column) ==> |Forward(g, row, column, p, dr, dc)| < COLS
  {
    var run := Forward(g, row, column, p, dr, dc);
    RunCells(g, row + dr, column + dc, p, dr, dc);
    RunStops(g, row + dr, column + dc, p, dr, dc);
    ForwardBound(g, row, column, p, dr, dc);
    forall k | 0 <= k < |run|
      ensures run[k] == Along(row, column, dr, dc, k + 1) && Holds(g, run[k], p)
    {
      AlongShift(row, column, dr, dc, k);
    }
    AlongShift(row, column, dr, dc, |run|);
  }

  /** The run next to the root reaches at least m cells exactly when the first m
      steps all hold `p`. */
  lemma ForwardReach(g: Grid, row: int, column: int, p: Player, dr: int, dc: int, m: nat)
    requires WellFormed(g) && IsDirection(dr, dc)
    ensures |Forward(g, row, column, p, dr, dc)| >= m <==>
      forall j :: 1 <= j <= m ==> Holds(g, Along(row, column, dr, dc, j), p)
  {
    var run := Forward(g, row, column, p, dr, dc);
    ForwardShape(g, row, column, p, dr, dc);
    if |run| >= m {
      forall j | 1 <= j <= m
        ensures Holds(g, Along(row, column, dr, dc, j), p)
      {
        assert run[j - 1] == Along(row, column, dr, dc, j);
      }
    }
  }

  /** Walking backwards along (dr, dc) is walking forwards along (-dr, -dc). */
  lemma AlongReversed(row: int, column: int, dr: int, dc: int, k: int)
    requires -1 <= dr <= 1 && -1 <= dc <= 1
    ensures Along(row, column, -dr, -dc, k) == Along(row, column, dr, dc, -k)
  {
  }

  // ---------------------------------------------------------------------------
  // The two win checks

  /** 1 + the runs on both sides of the root along axis i: the length of the line
      of `p`'s tokens through the root on that axis. */
  function DirectionLength(g: Grid, row: int, column: int, p: Player, i: int): nat
    requires WellFormed(g) && 0 <= i < 4
  {
    var (dr, dc) := Direction(i);
    1 + |Forward(g, row, column, p, dr, dc)| + |Forward(g, row, column, p, -dr, -dc)|
  }

  /** The root, then the forward run, then the backward run along axis i. */
  function LineThrough(g: Grid, row: int, column: int, p: Player, i: int): seq<Coord>
    requires WellFormed(g) && 0 <= i < 4
  {
    var (dr, dc) := Direction(i);
    [Coord(row, column)] + Forward(g, row, column, p, dr, dc) + Forward(g, row, column, p, -dr, -dc)
  }

  /** The line along the first axis from i on whose line through the root is at
      least four long; None when there is none. */
  function WinningLineFrom(g: Grid, row: int, column: int, p: Player, i: int): Option<seq<Coord>>
    requires WellFormed(g) && 0 <= i <= 4
    decreases 4 - i
  {
    if i == 4 then None
    else if |LineThrough(g, row, column, p, i)| >= 4 then Some(LineThrough(g, row, column, p, i))
    else WinningLineFrom(g, row, column, p, i + 1)
  }

  /** The winning line through the root, as the first qualifying axis gives it. */
  function WinningLine(g: Grid, row: int, column: int, p: Player): Option<seq<Coord>>
    requires WellFormed(g)
  {
    WinningLineFrom(g, row, column, p, 0)
  }

  /** Some axis carries a line of at least four through the root. */
  predicate IsWinning(g: Grid, row: int, column: int, p: Player)
    requires WellFormed(g)
  {
    exists i :: 0 <= i < 4 && DirectionLength(g, row, column, p, i) >= 4
  }

  lemma {:induction false} WinningLineFromIff(g: Grid, row: int, column: int, p: Player, i: int)
    requires WellFormed(g) && 0 <= i <= 4
    ensures WinningLineFrom(g, row, column, p, i).Some? <==>
      exists j :: i <= j < 4 && DirectionLength(g, row, column, p, j) >= 4
    decreases 4 - i
  {
    if i < 4 {
      WinningLineFromIff(g, row, column, p, i + 1);
      assert |LineThrough(g, row, column, p, i)| == DirectionLength(g, row, column, p, i);
    }
  }

  /** Both win checks agree: the line search finds a line exactly when the
      count check reports a win. */
  lemma WinningLineIffIsWinning(g: Grid, row: int, column: int, p: Player)
    requires WellFormed(g)
    ensures WinningLine(g, row, column, p).Some? <==> IsWinning(g, row, column, p)
  {
    WinningLineFromIff(g, row, column, p, 0);
  }

  lemma {:induction false} WinningLineFromShape(g: Grid, row: int, column: int, p: Player, i: int)
    requires WellFormed(g) && 0 <= i <= 4
    ensures match WinningLineFrom(g, row, column, p, i)
      case None => forall j :: i <= j < 4 ==> DirectionLength(g, row, column, p, j) < 4
      case Some(line) =>
        exists j :: i <= j < 4 && line == LineThrough(g, row, column, p, j) &&
          DirectionLength(g, row, column, p, j) >= 4 &&
          forall j' :: i <= j' < j ==> DirectionLength(g, row, column, p, j') < 4
    decreases 4 - i
  {
    if i < 4 {
      WinningLineFromShape(g, row, column, p, i + 1);
      assert |LineThrough(g, row, column, p, i)| == DirectionLength(g, row, column, p, i);
    }
  }

  /** The search tries the axes in order and returns the line of the first one
      whose line through the root has at least four cells; None means no axis has. */
  lemma WinningLineShape(g: Grid, row: int, column: int, p: Player)
    requires WellFormed(g)
    ensures match WinningLine(g, row, column, p)
      case None => forall i :: 0 <= i < 4 ==> DirectionLength(g, row, column, p, i) < 4
      case Some(line) =>
        exists i :: 0 <= i < 4 && line == LineThrough(g, row, column, p, i) &&
          |line| >= 4 &&
          forall j :: 0 <= j < i ==> DirectionLength(g, row, column, p, j) < 4
  {
    WinningLineFromShape(g, row, column, p, 0);
  }

  /** A line through the root starts at the root, then lists the forward run
      (steps 1, 2, ... along the axis) and the backward run (steps -1, -2, ...),
      every listed cell after the root holding `p`. */
  lemma LineThroughCells(g: Grid, row: int, column: int, p: Player, i: int)
    requires WellFormed(g) && 0 <= i < 4
    ensures var line := LineThrough(g, row, column, p, i);
      var (dr, dc) := Direction(i);
      var f := |Forward(g, row, column, p, dr, dc)|;
      |line| == DirectionLength(g, row, column, p, i) && line[0] == Coord(row, column) &&
      (forall k :: 1 <= k <= f ==> line[k] == Along(row, column, dr, dc, k) && Holds(g, line[k], p)) &&
      (forall k :: f < k < |line| ==> line[k] == Along(row, column, dr, dc, f - k) && Holds(g, line[k], p))
  {
    var line := LineThrough(g, row, column, p, i);
    var (dr, dc) := Direction(i);
    var fwd := Forward(g, row, column, p, dr, dc);
    var bwd := Forward(g, row, column, p, -dr, -dc);
    var f := |fwd|;
    ForwardShape(g, row, column, p, dr, dc);
    ForwardShape(g, row, column, p, -dr, -dc);
    forall k | 1 <= k <= f
      ensures line[k] == Along(row, column, dr, dc, k) && Holds(g, line[k], p)
    {
      assert line[k] == fwd[k - 1];
    }
    forall k | f < k < |line|
      ensures line[k] == Along(row, column, dr, dc, f - k) && Holds(g, line[k], p)
    {
      assert line[k] == bwd[k - f - 1];
      AlongReversed(row, column, dr, dc, k - f);
    }
  }

  // ---------------------------------------------------------------------------
  // A reference definition of "four in a row through the root"

  /** The four cells at steps s .. s + 3 along (dr, dc) all hold `p`. */
  predicate WindowAt(g: Grid, row: int, column: int, p: Player, dr: int, dc: int, s: int)
    requires WellFormed(g) && -1 <= dr <= 1 && -1 <= dc <= 1
  {
    forall k :: s <= k < s + 4 ==> Holds(g, Along(row, column, dr, dc, k), p)
  }

  /** Four aligned tokens of `p` on axis i cover the root. */
  predicate FourOnAxis(g: Grid, row: int, column: int, p: Player, i: int)
    requires WellFormed(g) && 0 <= i < 4
  {
    var (dr, dc) := Direction(i);
    exists s :: -3 <= s <= 0 && WindowAt(g, row, column, p, dr, dc, s)
  }

  /** Four aligned tokens of `p` on one of the four axes of the table cover the root. */
  predicate FourOnSomeAxis(g: Grid, row: int, column: int, p: Player)
    requires WellFormed(g)
  {
    exists i :: 0 <= i < 4 && FourOnAxis(g, row, column, p, i)
  }

  /** Some four-in-a-row of `p`, along any of the eight unit directions, passes
      through the root. This does not consult the axis table. */
  predicate HasFourThrough(g: Grid, row: int, column: int, p: Player)
    requires WellFormed(g)
  {
    exists dr, dc, s :: -1 <= dr <= 1 && -1 <= dc <= 1 && (dr != 0 || dc != 0) && -3 <= s <= 0 &&
      WindowAt(g, row, column, p, dr, dc, s)
  }

  /** Every unit direction lies on one of the four axes, forwards or backwards. */
  lemma AxesCoverAllDirections(dr: int, dc: int)
    requires IsDirection(dr, dc)
    ensures exists i :: 0 <= i < 4 && (Direction(i) == (dr, dc) || Direction(i) == (-dr, -dc))
  {
    var i := if dr == 0 then 0 else if dc == 0 then 1 else if dr == dc then 2 else 3;
    assert Direction(i) == (dr, dc) || Direction(i) == (-dr, -dc);
  }

  /** A window of four read backwards is a window of four on the opposite direction. */
  lemma WindowReversed(g: Grid, row: int, column: int, p: Player, dr: int, dc: int, s: int)
    requires WellFormed(g) && -1 <= dr <= 1 && -1 <= dc <= 1
    requires WindowAt(g, row, column, p, -dr, -dc, s)
    ensures WindowAt(g, row, column, p, dr, dc, -s - 3)
  {
    forall k | -s - 3 <= k < -s + 1
      ensures Holds(g, Along(row, column, dr, dc, k), p)
    {
      AlongReversed(row, column, dr, dc, -k);
    }
  }

  /** The four axes of the table miss no line: a four-in-a-row through the root
      along any unit direction is one along an axis of the table, and back. */
  lemma AxesSuffice(g: Grid, row: int, column: int, p: Player)
    requires WellFormed(g)
    ensures FourOnSomeAxis(g, row, column, p) <==> HasFourThrough(g, row, column, p)
  {
    if FourOnSomeAxis(g, row, column, p) {
      var i :| 0 <= i < 4 && FourOnAxis(g, row, column, p, i);
      var (dr, dc) := Direction(i);
      var s :| -3 <= s <= 0 && WindowAt(g, row, column, p, dr, dc, s);
      assert IsDirection(dr, dc);
    }
    if HasFourThrough(g, row, column, p) {
      var dr, dc, s :| -1 <= dr <= 1 && -1 <= dc <= 1 && (dr != 0 || dc != 0) && -3 <= s <= 0 && WindowAt(g, row, column, p, dr, dc, s);
      AxesCoverAllDirections(dr, dc);
      var i :| 0 <= i < 4 && (Direction(i) == (dr, dc) || Direction(i) == (-dr, -dc));
      if Direction(i) != (dr, dc) {
        WindowReversed(g, row, column, p, -dr, -dc, s);
        assert WindowAt(g, row, column, p, -dr, -dc, -s - 3);
      }
      assert FourOnAxis(g, row, column, p, i);
    }
  }

  /** A line of at least four through the root on axis i contains a window of
      four aligned tokens covering the root. */
  lemma AxisLengthGivesFour(g: Grid, row: int, column: int, p: Player, i: int)
    requires WellFormed(g) && 0 <= i < 4 && Holds(g, Coord(row, column), p)
    requires DirectionLength(g, row, column, p, i) >= 4
    ensures FourOnAxis(g, row, column, p, i)
  {
    var (dr, dc) := Direction(i);
    var f := |Forward(g, row, column, p, dr, dc)|;
    var b := |Forward(g, row, column, p, -dr, -dc)|;
    ForwardReach(g, row, column, p, dr, dc, f);
    ForwardReach(g, row, column, p, -dr, -dc, b);
    var s := if b >= 3 then -3 else -b;
    forall k | s <= k < s + 4
      ensures Holds(g, Along(row, column, dr, dc, k), p)
    {
      if k == 0 {
        assert Along(row, column, dr, dc, 0) == Coord(row, column);
      } else if k < 0 {
        AlongReversed(row, column, dr, dc, -k);
        assert Holds(g, Along(row, column, -dr, -dc, -k), p);
      } else {
        assert 1 <= k <= f;
      }
    }
    assert WindowAt(g, row, column, p, dr, dc, s);
  }

  /** Four aligned tokens covering the root on axis i make the line through the
      root on that axis at least four long. */
  lemma FourGivesAxisLength(g: Grid, row: int, column: int, p: Player, i: int)
    requires WellFormed(g) && 0 <= i < 4
    requires FourOnAxis(g, row, column, p, i)
    ensures DirectionLength(g, row, column, p, i) >= 4
  {
    var (dr, dc) := Direction(i);
    var s :| -3 <= s <= 0 && WindowAt(g, row, column, p, dr, dc, s);
    forall j | 1 <= j <= s + 3
      ensures Holds(g, Along(row, column, dr, dc, j), p)
    {
    }
    var br, bc := -dr, -dc;
    forall j | 1 <= j <= -s
      ensures Holds(g, Along(row, column, br, bc, j), p)
    {
      AlongReversed(row, column, dr, dc, j);
      assert Holds(g, Along(row, column, dr, dc, -j), p);
    }
    ForwardReach(g, row, column, p, dr, dc, s + 3);
    ForwardReach(g, row, column, p, -dr, -dc, -s);
  }

  /** On each axis, the counted line through the root reaches four exactly when
      four aligned tokens of `p` on that axis cover the root. */
  lemma AxisLengthIffFour(g: Grid, row: int, column: int, p: Player, i: int)
    requires WellFormed(g) && 0 <= i < 4 && Holds(g, Coord(row, column), p)
    ensures DirectionLength(g, row, column, p, i) >= 4 <==> FourOnAxis(g, row, column, p, i)
  {
    if DirectionLength(g, row, column, p, i) >= 4 {
      AxisLengthGivesFour(g, row, column, p, i);
    }
    if FourOnAxis(g, row, column, p, i) {
      FourGivesAxisLength(g, row, column, p, i);
    }
  }

  /** Win detection is sound and complete: when the root holds the mover's token,
      the count check reports a win exactly when some four-in-a-row of the mover
      passes through the root. */
  lemma WinDetectionSoundAndComplete(g: Grid, row: int, column: int, p: Player)
    requires WellFormed(g) && Holds(g, Coord(row, column), p)
    ensures IsWinning(g, row, column, p) <==> HasFourThrough(g, row, column, p)
  {
    forall i | 0 <= i < 4
      ensures DirectionLength(g, row, column, p, i) >= 4 <==> FourOnAxis(g, row, column, p, i)
    {
      AxisLengthIffFour(g, row, column, p, i);
    }
    assert IsWinning(g, row, column, p) <==> FourOnSomeAxis(g, row, column, p);
    AxesSuffice(g, row, column, p);
  }
}
