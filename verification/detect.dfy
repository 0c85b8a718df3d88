/**
 Win detection. Every cell of the board is tried as the start of four
 candidate lines of four cells (horizontal, vertical, down-right diagonal,
 down-left diagonal); a line wins when all four coordinates are on the board
 and all four cells hold a piece of the player being checked.
 */
module Detect {
  import opened Board

  type Coord = (int, int)

  /** Cell (y, x) is on the board and holds a piece of player `p`. */
  predicate Owns(b: Grid, p: Player, y: int, x: int)
    requires WellFormed(b)
  {
    OnBoard(y, x) && b[y][x] == Piece(p)
  }

  /** Player `p` owns the four cells starting at (y, x) and stepping by (dy, dx). */
  predicate RunAt(b: Grid, p: Player, y: int, x: int, dy: int, dx: int)
    requires WellFormed(b)
  {
    && Owns(b, p, y, x)
    && Owns(b, p, y + dy, x + dx)
    && Owns(b, p, y + 2 * dy, x + 2 * dx)
    && Owns(b, p, y + 3 * dy, x + 3 * dx)
  }

  /** A step to one of the eight neighbouring cells. */
  predicate UnitStep(dy: int, dx: int) {
    -1 <= dy <= 1 && -1 <= dx <= 1 && (dy, dx) != (0, 0)
  }

  /**
   The rule of the game, stated independently of how the board is scanned:
   four pieces of player `p` in a straight line, in any of the eight directions.
   */
  ghost predicate HasFourInARow(b: Grid, p: Player)
    requires WellFormed(b)
  {
    exists y, x, dy, dx :: UnitStep(dy, dx) && RunAt(b, p, y, x, dy, dx)
  }

  /** The candidate line of four coordinates starting at (y, x) and stepping by (dy, dx). */
  function Line(y: int, x: int, dy: int, dx: int): seq<Coord>
  {
    [(y, x), (y + dy, x + dx), (y + 2 * dy, x + 2 * dx), (y + 3 * dy, x + 3 * dx)]
  }

  /**
   The `every` test of `_win` from position `k` of `cells` on: every
   coordinate from there is on the board and holds a piece of `p`. The bounds
   are tested before the cell is read, so no coordinate outside the board is
   ever read.
   */
  function OwnedFrom(b: Grid, p: Player, cells: seq<Coord>, k: nat): (r: bool)
    requires WellFormed(b) && k <= |cells|
    ensures r <==> forall i :: k <= i < |cells| ==> Owns(b, p, cells[i].0, cells[i].1)
    decreases |cells| - k
  {
    || k == |cells|
    || (&& 0 <= cells[k].0 && cells[k].0 < HEIGHT
        && 0 <= cells[k].1 && cells[k].1 < WIDTH
        && b[cells[k].0][cells[k].1] == Piece(p)
        && OwnedFrom(b, p, cells, k + 1))
  }

  /** `_win`: every coordinate of `cells` is on the board and holds a piece of `p`. */
  function Win(b: Grid, p: Player, cells: seq<Coord>): (r: bool)
    requires WellFormed(b)
    ensures r <==> forall i :: 0 <= i < |cells| ==> Owns(b, p, cells[i].0, cells[i].1)
  {
    OwnedFrom(b, p, cells, 0)
  }

  /** The four directions of the candidate lines, as (dy, dx): horizontal, vertical, down-right, down-left. */
  predicate IsDirection(dy: int, dx: int) {
    (dy == 0 && dx == 1) || (dy == 1 && dx == 0) || (dy == 1 && dx == 1) || (dy == 1 && dx == -1)
  }

  /** Some candidate line starting at (y, x) is a run of player `p`. */
  ghost predicate StartsRun(b: Grid, p: Player, y: int, x: int)
    requires WellFormed(b)
  {
    exists dy, dx :: IsDirection(dy, dx) && RunAt(b, p, y, x, dy, dx)
  }

  /**
   The four coordinates of a candidate line, in order. This only exposes
   the four elements of `Line` to `WinLine` as plain facts.
   */
  lemma LineCells(y: int, x: int, dy: int, dx: int)
    ensures var cells := Line(y, x, dy, dx);
      && |cells| == 4
      && cells[0] == (y, x) && cells[1] == (y + dy, x + dx)
      && cells[2] == (y + 2 * dy, x + 2 * dx) && cells[3] == (y + 3 * dy, x + 3 * dx)
  {
  }

  /** A list of four coordinates passes `Win` exactly when each of the four is owned. */
  lemma WinFour(b: Grid, p: Player, cells: seq<Coord>)
    requires WellFormed(b) && |cells| == 4
    ensures Win(b, p, cells) <==>
      && Owns(b, p, cells[0].0, cells[0].1) && Owns(b, p, cells[1].0, cells[1].1)
      && Owns(b, p, cells[2].0, cells[2].1) && Owns(b, p, cells[3].0, cells[3].1)
  {
  }

  /** A candidate line wins exactly when its four cells are a run of `p`. */
  lemma WinLine(b: Grid, p: Player, y: int, x: int, dy: int, dx: int)
    requires WellFormed(b)
    ensures Win(b, p, Line(y, x, dy, dx)) <==> RunAt(b, p, y, x, dy, dx)
  {
    LineCells(y, x, dy, dx);
    WinFour(b, p, Line(y, x, dy, dx));
  }

  /** Whether one of the four candidate lines starting at (y, x) wins, tried in the game's order. */
  function WinsFrom(b: Grid, p: Player, y: int, x: int): (r: bool)
    requires WellFormed(b)
    ensures r <==> StartsRun(b, p, y, x)
  {
    var horiz := Line(y, x, 0, 1);
    var vert := Line(y, x, 1, 0);
    var diagDR := Line(y, x, 1, 1);
    var diagDL := Line(y, x, 1, -1);
    WinLine(b, p, y, x, 0, 1);
    WinLine(b, p, y, x, 1, 0);
    WinLine(b, p, y, x, 1, 1);
    WinLine(b, p, y, x, 1, -1);
    Win(b, p, horiz) || Win(b, p, vert) || Win(b, p, diagDR) || Win(b, p, diagDL)
  }

  /** The scan of row `y` from column `x` rightward. */
  function ScanRow(b: Grid, p: Player, y: int, x: int): (r: bool)
    requires WellFormed(b) && 0 <= y < HEIGHT && 0 <= x <= WIDTH
    ensures r <==> exists x' :: x <= x' < WIDTH && StartsRun(b, p, y, x')
    // This equals WIDTH - x. Measuring it on `b` stops the verifier from unrolling the literal 7-column scan.
    decreases |b[y]| - x
  {
    if x == WIDTH then false
    else
      WinsFrom(b, p, y, x) || ScanRow(b, p, y, x + 1)
  }

  /** The scan of the rows from row `y` downward, each row left to right. */
  function ScanRows(b: Grid, p: Player, y: int): (r: bool)
    requires WellFormed(b) && 0 <= y <= HEIGHT
    ensures r <==> exists y', x' :: y <= y' < HEIGHT && 0 <= x' < WIDTH && StartsRun(b, p, y', x')
    // This equals HEIGHT - y. Measuring it on `b` stops the verifier from unrolling the literal 6-row scan.
    decreases |b| - y
  {
    if y == HEIGHT then false
    else
      var here := ScanRow(b, p, y, 0);
      var below := ScanRows(b, p, y + 1);
      // ScanRow's postcondition at x = 0, restated as a hint to the verifier
      assert here ==> exists x' :: 0 <= x' < WIDTH && StartsRun(b, p, y, x');
      here || below
  }

  /**
   Whether player `p` has a winning line: some start cell on the board and
   some of the four directions give four cells that are on the board and hold
   pieces of `p`. The game returns `true` or nothing (`undefined`); here that
   is `true` or `false`.
   */
  function CheckForWin(b: Grid, p: Player): (r: bool)
    requires WellFormed(b)
    ensures r <==> exists y, x :: 0 <= y < HEIGHT && 0 <= x < WIDTH && StartsRun(b, p, y, x)
  {
    ScanRows(b, p, 0)
  }

  /** A run read from its far end in the opposite direction is the same four cells. */
  lemma RunReversed(b: Grid, p: Player, y: int, x: int, dy: int, dx: int)
    requires WellFormed(b) && RunAt(b, p, y, x, dy, dx)
    ensures RunAt(b, p, y + 3 * dy, x + 3 * dx, -dy, -dx)
  {
  }

  /**
   The win check misses nothing: it reports a win exactly when player `p`
   has four in a row in any of the eight directions, although it only looks
   in four of them.
   */
  lemma CheckForWinComplete(b: Grid, p: Player)
    requires WellFormed(b)
    ensures CheckForWin(b, p) <==> HasFourInARow(b, p)
  {
    if HasFourInARow(b, p) {
      var y, x, dy, dx :| UnitStep(dy, dx) && RunAt(b, p, y, x, dy, dx);
      if IsDirection(dy, dx) {
        assert StartsRun(b, p, y, x);
      } else {
        RunReversed(b, p, y, x, dy, dx);
        assert IsDirection(-dy, -dx);
        assert StartsRun(b, p, y + 3 * dy, x + 3 * dx);
      }
    }
    if CheckForWin(b, p) {
      var y, x :| 0 <= y < HEIGHT && 0 <= x < WIDTH && StartsRun(b, p, y, x);
      var dy, dx :| IsDirection(dy, dx) && RunAt(b, p, y, x, dy, dx);
      assert UnitStep(dy, dx);
    }
  }

  /**
   Placing a piece of one player never creates a line for the other: every
   run of `q` on the new board was already a run of `q` on the old one.
   */
  lemma PlaceKeepsOtherRuns(b: Grid, y: int, x: int, p: Player, q: Player)
    requires WellFormed(b) && OnBoard(y, x) && q != p
    ensures HasFourInARow(Place(b, y, x, p), q) ==> HasFourInARow(b, q)
  {
    var b' := Place(b, y, x, p);
    if HasFourInARow(b', q) {
      var y0, x0, dy, dx :| UnitStep(dy, dx) && RunAt(b', q, y0, x0, dy, dx);
      assert RunAt(b, q, y0, x0, dy, dx);
    }
  }
}
