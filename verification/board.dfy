/**
 The Connect Four grid: its dimensions, its cells, the empty board the game
 starts from, the gravity drop that finds where a piece lands in a column,
 the full-board test used to detect a tie, and cell counting.

 The grid is a sequence of rows indexed `b[y][x]`; row 0 is the top row and
 row HEIGHT - 1 the bottom one, so a dropped piece falls toward larger `y`.
 */
module Board {

  const WIDTH: int := 7
  const HEIGHT: int := 6

  /** A player as the game stores it: the number 1 or the number 2. */
  type Player = p: int | p == 1 || p == 2 witness 1

  /** A cell is empty (`null` in the game) or holds the number of the player whose piece is there. */
  datatype Cell = Empty | Piece(owner: Player)

  datatype Option<T> = None | Some(value: T)

  type Grid = seq<seq<Cell>>

  /** A cell is truthy in the game exactly when a piece is in it. */
  predicate Occupied(c: Cell) {
    c.Piece?
  }

  predicate OnBoard(y: int, x: int) {
    0 <= y < HEIGHT && 0 <= x < WIDTH
  }

  /** HEIGHT rows of WIDTH cells each: the only shape the game's board ever has. */
  predicate WellFormed(b: Grid) {
    |b| == HEIGHT && forall y :: 0 <= y < |b| ==> |b[y]| == WIDTH
  }

  // ---------------------------------------------------------------------------
  // Building the board
  // ---------------------------------------------------------------------------

  /** A row built by pushing `n` empty cells, one after another. */
  function EmptyRow(n: nat): (row: seq<Cell>)
    ensures |row| == n
    ensures forall x :: 0 <= x < n ==> row[x] == Empty
  {
    if n == 0 then [] else EmptyRow(n - 1) + [Empty]
  }

  /** `n` rows pushed one after another, each a fresh row of WIDTH empty cells. */
  function EmptyRows(n: nat): (rows: Grid)
    ensures |rows| == n
    ensures forall y :: 0 <= y < n ==> |rows[y]| == WIDTH
    ensures forall y, x :: 0 <= y < n && 0 <= x < WIDTH ==> rows[y][x] == Empty
  {
    if n == 0 then [] else EmptyRows(n - 1) + [EmptyRow(WIDTH)]
  }

  /** The board the game starts from: HEIGHT rows of WIDTH empty cells. */
  function MakeBoard(): (b: Grid)
    ensures |b| == HEIGHT
    ensures forall y :: 0 <= y < |b| ==> |b[y]| == WIDTH
    ensures forall y, x :: 0 <= y < HEIGHT && 0 <= x < WIDTH ==> b[y][x] == Empty
  {
    EmptyRows(HEIGHT)
  }

  // ---------------------------------------------------------------------------
  // Gravity
  // ---------------------------------------------------------------------------

  /** Every cell of column `x` holds a piece. */
  ghost predicate ColumnFull(b: Grid, x: int)
    requires WellFormed(b) && 0 <= x < WIDTH
  {
    forall y :: 0 <= y < HEIGHT ==> Occupied(b[y][x])
  }

  /** Row `y` is the lowest empty cell of column `x`: it is empty and every cell below it is occupied. */
  ghost predicate LowestEmpty(b: Grid, x: int, y: int)
    requires WellFormed(b) && 0 <= x < WIDTH
  {
    && 0 <= y < HEIGHT
    && !Occupied(b[y][x])
    && forall y' :: y < y' < HEIGHT ==> Occupied(b[y'][x])
  }

  /** The scan of column `x` from row `y` upward to row 0, stopping at the first empty cell. */
  function ScanUp(b: Grid, x: int, y: int): (r: Option<int>)
    requires WellFormed(b) && 0 <= x < WIDTH && -1 <= y < HEIGHT
    ensures r.None? <==> forall y' :: 0 <= y' <= y ==> Occupied(b[y'][x])
    ensures r.Some? ==> 0 <= r.value <= y && !Occupied(b[r.value][x])
    ensures r.Some? ==> forall y' :: r.value < y' <= y ==> Occupied(b[y'][x])
    decreases y + 1
  {
    if y < 0 then None
    else if !Occupied(b[y][x]) then Some(y)
    else ScanUp(b, x, y - 1)
  }

  /** The row a piece dropped into column `x` lands in, or None when the column is full. */
  function FindSpotForCol(b: Grid, x: int): (r: Option<int>)
    requires WellFormed(b) && 0 <= x < WIDTH
    ensures r.None? <==> ColumnFull(b, x)
    ensures r.Some? ==> LowestEmpty(b, x, r.value)
  {
    ScanUp(b, x, HEIGHT - 1)
  }

  /** Writing a piece of player `p` into cell (y, x), leaving every other cell as it was. */
  function Place(b: Grid, y: int, x: int, p: Player): (b': Grid)
    requires WellFormed(b) && OnBoard(y, x)
    ensures WellFormed(b')
    ensures b'[y][x] == Piece(p)
    ensures forall y', x' :: 0 <= y' < HEIGHT && 0 <= x' < WIDTH && (y' != y || x' != x) ==> b'[y'][x'] == b[y'][x']
  {
    b[y := b[y][x := Piece(p)]]
  }

  // ---------------------------------------------------------------------------
  // Full board
  // ---------------------------------------------------------------------------

  /** Every cell of the row is truthy. */
  function RowFull(row: seq<Cell>): (r: bool)
    ensures r <==> forall x :: 0 <= x < |row| ==> Occupied(row[x])
  {
    |row| == 0 || (Occupied(row[0]) && RowFull(row[1..]))
  }

  /** Every cell of every row is truthy: the tie test of the game. */
  function IsFull(b: Grid): (r: bool)
    ensures r <==> forall y, x :: 0 <= y < |b| && 0 <= x < |b[y]| ==> Occupied(b[y][x])
  {
    |b| == 0 || (RowFull(b[0]) && IsFull(b[1..]))
  }

  // ---------------------------------------------------------------------------
  // Counting cells
  // ---------------------------------------------------------------------------

  /** How many cells of the row equal `c`. */
  function CountRow(row: seq<Cell>, c: Cell): nat
  {
    if |row| == 0 then 0 else (if row[0] == c then 1 else 0) + CountRow(row[1..], c)
  }

  /** How many cells of the board equal `c`. */
  function Tally(b: Grid, c: Cell): nat
  {
    if |b| == 0 then 0 else CountRow(b[0], c) + Tally(b[1..], c)
  }

  /** The number of pieces on the board. */
  function Pieces(b: Grid): nat
  {
    Tally(b, Piece(1)) + Tally(b, Piece(2))
  }

  /** Overwriting one cell of a row moves one unit of count from the old value to the new one. */
  lemma {:induction false} CountRowUpdate(row: seq<Cell>, i: int, v: Cell, c: Cell)
    requires 0 <= i < |row|
    ensures CountRow(row[i := v], c)
         == CountRow(row, c) - (if row[i] == c then 1 else 0) + (if v == c then 1 else 0)
  {
    if i == 0 {
      assert row[i := v][1..] == row[1..];
    } else {
      assert row[i := v][1..] == row[1..][i - 1 := v];
      CountRowUpdate(row[1..], i - 1, v, c);
    }
  }

  /** Replacing one row of the board changes the tally by the difference of the two rows' counts. */
  lemma {:induction false} TallyUpdate(b: Grid, y: int, row: seq<Cell>, c: Cell)
    requires 0 <= y < |b|
    ensures Tally(b[y := row], c) == Tally(b, c) - CountRow(b[y], c) + CountRow(row, c)
  {
    if y == 0 {
      assert b[y := row][1..] == b[1..];
    } else {
      assert b[y := row][1..] == b[1..][y - 1 := row];
      TallyUpdate(b[1..], y - 1, row, c);
    }
  }

  /** Placing a piece into an empty cell adds one piece of that player and removes one empty cell. */
  lemma PlaceCounts(b: Grid, y: int, x: int, p: Player)
    requires WellFormed(b) && OnBoard(y, x) && !Occupied(b[y][x])
    ensures Tally(Place(b, y, x, p), Piece(p)) == Tally(b, Piece(p)) + 1
    ensures Tally(Place(b, y, x, p), Empty) == Tally(b, Empty) - 1
    ensures forall q: Player :: q != p ==> Tally(Place(b, y, x, p), Piece(q)) == Tally(b, Piece(q))
    ensures Pieces(Place(b, y, x, p)) == Pieces(b) + 1
  {
    var row := b[y][x := Piece(p)];
    forall c: Cell
      ensures Tally(Place(b, y, x, p), c)
           == Tally(b, c) - (if Empty == c then 1 else 0) + (if Piece(p) == c then 1 else 0)
    {
      CountRowUpdate(b[y], x, Piece(p), c);
      TallyUpdate(b, y, row, c);
    }
    assert Tally(Place(b, y, x, p), Piece(1)) == Tally(b, Piece(1)) - 0 + (if p == 1 then 1 else 0);
    assert Tally(Place(b, y, x, p), Piece(2)) == Tally(b, Piece(2)) - 0 + (if p == 2 then 1 else 0);
  }

  /** Every cell of a row is empty, a piece of player 1 or a piece of player 2. */
  lemma {:induction false} RowPartition(row: seq<Cell>)
    ensures CountRow(row, Empty) + CountRow(row, Piece(1)) + CountRow(row, Piece(2)) == |row|
  {
    if |row| > 0 {
      RowPartition(row[1..]);
    }
  }

  /** The empty cells and the pieces of the two players make up the HEIGHT * WIDTH cells of the board. */
  lemma {:induction false} BoardPartition(b: Grid)
    requires forall y :: 0 <= y < |b| ==> |b[y]| == WIDTH
    ensures Tally(b, Empty) + Pieces(b) == |b| * WIDTH
  {
    if |b| > 0 {
      RowPartition(b[0]);
      BoardPartition(b[1..]);
    }
  }

  /** A row has no cell equal to `c` exactly when its count of `c` is zero. */
  lemma {:induction false} CountRowZero(row: seq<Cell>, c: Cell)
    ensures CountRow(row, c) == 0 <==> forall x :: 0 <= x < |row| ==> row[x] != c
  {
    if |row| > 0 {
      CountRowZero(row[1..], c);
      assert forall x :: 1 <= x < |row| ==> row[x] == row[1..][x - 1];
    }
  }

  /** A board has no cell equal to `c` exactly when its tally of `c` is zero. */
  lemma {:induction false} TallyZero(b: Grid, c: Cell)
    ensures Tally(b, c) == 0 <==> forall y, x :: 0 <= y < |b| && 0 <= x < |b[y]| ==> b[y][x] != c
  {
    if |b| > 0 {
      CountRowZero(b[0], c);
      TallyZero(b[1..], c);
      assert forall y :: 1 <= y < |b| ==> b[y] == b[1..][y - 1];
    }
  }

  /** The tie test holds exactly when no empty cell is left. */
  lemma FullIffNoEmpty(b: Grid)
    ensures IsFull(b) <==> Tally(b, Empty) == 0
  {
    TallyZero(b, Empty);
  }

  /** On a well-formed board the tie test holds exactly when all HEIGHT * WIDTH cells hold pieces. */
  lemma FullIffAllPieces(b: Grid)
    requires WellFormed(b)
    ensures IsFull(b) <==> Pieces(b) == HEIGHT * WIDTH
  {
    FullIffNoEmpty(b);
    BoardPartition(b);
  }
}
