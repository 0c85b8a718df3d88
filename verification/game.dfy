/**
 The move transition of the game: the state is the board, the player whose
 turn it is and the game-over flag, and a click on a column either is
 ignored or drops the current player's piece, then ends the game on a win or
 a full board, or else passes the turn to the other player.
 */
module Game {
  import opened Board
  import opened Detect

  datatype GameState = GameState(board: Grid, currPlayer: Player, gameOver: bool)

  /** The state the game starts in: an empty board, player 1 to move, not over. */
  function Initial(): (s: GameState)
    ensures WellFormed(s.board) && Tally(s.board, Empty) == HEIGHT * WIDTH
    ensures s.currPlayer == 1 && !s.gameOver
  {
    var b := MakeBoard();
    BoardPartition(b);
    TallyZero(b, Piece(1));
    TallyZero(b, Piece(2));
    GameState(b, 1, false)
  }

  /** The other player. */
  function Toggle(p: Player): (q: Player)
    ensures q != p
  {
    if p == 1 then 2 else 1
  }

  /** Ending the game only raises the game-over flag. */
  function EndGame(s: GameState): (r: GameState)
    ensures r.gameOver
    ensures r.board == s.board && r.currPlayer == s.currPlayer
  {
    s.(gameOver := true)
  }

  /** A click on column `x` is not ignored: the game is still on and the column has room. */
  ghost predicate Accepts(s: GameState, x: int)
    requires WellFormed(s.board) && 0 <= x < WIDTH
  {
    !s.gameOver && !ColumnFull(s.board, x)
  }

  /**
   The part of a click after the landing row `y` is known: the mover's piece
   goes into (y, x); a line of four ends the game, otherwise a full board ends
   it as a tie, otherwise the turn passes. On an end the current player stays
   the mover, the one the game's message names.
   */
  function Drop(s: GameState, y: int, x: int): (r: GameState)
    requires WellFormed(s.board) && OnBoard(y, x)
    ensures WellFormed(r.board)
    ensures r.board[y][x] == Piece(s.currPlayer)
    ensures forall y', x' :: 0 <= y' < HEIGHT && 0 <= x' < WIDTH && (y' != y || x' != x) ==> r.board[y'][x'] == s.board[y'][x']
    ensures HasFourInARow(r.board, s.currPlayer) ==> r.gameOver && r.currPlayer == s.currPlayer
    ensures !HasFourInARow(r.board, s.currPlayer) && IsFull(r.board) ==> r.gameOver && r.currPlayer == s.currPlayer
    ensures !HasFourInARow(r.board, s.currPlayer) && !IsFull(r.board) ==> !r.gameOver && r.currPlayer != s.currPlayer
  {
    var p := s.currPlayer;
    var b := Place(s.board, y, x, p);
    CheckForWinComplete(b, p);
    var r :=
      if CheckForWin(b, p) then EndGame(s.(board := b))
      else if IsFull(b) then EndGame(s.(board := b))
      else GameState(b, Toggle(p), false);
    assert r.board == b;
    r
  }

  /** The effect on the game state of a click on column `x`. */
  function Step(s: GameState, x: int): (r: GameState)
    requires WellFormed(s.board) && 0 <= x < WIDTH
    ensures WellFormed(r.board)
    // a finished game ignores clicks
    ensures s.gameOver ==> r == s
    // a full column ignores clicks
    ensures ColumnFull(s.board, x) ==> r == s
    // an accepted click fills the lowest empty cell of the column and nothing else
    ensures Accepts(s, x) ==>
      exists y :: && LowestEmpty(s.board, x, y)
                  && r.board[y][x] == Piece(s.currPlayer)
                  && forall y', x' :: 0 <= y' < HEIGHT && 0 <= x' < WIDTH && (y' != y || x' != x) ==> r.board[y'][x'] == s.board[y'][x']
    // a line of four for the mover ends the game without passing the turn
    ensures Accepts(s, x) && HasFourInARow(r.board, s.currPlayer) ==>
      r.gameOver && r.currPlayer == s.currPlayer
    // otherwise a full board ends the game as a tie, again without passing the turn
    ensures Accepts(s, x) && !HasFourInARow(r.board, s.currPlayer) && IsFull(r.board) ==>
      r.gameOver && r.currPlayer == s.currPlayer
    // otherwise the turn passes to the other player
    ensures Accepts(s, x) && !HasFourInARow(r.board, s.currPlayer) && !IsFull(r.board) ==>
      !r.gameOver && r.currPlayer != s.currPlayer
  {
    if s.gameOver then s
    else match FindSpotForCol(s.board, x)
      case None => s
      case Some(y) => Drop(s, y, x)
  }

  /** The state after the clicks `moves`, in order. */
  function Run(s: GameState, moves: seq<int>): (r: GameState)
    requires WellFormed(s.board)
    requires forall i :: 0 <= i < |moves| ==> 0 <= moves[i] < WIDTH
    ensures WellFormed(r.board)
    ensures s.gameOver ==> r == s
    decreases |moves|
  {
    if |moves| == 0 then s else Run(Step(s, moves[0]), moves[1..])
  }

  // ---------------------------------------------------------------------------
  // Properties of one move
  // ---------------------------------------------------------------------------

  /** An accepted click adds one piece of the mover, takes one empty cell, and leaves the other player's count alone. */
  lemma StepCounts(s: GameState, x: int)
    requires WellFormed(s.board) && 0 <= x < WIDTH && Accepts(s, x)
    ensures Tally(Step(s, x).board, Piece(s.currPlayer)) == Tally(s.board, Piece(s.currPlayer)) + 1
    ensures Tally(Step(s, x).board, Piece(Toggle(s.currPlayer))) == Tally(s.board, Piece(Toggle(s.currPlayer)))
    ensures Tally(Step(s, x).board, Empty) == Tally(s.board, Empty) - 1
    ensures Pieces(Step(s, x).board) == Pieces(s.board) + 1
  {
    var y := FindSpotForCol(s.board, x).value;
    PlaceCounts(s.board, y, x, s.currPlayer);
  }

  /** A piece, once placed, stays where it is with the same owner. */
  lemma StepKeepsPieces(s: GameState, x: int)
    requires WellFormed(s.board) && 0 <= x < WIDTH
    ensures forall y', x' :: 0 <= y' < HEIGHT && 0 <= x' < WIDTH && Occupied(s.board[y'][x']) ==>
      Step(s, x).board[y'][x'] == s.board[y'][x']
  {
  }

  /** In every column the pieces sit on the bottom rows with no gap below any of them. */
  ghost predicate Stacked(b: Grid)
    requires WellFormed(b)
  {
    forall y, y', x :: 0 <= y < y' < HEIGHT && 0 <= x < WIDTH && Occupied(b[y][x]) ==> Occupied(b[y'][x])
  }

  /** On a stacked board a column is full exactly when its top cell is taken. */
  lemma StackedColumnFull(b: Grid, x: int)
    requires WellFormed(b) && Stacked(b) && 0 <= x < WIDTH
    ensures ColumnFull(b, x) <==> Occupied(b[0][x])
  {
  }

  /** Dropping a piece keeps the pieces stacked. */
  lemma StepKeepsStacked(s: GameState, x: int)
    requires WellFormed(s.board) && Stacked(s.board) && 0 <= x < WIDTH
    ensures Stacked(Step(s, x).board)
  {
  }

  // ---------------------------------------------------------------------------
  // Properties of whole games
  // ---------------------------------------------------------------------------

  /**
   Player 1 moves first and the players alternate, so player 1 has as many
   pieces as player 2 when player 1 is to move and one more when player 2 is;
   once the game is over the current player is the one who moved last.
   */
  ghost predicate Alternating(s: GameState)
    requires WellFormed(s.board)
  {
    var lead := Tally(s.board, Piece(1)) - Tally(s.board, Piece(2));
    var lastMoverIsOne := (s.currPlayer == 1) == s.gameOver;
    lead == (if lastMoverIsOne then 1 else 0)
  }

  /** What holds of every state the game can reach. */
  ghost predicate Invariant(s: GameState)
  {
    && WellFormed(s.board)
    && Stacked(s.board)
    && Alternating(s)
    && (s.gameOver ==> HasFourInARow(s.board, s.currPlayer) || IsFull(s.board))
    && (!s.gameOver ==> !IsFull(s.board) && !HasFourInARow(s.board, 1) && !HasFourInARow(s.board, 2))
  }

  lemma InitialInvariant()
    ensures Invariant(Initial())
  {
    var s := Initial();
    TallyZero(s.board, Piece(1));
    TallyZero(s.board, Piece(2));
    assert !Occupied(s.board[0][0]);
  }

  lemma StepKeepsInvariant(s: GameState, x: int)
    requires Invariant(s) && 0 <= x < WIDTH
    ensures Invariant(Step(s, x))
  {
    StepKeepsStacked(s, x);
    if Accepts(s, x) {
      var p := s.currPlayer;
      var y := FindSpotForCol(s.board, x).value;
      StepCounts(s, x);
      PlaceKeepsOtherRuns(s.board, y, x, p, Toggle(p));
      assert Step(s, x).board == Place(s.board, y, x, p);
    }
  }

  /** Every state reached from a state of the invariant by a sequence of clicks keeps it. */
  lemma {:induction false} RunKeepsInvariant(s: GameState, moves: seq<int>)
    requires Invariant(s)
    requires forall i :: 0 <= i < |moves| ==> 0 <= moves[i] < WIDTH
    ensures Invariant(Run(s, moves))
    decreases |moves|
  {
    if |moves| > 0 {
      var s' := Step(s, moves[0]);
      StepKeepsInvariant(s, moves[0]);
      RunKeepsInvariant(s', moves[1..]);
      assert Run(s, moves) == Run(s', moves[1..]);
    }
  }

  /**
   In every game: the current player is 1 or 2, the pieces are stacked, a
   game still on has no line of four and a free cell, and a finished game
   shows a line of four of the last mover or a full board.
   */
  lemma Reachable(moves: seq<int>)
    requires forall i :: 0 <= i < |moves| ==> 0 <= moves[i] < WIDTH
    ensures Invariant(Run(Initial(), moves))
  {
    InitialInvariant();
    RunKeepsInvariant(Initial(), moves);
  }

  /** A game still in progress always offers a column that accepts a click. */
  lemma OpenColumnExists(s: GameState)
    requires Invariant(s) && !s.gameOver
    ensures exists x :: 0 <= x < WIDTH && Accepts(s, x)
  {
    var y, x :| 0 <= y < HEIGHT && 0 <= x < WIDTH && !Occupied(s.board[y][x]);
    assert Accepts(s, x);
  }

  /** Every piece of player `p` sits in column `x` on one of the three bottom rows. */
  ghost predicate Confined(b: Grid, p: Player, x: int)
    requires WellFormed(b)
  {
    forall y', x' :: 0 <= y' < HEIGHT && 0 <= x' < WIDTH && b[y'][x'] == Piece(p) ==> x' == x && HEIGHT - 3 <= y'
  }

  /** Pieces confined to three cells of one column cannot make a line of four. */
  lemma ConfinedNoRun(b: Grid, p: Player, x: int)
    requires WellFormed(b) && Confined(b, p, x)
    ensures !HasFourInARow(b, p)
  {
  }

  /** A click whose drop lands at row `y` of column `x`. */
  lemma LandsAt(s: GameState, x: int, y: int)
    requires WellFormed(s.board) && 0 <= x < WIDTH && !s.gameOver && LowestEmpty(s.board, x, y)
    ensures Step(s, x) == Drop(s, y, x)
  {
  }

  /**
   The board of the example game below: player 1 has the `n1` bottom cells
   of column 3, player 2 the `n2` bottom cells of column 0, and every other
   cell is empty.
   */
  ghost predicate ExampleBoard(b: Grid, n1: int, n2: int)
  {
    && WellFormed(b)
    && forall y, x :: 0 <= y < HEIGHT && 0 <= x < WIDTH ==>
         b[y][x] == (if x == 3 && HEIGHT - n1 <= y then Piece(1)
                     else if x == 0 && HEIGHT - n2 <= y then Piece(2)
                     else Empty)
  }

  /** One of the first six clicks of the example: it lands on the mover's column and passes the turn. */
  lemma ExampleQuietDrop(s: GameState, n1: int, n2: int)
    requires 0 <= n2 <= n1 <= n2 + 1 && n1 + n2 < 6
    requires ExampleBoard(s.board, n1, n2) && !s.gameOver
    requires s.currPlayer == (if n1 == n2 then 1 else 2)
    ensures var r := Step(s, if n1 == n2 then 3 else 0);
      && !r.gameOver && r.currPlayer == Toggle(s.currPlayer)
      && ExampleBoard(r.board, if n1 == n2 then n1 + 1 else n1, if n1 == n2 then n2 else n2 + 1)
  {
    var p := s.currPlayer;
    var x := if n1 == n2 then 3 else 0;
    var y := if n1 == n2 then HEIGHT - 1 - n1 else HEIGHT - 1 - n2;
    assert LowestEmpty(s.board, x, y);
    LandsAt(s, x, y);
    var b := Place(s.board, y, x, p);
    ConfinedNoRun(b, p, x);
    assert !Occupied(b[0][1]);
  }

  /** The seventh click of the example: player 1's fourth piece in column 3 wins. */
  lemma ExampleWinningDrop(s: GameState)
    requires ExampleBoard(s.board, 3, 3) && !s.gameOver && s.currPlayer == 1
    ensures var r := Step(s, 3); r.gameOver && r.currPlayer == 1 && HasFourInARow(r.board, 1)
  {
    assert LowestEmpty(s.board, 3, 2);
    LandsAt(s, 3, 2);
    var b := Place(s.board, 2, 3, 1);
    assert RunAt(b, 1, 2, 3, 1, 0) && UnitStep(1, 0);
  }

  /**
   Player 1 drops four times into column 3 while player 2 drops into column 0
   in between: the fourth drop of player 1 completes a vertical line, and the
   game ends with player 1 as the winner.
   */
  lemma VerticalWinExample()
    ensures
      var t1 := Step(Initial(), 3);
      var t2 := Step(t1, 0);
      var t3 := Step(t2, 3);
      var t4 := Step(t3, 0);
      var t5 := Step(t4, 3);
      var t6 := Step(t5, 0);
      var t7 := Step(t6, 3);
      && !t6.gameOver
      && t7.gameOver && t7.currPlayer == 1 && HasFourInARow(t7.board, 1)
  {
    var t0 := Initial();
    assert ExampleBoard(t0.board, 0, 0);
    ExampleQuietDrop(t0, 0, 0);
    var t1 := Step(t0, 3);
    ExampleQuietDrop(t1, 1, 0);
    var t2 := Step(t1, 0);
    ExampleQuietDrop(t2, 1, 1);
    var t3 := Step(t2, 3);
    ExampleQuietDrop(t3, 2, 1);
    var t4 := Step(t3, 0);
    ExampleQuietDrop(t4, 2, 2);
    var t5 := Step(t4, 3);
    ExampleQuietDrop(t5, 3, 2);
    var t6 := Step(t5, 0);
    ExampleWinningDrop(t6);
  }
}
