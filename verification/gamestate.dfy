/** The game's state: the `history` of board snapshots and the cursor
    `currentMove` into it, with the two updates `handlePlay` and `jumpTo`,
    and `ApplyMove`, one click on the displayed board followed by
    `handlePlay`. The two React setters of `handlePlay` form one update. */
module GameState {
  import opened Options
  import opened Squares
  import opened Winner
  import opened Moves

  datatype Game = Game(history: seq<Board>, currentMove: nat)

  /** The cursor points at a stored snapshot. */
  predicate CursorOk(g: Game) {
    g.currentMove < |g.history|
  }

  /** A fresh game: one empty board, cursor on it. */
  const Initial: Game := Game([EmptyBoard], 0)

  /** X plays next exactly when the cursor is even. */
  function XIsNext(g: Game): (r: bool)
    ensures r <==> g.currentMove % 2 == 0
  {
    g.currentMove % 2 == 0
  }

  /** The displayed board, `history[currentMove]`: always a stored snapshot. */
  function CurrentSquares(g: Game): (r: Board)
    requires CursorOk(g)
    ensures r in g.history
  {
    g.history[g.currentMove]
  }

  /** `handlePlay(nextSquares)`: drop the snapshots after the cursor, append
      `nextSquares` and move the cursor onto it. */
  function HandlePlay(g: Game, nextSquares: Board): (g': Game)
    requires CursorOk(g)
    ensures CursorOk(g')
    ensures |g'.history| == g.currentMove + 2
    ensures g'.currentMove == |g'.history| - 1
    ensures forall k | 0 <= k <= g.currentMove :: g'.history[k] == g.history[k]
    ensures CurrentSquares(g') == nextSquares
  {
    var nextHistory := g.history[..g.currentMove + 1] + [nextSquares];
    Game(nextHistory, |nextHistory| - 1)
  }

  /** `jumpTo(nextMove)`: move the cursor only. The view offers a button
      for each stored snapshot and no others, hence the precondition. */
  function JumpTo(g: Game, nextMove: nat): (g': Game)
    requires nextMove < |g.history|
    ensures CursorOk(g')
    ensures g'.history == g.history
    ensures g'.currentMove == nextMove
    ensures CurrentSquares(g') == g.history[nextMove]
  {
    g.(currentMove := nextMove)
  }

  /** A click on cell `i` of the displayed board: `handleClick` with
      `squares = history[currentMove]` and `xIsNext` from the cursor's
      parity, then `handlePlay` with the board it produces. */
  function ApplyMove(g: Game, i: nat): (g': Game)
    requires CursorOk(g) && i < 9
    ensures CursorOk(g')
    ensures ClickIgnored(CurrentSquares(g), i) ==> g' == g
    ensures !ClickIgnored(CurrentSquares(g), i) ==>
              && |g'.history| == g.currentMove + 2
              && g'.currentMove == g.currentMove + 1
              && (forall k | 0 <= k <= g.currentMove :: g'.history[k] == g.history[k])
              && CurrentSquares(g')[i] == (if g.currentMove % 2 == 0 then X else O)
              && (forall j | 0 <= j < 9 && j != i :: CurrentSquares(g')[j] == CurrentSquares(g)[j])
  {
    match HandleClick(CurrentSquares(g), XIsNext(g), i)
    case None => g
    case Some(nextSquares) => HandlePlay(g, nextSquares)
  }

  /** Jumping to the move already shown changes nothing. */
  lemma JumpToCurrentIsIdentity(g: Game)
    requires CursorOk(g)
    ensures JumpTo(g, g.currentMove) == g
  {
  }

  /** Two jumps in a row amount to the second one alone. */
  lemma JumpToLastWins(g: Game, a: nat, b: nat)
    requires a < |g.history| && b < |g.history|
    ensures JumpTo(JumpTo(g, a), b) == JumpTo(g, b)
  {
  }

  /** An accepted move followed by a jump back to the previous cursor shows
      the board from before the move again; the snapshot the move appended
      stays stored until a further accepted move replaces it, after which
      the history again holds exactly `previous + 2` snapshots. */
  lemma MoveThenJumpBack(g: Game, i: nat, j: nat)
    requires CursorOk(g) && i < 9 && j < 9
    requires !ClickIgnored(CurrentSquares(g), i)
    ensures var back := JumpTo(ApplyMove(g, i), g.currentMove);
            && CurrentSquares(back) == CurrentSquares(g)
            && |back.history| == g.currentMove + 2
            && (!ClickIgnored(CurrentSquares(back), j) ==>
                  |ApplyMove(back, j).history| == g.currentMove + 2)
  {
  }

  /** Turns alternate: an accepted click writes the mark of the player to
      move and hands the turn to the other player; an ignored click keeps
      the turn where it was. */
  lemma TurnAlternates(g: Game, i: nat)
    requires CursorOk(g) && i < 9
    ensures ClickIgnored(CurrentSquares(g), i) ==> XIsNext(ApplyMove(g, i)) == XIsNext(g)
    ensures !ClickIgnored(CurrentSquares(g), i) ==>
              && XIsNext(ApplyMove(g, i)) == !XIsNext(g)
              && CurrentSquares(ApplyMove(g, i))[i] == PlayerMark(XIsNext(g))
  {
  }

  /** Once the displayed board has a complete line, every click is ignored. */
  lemma WonBoardIgnoresClicks(g: Game)
    requires CursorOk(g) && HasWinningLine(CurrentSquares(g))
    ensures forall i | 0 <= i < 9 :: ApplyMove(g, i) == g
  {
  }
}
