/** Concrete games played through the model: a first move, a win along
    the top row after which clicks are ignored, and a jump back in time. */
module Scenarios {
  import opened Options
  import opened Squares
  import opened Winner
  import opened Moves
  import opened GameState
  import opened Reachability

  /** X opens in the corner; O is to play next. */
  lemma FirstMove()
    ensures var g := ApplyMove(Initial, 0);
            && CurrentSquares(g) == [X, Empty, Empty, Empty, Empty, Empty, Empty, Empty, Empty]
            && !XIsNext(g)
  {
    assert !HasWinningLine(EmptyBoard);
  }

  /** An accepted click on the newest snapshot appends one board. */
  lemma AcceptedAtEnd(g: Game, i: nat, next: Board)
    requires CursorOk(g) && g.currentMove == |g.history| - 1 && i < 9
    requires !HasWinningLine(CurrentSquares(g)) && CurrentSquares(g)[i] == Empty
    requires next == CurrentSquares(g)[i := PlayerMark(XIsNext(g))]
    ensures ApplyMove(g, i) == Game(g.history + [next], |g.history|)
  {
    assert g.history[..g.currentMove + 1] == g.history;
  }

  const B1: Board := [X, Empty, Empty, Empty, Empty, Empty, Empty, Empty, Empty]
  const B2: Board := [X, Empty, Empty, Empty, O, Empty, Empty, Empty, Empty]
  const B3: Board := [X, X, Empty, Empty, O, Empty, Empty, Empty, Empty]
  const B4: Board := [X, X, Empty, Empty, O, O, Empty, Empty, Empty]
  const B5: Board := [X, X, X, Empty, O, O, Empty, Empty, Empty]
  const C3: Board := [X, Empty, Empty, Empty, O, Empty, Empty, Empty, X]

  lemma OpeningBoardsUndecided()
    ensures !HasWinningLine(EmptyBoard) && !HasWinningLine(B1) && !HasWinningLine(B2)
    ensures !HasWinningLine(B3) && !HasWinningLine(B4)
  {
  }

  /** X plays 0, 1, 2 while O plays 4 and 5: X completes the top row,
      `calculateWinner` reports X, and every click afterwards is ignored. */
  lemma TopRowWin()
    ensures var g := Run(Initial, [Click(0), Click(4), Click(1), Click(5), Click(2)]);
            && g.Some?
            && CurrentSquares(g.value) == B5
            && CalculateWinner(B5) == Some(X)
            && forall i | 0 <= i < 9 :: ApplyMove(g.value, i) == g.value
  {
    OpeningBoardsUndecided();
    assert LineWon(B5, 0);
    var h := [EmptyBoard];
    AcceptedAtEnd(Game(h, 0), 0, B1);
    h := h + [B1];
    AcceptedAtEnd(Game(h, 1), 4, B2);
    h := h + [B2];
    AcceptedAtEnd(Game(h, 2), 1, B3);
    h := h + [B3];
    AcceptedAtEnd(Game(h, 3), 5, B4);
    h := h + [B4];
    AcceptedAtEnd(Game(h, 4), 2, B5);
    h := h + [B5];
    assert Run(Initial, [Click(0), Click(4), Click(1), Click(5), Click(2)]) == Some(Game(h, 5));
    assert HasWinningLine(CurrentSquares(Game(h, 5)));
    WonBoardIgnoresClicks(Game(h, 5));
  }

  /** After three moves, jumping to move 1 shows the board right after the
      first move with O to play, and keeps all four snapshots. */
  lemma JumpBackToMoveOne()
    ensures var g := Run(Initial, [Click(0), Click(4), Click(8), Jump(1)]);
            && g.Some?
            && |g.value.history| == 4
            && CurrentSquares(g.value) == B1
            && !XIsNext(g.value)
  {
    OpeningBoardsUndecided();
    var h := [EmptyBoard];
    AcceptedAtEnd(Game(h, 0), 0, B1);
    h := h + [B1];
    AcceptedAtEnd(Game(h, 1), 4, B2);
    h := h + [B2];
    AcceptedAtEnd(Game(h, 2), 8, C3);
    h := h + [C3];
    assert Run(Initial, [Click(0), Click(4), Click(8), Jump(1)]) == Some(Game(h, 1));
  }

  /** On boards that no game reaches, three marks can already complete a
      line; the five-mark bound of `WinnerFacts` is a fact about play. */
  lemma ThreeMarksCanWin()
    ensures var b: Board := [X, X, X, Empty, Empty, Empty, Empty, Empty, Empty];
            MarksPlaced(b) == 3 && CalculateWinner(b) == Some(X)
  {
    var b: Board := [X, X, X, Empty, Empty, Empty, Empty, Empty, Empty];
    assert LineWon(b, 0);
    CountsPartition(b);
    CountAtLeast(b, Empty, {3, 4, 5, 6, 7, 8});
    CountAtLeast(b, X, {0, 1, 2});
  }
}
