/** The move rule of the board, `Board.handleClick`: a click on cell `i`
    is ignored once the board has a winner or when the cell is taken;
    otherwise it yields a copy of the board with the mover's mark in cell `i`. */
module Moves {
  import opened Options
  import opened Squares
  import opened Winner

  /** The click on cell `i` is ignored: the game is won or the cell is taken. */
  predicate ClickIgnored(squares: Board, i: nat)
    requires i < 9
  {
    HasWinningLine(squares) || squares[i] != Empty
  }

  /** `handleClick(i)` on `squares` with turn flag `xIsNext`: None for an
      ignored click, otherwise the board handed to `onPlay`. */
  function HandleClick(squares: Board, xIsNext: bool, i: nat): (r: Option<Board>)
    requires i < 9
    ensures r.None? <==> ClickIgnored(squares, i)
    ensures r.Some? ==> r.value[i] == (if xIsNext then X else O)
    ensures r.Some? ==> forall j | 0 <= j < 9 && j != i :: r.value[j] == squares[j]
  {
    if CalculateWinner(squares).Some? || squares[i] != Empty then None
    else Some(squares[i := PlayerMark(xIsNext)])
  }
}
