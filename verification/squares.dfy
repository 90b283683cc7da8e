/** Cells and boards of the tic-tac-toe grid.

    A board is the 9-element `squares` array of the game, read row-major
    (cells 0-2 are the top row). The array holds `'X'`, `'O'` or `null`;
    `null` is `Empty` here, and JavaScript's truthiness test on a cell
    means "the cell is not `Empty`". */
module Squares {

  datatype Cell = Empty | X | O

  /** A board always has exactly nine cells. */
  type Board = b: seq<Cell> | |b| == 9
    witness [Empty, Empty, Empty, Empty, Empty, Empty, Empty, Empty, Empty]

  /** The board a game starts from, `Array(9).fill(null)`. */
  const EmptyBoard: Board := [Empty, Empty, Empty, Empty, Empty, Empty, Empty, Empty, Empty]

  /** The mark written by the player to move: X when `xIsNext`, else O. */
  function PlayerMark(xIsNext: bool): (m: Cell)
    ensures m != Empty
    ensures m == X <==> xIsNext
  {
    if xIsNext then X else O
  }

  /** Number of cells of `s` that hold `c`, counted from the end. */
  function Count(s: seq<Cell>, c: Cell): (n: nat)
    ensures n <= |s|
  {
    if |s| == 0 then 0
    else Count(s[..|s| - 1], c) + (if s[|s| - 1] == c then 1 else 0)
  }

  /** Number of cells that hold a mark. */
  function MarksPlaced(s: seq<Cell>): nat {
    Count(s, X) + Count(s, O)
  }

  /** Every cell is Empty, X or O, so the three counts add up to the length. */
  lemma {:induction false} CountsPartition(s: seq<Cell>)
    ensures Count(s, Empty) + Count(s, X) + Count(s, O) == |s|
  {
    if |s| > 0 {
      CountsPartition(s[..|s| - 1]);
    }
  }

  /** A sequence of Empty cells holds no mark. */
  lemma {:induction false} CountAllEmpty(s: seq<Cell>, c: Cell)
    requires forall i | 0 <= i < |s| :: s[i] == Empty
    requires c != Empty
    ensures Count(s, c) == 0
  {
    if |s| > 0 {
      CountAllEmpty(s[..|s| - 1], c);
    }
  }

  /** Writing mark `m` into an Empty cell adds one `m` and removes one
      Empty; the count of every other cell value is unchanged. */
  lemma {:induction false} CountAfterWrite(s: seq<Cell>, i: nat, m: Cell, c: Cell)
    requires i < |s| && s[i] == Empty && m != Empty
    ensures Count(s[i := m], c)
            == Count(s, c) + (if c == m then 1 else 0) - (if c == Empty then 1 else 0)
  {
    var n := |s| - 1;
    if i == n {
      assert s[i := m][..n] == s[..n];
    } else {
      assert s[i := m][..n] == s[..n][i := m];
      CountAfterWrite(s[..n], i, m, c);
    }
  }

  /** If every index in `idx` holds `c`, then `c` occurs at least `|idx|` times. */
  lemma {:induction false} CountAtLeast(s: seq<Cell>, c: Cell, idx: set<nat>)
    requires forall i | i in idx :: i < |s| && s[i] == c
    ensures Count(s, c) >= |idx|
  {
    if |s| == 0 {
      assert idx == {};
    } else {
      var n := |s| - 1;
      var rest := idx - {n};
      assert forall i | i in rest :: i < n && s[..n][i] == c;
      CountAtLeast(s[..n], c, rest);
      if n in idx {
        assert idx == rest + {n};
      } else {
        assert idx == rest;
      }
    }
  }
}
