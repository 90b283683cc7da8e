/** The win evaluator, `calculateWinner`: a pure scan of eight fixed lines
    (three rows, three columns, two diagonals) that reports the mark of the
    first line whose three cells hold the same mark. */
module Winner {
  import opened Options
  import opened Squares

  /** A cell position on the board. */
  type Index = i: nat | i < 9

  /** The winning lines, in the order the scan visits them. */
  const Lines: seq<(Index, Index, Index)> := [
    (0, 1, 2),
    (3, 4, 5),
    (6, 7, 8),
    (0, 3, 6),
    (1, 4, 7),
    (2, 5, 8),
    (0, 4, 8),
    (2, 4, 6)
  ]

  /** Line `j` is complete: its first cell holds a mark and the other two
      cells hold the same one. */
  predicate LineWon(b: Board, j: nat)
    requires j < |Lines|
  {
    var (p, q, r) := Lines[j];
    b[p] != Empty && b[p] == b[q] && b[p] == b[r]
  }

  /** The mark found in the first cell of line `j`. */
  function LineMark(b: Board, j: nat): Cell
    requires j < |Lines|
  {
    b[Lines[j].0]
  }

  /** Some line of the board is complete. */
  predicate HasWinningLine(b: Board) {
    exists j | 0 <= j < |Lines| :: LineWon(b, j)
  }

  /** Line `j` is complete and no line listed before it is. */
  predicate FirstWinningLine(b: Board, j: nat)
    requires j < |Lines|
  {
    LineWon(b, j) && forall k | 0 <= k < j :: !LineWon(b, k)
  }

  /** One pass of the scan from line `from` onwards: the mark of the first
      complete line among `Lines[from..]`, or None when there is none. */
  function ScanLines(b: Board, from: nat): (r: Option<Cell>)
    requires from <= |Lines|
    ensures r.None? <==> forall j | from <= j < |Lines| :: !LineWon(b, j)
    ensures forall j | from <= j < |Lines| && LineWon(b, j) ::
              (forall k | from <= k < j :: !LineWon(b, k)) ==> r == Some(LineMark(b, j))
    ensures r.Some? ==> exists j | from <= j < |Lines| :: LineWon(b, j) && r.value == LineMark(b, j)
    decreases |Lines| - from
  {
    if from == |Lines| then None
    else if LineWon(b, from) then Some(LineMark(b, from))
    else ScanLines(b, from + 1)
  }

  /** `calculateWinner`: None exactly when no line is complete; otherwise
      the mark of the first complete line in the listed order. */
  function CalculateWinner(b: Board): (r: Option<Cell>)
    ensures r.None? <==> !HasWinningLine(b)
    ensures r.Some? ==> r.value != Empty
    ensures r.Some? ==> exists j | 0 <= j < |Lines| :: LineWon(b, j) && r.value == LineMark(b, j)
    ensures forall j | 0 <= j < |Lines| && FirstWinningLine(b, j) :: r == Some(LineMark(b, j))
  {
    ScanLines(b, 0)
  }

  /** The three cells of every line are distinct. */
  lemma LinesAreTriples(j: nat)
    requires j < |Lines|
    ensures Lines[j].0 != Lines[j].1 && Lines[j].0 != Lines[j].2 && Lines[j].1 != Lines[j].2
  {
  }

  /** A complete line puts at least three copies of its mark on the board. */
  lemma WonLineHasThreeMarks(b: Board, j: nat)
    requires j < |Lines| && LineWon(b, j)
    ensures Count(b, LineMark(b, j)) >= 3
  {
    var (p, q, r) := Lines[j];
    LinesAreTriples(j);
    var idx: set<nat> := {p, q, r};
    assert |idx| == 3;
    CountAtLeast(b, LineMark(b, j), idx);
  }

  /** A complete line whose cells all keep their value in `b'` is still
      complete in `b'`, with the same mark. */
  lemma LineSurvivesWhenUntouched(b: Board, b': Board, j: nat)
    requires j < |Lines| && LineWon(b', j)
    requires b[Lines[j].0] == b'[Lines[j].0]
    requires b[Lines[j].1] == b'[Lines[j].1]
    requires b[Lines[j].2] == b'[Lines[j].2]
    ensures LineWon(b, j) && LineMark(b, j) == LineMark(b', j)
  {
  }
}
