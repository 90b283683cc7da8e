/** Which game states the view can lead to, and what holds in all of them.

    A user interacts in two ways only: clicking one of the nine cells, or
    pressing one of the history buttons, of which there is one per stored
    snapshot. `Run` replays such interactions from the initial state; the
    invariant `Inv` holds initially and is kept by both updates, so it
    holds in every reachable state. From it follow the mark counts of each
    snapshot and the facts about who can have won. */
module Reachability {
  import opened Options
  import opened Squares
  import opened Winner
  import opened Moves
  import opened GameState

  /** One user interaction: a click on a cell or a history button. */
  datatype Action = Click(cell: nat) | Jump(move: nat)

  /** Performs one interaction. None for an interaction the view never
      offers (a cell outside the grid, a button past the history). */
  function Perform(g: Game, a: Action): (r: Option<Game>)
    requires CursorOk(g)
    ensures r.None? <==> (a.Click? && a.cell >= 9) || (a.Jump? && a.move >= |g.history|)
    ensures r.Some? ==> CursorOk(r.value)
    ensures r.Some? && a.Jump? ==> r.value.history == g.history && r.value.currentMove == a.move
  {
    match a
    case Click(i) => if i < 9 then Some(ApplyMove(g, i)) else None
    case Jump(k) => if k < |g.history| then Some(JumpTo(g, k)) else None
  }

  /** Performs the interactions in order; None if one of them is not offered. */
  function Run(g: Game, acts: seq<Action>): (r: Option<Game>)
    requires CursorOk(g)
    ensures r.Some? ==> CursorOk(r.value)
    decreases |acts|
  {
    if |acts| == 0 then Some(g)
    else
      match Perform(g, acts[0])
      case None => None
      case Some(g1) => Run(g1, acts[1..])
  }

  /** Snapshot `k + 1` is snapshot `k`, which has no complete line, with
      the mark of move `k` (X for even `k`) written into one Empty cell. */
  ghost predicate ValidStep(prev: Board, next: Board, k: nat) {
    && !HasWinningLine(prev)
    && exists i | 0 <= i < 9 :: prev[i] == Empty && next == prev[i := PlayerMark(k % 2 == 0)]
  }

  /** The invariant of every reachable state: the cursor is in range, the
      first snapshot is the empty board, and each snapshot follows from the
      one before it by a single valid step. */
  ghost predicate Inv(g: Game) {
    && CursorOk(g)
    && g.history[0] == EmptyBoard
    && forall k | 0 <= k < |g.history| - 1 :: ValidStep(g.history[k], g.history[k + 1], k)
  }

  lemma InitialInv()
    ensures Inv(Initial)
  {
  }

  /** A valid step changes exactly one cell, from Empty to a mark. */
  lemma ValidStepChangesOneCell(prev: Board, next: Board, k: nat)
    requires ValidStep(prev, next, k)
    ensures exists i | 0 <= i < 9 ::
              && prev[i] == Empty && next[i] != Empty
              && forall j | 0 <= j < 9 && j != i :: next[j] == prev[j]
  {
    var i :| 0 <= i < 9 && prev[i] == Empty && next == prev[i := PlayerMark(k % 2 == 0)];
    assert next[i] != Empty;
  }

  lemma {:induction false} ApplyMoveKeepsInv(g: Game, i: nat)
    requires Inv(g) && i < 9
    ensures Inv(ApplyMove(g, i))
  {
    var g' := ApplyMove(g, i);
    var cur := CurrentSquares(g);
    if !ClickIgnored(cur, i) {
      var cm := g.currentMove;
      var next := g'.history[cm + 1];
      assert next == cur[i := PlayerMark(cm % 2 == 0)];
      assert ValidStep(cur, next, cm);
      forall k | 0 <= k < |g'.history| - 1
        ensures ValidStep(g'.history[k], g'.history[k + 1], k)
      {
        if k < cm {
          assert ValidStep(g.history[k], g.history[k + 1], k);
        }
      }
    }
  }

  lemma JumpToKeepsInv(g: Game, k: nat)
    requires Inv(g) && k < |g.history|
    ensures Inv(JumpTo(g, k))
  {
  }

  lemma PerformKeepsInv(g: Game, a: Action)
    requires Inv(g)
    ensures Perform(g, a).Some? ==> Inv(Perform(g, a).value)
  {
    match a
    case Click(i) => if i < 9 { ApplyMoveKeepsInv(g, i); }
    case Jump(k) =>
  }

  /** Every state a run of offered interactions reaches satisfies `Inv`. */
  lemma {:induction false} RunKeepsInv(g: Game, acts: seq<Action>)
    requires Inv(g)
    ensures Run(g, acts).Some? ==> Inv(Run(g, acts).value)
    decreases |acts|
  {
    if |acts| > 0 {
      PerformKeepsInv(g, acts[0]);
      match Perform(g, acts[0])
      case None =>
      case Some(g1) => RunKeepsInv(g1, acts[1..]);
    }
  }

  /** The states the view can lead to from the start of a game. */
  ghost predicate Reachable(g: Game) {
    exists acts :: Run(Initial, acts) == Some(g)
  }

  lemma ReachableInv(g: Game)
    requires Reachable(g)
    ensures Inv(g)
  {
    var acts :| Run(Initial, acts) == Some(g);
    InitialInv();
    RunKeepsInv(Initial, acts);
  }

  /** Snapshot `k` holds exactly `k` marks; X has one more than O after an
      odd number of moves and as many as O after an even number. */
  lemma {:induction false} SnapshotCounts(g: Game, k: nat)
    requires Inv(g) && k < |g.history|
    ensures MarksPlaced(g.history[k]) == k
    ensures Count(g.history[k], X) == Count(g.history[k], O) + k % 2
  {
    if k == 0 {
      CountAllEmpty(EmptyBoard, X);
      CountAllEmpty(EmptyBoard, O);
    } else {
      SnapshotCounts(g, k - 1);
      var prev := g.history[k - 1];
      assert ValidStep(prev, g.history[k], k - 1);
      var i :| 0 <= i < 9 && prev[i] == Empty && g.history[k] == prev[i := PlayerMark((k - 1) % 2 == 0)];
      CountAfterWrite(prev, i, PlayerMark((k - 1) % 2 == 0), X);
      CountAfterWrite(prev, i, PlayerMark((k - 1) % 2 == 0), O);
    }
  }

  /** On the displayed board the mark balance decides the turn: X leads by
      one exactly when O is to play, and otherwise the counts are equal. */
  lemma TurnFollowsBalance(g: Game)
    requires Inv(g)
    ensures var b := CurrentSquares(g);
            && (Count(b, X) - Count(b, O) == 1 <==> !XIsNext(g))
            && (Count(b, X) - Count(b, O) == 0 <==> XIsNext(g))
  {
    SnapshotCounts(g, g.currentMove);
  }

  /** The history holds one snapshot more than the newest board has marks. */
  lemma HistoryLengthCountsMoves(g: Game)
    requires Inv(g)
    ensures |g.history| == MarksPlaced(g.history[|g.history| - 1]) + 1
  {
    SnapshotCounts(g, |g.history| - 1);
  }

  /** Every complete line of a board produced by a valid step carries the
      mark just played: the step wrote into that line, because the board
      before it had no complete line. */
  lemma WinningLinesCarryLastMark(prev: Board, next: Board, k: nat)
    requires ValidStep(prev, next, k)
    ensures forall j | 0 <= j < |Lines| && LineWon(next, j) :: LineMark(next, j) == PlayerMark(k % 2 == 0)
  {
    var m := PlayerMark(k % 2 == 0);
    var i :| 0 <= i < 9 && prev[i] == Empty && next == prev[i := m];
    forall j | 0 <= j < |Lines| && LineWon(next, j)
      ensures LineMark(next, j) == m
    {
      var (p, q, r) := Lines[j];
      if i != p && i != q && i != r {
        LineSurvivesWhenUntouched(prev, next, j);
        assert HasWinningLine(prev);
      }
    }
  }

  /** A snapshot followed by another one has no complete line: once a
      line is complete every click is ignored. */
  lemma NoSnapshotAfterWin(g: Game, k: nat)
    requires Inv(g) && k < |g.history| - 1
    ensures !HasWinningLine(g.history[k])
  {
    assert ValidStep(g.history[k], g.history[k + 1], k);
  }

  /** In a reachable snapshot with a complete line: the player who made the
      last move owns every complete line (so the order of the scan does
      not matter) and is the one `calculateWinner` reports; at least five
      marks are on the board; and no later snapshot is stored. */
  lemma WinnerFacts(g: Game, k: nat)
    requires Inv(g) && k < |g.history| && HasWinningLine(g.history[k])
    ensures 5 <= k
    ensures MarksPlaced(g.history[k]) >= 5
    ensures k == |g.history| - 1
    ensures forall j | 0 <= j < |Lines| && LineWon(g.history[k], j) ::
              LineMark(g.history[k], j) == PlayerMark((k - 1) % 2 == 0)
    ensures CalculateWinner(g.history[k]) == Some(PlayerMark((k - 1) % 2 == 0))
  {
    var b := g.history[k];
    if k < |g.history| - 1 {
      NoSnapshotAfterWin(g, k);
      assert false;
    }
    assert ValidStep(g.history[k - 1], b, k - 1);
    WinningLinesCarryLastMark(g.history[k - 1], b, k - 1);
    var j :| 0 <= j < |Lines| && LineWon(b, j);
    WonLineHasThreeMarks(b, j);
    SnapshotCounts(g, k);
  }

  /** For every state reached by offered interactions from a fresh game:
      every snapshot holds as many marks as its index, X leads O by the
      parity of the index, and on the displayed board X leads by one
      exactly when O is to play. */
  lemma ReachedStateCounts(acts: seq<Action>, g: Game)
    requires Run(Initial, acts) == Some(g)
    ensures forall k | 0 <= k < |g.history| ::
              && MarksPlaced(g.history[k]) == k
              && Count(g.history[k], X) == Count(g.history[k], O) + k % 2
    ensures Count(CurrentSquares(g), X) - Count(CurrentSquares(g), O) == 1 <==> !XIsNext(g)
  {
    InitialInv();
    RunKeepsInv(Initial, acts);
    forall k | 0 <= k < |g.history|
      ensures && MarksPlaced(g.history[k]) == k
              && Count(g.history[k], X) == Count(g.history[k], O) + k % 2
    {
      SnapshotCounts(g, k);
    }
    TurnFollowsBalance(g);
  }

  /** A reachable snapshot with fewer than five marks has no complete line. */
  lemma FewMarksNoWinner(g: Game, k: nat)
    requires Inv(g) && k < |g.history| && MarksPlaced(g.history[k]) < 5
    ensures !HasWinningLine(g.history[k])
    ensures CalculateWinner(g.history[k]) == None
  {
    SnapshotCounts(g, k);
    if HasWinningLine(g.history[k]) {
      WinnerFacts(g, k);
    }
  }
}
