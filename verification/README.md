# Tic-tac-toe game state and win detection, in Dafny

A model of the logic behind the React tic-tac-toe app in `src/App.js`.
It covers three parts. The win evaluator `calculateWinner` scans eight
fixed lines. The board's move rule `handleClick` ignores a click once a
line is complete or when the cell is taken, and otherwise writes the
mover's mark into a copy of the board. The `Game` component keeps a
history of board snapshots with a cursor `currentMove`:

- `xIsNext` is the parity of `currentMove`.
- `handlePlay` truncates the history after the cursor, appends the new
  board and moves the cursor onto it.
- `jumpTo` moves only the cursor.

Files and modules:

- `options.dfy` (`Options`): `Option`, standing in for JavaScript's `null`.
- `squares.dfy` (`Squares`): `Cell = Empty | X | O`. `Board` is a
  length-9 `seq<Cell>`, row-major, and `null` is `Empty`. Also the mark
  counts and their lemmas.
- `winner.dfy` (`Winner`): the eight lines in source order, and
  `CalculateWinner` as a scan (`ScanLines`) over them. It is specified
  against an independent predicate: some line is complete (`HasWinningLine`),
  and which line is the first complete one (`FirstWinningLine`).
- `moves.dfy` (`Moves`): `HandleClick`. JavaScript truthiness on
  `squares[i]` and on the winner means "not Empty" and "not None".
- `gamestate.dfy` (`GameState`): the state `Game(history, currentMove)`,
  `HandlePlay`, `JumpTo` and `ApplyMove`. `ApplyMove` is one click on the
  displayed board: `handleClick` with `squares = history[currentMove]` and
  `xIsNext = currentMove % 2 == 0`, then `handlePlay`. The two React
  setters in `handlePlay` are one atomic update.
- `reachability.dfy` (`Reachability`): user interactions (`Click`, `Jump`),
  runs of them from a fresh game, and the invariant `Inv` that every
  reachable state satisfies. Also the mark counts and winner facts that
  follow from `Inv`.
- `scenarios.dfy` (`Scenarios`): concrete games played through the model.

`Inv` is stronger than "each snapshot differs from the previous one in one
cell, which went from Empty to a mark". It also fixes which mark was
written: X at even steps, O at odd ones. And it requires that the board
before each step had no complete line. Both facts are needed for the mark
counts and for the winner facts.

A board with fewer than five marks can still have a winner:
`calculateWinner` reports X for three X in the top row and nothing else
(`Scenarios.ThreeMarksCanWin`). The five-mark bound holds only for
snapshots a game reaches (`WinnerFacts`, `FewMarksNoWinner`).

After a jump and a new move, the discarded moves are no longer in the
history, so the history holds one snapshot more than the newest board has
marks (`HistoryLengthCountsMoves`).

## Model

| member | source | states |
|---|---|---|
| Squares.PlayerMark | src/App.js:26-30 | the written mark is never Empty, and it is X exactly when `xIsNext` |
| Winner.ScanLines | src/App.js:140-148 | scanning from line `from`: None iff no line from `from` on is complete; otherwise the mark of the first complete line at or after `from`, which is the mark of some complete line |
| Winner.CalculateWinner | src/App.js:127-149 | None exactly when no line is complete; a reported mark is never Empty and owns a complete line; when several lines are complete, the first in the listed order decides |
| Winner.WonLineHasThreeMarks | src/App.js:129-142 | a complete line puts at least three copies of its mark on the board |
| Moves.HandleClick | src/App.js:18-33 | ignored (None) exactly when the board has a complete line or cell `i` is taken; otherwise cell `i` gets X or O by `xIsNext` and every other cell is unchanged |
| GameState.XIsNext | src/App.js:74 | X is to move exactly when the cursor is even |
| GameState.CurrentSquares | src/App.js:76 | the displayed board is one of the stored snapshots |
| GameState.HandlePlay | src/App.js:80-86 | the new history keeps snapshots `0..currentMove`, has length `currentMove + 2`, and the cursor is on its last entry, which is the new board |
| GameState.JumpTo | src/App.js:90-92 | the history is unchanged, the cursor is `nextMove`, and the displayed board is snapshot `nextMove` |
| GameState.ApplyMove | src/App.js:74-86 | an ignored click leaves history and cursor unchanged; an accepted one keeps snapshots `0..currentMove`, appends one, advances the cursor by one, and changes only cell `i`, to X at an even cursor and O at an odd one |
| GameState.JumpToCurrentIsIdentity | src/App.js:90-92 | jumping to the current move is the identity |
| GameState.JumpToLastWins | src/App.js:90-92 | two jumps in a row equal the second jump alone |
| GameState.MoveThenJumpBack | src/App.js:82-92 | after an accepted move and a jump back, the previous board is shown again, and a further accepted move leaves `previous + 2` snapshots |
| GameState.TurnAlternates | src/App.js:74-85 | an accepted click writes the mover's mark and passes the turn to the other player; an ignored click keeps the turn |
| GameState.WonBoardIgnoresClicks | src/App.js:20-22 | once the displayed board has a complete line, a click on any of the nine cells leaves the state unchanged |
| Reachability.Perform | src/App.js:95-109 | an interaction is refused exactly when it names a cell outside the grid or a history button that does not exist; a jump keeps the history and sets the cursor |
| Reachability.Run | src/App.js:71-92 | every run of offered interactions keeps the cursor inside the history |
| Reachability.InitialInv | src/App.js:71-72 | the fresh game, one empty board with the cursor on it, satisfies the invariant |
| Reachability.ValidStepChangesOneCell | src/App.js:24-30 | consecutive snapshots differ in exactly one cell, which goes from Empty to a mark |
| Reachability.ApplyMoveKeepsInv | src/App.js:18-33 | a click, ignored or accepted, preserves the invariant |
| Reachability.JumpToKeepsInv | src/App.js:90-92 | a jump to a stored snapshot preserves the invariant |
| Reachability.PerformKeepsInv | src/App.js:95-109 | every offered interaction preserves the invariant |
| Reachability.RunKeepsInv | src/App.js:71-92 | every run of offered interactions preserves the invariant |
| Reachability.ReachableInv | src/App.js:71-92 | every state reachable from a fresh game satisfies the invariant |
| Reachability.SnapshotCounts | src/App.js:24-30 | snapshot `k` holds exactly `k` marks, and `#X - #O` is `k % 2` |
| Reachability.TurnFollowsBalance | src/App.js:74 | on the displayed board, `#X - #O == 1` iff O is to play, and `#X == #O` iff X is to play |
| Reachability.HistoryLengthCountsMoves | src/App.js:82-85 | the history holds one snapshot more than the newest board has marks |
| Reachability.NoSnapshotAfterWin | src/App.js:20-22 | a snapshot followed by another one has no complete line |
| Reachability.WinningLinesCarryLastMark | src/App.js:140-145 | after a valid step, every complete line carries the mark just played |
| Reachability.WinnerFacts | src/App.js:140-145 | in a reachable snapshot with a complete line: the last mover owns every complete line and is reported by `calculateWinner`, so the scan order does not matter; the snapshot index and its number of marks are both at least five, and it is the last one stored |
| Reachability.FewMarksNoWinner | src/App.js:127-149 | a reachable snapshot with fewer than five marks has no complete line, so `calculateWinner` returns None for it |
| Reachability.ReachedStateCounts | src/App.js:71-92 | in every state reached from a fresh game, each snapshot `k` holds `k` marks with `#X - #O == k % 2`, and X leads by one on the displayed board iff O is to play |
| Scenarios.FirstMove | src/App.js:24-32 | the first click on cell 0 shows X there and makes O the next player |
| Scenarios.TopRowWin | src/App.js:20-22 | X completes the top row after moves 0, 4, 1, 5, 2; `calculateWinner` reports X and every click afterwards is ignored |
| Scenarios.JumpBackToMoveOne | src/App.js:90-92 | after three moves, jumping to move 1 shows the board after the first move, with O to play and all four snapshots kept |
| Scenarios.ThreeMarksCanWin | src/App.js:140-145 | on an arbitrary board, three marks can already complete a line |

## Left out

- Rendering is not modelled: `Square`, the board rows, the history list and its buttons (src/App.js:5-11, 46-65, 95-121). The view's only role here is that it offers a click on each of the nine cells and one jump per stored snapshot, and `Perform` encodes exactly that.
- The status line and the move labels (src/App.js:38-43, 97-102) are left out. They are text chosen by `calculateWinner` and `xIsNext`, which are modelled.
- React's `useState`, re-rendering and batching of updates are left out. Each update is one pure state transition.
- Draw detection is not modelled, because the code has none.
- Moves.HandleClick requires a cell index below 9. In JavaScript, index 9 would append a tenth element to the copy, and an index `i >= 10` would make the copy `i + 1` long with holes at indices 9 to `i - 1`. `calculateWinner` never reads past index 8. The view never produces such an index.
- GameState.CurrentSquares: the contract says only that the displayed board is a stored snapshot; that it is the one at the cursor is its definition, and `JumpTo`'s contract states it for every jump.
- GameState.JumpTo requires a stored snapshot index. The code does not check this; out-of-range jumps are never offered. `Perform` returns None for them instead of giving them a meaning.
