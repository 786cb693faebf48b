# Tic-tac-toe minimax engine, modelled in Dafny

This project models the core of a tic-tac-toe game. A human (mark `X`)
plays the computer (mark `O`), and the computer picks its move by an
exhaustive minimax search. The repository holds the engine twice, and the
model keeps both copies:

- `game_logic.py` is used by the Streamlit front end. Its terminal scores
  are depth-weighted: `10 - depth` for a computer win, `depth - 10` for a
  human win and `0` for a draw. `find_best_move` returns cell 4 on an
  empty board without searching.
- `xox.py` is embedded in the Tkinter script. Its terminal scores come from
  a `scores` table (+1, -1, 0). Its search loops over a snapshot
  (`empty_spots`) of the empty cells, taken before the loop starts.

Files:

- `tictactoe.dfy` (module `Tictactoe`): the shared data model. It holds
  cells, boards of nine cells in row-major order, outcomes, the eight
  winning lines in scan order and the predicates that define a filled line.
  It also holds the running best score, with `None` standing for the
  source's `-inf`/`+inf` start value, and the (`best_score`, `best_move`)
  pair.
- `game_logic.dfy` (module `GameLogic`) and `xox.dfy` (module `Xox`): one
  module per copy. In each, `check_win_state` is a pure recursive scan.
  `minimax` appears twice. `MinimaxValue` is a pure specification over
  `seq<Cell>`. `Minimax` is a method over `array<Cell>` that writes each
  trial mark, recurses and writes the cell back to empty, as the source
  does. The method is proved equal to `MinimaxValue` and proved to leave
  the board as it found it. `find_best_move` follows the same pattern:
  method `FindBestMove`, specification `BestMove`.
- `comparison.dfy` (module `Comparison`): lemmas that relate the two
  copies.

The search terminates because every trial move fills an empty cell. The
measure is the number of empty cells. The source starts `best_score` at
minus or plus infinity and could in principle return it. That happens only
if a board in progress has no empty cell, and the contract of
`CheckWinState` rules this out. So both `minimax` copies always return an
integer.

Two behaviours of the source that the model keeps as written:

- The source has no fallback for a board in progress with no empty cell;
  `minimax` would return the infinite start value. The model proves that
  this case never arises.
- On an empty board, `game_logic.py` returns cell 4 without searching,
  while `xox.py` has no such shortcut and searches every cell. The model
  keeps both behaviours.

## Model

| member | source | states |
|---|---|---|
| `GameLogic.ScanLinesOutcome` | game_logic.py:14-22 | The scan from line k on reports the mark of the first filled line from k on. If no line from k on is filled, it reports a draw exactly when no cell is empty, and a game in progress exactly when some cell is empty. |
| `GameLogic.CheckWinState` | game_logic.py:4-22 | Returns the mark of the first filled line in the order rows, columns, diagonals. Otherwise returns `Draw` exactly when no cell is empty, and `Ongoing` (the source's `None`) exactly when some cell is empty. |
| `Tictactoe.Improve` | game_logic.py:42-59 | The running `best_score` after one more trial score is the larger one (maximising) or the smaller one (minimising) of the two. The infinite start value is replaced by the first score. |
| `Tictactoe.PlaceOnUnfinished` | game_logic.py:9-17 | On a board with no filled line, a move by mark m can fill only lines of m. Afterwards the board has no filled line exactly when the move completes no line of m. |
| `Tictactoe.PlaceUsesEmptyCell` | game_logic.py:44-47 | A trial move into an empty cell leaves one empty cell fewer, which is why the recursion ends. |
| `Tictactoe.ThreatIgnored` | game_logic.py:9-17 | On the board `X X _` with the rest empty, a computer move into any cell from 3 on leaves no filled line. The human's mark in cell 2 then fills the top row, and the computer holds no line. |
| `Tictactoe.ThreatBlocked` | game_logic.py:9-17 | On the board `X X _` with the rest empty, after the computer blocks at cell 2 there is no filled line, and no human reply into a cell from 3 on fills a line of the human. |
| `GameLogic.BestScore` | game_logic.py:41-59 | After the loop has visited cells 0..n-1, `best_score` is still infinite exactly when none of those cells was tried, that is, none was empty. |
| `GameLogic.BestScoreIsExtremum` | game_logic.py:41-59 | After cells 0..n-1, `best_score` is the trial score of one tried cell among them, and no tried cell among them scores better for the side to move. |
| `GameLogic.TrialMove` | game_logic.py:44-47 | Writing the mover's mark into an empty cell, scoring the board and writing the cell back yields the score of the board after that move. The board is unchanged on return. |
| `GameLogic.MinimaxRecurrence` | game_logic.py:30-60 | On a finished board the score is 10 - depth for a computer win, depth - 10 for a human win and 0 for a draw. On an unfinished board it is the maximum (computer to move) or the minimum (human to move) of the scores of the moves into the empty cells. |
| `GameLogic.Minimax` | game_logic.py:26-60 | The in-place search returns `MinimaxValue` of the board it was given. Because each trial mark is undone, the board is unchanged on return. |
| `GameLogic.TerminalBounds` | game_logic.py:33-38 | A finished board scores 10 - depth, depth - 10 or 0, so up to depth 10 its score lies between depth - 10 and 10 - depth. |
| `GameLogic.MinimaxBounds` | game_logic.py:33-38 | If the game cannot run past depth 10, every score lies between depth - 10 and 10 - depth. An unfinished board scores between depth - 9 and 9 - depth. |
| `GameLogic.HumanMoveOutcome` | game_logic.py:55-57 | A human move on an unfinished board never produces a computer win. |
| `GameLogic.HumanReplyBound` | game_logic.py:51-60 | With the human to move on an unfinished board (and depth plus empty cells at most 9), the score is at most 8 - depth. |
| `GameLogic.SelectInvariant` | game_logic.py:75-84 | After cells 0..n-1, `best_move` is -1 exactly when none of them is empty. Otherwise it is an empty cell with the greatest score, and every empty cell before it scores strictly less. |
| `GameLogic.BestMoveIsFirstMaximum` | game_logic.py:62-88 | Returns 4 on an all-empty board. On any other board, returns -1 exactly when no cell is empty, and otherwise the lowest-index empty cell whose score is the greatest. Any result other than -1 is an empty cell. |
| `GameLogic.FindBestMove` | game_logic.py:62-88 | The in-place selection returns `BestMove` of the board it was given, and leaves the board unchanged. |
| `GameLogic.WinningMoveScores` | game_logic.py:33-36 | On an unfinished board, a computer move that completes a line scores 10. Every other move scores at most 8. |
| `GameLogic.WinningMoveIsChosen` | game_logic.py:75-88 | On an unfinished board where the computer can complete a line at once, `find_best_move` returns the lowest-index cell that does so. |
| `GameLogic.TakesWinningCell` | game_logic.py:62-88 | With `O` in cells 0 and 1 and every other cell empty, `find_best_move` returns 2. |
| `GameLogic.IgnoringThreatScore` | game_logic.py:51-60 | Against `X X _`, a computer move into any cell from 3 on scores at most -9, because the human's best reply wins at depth 1. |
| `GameLogic.BlockingScore` | game_logic.py:51-60 | Against `X X _`, the block at cell 2 scores at least -8, because no human reply wins at depth 1. |
| `GameLogic.BlocksHumanLine` | game_logic.py:62-88 | With `X` in cells 0 and 1 and every other cell empty, `find_best_move` returns 2. |
| `GameLogic.FullBoardIsDraw` | game_logic.py:19-20 | The full board `X O X / X O O / O X X` has no filled line, and the outcome is a draw. |
| `Xox.ScanConditionsOutcome` | xox.py:25-33 | The scan from condition k on reports the mark of the first condition from k on whose cells are equal and not empty. If there is none, it reports a draw exactly when no cell is empty, and a game in progress exactly when some cell is empty. |
| `Xox.CheckWinState` | xox.py:16-33 | Same outcome contract as the other copy, here for the condition `cells equal and != ""`. |
| `Xox.Scores` | xox.py:36-40 | The `scores` table is looked up only with a finished outcome. It gives +1 exactly for a computer win and -1 exactly for a human win, and the result is always in -1..1. |
| `Xox.EmptySpotsFrom` | xox.py:53 | Every cell the `empty_spots` comprehension lists (from index i on) is empty and at least i. |
| `Xox.EmptySpots` | xox.py:53 | Every cell in the snapshot is empty on the board it was taken from. |
| `Xox.EmptySpotsFromAscending` | xox.py:53 | The comprehension lists cells in strictly ascending order. |
| `Xox.EmptySpotsFromComplete` | xox.py:53 | The comprehension lists every empty cell from index i on. |
| `Xox.EmptySpotsExact` | xox.py:64 | The snapshot lists exactly the empty cells of the board, in ascending order. |
| `Xox.InSnapshot` | xox.py:77 | A cell is in the snapshot exactly when it is empty. |
| `Xox.BestScore` | xox.py:51-69 | After the loop has visited the first n spots, `best_score` is still infinite exactly when n is 0. |
| `Xox.BestScoreIsExtremum` | xox.py:51-69 | After the first n trial scores, `best_score` is one of them, and none of them is better for the side to move. |
| `Xox.TrialMove` | xox.py:55-57 | Writing the mover's mark into an empty cell, scoring the board and writing the cell back yields the score of the board after that move. The board is unchanged on return. |
| `Xox.MinimaxRecurrence` | xox.py:42-70 | A finished board scores +1 (computer win), -1 (human win) or 0 (draw). An unfinished board scores the maximum (computer to move) or the minimum (human to move) over the cells that are empty now, because every trial move is undone before the next. |
| `Xox.MinimaxRange` | xox.py:36-48 | Every score `minimax` returns is -1, 0 or 1. |
| `Xox.Minimax` | xox.py:42-70 | The in-place search over the snapshot returns `MinimaxValue` of the board it was given, and leaves the board unchanged. |
| `Xox.SelectInvariant` | xox.py:79-92 | After the first n spots of an ascending list, `best_move` is -1 exactly when n is 0. Otherwise it is one of those spots with the greatest score, and every one of them below it scores strictly less. |
| `Xox.SnapshotFirstMaximum` | xox.py:77-94 | After the whole snapshot, `best_move` is -1 exactly when the snapshot is empty. Otherwise it is a listed cell with the greatest score, and every listed cell below it scores strictly less. |
| `Xox.SnapshotChoice` | xox.py:72-94 | For any scores given to exactly the empty cells, the selection over the snapshot returns -1 exactly when no cell is empty, and otherwise the lowest-index empty cell with the greatest score. |
| `Xox.BestMoveIsFirstMaximum` | xox.py:72-94 | Returns -1 exactly when no cell is empty. Otherwise returns the lowest-index empty cell whose score is the greatest, since only a strictly greater score replaces the choice. |
| `Xox.FindBestMove` | xox.py:72-94 | The in-place selection returns `BestMove` of the board it was given, and leaves the board unchanged. |
| `Xox.IgnoringThreatScore` | xox.py:61-70 | Against `X X _`, a computer move into any cell from 3 on scores -1, because the human's best reply wins. |
| `Xox.BlocksHumanLine` | xox.py:72-94 | With `X` in cells 0 and 1 and every other cell empty, `find_best_move` returns 2. |
| `Comparison.CheckWinStatesAgree` | xox.py:16-33 | The two outcome checks agree on every board. |
| `Comparison.TerminalScoresAgree` | xox.py:36-48 | Before depth 10, the depth-weighted score of a finished board has the sign of its table score. |
| `Comparison.ChildSignsAgree` | xox.py:54-57 | If the game cannot run past depth 9, the two copies score the same trial move with the same sign. |
| `Comparison.ScoringsAgreeInSign` | game_logic.py:30-60 | If the game cannot run past depth 9, the depth-weighted minimax score is positive, negative or zero exactly when the +1/-1/0 score is 1, -1 or 0. |
| `Comparison.ChosenMovesEquallyGood` | game_logic.py:75-88 | On a board that is neither empty nor full, the cell picked by `game_logic.py` has the greatest +1/-1/0 score. That score equals the score of the cell picked by `xox.py`. |

## Left out

- The Tkinter interface in `xox.py` is not modelled: window, buttons,
  message boxes, the delayed `root.after` call, `computer_move`,
  `check_game_end`, `button_click` and `reset_board`. It is UI code over
  module-global state.
- `app.py` (the Streamlit page, its session state and the turn bookkeeping
  around the core calls) is not part of this model.
- Floating-point infinities are not modelled as floats. The start value of
  `best_score` is `None` in an `Option<int>`.
- Boards whose length is not nine are not modelled. The source indexes
  cells 0..8 unconditionally, and every operation here requires nine cells.
- Cells holding a string other than `""`, `"X"` or `"O"` are not modelled;
  a cell here is `Empty`, `X` or `O`. In the source, `check_win_state`
  returns any non-empty string that fills a line as the winner
  (game_logic.py:16-17, xox.py:26-27). `game_logic.py`'s `minimax` then
  matches none of its three terminal tests (game_logic.py:33-38) and goes
  on searching the board, while `xox.py`'s `minimax` fails with a `KeyError`
  at `scores[result]` (xox.py:48). Such a string also counts as an occupied
  cell, since only `""` is empty.
- The two global optimality claims are not proved: that the centre is
  always an optimal first move (the shortcut at game_logic.py:71-73) and
  that the computer never loses from an empty board. They are results
  about the whole game tree. The model proves the local minimax recurrence
  instead.
