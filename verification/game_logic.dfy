/** The engine used by the Streamlit front end: outcome check, depth-weighted
    minimax with make/undo on the shared board, and move selection with the
    empty-board shortcut. */
module GameLogic {
  import opened Tictactoe

  // ---------------------------------------------------------------------------
  // Outcome check
  // ---------------------------------------------------------------------------

  /** The scan of `check_win_state` from line k on: the first one whose
      three cells are equal and not empty gives the winner; after the last
      one, a board with no empty cell is a draw. */
  function ScanLines(board: Board, k: nat): Outcome
    requires k <= 8
    decreases 8 - k
  {
    if k == 8 then
      if Empty !in board then Draw else Ongoing
    else
      var line := WinLines[k];
      if board[line.a] != Empty && board[line.a] == board[line.b] == board[line.c] then Win(board[line.a])
      else ScanLines(board, k + 1)
  }

  /** The scan from k on reports the mark of the first filled line from k on;
      if there is none, a draw exactly when no cell is empty, otherwise a game
      in progress. */
  lemma {:induction false} ScanLinesOutcome(board: Board, k: nat)
    requires k <= 8
    ensures var r := ScanLines(board, k);
      r.Win? ==> exists w :: k <= w < 8 && LineOf(board, w, r.mark) && forall v :: k <= v < w ==> !Won(board, v)
    ensures var r := ScanLines(board, k);
      !r.Win? <==> forall v :: k <= v < 8 ==> !Won(board, v)
    ensures var r := ScanLines(board, k);
      (r == Draw <==> !r.Win? && Empty !in board) && (r == Ongoing <==> !r.Win? && Empty in board)
    decreases 8 - k
  {
    if k < 8 {
      var line := WinLines[k];
      if board[line.a] != Empty && board[line.a] == board[line.b] == board[line.c] {
        assert LineOf(board, k, board[line.a]) && Won(board, k);
      } else {
        assert !Won(board, k);
        ScanLinesOutcome(board, k + 1);
        var r := ScanLines(board, k + 1);
        if r.Win? {
          var w :| k + 1 <= w < 8 && LineOf(board, w, r.mark) && forall v :: k + 1 <= v < w ==> !Won(board, v);
          assert forall v :: k <= v < w ==> !Won(board, v);
        } else {
          forall v | k <= v < 8
            ensures !Won(board, v)
          {
            if v > k {
              assert k + 1 <= v;
            }
          }
        }
      }
    }
  }

  /** check_win_state: the mark of the first filled line in the order rows,
      columns, diagonals; otherwise a draw when no cell is empty; otherwise
      the game is still in progress. */
  function CheckWinState(board: Board): (r: Outcome)
    ensures r.Win? ==> r.mark != Empty && exists w :: FirstWon(board, w) && LineOf(board, w, r.mark)
    ensures !r.Win? <==> NoLine(board)
    ensures r == Draw <==> NoLine(board) && Empty !in board
    ensures r == Ongoing <==> NoLine(board) && Empty in board
  {
    ScanLinesOutcome(board, 0);
    ScanLines(board, 0)
  }

  // ---------------------------------------------------------------------------
  // Minimax, as a value
  // ---------------------------------------------------------------------------

  /** The score `minimax` computes for `board` at `depth`: a computer win scores
      10 - depth, a human win depth - 10, a draw 0; otherwise the best score over
      the empty cells for the side to move. */
  function MinimaxValue(board: Board, depth: int, isMaximizing: bool): int
    decreases EmptyCount(board), 1, 0
  {
    match CheckWinState(board)
    case Win(mark) => if mark == COMPUTER then 10 - depth else depth - 10
    case Draw => 0
    case Ongoing => BestScore(isMaximizing, ChildValues(board, depth, isMaximizing, 9), 9).value
  }

  /** The score of the trial move into empty cell j by the side to move. */
  function ChildValue(board: Board, depth: int, isMaximizing: bool, j: Index): int
    requires board[j] == Empty
    decreases EmptyCount(board), 0, 0
  {
    PlaceUsesEmptyCell(board, j, MarkFor(isMaximizing));
    MinimaxValue(Place(board, j, MarkFor(isMaximizing)), depth + 1, !isMaximizing)
  }

  /** The trial scores of cells 0 .. n-1: the score of the mover's move into
      each empty cell, `None` for an occupied cell, which the loop skips. */
  function ChildValues(board: Board, depth: int, isMaximizing: bool, n: nat): (values: seq<Option<int>>)
    requires n <= 9
    ensures |values| == n
    ensures forall j :: 0 <= j < n ==>
      values[j] == if board[j] == Empty then Some(ChildValue(board, depth, isMaximizing, j)) else None
    decreases EmptyCount(board), 0, n
  {
    if n == 0 then []
    else
      ChildValues(board, depth, isMaximizing, n - 1)
      + [if board[n - 1] == Empty then Some(ChildValue(board, depth, isMaximizing, n - 1)) else None]
  }

  /** `best_score` after the loop has visited cells 0 .. n-1, given their trial
      scores; `None` is the starting infinity, which remains only if none of
      those cells was tried. */
  function BestScore(isMaximizing: bool, values: seq<Option<int>>, n: nat): (r: Option<int>)
    requires n <= |values|
    ensures r.Some? <==> exists j :: 0 <= j < n && values[j].Some?
  {
    if n == 0 then None
    else
      var best := BestScore(isMaximizing, values, n - 1);
      match values[n - 1]
      case None => best
      case Some(score) => Some(Improve(isMaximizing, best, score))
  }

  // ---------------------------------------------------------------------------
  // Minimax, in place
  // ---------------------------------------------------------------------------

  /** minimax: tries each empty cell in ascending order by writing the mover's
      mark, recursing and writing the cell back to empty. */
  method Minimax(board: array<Cell>, depth: int, isMaximizing: bool) returns (score: int)
    requires board.Length == 9
    modifies board
    ensures board[..] == old(board[..])
    ensures score == MinimaxValue(old(board[..]), depth, isMaximizing)
    decreases EmptyCount(board[..]), 1
  {
    var result := CheckWinState(board[..]);
    if result == Win(COMPUTER) {
      return 10 - depth;
    }
    if result == Win(HUMAN) {
      return depth - 10;
    }
    if result == Draw {
      return 0;
    }
    ghost var start: Board := board[..];
    var bestScore: Option<int> := None;
    if isMaximizing {
      ghost var values := ChildValues(start, depth, true, 9);
      for i := 0 to 9
        invariant board[..] == start
        invariant bestScore == BestScore(true, values, i)
      {
        if board[i] == Empty {
          var s := TrialMove(board, i, COMPUTER, depth + 1, false);
          ChildValueIs(start, depth, true, i);
          bestScore := Some(Improve(true, bestScore, s));
        }
      }
    } else {
      ghost var values := ChildValues(start, depth, false, 9);
      for i := 0 to 9
        invariant board[..] == start
        invariant bestScore == BestScore(false, values, i)
      {
        if board[i] == Empty {
          var s := TrialMove(board, i, HUMAN, depth + 1, true);
          ChildValueIs(start, depth, false, i);
          bestScore := Some(Improve(false, bestScore, s));
        }
      }
    }
    return bestScore.value;
  }

  /** The body of the loops over the cells: write `mark` into empty cell i,
      score the board with minimax, and write the cell back to empty. */
  method TrialMove(board: array<Cell>, i: Index, mark: Cell, depth: int, isMaximizing: bool) returns (score: int)
    requires board.Length == 9 && board[i] == Empty && mark != Empty
    modifies board
    ensures board[..] == old(board[..])
    ensures score == MinimaxValue(Place(old(board[..]), i, mark), depth, isMaximizing)
    decreases EmptyCount(board[..]), 0
  {
    ghost var start: Board := board[..];
    board[i] := mark;
    assert board[..] == Place(start, i, mark);
    PlaceUsesEmptyCell(start, i, mark);
    score := Minimax(board, depth, isMaximizing);
    board[i] := Empty;
    assert board[..] == start;
  }

  // ---------------------------------------------------------------------------
  // Move selection
  // ---------------------------------------------------------------------------

  /** The score `find_best_move` gives to the computer's move into cell i. */
  function MoveScore(board: Board, i: Index): int
    requires board[i] == Empty
  {
    MinimaxValue(Place(board, i, COMPUTER), 0, false)
  }

  /** The scores `find_best_move` obtains for cells 0 .. 8: the score of the
      computer's move into each empty cell, `None` for an occupied cell. */
  function MoveScores(board: Board): (scores: seq<Option<int>>)
    ensures |scores| == 9
    ensures forall j :: 0 <= j < 9 ==> scores[j] == if board[j] == Empty then Some(MoveScore(board, j)) else None
  {
    seq(9, j requires 0 <= j < 9 => if board[j] == Empty then Some(MoveScore(board, j)) else None)
  }

  /** (`best_score`, `best_move`) after the loop has visited cells 0 .. n-1,
      given their scores: a cell replaces the current choice only when its score
      is strictly greater. */
  function Select(scores: seq<Option<int>>, n: nat): Choice
    requires n <= |scores|
  {
    if n == 0 then Choice(None, -1)
    else
      var choice := Select(scores, n - 1);
      if scores[n - 1].Some? && Beats(scores[n - 1].value, choice.bestScore) then Choice(scores[n - 1], n - 1)
      else choice
  }

  predicate AllEmpty(board: Board)
  {
    forall i | 0 <= i < 9 :: board[i] == Empty
  }

  /** The index `find_best_move` returns: 4 on an empty board, otherwise the
      choice left after all nine cells, -1 when no cell is empty. */
  function BestMove(board: Board): int
  {
    if AllEmpty(board) then 4 else Select(MoveScores(board), 9).bestMove
  }

  /** find_best_move: on an empty board takes the center; otherwise tries each
      empty cell with the computer's mark, scores it with minimax at depth 0
      with the human to move, undoes it, and keeps the first strictly best. */
  method FindBestMove(board: array<Cell>) returns (bestMove: int)
    requires board.Length == 9
    modifies board
    ensures board[..] == old(board[..])
    ensures bestMove == BestMove(old(board[..]))
  {
    var bestScore: Option<int> := None;
    bestMove := -1;
    if forall i | 0 <= i < 9 :: board[i] == Empty {
      return 4;
    }
    ghost var start: Board := board[..];
    ghost var scores := MoveScores(start);
    for i := 0 to 9
      invariant board[..] == start
      invariant Choice(bestScore, bestMove) == Select(scores, i)
    {
      if board[i] == Empty {
        var score := TrialMove(board, i, COMPUTER, 0, false);
        MoveScoreAt(start, i);
        if Beats(score, bestScore) {
          bestScore := Some(score);
          bestMove := i;
        }
      }
    }
  }

  // ---------------------------------------------------------------------------
  // Properties of minimax
  // ---------------------------------------------------------------------------

  /** The loop's `best_score` over cells 0 .. n-1 is the score of one tried
      cell among them, and no tried cell among them is better for the mover. */
  lemma {:induction false} BestScoreIsExtremum(isMaximizing: bool, values: seq<Option<int>>, n: nat)
    requires n <= |values|
    ensures var r := BestScore(isMaximizing, values, n);
      r.Some? ==> exists j :: 0 <= j < n && values[j] == r
    ensures var r := BestScore(isMaximizing, values, n);
      forall j :: 0 <= j < n && values[j].Some? ==>
        if isMaximizing then values[j].value <= r.value else values[j].value >= r.value
    decreases n
  {
    if n > 0 {
      BestScoreIsExtremum(isMaximizing, values, n - 1);
    }
  }

  /** The minimax recurrence: on a finished board the score is 10 - depth for a
      computer win, depth - 10 for a human win and 0 for a draw; on an unfinished
      board it is the maximum (computer to move) or minimum (human to move) of
      the scores of the moves into the empty cells. */
  lemma MinimaxRecurrence(board: Board, depth: int, isMaximizing: bool)
    ensures CheckWinState(board) == Win(COMPUTER) ==> MinimaxValue(board, depth, isMaximizing) == 10 - depth
    ensures CheckWinState(board) == Win(HUMAN) ==> MinimaxValue(board, depth, isMaximizing) == depth - 10
    ensures CheckWinState(board) == Draw ==> MinimaxValue(board, depth, isMaximizing) == 0
    ensures CheckWinState(board) == Ongoing ==>
      exists j: Index :: board[j] == Empty && MinimaxValue(board, depth, isMaximizing) == ChildValue(board, depth, isMaximizing, j)
    ensures CheckWinState(board) == Ongoing ==>
      forall j: Index :: board[j] == Empty ==>
        if isMaximizing then ChildValue(board, depth, isMaximizing, j) <= MinimaxValue(board, depth, isMaximizing)
        else ChildValue(board, depth, isMaximizing, j) >= MinimaxValue(board, depth, isMaximizing)
  {
    if CheckWinState(board) == Ongoing {
      var j := AchievingCell(board, depth, isMaximizing);
      forall k: Index | board[k] == Empty
        ensures if isMaximizing then ChildValue(board, depth, isMaximizing, k) <= MinimaxValue(board, depth, isMaximizing)
          else ChildValue(board, depth, isMaximizing, k) >= MinimaxValue(board, depth, isMaximizing)
      {
        CellBound(board, depth, isMaximizing, k);
      }
    }
  }

  /** The score of a trial move is the score of the board it leads to. */
  lemma ChildValueIs(board: Board, depth: int, isMaximizing: bool, j: Index)
    requires board[j] == Empty
    ensures ChildValue(board, depth, isMaximizing, j) == MinimaxValue(Place(board, j, MarkFor(isMaximizing)), depth + 1, !isMaximizing)
  {
  }

  /** An empty cell whose move attains the score of an unfinished board. */
  lemma AchievingCell(board: Board, depth: int, isMaximizing: bool) returns (j: Index)
    requires CheckWinState(board) == Ongoing
    ensures board[j] == Empty && MinimaxValue(board, depth, isMaximizing) == ChildValue(board, depth, isMaximizing, j)
  {
    var values := ChildValues(board, depth, isMaximizing, 9);
    BestScoreIsExtremum(isMaximizing, values, 9);
    var p :| 0 <= p < 9 && values[p] == BestScore(isMaximizing, values, 9);
    j := p;
  }

  /** On an unfinished board, no move scores better for the mover than the board. */
  lemma CellBound(board: Board, depth: int, isMaximizing: bool, k: Index)
    requires CheckWinState(board) == Ongoing && board[k] == Empty
    ensures isMaximizing ==> ChildValue(board, depth, isMaximizing, k) <= MinimaxValue(board, depth, isMaximizing)
    ensures !isMaximizing ==> ChildValue(board, depth, isMaximizing, k) >= MinimaxValue(board, depth, isMaximizing)
  {
    var values := ChildValues(board, depth, isMaximizing, 9);
    BestScoreIsExtremum(isMaximizing, values, 9);
    assert values[k].Some?;
  }

  /** Scores stay within 10 - depth of zero as long as the game cannot run past
      depth 10; an unfinished board is scored one ply deeper, within 9 - depth. */
  lemma {:induction false} MinimaxBounds(board: Board, depth: int, isMaximizing: bool)
    requires depth + EmptyCount(board) <= 10
    ensures depth - 10 <= MinimaxValue(board, depth, isMaximizing) <= 10 - depth
    ensures CheckWinState(board) == Ongoing ==> depth - 9 <= MinimaxValue(board, depth, isMaximizing) <= 9 - depth
    decreases EmptyCount(board)
  {
    if CheckWinState(board) == Ongoing {
      var j := AchievingCell(board, depth, isMaximizing);
      var mark := MarkFor(isMaximizing);
      PlaceUsesEmptyCell(board, j, mark);
      ChildValueIs(board, depth, isMaximizing, j);
      MinimaxBounds(Place(board, j, mark), depth + 1, !isMaximizing);
    } else {
      TerminalBounds(board, depth, isMaximizing);
    }
  }

  /** A finished board scores 10 - depth, depth - 10 or 0, so up to depth 10
      it lies between depth - 10 and 10 - depth. */
  lemma TerminalBounds(board: Board, depth: int, isMaximizing: bool)
    requires CheckWinState(board) != Ongoing
    ensures var score := MinimaxValue(board, depth, isMaximizing);
      score == 10 - depth || score == depth - 10 || score == 0
    ensures depth <= 10 ==> depth - 10 <= MinimaxValue(board, depth, isMaximizing) <= 10 - depth
  {
    var result := CheckWinState(board);
    assert result.Win? ==> result.mark == X || result.mark == O;
  }

  /** A move by the human on an unfinished board never completes a line of the
      computer. */
  lemma HumanMoveOutcome(board: Board, k: Index)
    requires CheckWinState(board) == Ongoing && board[k] == Empty
    ensures CheckWinState(Place(board, k, HUMAN)) != Win(COMPUTER)
  {
    var child := Place(board, k, HUMAN);
    PlaceOnUnfinished(board, k, HUMAN);
    var result := CheckWinState(child);
    if result.Win? {
      var w :| FirstWon(child, w) && LineOf(child, w, result.mark);
      assert LineOf(child, w, HUMAN);
    }
  }

  /** With the human to move on an unfinished board, the computer cannot win
      before two more plies, so the score is at most 8 - depth. */
  lemma HumanReplyBound(board: Board, depth: int)
    requires CheckWinState(board) == Ongoing
    requires depth + EmptyCount(board) <= 9
    ensures MinimaxValue(board, depth, false) <= 8 - depth
  {
    var k: Index :| board[k] == Empty;
    CellBound(board, depth, false, k);
    var child := Place(board, k, HUMAN);
    PlaceUsesEmptyCell(board, k, HUMAN);
    HumanMoveOutcome(board, k);
    if CheckWinState(child) == Ongoing {
      MinimaxBounds(child, depth + 1, true);
    } else {
      TerminalBounds(child, depth + 1, true);
    }
  }

  // ---------------------------------------------------------------------------
  // Properties of move selection
  // ---------------------------------------------------------------------------

  /** The score obtained for empty cell j is the score of the computer's move. */
  lemma MoveScoreAt(board: Board, j: Index)
    requires board[j] == Empty
    ensures MoveScores(board)[j] == Some(MinimaxValue(Place(board, j, COMPUTER), 0, false))
  {
  }

  /** After cells 0 .. n-1, the choice is -1 exactly when none of them was
      scored; otherwise it is a scored cell with the greatest score among them,
      and every scored cell before it scores strictly less. */
  lemma {:induction false} SelectInvariant(scores: seq<Option<int>>, n: nat)
    requires n <= |scores|
    ensures var c := Select(scores, n);
      (c.bestMove == -1 <==> forall j :: 0 <= j < n ==> scores[j].None?) && (c.bestMove == -1 <==> c.bestScore.None?)
    ensures var c := Select(scores, n);
      c.bestMove != -1 ==>
        && 0 <= c.bestMove < n && scores[c.bestMove].Some? && c.bestScore == scores[c.bestMove]
        && (forall j :: 0 <= j < n && scores[j].Some? ==> scores[j].value <= c.bestScore.value)
        && (forall j :: 0 <= j < c.bestMove && scores[j].Some? ==> scores[j].value < c.bestScore.value)
    decreases n
  {
    if n > 0 {
      SelectInvariant(scores, n - 1);
    }
  }

  /** find_best_move returns 4 on an empty board. On any other board it returns
      -1 exactly when no cell is empty, and otherwise the lowest-index empty cell
      whose score is the greatest. Any index other than -1 is an empty cell. */
  lemma BestMoveIsFirstMaximum(board: Board)
    ensures AllEmpty(board) ==> BestMove(board) == 4
    ensures !AllEmpty(board) ==> (BestMove(board) == -1 <==> Empty !in board)
    ensures BestMove(board) != -1 ==> 0 <= BestMove(board) < 9 && board[BestMove(board)] == Empty
    ensures !AllEmpty(board) && BestMove(board) != -1 ==>
      && (forall j: Index :: board[j] == Empty ==> MoveScore(board, j) <= MoveScore(board, BestMove(board)))
      && (forall j: Index :: j < BestMove(board) && board[j] == Empty ==> MoveScore(board, j) < MoveScore(board, BestMove(board)))
  {
    var scores := MoveScores(board);
    SelectInvariant(scores, 9);
    if !AllEmpty(board) && Empty in board {
      var j :| 0 <= j < 9 && board[j] == Empty;
    }
  }

  /** On an unfinished board, a computer move that fills a line scores 10, and
      every other move scores at most 8. */
  lemma WinningMoveScores(board: Board)
    requires CheckWinState(board) == Ongoing
    ensures forall j: Index :: board[j] == Empty && CompletesLine(board, j, COMPUTER) ==> MoveScore(board, j) == 10
    ensures forall j: Index :: board[j] == Empty && !CompletesLine(board, j, COMPUTER) ==> MoveScore(board, j) <= 8
  {
    forall j: Index | board[j] == Empty
      ensures CompletesLine(board, j, COMPUTER) ==> MoveScore(board, j) == 10
      ensures !CompletesLine(board, j, COMPUTER) ==> MoveScore(board, j) <= 8
    {
      var child := Place(board, j, COMPUTER);
      PlaceOnUnfinished(board, j, COMPUTER);
      PlaceUsesEmptyCell(board, j, COMPUTER);
      MinimaxRecurrence(child, 0, false);
      match CheckWinState(child)
      case Win(mark) =>
        var w :| FirstWon(child, w) && LineOf(child, w, mark);
        assert LineOf(child, w, COMPUTER);
      case Draw =>
      case Ongoing =>
        HumanReplyBound(child, 0);
    }
  }

  /** On an unfinished board where the computer can fill a line at once,
      find_best_move returns the lowest-index cell that does so. */
  lemma WinningMoveIsChosen(board: Board, j: Index)
    requires CheckWinState(board) == Ongoing
    requires board[j] == Empty && CompletesLine(board, j, COMPUTER)
    ensures 0 <= BestMove(board) < 9 && board[BestMove(board)] == Empty
    ensures CompletesLine(board, BestMove(board), COMPUTER)
    ensures forall k: Index :: k < BestMove(board) && board[k] == Empty ==> !CompletesLine(board, k, COMPUTER)
  {
    var w :| 0 <= w < 8 && LineOf(Place(board, j, COMPUTER), w, COMPUTER);
    LineCellsDistinct(w);
    assert !AllEmpty(board) by {
      var line := WinLines[w];
      var other := if line.a != j then line.a else line.b;
      assert board[other] == COMPUTER;
    }
    BestMoveIsFirstMaximum(board);
    WinningMoveScores(board);
  }

  /** Example: with O in cells 0 and 1 and every other cell empty,
      find_best_move returns 2, completing the top row. */
  lemma TakesWinningCell()
    ensures BestMove([O, O, Empty, Empty, Empty, Empty, Empty, Empty, Empty]) == 2
  {
    var board: Board := [O, O, Empty, Empty, Empty, Empty, Empty, Empty, Empty];
    assert LineOf(Place(board, 2, COMPUTER), 0, COMPUTER);
    assert CheckWinState(board) == Ongoing;
    WinningMoveIsChosen(board, 2);
  }

  /** Against the threat `X X _`, every move other than the block at cell 2
      lets the human fill the top row at depth 1, so it scores at most -9. */
  lemma IgnoringThreatScore(b: Index)
    requires 3 <= b
    ensures MoveScore(TopRowThreat, b) <= -9
  {
    ThreatIgnored(b);
    var child := Place(TopRowThreat, b, COMPUTER);
    CellBound(child, 0, false, 2);
    ChildValueIs(child, 0, false, 2);
    var reply := Place(child, 2, HUMAN);
    var result := CheckWinState(reply);
    assert result.Win?;
    var w :| FirstWon(reply, w) && LineOf(reply, w, result.mark);
    assert result.mark == HUMAN;
  }

  /** Against the threat `X X _`, the block at cell 2 leaves the human no line
      at depth 1, so it scores at least -8. */
  lemma BlockingScore()
    ensures MoveScore(TopRowThreat, 2) >= -8
  {
    var child := Place(TopRowThreat, 2, COMPUTER);
    ThreatBlocked(3);
    var j := AchievingCell(child, 0, false);
    ThreatBlocked(j);
    ChildValueIs(child, 0, false, j);
    var reply := Place(child, j, HUMAN);
    var result := CheckWinState(reply);
    if result.Win? {
      var w :| FirstWon(reply, w) && LineOf(reply, w, result.mark);
      assert result.mark == COMPUTER;
    } else if result == Ongoing {
      MinimaxBounds(reply, 1, true);
    }
  }

  /** Example: with X in cells 0 and 1 and every other cell empty,
      find_best_move returns 2, blocking the human's top row. */
  lemma BlocksHumanLine()
    ensures BestMove(TopRowThreat) == 2
  {
    var board := TopRowThreat;
    assert !AllEmpty(board) by {
      assert board[0] != Empty;
    }
    assert board[2] == Empty;
    BestMoveIsFirstMaximum(board);
    BlockingScore();
    var r := BestMove(board);
    if r != 2 {
      IgnoringThreatScore(r);
    }
  }

  /** Example: a full board with no filled line is a draw. */
  lemma FullBoardIsDraw()
    ensures CheckWinState([X, O, X, X, O, O, O, X, X]) == Draw
  {
    var board: Board := [X, O, X, X, O, O, O, X, X];
    forall k | 0 <= k < 8
      ensures !Won(board, k)
    {
    }
  }
}
