/** How the two copies of the engine relate: they agree on every outcome, the
    depth-weighted scores of game_logic.py have the sign of the +1/-1/0 scores
    of xox.py, and so the move game_logic.py picks is worth as much as the one
    xox.py picks, even where the two pick different cells. */
module Comparison {
  import opened Tictactoe
  import GameLogic
  import Xox

  /** The +1/-1/0 class of a score. */
  function Sign(x: int): (r: int)
    ensures -1 <= r <= 1
    ensures r == 1 <==> x > 0
    ensures r == -1 <==> x < 0
  {
    if x > 0 then 1 else if x < 0 then -1 else 0
  }

  /** The two outcome checks agree on every board. */
  lemma CheckWinStatesAgree(board: Board)
    ensures GameLogic.CheckWinState(board) == Xox.CheckWinState(board)
  {
    var g := GameLogic.CheckWinState(board);
    var x := Xox.CheckWinState(board);
    if g.Win? {
      var v :| FirstWon(board, v) && LineOf(board, v, g.mark);
      var w :| FirstWon(board, w) && LineOf(board, w, x.mark);
      assert v == w;
    }
  }

  /** While the game cannot run past depth 9, a depth-weighted score is
      positive, negative or zero exactly as the +1/-1/0 score is 1, -1 or 0. */
  lemma {:induction false} ScoringsAgreeInSign(board: Board, depth: int, isMaximizing: bool)
    requires depth + EmptyCount(board) <= 9
    ensures Sign(GameLogic.MinimaxValue(board, depth, isMaximizing)) == Xox.MinimaxValue(board, depth, isMaximizing)
    decreases EmptyCount(board), 1
  {
    CheckWinStatesAgree(board);
    var result := GameLogic.CheckWinState(board);
    if result == Ongoing {
      var g := GameLogic.AchievingCell(board, depth, isMaximizing);
      var x := Xox.AchievingCell(board, depth, isMaximizing);
      ChildSignsAgree(board, depth, isMaximizing, g);
      ChildSignsAgree(board, depth, isMaximizing, x);
      SignOfBestMove(board, depth, isMaximizing, g, x);
    } else {
      TerminalScoresAgree(board, depth, isMaximizing);
    }
  }

  /** The step of the induction: the two scores of the move into empty cell j
      agree in sign. */
  lemma {:induction false} ChildSignsAgree(board: Board, depth: int, isMaximizing: bool, j: Index)
    requires depth + EmptyCount(board) <= 9 && board[j] == Empty
    ensures Sign(GameLogic.ChildValue(board, depth, isMaximizing, j)) == Xox.ChildValue(board, depth, isMaximizing, j)
    decreases EmptyCount(board), 0
  {
    var mark := MarkFor(isMaximizing);
    PlaceUsesEmptyCell(board, j, mark);
    GameLogic.ChildValueIs(board, depth, isMaximizing, j);
    Xox.ChildValueIs(board, depth, isMaximizing, j);
    ScoringsAgreeInSign(Place(board, j, mark), depth + 1, !isMaximizing);
  }

  /** On a finished board before depth 10, the depth-weighted score has the
      sign of the table score. */
  lemma TerminalScoresAgree(board: Board, depth: int, isMaximizing: bool)
    requires depth < 10
    requires GameLogic.CheckWinState(board) != Ongoing
    requires GameLogic.CheckWinState(board) == Xox.CheckWinState(board)
    ensures Sign(GameLogic.MinimaxValue(board, depth, isMaximizing)) == Xox.MinimaxValue(board, depth, isMaximizing)
  {
    var result := GameLogic.CheckWinState(board);
    assert result.Win? ==> result.mark == X || result.mark == O;
  }

  /** The inductive step: when each copy's best move agrees in sign with the
      other copy's score of the same move, the two board scores agree too. */
  lemma SignOfBestMove(board: Board, depth: int, isMaximizing: bool, g: Index, x: Index)
    requires GameLogic.CheckWinState(board) == Ongoing && Xox.CheckWinState(board) == Ongoing
    requires board[g] == Empty && board[x] == Empty
    requires GameLogic.MinimaxValue(board, depth, isMaximizing) == GameLogic.ChildValue(board, depth, isMaximizing, g)
    requires Xox.MinimaxValue(board, depth, isMaximizing) == Xox.ChildValue(board, depth, isMaximizing, x)
    requires Sign(GameLogic.ChildValue(board, depth, isMaximizing, g)) == Xox.ChildValue(board, depth, isMaximizing, g)
    requires Sign(GameLogic.ChildValue(board, depth, isMaximizing, x)) == Xox.ChildValue(board, depth, isMaximizing, x)
    ensures Sign(GameLogic.MinimaxValue(board, depth, isMaximizing)) == Xox.MinimaxValue(board, depth, isMaximizing)
  {
    GameLogic.CellBound(board, depth, isMaximizing, x);
    Xox.CellBound(board, depth, isMaximizing, g);
  }

  /** On a board that is neither empty nor full, the cell game_logic.py picks
      is an empty cell whose +1/-1/0 score is the greatest, the same score as
      that of the cell xox.py picks. */
  lemma ChosenMovesEquallyGood(board: Board)
    requires !GameLogic.AllEmpty(board) && Empty in board
    ensures var g := GameLogic.BestMove(board);
      && 0 <= g < 9 && board[g] == Empty
      && (forall j: Index :: board[j] == Empty ==> Xox.MoveScore(board, j) <= Xox.MoveScore(board, g))
    ensures var g := GameLogic.BestMove(board);
      var x := Xox.BestMove(board);
      && 0 <= g < 9 && board[g] == Empty && 0 <= x < 9 && board[x] == Empty
      && Xox.MoveScore(board, g) == Xox.MoveScore(board, x)
  {
    GameLogic.BestMoveIsFirstMaximum(board);
    Xox.BestMoveIsFirstMaximum(board);
    var g := GameLogic.BestMove(board);
    forall j: Index | board[j] == Empty
      ensures Xox.MoveScore(board, j) <= Xox.MoveScore(board, g)
    {
      PlaceUsesEmptyCell(board, j, COMPUTER);
      PlaceUsesEmptyCell(board, g, COMPUTER);
      ScoringsAgreeInSign(Place(board, j, COMPUTER), 0, false);
      ScoringsAgreeInSign(Place(board, g, COMPUTER), 0, false);
    }
  }
}
