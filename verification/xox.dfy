/** The engine embedded in the Tkinter script: outcome check, a +1/-1/0 score
    table, minimax over a snapshot of the empty cells with make/undo on the
    shared board, and move selection without any shortcut. */
module Xox {
  import opened Tictactoe

  // ---------------------------------------------------------------------------
  // Outcome check
  // ---------------------------------------------------------------------------

  /** The scan of `check_win_state` from condition k on: the first one whose
      three cells are equal and not empty gives the winner; after the last
      one, a board with no empty cell is a draw. */
  function ScanConditions(currentBoard: Board, k: nat): Outcome
    requires k <= 8
    decreases 8 - k
  {
    if k == 8 then
      if Empty !in currentBoard then Draw else Ongoing
    else
      var condition := WinLines[k];
      if currentBoard[condition.a] == currentBoard[condition.b] == currentBoard[condition.c] != Empty then Win(currentBoard[condition.a])
      else ScanConditions(currentBoard, k + 1)
  }

  /** The scan from k on reports the mark of the first filled line from k on;
      if there is none, a draw exactly when no cell is empty, otherwise a game
      in progress. */
  lemma {:induction false} ScanConditionsOutcome(currentBoard: Board, k: nat)
    requires k <= 8
    ensures var r := ScanConditions(currentBoard, k);
      r.Win? ==> exists w :: k <= w < 8 && LineOf(currentBoard, w, r.mark) && forall v :: k <= v < w ==> !Won(currentBoard, v)
    ensures var r := ScanConditions(currentBoard, k);
      !r.Win? <==> forall v :: k <= v < 8 ==> !Won(currentBoard, v)
    ensures var r := ScanConditions(currentBoard, k);
      (r == Draw <==> !r.Win? && Empty !in currentBoard) && (r == Ongoing <==> !r.Win? && Empty in currentBoard)
    decreases 8 - k
  {
    if k < 8 {
      var condition := WinLines[k];
      if currentBoard[condition.a] == currentBoard[condition.b] == currentBoard[condition.c] != Empty {
        assert LineOf(currentBoard, k, currentBoard[condition.a]) && Won(currentBoard, k);
      } else {
        assert !Won(currentBoard, k);
        ScanConditionsOutcome(currentBoard, k + 1);
        var r := ScanConditions(currentBoard, k + 1);
        if r.Win? {
          var w :| k + 1 <= w < 8 && LineOf(currentBoard, w, r.mark) && forall v :: k + 1 <= v < w ==> !Won(currentBoard, v);
          assert forall v :: k <= v < w ==> !Won(currentBoard, v);
        } else {
          forall v | k <= v < 8
            ensures !Won(currentBoard, v)
          {
            if v > k {
              assert k + 1 <= v;
            }
          }
        }
      }
    }
  }

  /** check_win_state: the mark of the first filled line in the order rows,
      columns, diagonals; otherwise a draw when no cell is empty; otherwise
      the game is still in progress. */
  function CheckWinState(currentBoard: Board): (r: Outcome)
    ensures r.Win? ==> r.mark != Empty && exists w :: FirstWon(currentBoard, w) && LineOf(currentBoard, w, r.mark)
    ensures !r.Win? <==> NoLine(currentBoard)
    ensures r == Draw <==> NoLine(currentBoard) && Empty !in currentBoard
    ensures r == Ongoing <==> NoLine(currentBoard) && Empty in currentBoard
  {
    ScanConditionsOutcome(currentBoard, 0);
    ScanConditions(currentBoard, 0)
  }

  /** The `scores` table, looked up only with a finished outcome: a computer win
      is good (+1), a human win bad (-1), a draw neutral (0). */
  function Scores(result: Outcome): (r: int)
    requires result == Win(COMPUTER) || result == Win(HUMAN) || result == Draw
    ensures -1 <= r <= 1
    ensures r == 1 <==> result == Win(COMPUTER)
    ensures r == -1 <==> result == Win(HUMAN)
  {
    match result
    case Win(mark) => if mark == COMPUTER then 1 else -1
    case Draw => 0
  }

  /** The `empty_spots` snapshot taken from index i on: every listed cell is empty. */
  function EmptySpotsFrom(currentBoard: Board, i: nat): (spots: seq<Index>)
    requires i <= 9
    ensures forall p :: 0 <= p < |spots| ==> i <= spots[p] && currentBoard[spots[p]] == Empty
    decreases 9 - i
  {
    if i == 9 then []
    else if currentBoard[i] == Empty then [i as Index] + EmptySpotsFrom(currentBoard, i + 1)
    else EmptySpotsFrom(currentBoard, i + 1)
  }

  function EmptySpots(currentBoard: Board): (spots: seq<Index>)
    ensures forall p :: 0 <= p < |spots| ==> currentBoard[spots[p]] == Empty
  {
    EmptySpotsFrom(currentBoard, 0)
  }

  /** The listed cells are in strictly ascending order. */
  predicate Ascending(spots: seq<Index>)
  {
    forall p, q :: 0 <= p < q < |spots| ==> spots[p] < spots[q]
  }

  /** A cell below every cell of an ascending list extends it ascending. */
  lemma ConsAscending(i: Index, rest: seq<Index>)
    requires Ascending(rest)
    requires forall p :: 0 <= p < |rest| ==> i < rest[p]
    ensures Ascending([i] + rest)
  {
    var spots := [i] + rest;
    forall p, q | 0 <= p < q < |spots|
      ensures spots[p] < spots[q]
    {
      assert spots[q] == rest[q - 1];
      if p > 0 {
        assert spots[p] == rest[p - 1];
      }
    }
  }

  /** The snapshot from index i on is strictly ascending. */
  lemma {:induction false} EmptySpotsFromAscending(currentBoard: Board, i: nat)
    requires i <= 9
    ensures Ascending(EmptySpotsFrom(currentBoard, i))
    decreases 9 - i
  {
    if i < 9 {
      EmptySpotsFromAscending(currentBoard, i + 1);
      if currentBoard[i] == Empty {
        ConsAscending(i, EmptySpotsFrom(currentBoard, i + 1));
      }
    }
  }

  /** The snapshot from index i on lists every empty cell j from i on. */
  lemma {:induction false} EmptySpotsFromComplete(currentBoard: Board, i: nat, j: Index)
    requires i <= j && currentBoard[j] == Empty
    ensures j in EmptySpotsFrom(currentBoard, i)
    decreases 9 - i
  {
    if j > i {
      EmptySpotsFromComplete(currentBoard, i + 1, j);
    }
  }

  /** `empty_spots` lists exactly the empty cells of the board, in ascending
      order, so a loop over it visits the same cells as a scan of the board. */
  lemma EmptySpotsExact(currentBoard: Board)
    ensures var spots := EmptySpots(currentBoard);
      Ascending(spots)
      && (forall j: Index :: currentBoard[j] == Empty ==> j in spots)
  {
    var spots := EmptySpots(currentBoard);
    assert spots == EmptySpotsFrom(currentBoard, 0);
    EmptySpotsFromAscending(currentBoard, 0);
    forall j: Index | currentBoard[j] == Empty
      ensures j in EmptySpots(currentBoard)
    {
      EmptySpotsFromComplete(currentBoard, 0, j);
    }
  }

  // ---------------------------------------------------------------------------
  // Minimax, as a value
  // ---------------------------------------------------------------------------

  /** The score `minimax` computes: the table's score of a finished board,
      otherwise the best score over the snapshot of empty cells for the side
      to move. `depth` is passed down but never used in a score. */
  function MinimaxValue(currentBoard: Board, depth: int, isMaximizing: bool): int
    decreases EmptyCount(currentBoard), 1, 0
  {
    var result := CheckWinState(currentBoard);
    if result != Ongoing then Scores(result)
    else
      var spots := EmptySpots(currentBoard);
      BestScore(isMaximizing, ChildValues(currentBoard, depth, isMaximizing, spots), |spots|).value
  }

  /** The score of the trial move into empty cell j by the side to move. */
  function ChildValue(currentBoard: Board, depth: int, isMaximizing: bool, j: Index): int
    requires currentBoard[j] == Empty
    decreases EmptyCount(currentBoard), 0, 0
  {
    PlaceUsesEmptyCell(currentBoard, j, MarkFor(isMaximizing));
    MinimaxValue(Place(currentBoard, j, MarkFor(isMaximizing)), depth + 1, !isMaximizing)
  }

  /** The scores of the trial moves into the listed spots, in order. */
  function ChildValues(currentBoard: Board, depth: int, isMaximizing: bool, spots: seq<Index>): (values: seq<int>)
    requires forall p :: 0 <= p < |spots| ==> currentBoard[spots[p]] == Empty
    ensures |values| == |spots|
    ensures forall p :: 0 <= p < |spots| ==> values[p] == ChildValue(currentBoard, depth, isMaximizing, spots[p])
    decreases EmptyCount(currentBoard), 0, |spots|
  {
    if spots == [] then []
    else [ChildValue(currentBoard, depth, isMaximizing, spots[0])] + ChildValues(currentBoard, depth, isMaximizing, spots[1..])
  }

  /** `best_score` after the loop has seen the first n trial scores; `None` is
      the starting infinity, which remains only when n is 0. */
  function BestScore(isMaximizing: bool, scores: seq<int>, n: nat): (r: Option<int>)
    requires n <= |scores|
    ensures r.Some? <==> n > 0
  {
    if n == 0 then None
    else Some(Improve(isMaximizing, BestScore(isMaximizing, scores, n - 1), scores[n - 1]))
  }

  /** On a board in progress the score is the best over the whole snapshot. */
  lemma OngoingValue(currentBoard: Board, depth: int, isMaximizing: bool)
    requires CheckWinState(currentBoard) == Ongoing
    ensures |EmptySpots(currentBoard)| > 0
    ensures var spots := EmptySpots(currentBoard);
      MinimaxValue(currentBoard, depth, isMaximizing) == BestScore(isMaximizing, ChildValues(currentBoard, depth, isMaximizing, spots), |spots|).value
  {
    EmptySpotsExact(currentBoard);
  }

  // ---------------------------------------------------------------------------
  // Minimax, in place
  // ---------------------------------------------------------------------------

  /** minimax: snapshots the empty cells, then tries each by writing the
      mover's mark, recursing and writing the cell back to empty. */
  method Minimax(currentBoard: array<Cell>, depth: int, isMaximizing: bool) returns (score: int)
    requires currentBoard.Length == 9
    modifies currentBoard
    ensures currentBoard[..] == old(currentBoard[..])
    ensures score == MinimaxValue(old(currentBoard[..]), depth, isMaximizing)
    decreases EmptyCount(currentBoard[..]), 1
  {
    var result := CheckWinState(currentBoard[..]);
    if result != Ongoing {
      return Scores(result);
    }
    ghost var start: Board := currentBoard[..];
    var bestScore: Option<int> := None;
    if isMaximizing {
      var emptySpots := EmptySpots(currentBoard[..]);
      ghost var values := ChildValues(start, depth, true, emptySpots);
      OngoingValue(start, depth, true);
      for k := 0 to |emptySpots|
        invariant currentBoard[..] == start
        invariant bestScore == BestScore(true, values, k)
      {
        var i := emptySpots[k];
        var s := TrialMove(currentBoard, i, COMPUTER, depth + 1, false);
        ChildValueIs(start, depth, true, i);
        bestScore := Some(Improve(true, bestScore, s));
      }
      return bestScore.value;
    } else {
      var emptySpots := EmptySpots(currentBoard[..]);
      ghost var values := ChildValues(start, depth, false, emptySpots);
      OngoingValue(start, depth, false);
      for k := 0 to |emptySpots|
        invariant currentBoard[..] == start
        invariant bestScore == BestScore(false, values, k)
      {
        var i := emptySpots[k];
        var s := TrialMove(currentBoard, i, HUMAN, depth + 1, true);
        ChildValueIs(start, depth, false, i);
        bestScore := Some(Improve(false, bestScore, s));
      }
      return bestScore.value;
    }
  }

  /** The body of the loops over the snapshot: write `mark` into empty cell i,
      score the board with minimax, and write the cell back to empty. */
  method TrialMove(currentBoard: array<Cell>, i: Index, mark: Cell, depth: int, isMaximizing: bool) returns (score: int)
    requires currentBoard.Length == 9 && currentBoard[i] == Empty && mark != Empty
    modifies currentBoard
    ensures currentBoard[..] == old(currentBoard[..])
    ensures score == MinimaxValue(Place(old(currentBoard[..]), i, mark), depth, isMaximizing)
    decreases EmptyCount(currentBoard[..]), 0
  {
    ghost var start: Board := currentBoard[..];
    currentBoard[i] := mark;
    assert currentBoard[..] == Place(start, i, mark);
    PlaceUsesEmptyCell(start, i, mark);
    score := Minimax(currentBoard, depth, isMaximizing);
    currentBoard[i] := Empty;
    assert currentBoard[..] == start;
  }

  // ---------------------------------------------------------------------------
  // Move selection
  // ---------------------------------------------------------------------------

  /** The score `find_best_move` gives to the computer's move into cell i. */
  function MoveScore(currentBoard: Board, i: Index): int
    requires currentBoard[i] == Empty
  {
    MinimaxValue(Place(currentBoard, i, COMPUTER), 0, false)
  }

  /** The score `find_best_move` would obtain for each cell; `None` for an
      occupied cell, which it never tries. */
  function MoveScores(currentBoard: Board): (scores: seq<Option<int>>)
    ensures |scores| == 9
    ensures forall j :: 0 <= j < 9 ==> scores[j] == if currentBoard[j] == Empty then Some(MoveScore(currentBoard, j)) else None
  {
    seq(9, j requires 0 <= j < 9 => if currentBoard[j] == Empty then Some(MoveScore(currentBoard, j)) else None)
  }

  /** (`best_score`, `best_move`) after the loop has visited the first n spots,
      given the score of every listed cell: a spot replaces the current choice
      only when its score is strictly greater. */
  function Select(spots: seq<Index>, scores: seq<Option<int>>, n: nat): Choice
    requires |scores| == 9 && n <= |spots|
    requires forall p :: 0 <= p < |spots| ==> scores[spots[p]].Some?
  {
    if n == 0 then Choice(None, -1)
    else
      var choice := Select(spots, scores, n - 1);
      var score := scores[spots[n - 1]].value;
      if Beats(score, choice.bestScore) then Choice(Some(score), spots[n - 1])
      else choice
  }

  /** The index `find_best_move` returns: the choice left after every spot of
      the snapshot, -1 when there is none. */
  function BestMove(currentBoard: Board): int
  {
    var spots := EmptySpots(currentBoard);
    Select(spots, MoveScores(currentBoard), |spots|).bestMove
  }

  /** find_best_move: snapshots the empty cells, tries each with the computer's
      mark, scores it with minimax at depth 0 with the human to move, undoes it,
      and keeps the first strictly best. */
  method FindBestMove(currentBoard: array<Cell>) returns (bestMove: int)
    requires currentBoard.Length == 9
    modifies currentBoard
    ensures currentBoard[..] == old(currentBoard[..])
    ensures bestMove == BestMove(old(currentBoard[..]))
  {
    var bestScore: Option<int> := None;
    bestMove := -1;
    ghost var start: Board := currentBoard[..];
    var emptySpots := EmptySpots(currentBoard[..]);
    ghost var scores := MoveScores(start);
    for k := 0 to |emptySpots|
      invariant currentBoard[..] == start
      invariant Choice(bestScore, bestMove) == Select(emptySpots, scores, k)
    {
      var i := emptySpots[k];
      var score := TrialMove(currentBoard, i, COMPUTER, 0, false);
      MoveScoreAt(start, i);
      if Beats(score, bestScore) {
        bestScore := Some(score);
        bestMove := i;
      }
    }
  }

  /** The listed score of an empty cell is the score of the computer's move into it. */
  lemma MoveScoreAt(currentBoard: Board, j: Index)
    requires currentBoard[j] == Empty
    ensures MoveScores(currentBoard)[j] == Some(MinimaxValue(Place(currentBoard, j, COMPUTER), 0, false))
  {
  }

  // ---------------------------------------------------------------------------
  // Properties of minimax
  // ---------------------------------------------------------------------------

  /** The loop's `best_score` after the first n trial scores is one of them,
      and none of them is better for the mover. */
  lemma {:induction false} BestScoreIsExtremum(isMaximizing: bool, scores: seq<int>, n: nat)
    requires n <= |scores|
    ensures var r := BestScore(isMaximizing, scores, n);
      r.Some? ==> exists p :: 0 <= p < n && r.value == scores[p]
    ensures var r := BestScore(isMaximizing, scores, n);
      forall p :: 0 <= p < n ==> if isMaximizing then scores[p] <= r.value else scores[p] >= r.value
    decreases n
  {
    if n > 0 {
      BestScoreIsExtremum(isMaximizing, scores, n - 1);
    }
  }

  /** The score of a trial move is the score of the board it leads to. */
  lemma ChildValueIs(currentBoard: Board, depth: int, isMaximizing: bool, j: Index)
    requires currentBoard[j] == Empty
    ensures ChildValue(currentBoard, depth, isMaximizing, j) == MinimaxValue(Place(currentBoard, j, MarkFor(isMaximizing)), depth + 1, !isMaximizing)
  {
  }

  /** An empty cell whose move attains the score of an unfinished board. */
  lemma AchievingCell(currentBoard: Board, depth: int, isMaximizing: bool) returns (j: Index)
    requires CheckWinState(currentBoard) == Ongoing
    ensures currentBoard[j] == Empty
    ensures MinimaxValue(currentBoard, depth, isMaximizing) == ChildValue(currentBoard, depth, isMaximizing, j)
  {
    var spots := EmptySpots(currentBoard);
    var values := ChildValues(currentBoard, depth, isMaximizing, spots);
    OngoingValue(currentBoard, depth, isMaximizing);
    BestScoreIsExtremum(isMaximizing, values, |spots|);
    var p :| 0 <= p < |spots| && BestScore(isMaximizing, values, |spots|).value == values[p];
    j := spots[p];
  }

  /** On an unfinished board, no move into an empty cell scores better for the
      mover than the board: the snapshot holds every empty cell. */
  lemma CellBound(currentBoard: Board, depth: int, isMaximizing: bool, k: Index)
    requires CheckWinState(currentBoard) == Ongoing && currentBoard[k] == Empty
    ensures isMaximizing ==> ChildValue(currentBoard, depth, isMaximizing, k) <= MinimaxValue(currentBoard, depth, isMaximizing)
    ensures !isMaximizing ==> ChildValue(currentBoard, depth, isMaximizing, k) >= MinimaxValue(currentBoard, depth, isMaximizing)
  {
    var spots := EmptySpots(currentBoard);
    var values := ChildValues(currentBoard, depth, isMaximizing, spots);
    EmptySpotsExact(currentBoard);
    OngoingValue(currentBoard, depth, isMaximizing);
    BestScoreIsExtremum(isMaximizing, values, |spots|);
    var p :| 0 <= p < |spots| && spots[p] == k;
  }

  /** The minimax recurrence: a finished board scores its table entry (+1
      computer win, -1 human win, 0 draw); an unfinished board scores the
      maximum (computer to move) or minimum (human to move) over its empty
      cells of the move's score. Because every trial move is undone, iterating
      over the snapshot is iterating over the cells empty now. */
  lemma MinimaxRecurrence(currentBoard: Board, depth: int, isMaximizing: bool)
    ensures CheckWinState(currentBoard) == Win(COMPUTER) ==> MinimaxValue(currentBoard, depth, isMaximizing) == 1
    ensures CheckWinState(currentBoard) == Win(HUMAN) ==> MinimaxValue(currentBoard, depth, isMaximizing) == -1
    ensures CheckWinState(currentBoard) == Draw ==> MinimaxValue(currentBoard, depth, isMaximizing) == 0
    ensures CheckWinState(currentBoard) == Ongoing ==>
      exists j: Index :: currentBoard[j] == Empty
        && MinimaxValue(currentBoard, depth, isMaximizing) == ChildValue(currentBoard, depth, isMaximizing, j)
    ensures CheckWinState(currentBoard) == Ongoing ==>
      forall j: Index :: currentBoard[j] == Empty ==>
        if isMaximizing then ChildValue(currentBoard, depth, isMaximizing, j) <= MinimaxValue(currentBoard, depth, isMaximizing)
        else ChildValue(currentBoard, depth, isMaximizing, j) >= MinimaxValue(currentBoard, depth, isMaximizing)
  {
    if CheckWinState(currentBoard) == Ongoing {
      var j := AchievingCell(currentBoard, depth, isMaximizing);
      forall k: Index | currentBoard[k] == Empty
        ensures if isMaximizing then ChildValue(currentBoard, depth, isMaximizing, k) <= MinimaxValue(currentBoard, depth, isMaximizing)
          else ChildValue(currentBoard, depth, isMaximizing, k) >= MinimaxValue(currentBoard, depth, isMaximizing)
      {
        CellBound(currentBoard, depth, isMaximizing, k);
      }
    }
  }

  /** Every score minimax returns is -1, 0 or 1. */
  lemma {:induction false} MinimaxRange(currentBoard: Board, depth: int, isMaximizing: bool)
    ensures -1 <= MinimaxValue(currentBoard, depth, isMaximizing) <= 1
    decreases EmptyCount(currentBoard)
  {
    if CheckWinState(currentBoard) == Ongoing {
      var j := AchievingCell(currentBoard, depth, isMaximizing);
      var mark := MarkFor(isMaximizing);
      PlaceUsesEmptyCell(currentBoard, j, mark);
      MinimaxRange(Place(currentBoard, j, mark), depth + 1, !isMaximizing);
    }
  }

  // ---------------------------------------------------------------------------
  // Properties of move selection
  // ---------------------------------------------------------------------------

  /** After the first n spots of an ascending list, the choice is -1 exactly
      when n is 0; otherwise it is one of those spots, kept with its score, no
      spot among them scores more, and every one below it scores strictly less. */
  lemma {:induction false} SelectInvariant(spots: seq<Index>, scores: seq<Option<int>>, n: nat)
    requires |scores| == 9 && n <= |spots|
    requires forall p :: 0 <= p < |spots| ==> scores[spots[p]].Some?
    requires Ascending(spots)
    ensures var c := Select(spots, scores, n);
      (c.bestMove == -1 <==> n == 0) && (c.bestMove == -1 <==> c.bestScore.None?)
    ensures var c := Select(spots, scores, n);
      c.bestMove != -1 ==> (exists p :: 0 <= p < n && spots[p] == c.bestMove) && c.bestScore == scores[c.bestMove]
    ensures var c := Select(spots, scores, n);
      c.bestMove != -1 ==> forall p :: 0 <= p < n ==> scores[spots[p]].value <= c.bestScore.value
    ensures var c := Select(spots, scores, n);
      c.bestMove != -1 ==> forall p :: 0 <= p < n && spots[p] < c.bestMove ==> scores[spots[p]].value < c.bestScore.value
    decreases n
  {
    if n > 0 {
      SelectInvariant(spots, scores, n - 1);
      var prev := Select(spots, scores, n - 1);
      if !Beats(scores[spots[n - 1]].value, prev.bestScore) {
        var q :| 0 <= q < n - 1 && spots[q] == prev.bestMove;
        assert prev.bestMove < spots[n - 1];
      }
    }
  }

  /** After the whole snapshot, the choice is -1 exactly when the snapshot is
      empty; otherwise it is the lowest listed cell with the greatest score,
      since the snapshot is ascending. */
  lemma SnapshotFirstMaximum(currentBoard: Board, scores: seq<Option<int>>)
    requires |scores| == 9
    requires forall p :: 0 <= p < |EmptySpots(currentBoard)| ==> scores[EmptySpots(currentBoard)[p]].Some?
    ensures var spots := EmptySpots(currentBoard);
      var r := Select(spots, scores, |spots|).bestMove;
      (r == -1 <==> |spots| == 0)
      && (r != -1 ==>
        && r in spots
        && (forall j :: j in spots ==> scores[j].value <= scores[r].value)
        && (forall j :: j in spots && j < r ==> scores[j].value < scores[r].value))
  {
    var spots := EmptySpots(currentBoard);
    EmptySpotsExact(currentBoard);
    SelectInvariant(spots, scores, |spots|);
    var c := Select(spots, scores, |spots|);
    if c.bestMove != -1 {
      forall j | j in spots
        ensures scores[j].value <= c.bestScore.value
        ensures j < c.bestMove ==> scores[j].value < c.bestScore.value
      {
        var p :| 0 <= p < |spots| && spots[p] == j;
      }
    }
  }

  /** A cell is in the snapshot exactly when it is empty. */
  lemma InSnapshot(currentBoard: Board, j: Index)
    ensures j in EmptySpots(currentBoard) <==> currentBoard[j] == Empty
  {
    if currentBoard[j] == Empty {
      EmptySpotsFromComplete(currentBoard, 0, j);
    }
  }

  /** Over the snapshot of a board, scored by any table that scores exactly
      the empty cells, the choice is -1 exactly when no cell is empty, and
      otherwise the lowest-index empty cell with the greatest score. */
  lemma SnapshotChoice(currentBoard: Board, scores: seq<Option<int>>)
    requires |scores| == 9
    requires forall j: Index :: scores[j].Some? <==> currentBoard[j] == Empty
    ensures var spots := EmptySpots(currentBoard);
      var r := Select(spots, scores, |spots|).bestMove;
      (r == -1 <==> Empty !in currentBoard)
      && (r != -1 ==>
        && 0 <= r < 9 && currentBoard[r] == Empty
        && (forall j: Index :: currentBoard[j] == Empty ==> scores[j].value <= scores[r].value)
        && (forall j: Index :: j < r && currentBoard[j] == Empty ==> scores[j].value < scores[r].value))
  {
    var spots := EmptySpots(currentBoard);
    SnapshotFirstMaximum(currentBoard, scores);
    forall j: Index
      ensures j in spots <==> currentBoard[j] == Empty
    {
      InSnapshot(currentBoard, j);
    }
    if Empty in currentBoard {
      var j: Index :| currentBoard[j] == Empty;
    }
  }

  /** find_best_move returns -1 exactly when no cell is empty; otherwise the
      lowest-index empty cell whose score is the greatest. */
  lemma BestMoveIsFirstMaximum(currentBoard: Board)
    ensures BestMove(currentBoard) == -1 <==> Empty !in currentBoard
    ensures BestMove(currentBoard) != -1 ==>
      && 0 <= BestMove(currentBoard) < 9 && currentBoard[BestMove(currentBoard)] == Empty
      && (forall j: Index :: currentBoard[j] == Empty ==> MoveScore(currentBoard, j) <= MoveScore(currentBoard, BestMove(currentBoard)))
      && (forall j: Index :: j < BestMove(currentBoard) && currentBoard[j] == Empty ==>
            MoveScore(currentBoard, j) < MoveScore(currentBoard, BestMove(currentBoard)))
  {
    SnapshotChoice(currentBoard, MoveScores(currentBoard));
  }

  /** Against the threat `X X _`, every move other than the block at cell 2
      lets the human fill the top row, so it scores -1. */
  lemma IgnoringThreatScore(b: Index)
    requires 3 <= b
    ensures MoveScore(TopRowThreat, b) == -1
  {
    ThreatIgnored(b);
    var child := Place(TopRowThreat, b, COMPUTER);
    CellBound(child, 0, false, 2);
    ChildValueIs(child, 0, false, 2);
    MinimaxRange(child, 0, false);
    var reply := Place(child, 2, HUMAN);
    var result := CheckWinState(reply);
    assert result.Win?;
    var w :| FirstWon(reply, w) && LineOf(reply, w, result.mark);
    assert result.mark == HUMAN;
  }

  /** Example: with X in cells 0 and 1 and every other cell empty,
      find_best_move returns 2: no move scores more than blocking, and 2 is
      the lowest empty cell. */
  lemma BlocksHumanLine()
    ensures BestMove(TopRowThreat) == 2
  {
    var board := TopRowThreat;
    assert board[2] == Empty;
    BestMoveIsFirstMaximum(board);
    MinimaxRange(Place(board, 2, COMPUTER), 0, false);
    var r := BestMove(board);
    if r != 2 {
      IgnoringThreatScore(r);
    }
  }
}
