/** The board, its cells, the eight winning lines and the outcome of a position,
    shared by both copies of the engine (game_logic.py and xox.py). */
module Tictactoe {

  datatype Option<T> = None | Some(value: T)

  /** A cell holds nothing, the human's mark X or the computer's mark O. */
  datatype Cell = Empty | X | O

  const HUMAN: Cell := X
  const COMPUTER: Cell := O

  /** A cell index 0..8, row-major. */
  type Index = i: int | 0 <= i < 9

  /** The nine cells in row-major order. */
  type Board = b: seq<Cell> | |b| == 9
    witness [Empty, Empty, Empty, Empty, Empty, Empty, Empty, Empty, Empty]

  /** What `check_win_state` reports: the mark of a completed line, a draw,
      or a game still in progress (the source's `None`). */
  datatype Outcome = Win(mark: Cell) | Draw | Ongoing

  datatype Line = Line(a: Index, b: Index, c: Index)

  /** The eight winning lines in scan order: rows, columns, diagonals. */
  const WinLines: seq<Line> := [
    Line(0, 1, 2), Line(3, 4, 5), Line(6, 7, 8),
    Line(0, 3, 6), Line(1, 4, 7), Line(2, 5, 8),
    Line(0, 4, 8), Line(2, 4, 6)
  ]

  /** Line k is filled with the (non-empty) mark m. */
  predicate LineOf(board: Board, k: nat, m: Cell)
    requires k < 8
  {
    var line := WinLines[k];
    m != Empty && board[line.a] == m && board[line.b] == m && board[line.c] == m
  }

  /** Line k is filled by one side. */
  predicate Won(board: Board, k: nat)
    requires k < 8
  {
    LineOf(board, k, X) || LineOf(board, k, O)
  }

  /** No line is filled by either side. */
  predicate NoLine(board: Board)
  {
    forall k :: 0 <= k < 8 ==> !Won(board, k)
  }

  /** Line k is the first filled line in scan order. */
  predicate FirstWon(board: Board, k: nat)
  {
    k < 8 && Won(board, k) && forall v :: 0 <= v < k ==> !Won(board, v)
  }

  /** The board after mark m is written into cell j. */
  function Place(board: Board, j: Index, m: Cell): Board
  {
    board[j := m]
  }

  /** Placing m in cell j fills some line with m. */
  predicate CompletesLine(board: Board, j: Index, m: Cell)
  {
    exists k :: 0 <= k < 8 && LineOf(Place(board, j, m), k, m)
  }

  /** The number of empty cells: the measure that every trial move decreases. */
  function EmptyCount(board: seq<Cell>): (n: nat)
    ensures n <= |board|
  {
    if board == [] then 0
    else (if board[0] == Empty then 1 else 0) + EmptyCount(board[1..])
  }

  /** The mark of the side to move: the computer when maximising, the human otherwise. */
  function MarkFor(isMaximizing: bool): (m: Cell)
    ensures m != Empty
  {
    if isMaximizing then COMPUTER else HUMAN
  }

  /** The running `best_score` after one more trial score: `max` when maximising,
      `min` when minimising, where `None` is the infinite starting value. */
  function Improve(isMaximizing: bool, best: Option<int>, score: int): (r: int)
    ensures r == score || (best.Some? && r == best.value)
    ensures isMaximizing ==> r >= score && (best.Some? ==> r >= best.value)
    ensures !isMaximizing ==> r <= score && (best.Some? ==> r <= best.value)
  {
    match best
    case None => score
    case Some(b) =>
      if isMaximizing then (if b < score then score else b)
      else (if score < b then score else b)
  }

  /** `score > best_score`, where `None` is the starting value minus infinity. */
  predicate Beats(score: int, best: Option<int>)
  {
    best.None? || score > best.value
  }

  /** The pair (`best_score`, `best_move`) that `find_best_move` keeps while it scans. */
  datatype Choice = Choice(bestScore: Option<int>, bestMove: int)

  lemma LineCellsDistinct(k: nat)
    requires k < 8
    ensures WinLines[k].a != WinLines[k].b && WinLines[k].b != WinLines[k].c
    ensures WinLines[k].a != WinLines[k].c
  {
  }

  /** A move on an empty cell uses up exactly one empty cell. */
  lemma PlaceUsesEmptyCell(board: Board, j: Index, m: Cell)
    requires board[j] == Empty && m != Empty
    ensures EmptyCount(Place(board, j, m)) == EmptyCount(board) - 1
  {
    CountAfterFill(board, j, m);
  }

  /** Overwriting an empty cell with a mark lowers the count by one. */
  lemma {:induction false} CountAfterFill(cells: seq<Cell>, j: nat, m: Cell)
    requires j < |cells| && cells[j] == Empty && m != Empty
    ensures EmptyCount(cells[j := m]) == EmptyCount(cells) - 1
  {
    if j > 0 {
      assert cells[j := m][1..] == cells[1..][j - 1 := m];
      CountAfterFill(cells[1..], j - 1, m);
    }
  }

  /** On a board with no filled line, a move by m can only fill lines of m:
      every filled line afterwards passes through the new mark. */
  lemma PlaceOnUnfinished(board: Board, j: Index, m: Cell)
    requires NoLine(board) && board[j] == Empty && m != Empty
    ensures forall k :: 0 <= k < 8 && Won(Place(board, j, m), k) ==> LineOf(Place(board, j, m), k, m)
    ensures NoLine(Place(board, j, m)) <==> !CompletesLine(board, j, m)
  {
    var after := Place(board, j, m);
    forall k | 0 <= k < 8 && Won(after, k)
      ensures LineOf(after, k, m)
    {
      var line := WinLines[k];
      if line.a != j && line.b != j && line.c != j {
        assert Won(board, k);
        assert false;
      }
    }
    if !NoLine(after) {
      var k :| 0 <= k < 8 && Won(after, k);
      assert LineOf(after, k, m);
    }
    if CompletesLine(board, j, m) {
      var k :| 0 <= k < 8 && LineOf(after, k, m);
      assert m == X || m == O;
      assert Won(after, k);
    }
  }

  /** The human holds cells 0 and 1 of the top row and every other cell is empty. */
  const TopRowThreat: Board := [X, X, Empty, Empty, Empty, Empty, Empty, Empty, Empty]

  /** If the computer answers the threat anywhere but cell 2, the game goes on,
      and the human's mark in cell 2 then fills the top row, a line the computer
      does not hold. */
  lemma ThreatIgnored(b: Index)
    requires 3 <= b
    ensures var child := Place(TopRowThreat, b, COMPUTER);
      && NoLine(child) && Empty in child && child[2] == Empty
      && LineOf(Place(child, 2, HUMAN), 0, HUMAN)
      && forall k :: 0 <= k < 8 ==> !LineOf(Place(child, 2, HUMAN), k, COMPUTER)
  {
    var child := Place(TopRowThreat, b, COMPUTER);
    assert child[2] == Empty;
    forall k | 0 <= k < 8
      ensures !Won(child, k)
    {
    }
  }

  /** If the computer blocks the threat at cell 2, the game goes on, and no
      reply of the human fills a line of the human. */
  lemma ThreatBlocked(j: Index)
    requires 3 <= j
    ensures var child := Place(TopRowThreat, 2, COMPUTER);
      && NoLine(child) && Empty in child
      && forall k :: 0 <= k < 8 ==> !LineOf(Place(child, j, HUMAN), k, HUMAN)
  {
    var child := Place(TopRowThreat, 2, COMPUTER);
    assert child[3] == Empty;
    forall k | 0 <= k < 8
      ensures !Won(child, k)
    {
    }
  }
}
