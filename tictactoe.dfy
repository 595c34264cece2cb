/** Tic-tac-toe on an n-by-n board: positions, moves and the result of a position.

    A cell holds 1 for X, -1 for O and 0 when empty. Positions are immutable values:
    applying a move builds a new board and leaves the old one as it was. */
module TicTacToe {
  import opened Wrappers

  /** The mark of the player who moves first. */
  const X: int := 1
  /** The mark of the player who moves second. */
  const O: int := -1

  /** Placing `value` on the cell in row `x`, column `y`. */
  datatype Move = Move(x: int, y: int, value: int)

  /** A board is a two-dimensional grid whose rows all have as many cells as there are rows. */
  predicate IsSquare(b: seq<seq<int>>)
  {
    forall i :: 0 <= i < |b| ==> |b[i]| == |b|
  }

  type Board = b: seq<seq<int>> | IsSquare(b) witness []

  /** One position: the board and the mark of the player to move. */
  datatype GameState = GameState(board: Board, nextToMove: int)

  datatype Error =
    | MalformedState   // the board is not a square grid
    | IllegalMove      // the move may not be played in this position

  /** Every cell of the board is a mark or empty. */
  predicate HasMarksOnly(b: Board)
  {
    forall i, j :: 0 <= i < |b| && 0 <= j < |b| ==> -1 <= b[i][j] <= 1
  }

  /** Building a position, which refuses anything but a square grid. */
  function NewState(board: seq<seq<int>>, nextToMove: int := X): (r: Result<GameState, Error>)
    ensures r.Success? <==> forall i :: 0 <= i < |board| ==> |board[i]| == |board|
    ensures r.Success? ==> r.value.board == board && r.value.nextToMove == nextToMove
    ensures r.Failure? ==> r.error == MalformedState
  {
    if IsSquare(board) then Success(GameState(board, nextToMove)) else Failure(MalformedState)
  }

  // ---------------------------------------------------------------------------
  // Lines of the board and the result of a position

  function Sum(s: seq<int>): int
  {
    if s == [] then 0 else s[0] + Sum(s[1..])
  }

  function Column(b: Board, j: nat): seq<int>
    requires j < |b|
  {
    seq(|b|, i requires 0 <= i < |b| => b[i][j])
  }

  /** The diagonal from the top-left corner. */
  function Diagonal(b: Board): seq<int>
  {
    seq(|b|, i requires 0 <= i < |b| => b[i][i])
  }

  /** The diagonal from the bottom-left corner: the trace of the board with its rows reversed. */
  function AntiDiagonal(b: Board): seq<int>
  {
    seq(|b|, i requires 0 <= i < |b| => b[|b| - 1 - i][i])
  }

  /** The columns, the rows and both diagonals. */
  function Lines(b: Board): (ls: seq<seq<int>>)
    ensures forall l :: l in ls ==> |l| == |b|
  {
    seq(|b|, j requires 0 <= j < |b| => Column(b, j)) + b + [Diagonal(b), AntiDiagonal(b)]
  }

  function LineSums(b: Board): seq<int>
  {
    var ls := Lines(b);
    seq(|ls|, k requires 0 <= k < |ls| => Sum(ls[k]))
  }

  predicate HasEmptyCell(b: Board)
  {
    exists i, j :: 0 <= i < |b| && 0 <= j < |b| && b[i][j] == 0
  }

  /** The result of a position: X (1) when a line sums to the board size, otherwise O (-1)
      when a line sums to minus the board size, otherwise a draw (0) when no cell is empty,
      otherwise undecided (None). */
  function GameResult(s: GameState): (r: Option<int>)
    ensures r.Some? ==> r.value == X || r.value == O || r.value == 0
  {
    var n := |s.board|;
    var sums := LineSums(s.board);
    if n in sums then Some(X)
    else if -n in sums then Some(O)
    else if !HasEmptyCell(s.board) then Some(0)
    else None
  }

  /** The game is over when some player holds a full line or the board is full. */
  predicate IsGameOver(s: GameState): (over: bool)
    ensures HasMarksOnly(s.board) ==>
      (over <==> HasFullLine(s.board, X) || HasFullLine(s.board, O) || !HasEmptyCell(s.board))
  {
    if HasMarksOnly(s.board) then ResultMeansFullLine(s); GameResult(s).Some?
    else GameResult(s).Some?
  }

  // ---------------------------------------------------------------------------
  // Moves

  /** A move is legal when it carries the mark of the player to move and names an empty cell
      of the board; so no move is legal on a full board. */
  predicate IsMoveLegal(s: GameState, m: Move): (legal: bool)
    ensures legal ==> HasEmptyCell(s.board)
  {
    m.value == s.nextToMove && 0 <= m.x < |s.board| && 0 <= m.y < |s.board| && s.board[m.x][m.y] == 0
  }

  /** Playing a move: a copy of the board with one cell set, and the other player to move. */
  function Apply(s: GameState, m: Move): (r: Result<GameState, Error>)
    ensures r.Success? <==> IsMoveLegal(s, m)
    ensures r.Failure? ==> r.error == IllegalMove
  {
    if !IsMoveLegal(s, m) then Failure(IllegalMove)
    else
      var b := s.board;
      var b' := b[m.x := b[m.x][m.y := m.value]];
      assert IsSquare(b');
      Success(GameState(b', if s.nextToMove == X then O else X))
  }

  /** A legal move sets exactly its own cell to its mark and hands the turn to the other
      player: O after X, and X after anything else. */
  lemma ApplySetsOneCell(s: GameState, m: Move)
    requires IsMoveLegal(s, m)
    ensures var b, b' := s.board, Apply(s, m).value.board;
      |b'| == |b| && b'[m.x][m.y] == m.value &&
      forall i, j :: 0 <= i < |b| && 0 <= j < |b| && (i != m.x || j != m.y) ==> b'[i][j] == b[i][j]
    ensures Apply(s, m).value.nextToMove == (if s.nextToMove == X then O else X)
  {
  }

  // ---------------------------------------------------------------------------
  // Legal actions

  /** How many cells of `s` are empty. */
  function Zeros(s: seq<int>): nat
  {
    if s == [] then 0 else (if s[0] == 0 then 1 else 0) + Zeros(s[1..])
  }

  /** How many cells of the rows `b` are empty. */
  function EmptyCells(b: seq<seq<int>>): nat
  {
    if b == [] then 0 else Zeros(b[0]) + EmptyCells(b[1..])
  }

  /** Row-major order on the cells that moves name. */
  predicate Before(m: Move, m': Move)
  {
    m.x < m'.x || (m.x == m'.x && m.y < m'.y)
  }

  /** One move with mark `v` per empty cell of `row` from column `y` on, row `x`, left to right. */
  function RowMoves(row: seq<int>, x: int, y: nat, v: int): seq<Move>
    requires y <= |row|
    decreases |row| - y
  {
    if y == |row| then []
    else (if row[y] == 0 then [Move(x, y, v)] else []) + RowMoves(row, x, y + 1, v)
  }

  lemma {:induction false} RowMovesSpec(row: seq<int>, x: int, y: nat, v: int)
    requires y <= |row|
    decreases |row| - y
    ensures var ms := RowMoves(row, x, y, v);
      (forall m :: m in ms ==> m.x == x && y <= m.y < |row| && row[m.y] == 0 && m.value == v) &&
      (forall j :: y <= j < |row| && row[j] == 0 ==> Move(x, j, v) in ms) &&
      (forall p, q :: 0 <= p < q < |ms| ==> ms[p].y < ms[q].y) &&
      |ms| == Zeros(row[y..])
  {
    if y < |row| {
      RowMovesSpec(row, x, y + 1, v);
      assert row[y..][1..] == row[y + 1..];
      var rest := RowMoves(row, x, y + 1, v);
      assert forall p :: 0 <= p < |rest| ==> rest[p] in rest;
    }
  }

  /** One move with mark `v` per empty cell of the rows from `x` on, in row-major order. */
  function BoardMoves(b: seq<seq<int>>, x: nat, v: int): seq<Move>
    requires x <= |b|
    decreases |b| - x
  {
    if x == |b| then [] else RowMoves(b[x], x, 0, v) + BoardMoves(b, x + 1, v)
  }

  lemma {:induction false} BoardMovesSpec(b: seq<seq<int>>, x: nat, v: int)
    requires x <= |b|
    decreases |b| - x
    ensures var ms := BoardMoves(b, x, v);
      (forall m :: m in ms ==> x <= m.x < |b| && 0 <= m.y < |b[m.x]| && b[m.x][m.y] == 0 && m.value == v) &&
      (forall i, j :: x <= i < |b| && 0 <= j < |b[i]| && b[i][j] == 0 ==> Move(i, j, v) in ms) &&
      (forall p, q :: 0 <= p < q < |ms| ==> Before(ms[p], ms[q])) &&
      |ms| == EmptyCells(b[x..])
  {
    if x < |b| {
      BoardMovesSpec(b, x + 1, v);
      RowMovesSpec(b[x], x, 0, v);
      assert b[x..][1..] == b[x + 1..];
      assert b[x][0..] == b[x];
      var here, rest := RowMoves(b[x], x, 0, v), BoardMoves(b, x + 1, v);
      assert forall p :: 0 <= p < |rest| ==> rest[p] in rest;
      assert forall p :: 0 <= p < |here| ==> here[p] in here;
    }
  }

  /** The moves of the player to move: one per empty cell, in row-major order. */
  function LegalActions(s: GameState): (ms: seq<Move>)
    ensures forall k :: 0 <= k < |ms| ==> IsMoveLegal(s, ms[k])
    ensures |ms| == EmptyCells(s.board)
  {
    BoardMovesSpec(s.board, 0, s.nextToMove);
    assert s.board[0..] == s.board;
    assert forall k :: 0 <= k < |BoardMoves(s.board, 0, s.nextToMove)| ==>
      BoardMoves(s.board, 0, s.nextToMove)[k] in BoardMoves(s.board, 0, s.nextToMove);
    BoardMoves(s.board, 0, s.nextToMove)
  }

  /** The legal actions are exactly the legal moves, in row-major order, one per empty cell. */
  lemma LegalActionsSpec(s: GameState)
    ensures var ms := LegalActions(s);
      (forall m :: m in ms <==> IsMoveLegal(s, m)) &&
      (forall p, q :: 0 <= p < q < |ms| ==> Before(ms[p], ms[q])) &&
      |ms| == EmptyCells(s.board)
  {
    BoardMovesSpec(s.board, 0, s.nextToMove);
    assert s.board[0..] == s.board;
  }

  // ---------------------------------------------------------------------------
  // What the result of a position means

  /** Some column, row or diagonal holds `p` in every cell. */
  ghost predicate HasFullLine(b: Board, p: int)
  {
    exists l :: l in Lines(b) && forall k :: 0 <= k < |l| ==> l[k] == p
  }

  /** On cells holding marks only, a line sums to plus or minus its length exactly when
      every cell holds that player's mark. */
  lemma {:induction false} FullLineSum(l: seq<int>, p: int)
    requires forall k :: 0 <= k < |l| ==> -1 <= l[k] <= 1
    requires p == X || p == O
    ensures -|l| <= Sum(l) <= |l|
    ensures Sum(l) == p * |l| <==> forall k :: 0 <= k < |l| ==> l[k] == p
  {
    if l != [] {
      FullLineSum(l[1..], p);
      assert forall k :: 1 <= k < |l| ==> l[k] == l[1..][k - 1];
    }
  }

  /** Every cell of every line is a cell of the board. */
  lemma LinesHoldMarksOnly(b: Board)
    requires HasMarksOnly(b)
    ensures forall l :: l in Lines(b) ==> forall k :: 0 <= k < |l| ==> -1 <= l[k] <= 1
  {
    var ls := Lines(b);
    forall l | l in ls
      ensures forall k :: 0 <= k < |l| ==> -1 <= l[k] <= 1
    {
      var t :| 0 <= t < |ls| && ls[t] == l;
      if t < |b| {
        assert l == Column(b, t);
      } else if t < 2 * |b| {
        assert l == b[t - |b|];
      } else if t == 2 * |b| {
        assert l == Diagonal(b);
      } else {
        assert l == AntiDiagonal(b);
      }
    }
  }

  /** A line sums to the board size times `p` exactly when `p` holds a full line. */
  lemma SumsMeanFullLine(b: Board, p: int)
    requires HasMarksOnly(b)
    requires p == X || p == O
    ensures (p * |b| in LineSums(b)) <==> HasFullLine(b, p)
  {
    var ls := Lines(b);
    LinesHoldMarksOnly(b);
    if p * |b| in LineSums(b) {
      var k :| 0 <= k < |ls| && LineSums(b)[k] == p * |b|;
      FullLineSum(ls[k], p);
      assert ls[k] in ls;
    }
    if HasFullLine(b, p) {
      var l :| l in ls && forall k :: 0 <= k < |l| ==> l[k] == p;
      var k :| 0 <= k < |ls| && ls[k] == l;
      FullLineSum(l, p);
      assert LineSums(b)[k] == p * |b|;
    }
  }

  /** On a board of marks, X has won when X holds a full line; O has won when O does and X
      does not; the game is drawn when neither does and the board is full; otherwise it goes on. */
  lemma ResultMeansFullLine(s: GameState)
    requires HasMarksOnly(s.board)
    ensures GameResult(s) == Some(X) <==> HasFullLine(s.board, X)
    ensures GameResult(s) == Some(O) <==> !HasFullLine(s.board, X) && HasFullLine(s.board, O)
    ensures GameResult(s) == Some(0) <==>
      !HasFullLine(s.board, X) && !HasFullLine(s.board, O) && !HasEmptyCell(s.board)
    ensures GameResult(s) == None <==>
      !HasFullLine(s.board, X) && !HasFullLine(s.board, O) && HasEmptyCell(s.board)
  {
    SumsMeanFullLine(s.board, X);
    SumsMeanFullLine(s.board, O);
  }

  /** A position that is not over leaves its player at least one legal move. */
  lemma NonTerminalHasLegalAction(s: GameState)
    requires !IsGameOver(s)
    ensures |LegalActions(s)| > 0
  {
    var i, j :| 0 <= i < |s.board| && 0 <= j < |s.board| && s.board[i][j] == 0;
    LegalActionsSpec(s);
    assert IsMoveLegal(s, Move(i, j, s.nextToMove));
  }

  lemma {:induction false} ZerosUpdate(row: seq<int>, y: nat, v: int)
    requires y < |row|
    ensures Zeros(row[y := v]) == Zeros(row) - (if row[y] == 0 then 1 else 0) + (if v == 0 then 1 else 0)
  {
    if y > 0 {
      ZerosUpdate(row[1..], y - 1, v);
      assert row[y := v][1..] == row[1..][y - 1 := v];
    }
  }

  lemma {:induction false} EmptyCellsUpdate(b: seq<seq<int>>, x: nat, r: seq<int>)
    requires x < |b|
    ensures EmptyCells(b[x := r]) == EmptyCells(b) - Zeros(b[x]) + Zeros(r)
  {
    if x > 0 {
      EmptyCellsUpdate(b[1..], x - 1, r);
      assert b[x := r][1..] == b[1..][x - 1 := r];
    }
  }

  /** How far a position is from a full board: a legal move always brings it closer. */
  function Remaining(s: GameState): nat
  {
    2 * EmptyCells(s.board) + (if s.nextToMove == 0 then 1 else 0)
  }

  /** A legal move fills one empty cell (unless the mark to place is 0, which only hands the
      turn to X), so no sequence of legal moves goes on for ever. */
  lemma ApplyFillsCell(s: GameState, m: Move)
    requires IsMoveLegal(s, m)
    ensures m.value != 0 ==> EmptyCells(Apply(s, m).value.board) == EmptyCells(s.board) - 1
    ensures Remaining(Apply(s, m).value) < Remaining(s)
  {
    var b := s.board;
    ZerosUpdate(b[m.x], m.y, m.value);
    EmptyCellsUpdate(b, m.x, b[m.x][m.y := m.value]);
  }

  /** Two different legal moves lead to different positions (when the mark to place is a
      player's), so no two children of a search node stand for the same move. */
  lemma DistinctMovesDistinctStates(s: GameState, m: Move, m': Move)
    requires IsMoveLegal(s, m) && IsMoveLegal(s, m') && m != m'
    requires s.nextToMove != 0
    ensures Apply(s, m).value != Apply(s, m').value
  {
    assert Apply(s, m').value.board[m.x][m.y] == 0;
  }
}
