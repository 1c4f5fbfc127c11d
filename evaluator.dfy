/**
 * `evaluate_board` and its nested `evaluate_window` (connect4.py): the
 * heuristic score of a position from PLAYER2's side, the sum of a fixed
 * integer score per length-4 window (the same windows `check_win` scans)
 * plus a bonus for the centre column.
 */
module Evaluator {
  import opened Board
  import opened WinDetector

  const FOUR_SCORE: int := 10000
  const CENTER_COLUMN: Column := BOARD_WIDTH / 2
  const CENTER_WEIGHT: int := 3

  /** Number of windows in the four families: 24 + 21 + 12 + 12. */
  const WINDOW_COUNT: int := 69
  /** No position evaluates outside [-EVALUATION_BOUND, EVALUATION_BOUND]. */
  const EVALUATION_BOUND: int := WINDOW_COUNT * FOUR_SCORE + BOARD_HEIGHT * CENTER_WEIGHT

  /** `window.count(v)`. */
  function Count(w: seq<int>, v: int): (n: nat)
    ensures n <= |w|
  {
    if w == [] then 0 else (if w[0] == v then 1 else 0) + Count(w[1..], v)
  }

  /** Two distinct values share the cells of a window. */
  lemma {:induction false} CountsFit(w: seq<int>, u: int, v: int)
    requires u != v
    ensures Count(w, u) + Count(w, v) <= |w|
  {
    if w != [] {
      CountsFit(w[1..], u, v);
    }
  }

  /** A value that does not occur in the window is counted 0 times. */
  lemma {:induction false} CountAbsent(w: seq<int>, v: int)
    requires forall i :: 0 <= i < |w| ==> w[i] != v
    ensures Count(w, v) == 0
  {
    if w != [] {
      CountAbsent(w[1..], v);
    }
  }

  /** `evaluate_window`: the chain of branches over the two piece counts. */
  function WindowScore(w: seq<int>): (score: int)
    requires |w| == 4
    ensures Count(w, PLAYER2) > 0 && Count(w, PLAYER1) > 0 ==> score == 0
    ensures score > 0 <==> Count(w, PLAYER2) > 0 && Count(w, PLAYER1) == 0
    ensures score < 0 <==> Count(w, PLAYER1) > 0 && Count(w, PLAYER2) == 0
    ensures -FOUR_SCORE <= score <= FOUR_SCORE
  {
    var player2Count := Count(w, PLAYER2);
    var player1Count := Count(w, PLAYER1);
    if player2Count > 0 && player1Count > 0 then 0
    else if player2Count == 4 then FOUR_SCORE
    else if player2Count == 3 then 100
    else if player2Count == 2 then 10
    else if player2Count == 1 then 1
    else if player1Count == 4 then -FOUR_SCORE
    else if player1Count == 3 then -200
    else if player1Count == 2 then -10
    else if player1Count == 1 then -1
    else 0
  }

  /** Among windows free of PLAYER1, more PLAYER2 pieces score strictly more. */
  lemma MorePiecesScoreHigher(w: seq<int>, w': seq<int>)
    requires |w| == 4 && |w'| == 4
    requires Count(w, PLAYER1) == 0 && Count(w', PLAYER1) == 0
    requires Count(w, PLAYER2) < Count(w', PLAYER2)
    ensures WindowScore(w) < WindowScore(w')
  {
  }

  /** Among windows free of PLAYER2, more PLAYER1 pieces score strictly less. */
  lemma MoreOpponentPiecesScoreLower(w: seq<int>, w': seq<int>)
    requires |w| == 4 && |w'| == 4
    requires Count(w, PLAYER2) == 0 && Count(w', PLAYER2) == 0
    requires Count(w, PLAYER1) < Count(w', PLAYER1)
    ensures WindowScore(w') < WindowScore(w)
  {
  }

  /**
   * Defensive bias: k PLAYER1 pieces alone cost at least as much as k PLAYER2
   * pieces alone earn, and an open three of PLAYER1 costs twice as much.
   */
  lemma OpponentThreatWeighsMore(w: seq<int>, w': seq<int>)
    requires |w| == 4 && |w'| == 4
    requires Count(w, PLAYER2) == 0 && Count(w', PLAYER1) == 0
    requires Count(w, PLAYER1) == Count(w', PLAYER2)
    ensures -WindowScore(w) >= WindowScore(w')
    ensures Count(w, PLAYER1) == 3 ==> -WindowScore(w) == 2 * WindowScore(w')
  {
  }

  /** Sum of the window scores for the start columns 0..n-1 of row `r` of `f`. */
  function RowSum(b: Grid, f: Family, r: int, n: int): (s: int)
    requires ValidFamily(f) && f.rowLo <= r < f.rowHi && 0 <= n <= f.colHi
    ensures -FOUR_SCORE * n <= s <= FOUR_SCORE * n
    decreases n
  {
    if n == 0 then 0 else RowSum(b, f, r, n - 1) + WindowScore(Window(b, f, r, n - 1))
  }

  /** Sum of the window scores of `f` for the start rows rowLo..m-1, row by row. */
  function FamilySum(b: Grid, f: Family, m: int): (s: int)
    requires ValidFamily(f) && f.rowLo <= m <= f.rowHi
    ensures -FOUR_SCORE * f.colHi * (m - f.rowLo) <= s <= FOUR_SCORE * f.colHi * (m - f.rowLo)
    decreases m - f.rowLo
  {
    if m == f.rowLo then 0
    else
      var s := FamilySum(b, f, m - 1) + RowSum(b, f, m - 1, f.colHi);
      assert FOUR_SCORE * f.colHi * (m - f.rowLo) == FOUR_SCORE * f.colHi * (m - 1 - f.rowLo) + FOUR_SCORE * f.colHi;
      s
  }

  /** The `center_count` generator: +1 per PLAYER2 and -1 per PLAYER1 piece in rows 0..n-1 of the centre column. */
  function CenterCount(b: Grid, n: int): (s: int)
    requires 0 <= n <= BOARD_HEIGHT
    ensures -n <= s <= n
  {
    if n == 0 then 0
    else
      var cell := b[n - 1][CENTER_COLUMN];
      CenterCount(b, n - 1) + (if cell == PLAYER2 then 1 else if cell == PLAYER1 then -1 else 0)
  }

  /** The four window loops of `evaluate_board()`, in the order the source scans them. */
  function WindowTotal(b: Grid): (score: int)
    ensures -WINDOW_COUNT * FOUR_SCORE <= score <= WINDOW_COUNT * FOUR_SCORE
  {
    FamilySum(b, HORIZONTAL, HORIZONTAL.rowHi)
    + FamilySum(b, VERTICAL, VERTICAL.rowHi)
    + FamilySum(b, DIAGONAL_DOWN, DIAGONAL_DOWN.rowHi)
    + FamilySum(b, DIAGONAL_UP, DIAGONAL_UP.rowHi)
  }

  /**
   * `evaluate_board()`: every window of the four families plus 3 per
   * centre-column piece of PLAYER2 and -3 per centre-column piece of
   * PLAYER1.  The result never reaches the win scores of the search.
   */
  function Evaluation(b: Grid): (score: int)
    ensures -EVALUATION_BOUND <= score <= EVALUATION_BOUND
  {
    WindowTotal(b) + CenterCount(b, BOARD_HEIGHT) * CENTER_WEIGHT
  }

  lemma {:induction false} EmptyRowSum(b: Grid, f: Family, r: int, n: int)
    requires b == EmptyGrid()
    requires ValidFamily(f) && f.rowLo <= r < f.rowHi && 0 <= n <= f.colHi
    ensures RowSum(b, f, r, n) == 0
    decreases n
  {
    if n > 0 {
      EmptyRowSum(b, f, r, n - 1);
      var w := Window(b, f, r, n - 1);
      assert w == [EMPTY, EMPTY, EMPTY, EMPTY];
      CountAbsent(w, PLAYER1);
      CountAbsent(w, PLAYER2);
    }
  }

  lemma {:induction false} EmptyFamilySum(b: Grid, f: Family, m: int)
    requires b == EmptyGrid()
    requires ValidFamily(f) && f.rowLo <= m <= f.rowHi
    ensures FamilySum(b, f, m) == 0
    decreases m - f.rowLo
  {
    if m > f.rowLo {
      EmptyFamilySum(b, f, m - 1);
      EmptyRowSum(b, f, m - 1, f.colHi);
    }
  }

  lemma {:induction false} EmptyCenterCount(b: Grid, n: int)
    requires b == EmptyGrid()
    requires 0 <= n <= BOARD_HEIGHT
    ensures CenterCount(b, n) == 0
  {
    if n > 0 {
      EmptyCenterCount(b, n - 1);
    }
  }

  lemma EmptyFamilyTotal(b: Grid, f: Family)
    requires b == EmptyGrid() && ValidFamily(f)
    ensures FamilySum(b, f, f.rowHi) == 0
  {
    EmptyFamilySum(b, f, f.rowHi);
  }

  lemma EmptyWindowTotal(b: Grid)
    requires b == EmptyGrid()
    ensures WindowTotal(b) == 0
  {
    FamiliesAreValid();
    EmptyFamilyTotal(b, HORIZONTAL);
    EmptyFamilyTotal(b, VERTICAL);
    EmptyFamilyTotal(b, DIAGONAL_DOWN);
    EmptyFamilyTotal(b, DIAGONAL_UP);
  }

  /** The initial board is scored 0: no window and no centre piece counts. */
  lemma EmptyBoardScoresZero()
    ensures Evaluation(EmptyGrid()) == 0
  {
    var b := EmptyGrid();
    EmptyWindowTotal(b);
    EmptyCenterCount(b, BOARD_HEIGHT);
  }
}
