/**
 * The stateful `Connect4Game` object of connect4.py, restricted to its game
 * logic: the board it mutates in place, the simulated moves of the search,
 * the heuristic, the alpha-beta search and the AI move choice.  Each method
 * is proved against the value semantics of the Board, WinDetector, Evaluator
 * and Search modules.
 */
module Game {
  import opened Board
  import opened WinDetector
  import opened Evaluator
  import opened Search

  /** The keys of DIFFICULTY_LEVELS. */
  datatype Difficulty = Easy | Medium | Hard

  /** DIFFICULTY_LEVELS: the search depth of each difficulty. */
  function SearchDepth(d: Difficulty): nat {
    match d
    case Easy => 2
    case Medium => 4
    case Hard => 7
  }

  /**
   * `[col for col in range(BOARD_WIDTH) if self.is_valid_move(col)]`,
   * restricted to the columns from `c` on: exactly the legal columns, in
   * increasing order.
   */
  function LegalColumnsFrom(b: Grid, c: int): (cols: seq<Column>)
    requires 0 <= c <= BOARD_WIDTH
    ensures forall x: Column :: x in cols <==> c <= x && IsValidMove(b, x)
    ensures forall i, j :: 0 <= i < j < |cols| ==> cols[i] < cols[j]
    ensures forall i :: 0 <= i < |cols| ==> c <= cols[i]
    decreases BOARD_WIDTH - c
  {
    if c == BOARD_WIDTH then []
    else if IsValidMove(b, c) then [c] + LegalColumnsFrom(b, c + 1)
    else LegalColumnsFrom(b, c + 1)
  }

  function LegalColumns(b: Grid): seq<Column> {
    LegalColumnsFrom(b, 0)
  }

  /** `valid_cols` is empty exactly when `is_board_full()` holds. */
  lemma NoLegalColumnIffFull(b: Grid)
    ensures LegalColumns(b) == [] <==> IsBoardFull(b)
  {
    if !IsBoardFull(b) {
      var c: Column :| !(b[0][c] != EMPTY);
      assert c in LegalColumns(b);
    }
  }

  /**
   * The column the deepening loop of `ai_move` keeps after searching depths
   * 1..d with the full window: the last non-None column found, or None.
   */
  function DeepeningChoice(b: Grid, d: nat, maximizing: bool): Option<Column> {
    if d == 0 then None else AlphaBeta(b, d, -INFINITY, INFINITY, maximizing).col
  }

  /**
   * One round of the deepening loop: a non-None column from depth d replaces
   * the choice of depths 1..d-1, and a None one (a decided or full board)
   * leaves it, which is then None as well.  Every choice is a legal column.
   */
  lemma DeepeningStep(b: Grid, d: nat, maximizing: bool)
    requires 0 < d
    ensures var c := AlphaBeta(b, d, -INFINITY, INFINITY, maximizing).col;
      (if c.Some? then c else DeepeningChoice(b, d - 1, maximizing)) == DeepeningChoice(b, d, maximizing)
    ensures var c := DeepeningChoice(b, d, maximizing);
      c.Some? ==> IsValidMove(b, c.value)
  {
    AlphaBetaWellFormed(b, d, -INFINITY, INFINITY, maximizing);
    if d > 1 {
      AlphaBetaWellFormed(b, d - 1, -INFINITY, INFINITY, maximizing);
    }
  }

  class Connect4Game {
    /** `self.board`: row 0 is the top row. */
    var board: Grid
    /** `self.difficulty`: None until a difficulty is chosen in the menu. */
    var difficulty: Option<Difficulty>

    /** `__init__` (the game-logic part): an empty board and no difficulty yet. */
    constructor ()
      ensures board == EmptyGrid() && difficulty == None
    {
      board := EmptyGrid();
      difficulty := None;
    }

    /**
     * `drop_piece(col, player)`: scan the column from the bottom row up and
     * fill the first EMPTY cell, returning its row; None on a full column.
     */
    method DropPiece(col: Column, player: int) returns (row: Option<Row>)
      modifies this
      ensures row == LowestEmptyRow(old(board), col)
      ensures board == Drop(old(board), col, player)
      ensures difficulty == old(difficulty)
    {
      var r := BOARD_HEIGHT - 1;
      while r >= 0
        invariant -1 <= r < BOARD_HEIGHT
        invariant board == old(board)
        invariant LowestEmptyRow(board, col) == LowestEmptyFrom(board, col, r)
        decreases r
      {
        if board[r][col] == EMPTY {
          board := Place(board, r, col, player);
          return Some(r);
        }
        r := r - 1;
      }
      return None;
    }

    /**
     * `undo_move(col)`: scan the column from the top row down and clear the
     * first occupied cell; an empty column is left alone.
     */
    method UndoMove(col: Column)
      modifies this
      ensures board == Undo(old(board), col)
      ensures difficulty == old(difficulty)
    {
      for r := 0 to BOARD_HEIGHT
        invariant board == old(board)
        invariant TopOccupiedRow(board, col) == TopOccupiedFrom(board, col, r)
      {
        if board[r][col] != EMPTY {
          board := Place(board, r, col, EMPTY);
          break;
        }
      }
    }

    /**
     * One of the four nested window loops of `evaluate_board`: adds the
     * score of every window of `f` to `score0`.
     */
    method AddFamilyScores(f: Family, score0: int) returns (score: int)
      requires ValidFamily(f)
      ensures score == score0 + FamilySum(board, f, f.rowHi)
    {
      score := score0;
      for row := f.rowLo to f.rowHi
        invariant score == score0 + FamilySum(board, f, row)
      {
        for col := 0 to f.colHi
          invariant score == score0 + FamilySum(board, f, row) + RowSum(board, f, row, col)
        {
          var window := Window(board, f, row, col);
          score := score + WindowScore(window);
        }
      }
    }

    /** The four window loops of `evaluate_board`, in the order the source runs them. */
    method WindowScores() returns (score: int)
      ensures score == WindowTotal(board)
    {
      FamiliesAreValid();
      score := AddFamilyScores(HORIZONTAL, 0);
      score := AddFamilyScores(VERTICAL, score);
      score := AddFamilyScores(DIAGONAL_DOWN, score);
      score := AddFamilyScores(DIAGONAL_UP, score);
    }

    /** The `center_count` sum of `evaluate_board`. */
    method CenterScore() returns (centerCount: int)
      ensures centerCount == CenterCount(board, BOARD_HEIGHT)
    {
      centerCount := 0;
      for row := 0 to BOARD_HEIGHT
        invariant centerCount == CenterCount(board, row)
      {
        var cell := board[row][CENTER_COLUMN];
        centerCount := centerCount + (if cell == PLAYER2 then 1 else if cell == PLAYER1 then -1 else 0);
      }
    }

    /** `evaluate_board()`: the window scores of the four families plus the centre bonus. */
    method EvaluateBoard() returns (score: int)
      ensures score == Evaluation(board)
      ensures -EVALUATION_BOUND <= score <= EVALUATION_BOUND
    {
      var windows := WindowScores();
      var centerCount := CenterScore();
      score := windows + centerCount * CENTER_WEIGHT;
    }

    /**
     * `minimax(depth, alpha, beta, maximizing_player)`: the early returns,
     * then every legal column in centre-first order is played, searched one
     * ply shallower with the current window, and taken back.  The result is
     * the pure AlphaBeta of the starting board, and the board is restored.
     */
    method Minimax(depth: nat, alpha: int, beta: int, maximizingPlayer: bool) returns (score: int, bestCol: Option<Column>)
      requires Gravity(board)
      modifies this
      ensures board == old(board) && difficulty == old(difficulty)
      ensures SearchResult(score, bestCol) == AlphaBeta(board, depth, alpha, beta, maximizingPlayer)
      decreases depth, 1
    {
      if CheckWin(board, PLAYER2) {
        return WIN_SCORE + depth, None;
      }
      if CheckWin(board, PLAYER1) {
        return -WIN_SCORE - depth, None;
      }
      if IsBoardFull(board) {
        return 0, None;
      }
      if depth == 0 {
        score := EvaluateBoard();
        return score, None;
      }
      score, bestCol := SearchColumns(depth, alpha, beta, maximizingPlayer);
    }

    /**
     * The column loop of `minimax`, entered once no early return applies:
     * each legal column of COLUMN_ORDER is played, searched one ply deeper
     * with the current window and taken back; a strictly better score
     * replaces the best, and the loop stops once alpha >= beta.
     */
    method SearchColumns(depth: nat, alpha: int, beta: int, maximizingPlayer: bool) returns (score: int, bestCol: Option<Column>)
      requires Gravity(board) && depth > 0
      modifies this
      ensures board == old(board) && difficulty == old(difficulty)
      ensures SearchResult(score, bestCol)
           == Explore(board, depth, alpha, beta, maximizingPlayer, COLUMN_ORDER, if maximizingPlayer then -INFINITY else INFINITY, None)
      decreases depth, 0
    {
      var player := Mover(maximizingPlayer);
      score := if maximizingPlayer then -INFINITY else INFINITY;
      bestCol := None;
      var currentAlpha, currentBeta := alpha, beta;
      ghost var start := board;
      assert COLUMN_ORDER[0..] == COLUMN_ORDER;
      var i := 0;
      while i < |COLUMN_ORDER|
        invariant 0 <= i <= |COLUMN_ORDER|
        invariant board == start && difficulty == old(difficulty)
        invariant Explore(start, depth, alpha, beta, maximizingPlayer, COLUMN_ORDER, if maximizingPlayer then -INFINITY else INFINITY, None)
               == Explore(start, depth, currentAlpha, currentBeta, maximizingPlayer, COLUMN_ORDER[i..], score, bestCol)
      {
        var col := COLUMN_ORDER[i];
        assert COLUMN_ORDER[i..][0] == col && COLUMN_ORDER[i..][1..] == COLUMN_ORDER[i + 1..];
        if IsValidMove(board, col) {
          ExploreVisit(start, depth, currentAlpha, currentBeta, maximizingPlayer, COLUMN_ORDER[i..], score, bestCol);
          DropPreservesGravity(board, col, player);
          DropUndoRoundTrip(board, col, player);
          var row := DropPiece(col, player);
          var evalVal, _ := Minimax(depth - 1, currentAlpha, currentBeta, !maximizingPlayer);
          UndoMove(col);
          if maximizingPlayer {
            if bestCol.None? || evalVal > score {
              score, bestCol := evalVal, Some(col);
            }
            currentAlpha := Max(currentAlpha, evalVal);
          } else {
            if bestCol.None? || evalVal < score {
              score, bestCol := evalVal, Some(col);
            }
            currentBeta := Min(currentBeta, evalVal);
          }
          if currentAlpha >= currentBeta {
            break;
          }
        }
        i := i + 1;
      }
    }

    /**
     * The easy branch of `ai_move`: None when no column is legal; otherwise a
     * random legal column when the 30% draw comes up (`randomDraw`, with
     * `randomIndex` standing for `random.choice`), else the depth-2 search.
     */
    method EasyMove(maximizing: bool, randomDraw: bool, randomIndex: nat) returns (col: Option<Column>)
      requires Gravity(board)
      modifies this
      ensures board == old(board) && difficulty == old(difficulty)
      ensures col.Some? ==> IsValidMove(board, col.value)
      ensures randomDraw ==> (col.Some? <==> !IsBoardFull(board))
      ensures !randomDraw ==> col == AlphaBeta(board, SearchDepth(Easy), -INFINITY, INFINITY, maximizing).col
    {
      var validCols := LegalColumns(board);
      NoLegalColumnIffFull(board);
      AlphaBetaWellFormed(board, SearchDepth(Easy), -INFINITY, INFINITY, maximizing);
      if validCols == [] {
        return None;
      }
      if randomDraw {
        col := Some(validCols[randomIndex % |validCols|]);
      } else {
        var _, c := Minimax(SearchDepth(Easy), -INFINITY, INFINITY, maximizing);
        col := c;
      }
    }

    /**
     * The medium and hard branch of `ai_move`: iterative deepening over the
     * depths 1..depth with the full window, of which only the first
     * `iterationsInTime` start before the 5-second limit; each non-None
     * column found replaces the previous one.
     */
    method DeepeningMove(depth: nat, maximizing: bool, iterationsInTime: nat) returns (col: Option<Column>)
      requires Gravity(board)
      modifies this
      ensures board == old(board) && difficulty == old(difficulty)
      ensures col == DeepeningChoice(board, if iterationsInTime < depth then iterationsInTime else depth, maximizing)
      ensures col.Some? ==> IsValidMove(board, col.value)
    {
      ghost var start := board;
      col := None;
      var d := 1;
      while d <= depth
        invariant 1 <= d <= depth + 1 && d - 1 <= iterationsInTime
        invariant board == start && difficulty == old(difficulty)
        invariant col == DeepeningChoice(start, d - 1, maximizing)
      {
        if d > iterationsInTime {
          break;
        }
        var _, c := Minimax(d, -INFINITY, INFINITY, maximizing);
        DeepeningStep(start, d, maximizing);
        if c.Some? {
          col := c;
        }
        d := d + 1;
      }
      if d > 1 {
        DeepeningStep(start, d - 1, maximizing);
      }
    }

    /**
     * `ai_move(player)` for the difficulty chosen in the menu: the easy
     * branch, or iterative deepening up to the difficulty's search depth.
     * The random draws and the clock are parameters.
     */
    method AiMove(player: int, randomDraw: bool, randomIndex: nat, iterationsInTime: nat) returns (col: Option<Column>)
      requires Gravity(board) && difficulty.Some?
      modifies this
      ensures board == old(board) && difficulty == old(difficulty)
      ensures col.Some? ==> IsValidMove(board, col.value)
      ensures difficulty.value == Easy && randomDraw ==> (col.Some? <==> !IsBoardFull(board))
      ensures difficulty.value == Easy && !randomDraw ==>
        col == AlphaBeta(board, SearchDepth(Easy), -INFINITY, INFINITY, player == PLAYER2).col
      ensures difficulty.value != Easy ==>
        col == DeepeningChoice(board, if iterationsInTime < SearchDepth(difficulty.value) then iterationsInTime else SearchDepth(difficulty.value), player == PLAYER2)
    {
      var depth := SearchDepth(difficulty.value);
      var maximizing := player == PLAYER2;
      if difficulty.value == Easy {
        col := EasyMove(maximizing, randomDraw, randomIndex);
      } else {
        col := DeepeningMove(depth, maximizing, iterationsInTime);
      }
    }
  }

  /**
   * The column `ai_move` searches for on medium and hard, when at least one
   * depth completes and the game is not decided: legal, optimal for the
   * unpruned minimax of the deepest completed depth, and the first optimal
   * one in centre-first order.
   */
  lemma DeepeningChoiceIsOptimal(b: Grid, d: nat, maximizing: bool)
    requires 0 < d <= SearchDepth(Hard)
    requires !CheckWin(b, PLAYER2) && !CheckWin(b, PLAYER1) && !IsBoardFull(b)
    ensures var col := DeepeningChoice(b, d, maximizing);
      && col.Some?
      && IsValidMove(b, col.value)
      && ChildValue(b, d, maximizing, col.value) == MinimaxValue(b, d, maximizing)
      && (forall c: Column :: IsValidMove(b, c) ==> !Better(maximizing, ChildValue(b, d, maximizing, c), MinimaxValue(b, d, maximizing)))
      && (forall i, j :: 0 <= i < j < |COLUMN_ORDER| && COLUMN_ORDER[j] == col.value && IsValidMove(b, COLUMN_ORDER[i]) ==>
            Better(maximizing, MinimaxValue(b, d, maximizing), ChildValue(b, d, maximizing, COLUMN_ORDER[i])))
  {
    RootSearchPicksFirstOptimalColumn(b, d, -INFINITY, INFINITY, maximizing);
  }
}
