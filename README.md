# Connect Four game logic, verified

A Dafny model of the game logic of `Connect4Game` in `connect4.py`. That covers:

- the 7×6 board with row 0 at the top;
- the move queries `is_valid_move` and `is_board_full`;
- the in-place simulated moves `drop_piece` and `undo_move` used by the search;
- `check_win`;
- the heuristic `evaluate_board` and its nested `evaluate_window`;
- `minimax` with alpha-beta pruning over the centre-first column order `[3, 2, 4, 1, 5, 0, 6]`;
- the choice of the AI's column in `ai_move`: easy mode's random move or depth-2 search, and iterative deepening to depth 4 or 7 for the other difficulties.

The model has five modules:

- `Board` (board.dfy): cells are the integers EMPTY = 0, PLAYER1 = 1 and PLAYER2 = 2. The module holds:
  - the grid type and the two queries;
  - `Drop` and `Undo`, the value meaning of the two simulated moves;
  - `Gravity`: every column is filled contiguously from the bottom. A drop and an undo both preserve it, and each undoes the other.
- `WinDetector` (win_detector.dfy): the four window families that `check_win` scans, and `CheckWin`. `CheckWin` is proved equal to an independent reference definition: a run of four equal cells in any of the eight directions.
- `Evaluator` (evaluator.dfy): `WindowScore` is the branch chain of `evaluate_window`. `Evaluation` is the sum of all 69 window scores plus three times the centre-column balance. The module proves which way window scores are ordered, the bounds of the total, and that the empty board scores 0.
- `Search` (search.dfy):
  - `MinimaxValue` is unpruned depth-limited minimax, used as the reference;
  - `AlphaBeta` and its column loop `Explore` are the search as the source runs it: early returns in the source's order, strictly-better replacement, and a cut-off once alpha >= beta;
  - alpha-beta is proved fail-soft against minimax;
  - with the full window used by `ai_move`, the search is proved to return the exact minimax value and the first optimal column in centre-first order.
- `Game` (game.dfy): the class `Connect4Game`, with the fields `board` and `difficulty`. Its imperative methods mutate `board` and leave `difficulty` alone; the menu sets `difficulty`, and the menu is outside the model:
  - `DropPiece` and `UndoMove` are loops over the column;
  - `EvaluateBoard` is the nested window loops;
  - `Minimax` is the recursive search that plays each move and takes it back;
  - `AiMove` selects the AI's column.

  Each method is proved against the functions of the modules above.

`drop_piece` signals a full column by returning None, and `undo_move` ignores an empty column; neither raises. The model does the same.

## Model

| member | source | states |
|---|---|---|
| Board.EmptyGrid | connect4.py:120 | the initial board has every cell EMPTY |
| Board.EmptyGridHasGravity | connect4.py:120 | the initial board obeys gravity; with DropPreservesGravity and UndoPreservesGravity, so does every board the game reaches |
| Board.IsValidMove | connect4.py:235-237 | the definition of `is_valid_move` (top cell EMPTY); ValidMoveIffDropSucceeds characterises it |
| Board.IsBoardFull | connect4.py:277-279 | the definition of `is_board_full` (no column has an EMPTY top cell); FullBoardHasNoEmptyCell and NoLegalColumnIffFull characterise it |
| Board.LowestEmptyFrom | connect4.py:241-244 | the bottom-up scan finds the lowest EMPTY row at or above its start, with every row below it occupied; None only when every scanned cell is occupied |
| Board.TopOccupiedFrom | connect4.py:248-251 | the top-down scan finds the highest occupied row at or below its start, with every row above it EMPTY; None only when every scanned cell is EMPTY |
| Board.Drop | connect4.py:239-244 | `drop_piece` puts the player in the lowest EMPTY cell of the column and changes no other cell; a full column leaves the board unchanged |
| Board.Undo | connect4.py:246-251 | `undo_move` empties the highest occupied cell of the column and changes no other cell; an empty column leaves the board unchanged |
| Board.ValidMoveIffDropSucceeds | connect4.py:235-244 | under gravity, `is_valid_move` (top cell EMPTY) holds exactly when `drop_piece` finds a row, i.e. does not return None |
| Board.FullBoardHasNoEmptyCell | connect4.py:277-279 | under gravity, `is_board_full`, a test of row 0 only, holds exactly when no cell of the board is EMPTY |
| Board.DropPreservesGravity | connect4.py:239-244 | dropping a real piece keeps every column contiguous from the bottom |
| Board.UndoPreservesGravity | connect4.py:246-251 | clearing the top piece keeps every column contiguous from the bottom |
| Board.DropUndoRoundTrip | connect4.py:304-306 | the drop, search, undo pattern of `minimax`: undo after a drop into a legal column restores the board exactly |
| Board.UndoDropRoundTrip | connect4.py:246-251 | dropping the removed piece back after an undo restores the board exactly |
| WinDetector.CheckWin | connect4.py:253-275 | the definition of `check_win`: the four scans in source order; CheckWinIffRunOfFour characterises it |
| WinDetector.FamiliesAreValid | connect4.py:255-273 | every window of the four scans of `check_win` lies inside the board |
| WinDetector.CheckWinIffRunOfFour | connect4.py:253-275 | `check_win(p)` holds exactly when four in-bounds cells in a straight line, in any of the eight directions, all equal p |
| WinDetector.RunIsWin | connect4.py:253-275 | every run of four, read in either direction, is found by one of the four scans |
| WinDetector.WinNeedsOwnCells | connect4.py:253-275 | a win of p needs only p's own cells: a change that adds no p cell cannot create a win for p |
| WinDetector.DropAndWins | connect4.py:239-275 | a drop by q creates no win for any other player and destroys no existing win of a real player |
| WinDetector.NoWinOnEmptyGrid | connect4.py:253-275 | neither player has won on the initial board |
| Evaluator.Count | connect4.py:337-338 | `window.count(v)` never exceeds the window length |
| Evaluator.CountsFit | connect4.py:337-339 | the counts of two distinct values together fit in the window |
| Evaluator.WindowScore | connect4.py:336-357 | a mixed window scores 0; the score is positive exactly when only PLAYER2 pieces are present, negative exactly when only PLAYER1 pieces are present, and lies within ±10000 |
| Evaluator.MorePiecesScoreHigher | connect4.py:341-348 | among windows without PLAYER1 pieces, more PLAYER2 pieces score strictly higher |
| Evaluator.MoreOpponentPiecesScoreLower | connect4.py:349-356 | among windows without PLAYER2 pieces, more PLAYER1 pieces score strictly lower |
| Evaluator.OpponentThreatWeighsMore | connect4.py:343-352 | defensive bias: k lone PLAYER1 pieces cost at least what k lone PLAYER2 pieces earn, and an open three of PLAYER1 costs exactly twice as much |
| Evaluator.RowSum | connect4.py:361-364 | the partial sum of one row of windows lies within ±10000 per window |
| Evaluator.FamilySum | connect4.py:359-379 | the partial sum of one window family lies within ±10000 per window visited |
| Evaluator.CenterCount | connect4.py:381-384 | the centre-column balance over n rows lies within ±n |
| Evaluator.WindowTotal | connect4.py:359-379 | the sum of the scores of all 69 windows lies within ±69 × 10000 |
| Evaluator.Evaluation | connect4.py:330-393 | `evaluate_board` is the window total plus 3 × the centre balance and never leaves ±690018, far below the win scores of the search |
| Evaluator.EmptyBoardScoresZero | connect4.py:330-393 | the initial board evaluates to 0 |
| Search.TerminalScore | connect4.py:287-294 | the score of the first early return that applies, in source order, lies within ±(999999999 + depth) |
| Search.HasLegalColumn | connect4.py:291-303 | a board that is not full has a legal column in the centre-first order |
| Search.MinimaxValue | connect4.py:283-328 | the unpruned minimax value at depth d lies within ±(999999999 + d) |
| Search.MinimaxWinScores | connect4.py:287-290 | a value of 999999999 + d occurs exactly when PLAYER2 has won; -(999999999 + d) exactly when PLAYER1 has won and PLAYER2 has not |
| Search.ChildValue | connect4.py:302-305 | a child position's value lies strictly inside the parent's win scores |
| Search.BestOf | connect4.py:299-328 | the best child value over some columns is the value of one of their legal columns, and no legal column among them does better; None exactly when none is legal |
| Search.AlphaBeta | connect4.py:283-328 | the definition of `minimax` as the source runs it: the early returns, then the column loop from the initial infinity; AlphaBetaWellFormed, AlphaBetaFailSoft and RootSearchPicksFirstOptimalColumn characterise it |
| Search.Explore | connect4.py:299-328 | the definition of the column loop: a strictly better score replaces the best, the window is tightened, and the loop stops once alpha >= beta; ExploreWellFormed and ExploreFailSoft characterise it |
| Search.AlphaBetaWellFormed | connect4.py:283-328 | `minimax` returns a column exactly when no early return applies; that column is legal and the score lies within ±(999999999 + depth) |
| Search.ExploreWellFormed | connect4.py:299-328 | the column loop, started with a legal best or a legal column still to visit, ends with a legal column and a score inside the win scores |
| Search.AlphaBetaFailSoft | connect4.py:283-328 | alpha-beta matches unpruned minimax whenever the score falls strictly inside (alpha, beta); otherwise it bounds minimax from the correct side |
| Search.ExploreFailSoft | connect4.py:299-328 | the column loop keeps its best score fail-soft for the best exact value of the columns seen and still to visit |
| Search.FailSoftStep | connect4.py:307-312 | a fail-soft child score keeps the loop's best score fail-soft, both on cut-off and otherwise |
| Search.ChildFailSoft | connect4.py:304-306 | the search of a child position is fail-soft for that child's minimax value |
| Search.ColumnOrderIsPermutation | connect4.py:297 | `cols_order` visits every column exactly once |
| Search.RootSearchPicksFirstOptimalColumn | connect4.py:299-328 | with a window wider than every reachable score, the search returns the minimax value and a legal column that reaches it; no legal column does better, and every legal column before it in centre-first order does strictly worse |
| Search.TakesImmediateWin | connect4.py:287-313 | when the side to move can win with one piece, the full-window search picks a winning column, scored as a win one ply down |
| Game.LegalColumnsFrom | connect4.py:403 | `valid_cols` holds exactly the legal columns, in increasing order |
| Game.NoLegalColumnIffFull | connect4.py:403-405 | `valid_cols` is empty exactly when `is_board_full` holds |
| Game.SearchDepth | connect4.py:102-106 | the definition of `DIFFICULTY_LEVELS`: depth 2, 4 and 7 for easy, medium and hard |
| Game.DeepeningChoice | connect4.py:410-420 | the definition of the column iterative deepening keeps after depths 1..d; DeepeningStep and DeepeningChoiceIsOptimal characterise it |
| Game.DeepeningStep | connect4.py:414-419 | each deepening round keeps a non-None column and otherwise keeps the previous choice; every choice is legal |
| Game.DeepeningChoiceIsOptimal | connect4.py:410-420 | on an undecided board, the column that iterative deepening keeps is legal and the first optimal column, in centre-first order, for unpruned minimax at the deepest completed depth |
| Game.Connect4Game.constructor | connect4.py:120-126 | a new game has the empty board and no difficulty |
| Game.Connect4Game.DropPiece | connect4.py:239-244 | returns the lowest EMPTY row, or None on a full column; the board becomes `Drop` of the old board |
| Game.Connect4Game.UndoMove | connect4.py:246-251 | the board becomes `Undo` of the old board |
| Game.Connect4Game.AddFamilyScores | connect4.py:359-379 | one pair of nested window loops adds the family's window total to the running score |
| Game.Connect4Game.WindowScores | connect4.py:359-379 | the four window loops compute the window total |
| Game.Connect4Game.CenterScore | connect4.py:381-384 | the `center_count` sum is the centre-column balance |
| Game.Connect4Game.EvaluateBoard | connect4.py:330-393 | returns `Evaluation` of the board, within ±690018 |
| Game.Connect4Game.Minimax | connect4.py:283-294 | the early returns in source order, then the column loop; the result equals the pure `AlphaBeta` of the board, and the board and difficulty are as they were |
| Game.Connect4Game.SearchColumns | connect4.py:296-328 | the column loop plays, searches and takes back each legal column; its result equals the pure `Explore` over the centre-first order, and the board is restored |
| Game.Connect4Game.EasyMove | connect4.py:401-409 | the easy branch returns only legal columns; on the random draw it returns some legal column exactly when the board is not full; otherwise it returns the depth-2 search's column |
| Game.Connect4Game.DeepeningMove | connect4.py:410-420 | iterative deepening keeps the choice of the depths that start in time, capped at the difficulty's depth; the column is legal and the board is unchanged |
| Game.Connect4Game.AiMove | connect4.py:395-424 | `ai_move` returns only legal columns and leaves the board unchanged; for easy it is the easy branch, otherwise iterative deepening to depth 4 or 7 |

## Left out

- The user interface is not modelled. That covers pygame windows, drawing, fonts, menus, buttons, event handling, the falling and bounce animation, logging and `sys.exit`.
- A real move is not a `drop_piece` call. `start_drop_animation` (connect4.py:184-204) finds the row with the same bottom-up scan. The last frame of `update_animation` (connect4.py:221) then writes the piece into that row, which is the cell `Drop` fills. While `animating` is set, neither human input (connect4.py:521) nor an AI move (connect4.py:626) starts another move, so each board the game reaches is `Drop` of the one before. `start_drop_animation` and `update_animation` are not modelled beyond that.
- These game-flow fields are left out: `current_player`, `game_over`, `winner`, `mode`, `running`, `animating` and `bounce_count`. So are `reset_game` and the turn loop. They belong to the UI loop.
- The clock in `ai_move` is not modelled. `DeepeningMove` and `AiMove` take `iterationsInTime` instead: the number of deepening rounds that start before the 5-second check fails. The running time of a search is not modelled.
- `random.random() < 0.3` and `random.choice` are parameters of `EasyMove` and `AiMove`: a boolean draw and an index into `valid_cols`. `random.seed(42)` is not modelled. The source reseeds at connect4.py:399 before every draw, so `random.random()` returns the same value on every call. In CPython that value is about 0.639, at least 0.3, so the source's random branch of easy mode never runs. The free `randomDraw` parameter also covers that fixed outcome.
- `math.inf` is modelled as the sentinel INFINITY = 10^18 and its negation. Search scores lie within ±(999999999 + depth), so a comparison with the sentinel comes out the same as with `math.inf`.
- Game.Connect4Game.Minimax: requires gravity on the board. Every board reachable from the initial one satisfies it. The game starts from `EmptyGrid`, and `reset_game` returns to it (connect4.py:120, 137; EmptyGridHasGravity). Each real move, written by the animation as described above, is a `Drop` (DropPreservesGravity). The search only ever drops and then undoes (DropPreservesGravity, UndoPreservesGravity, DropUndoRoundTrip). Without it, `undo_move` can clear a different cell than `drop_piece` filled.
- Game.Connect4Game.AiMove: requires gravity and a chosen difficulty. The source raises `KeyError` when `difficulty` is None; the model does not represent that exception.
- Game.Connect4Game.EasyMove: the model picks `valid_cols[randomIndex % |valid_cols|]`. Which element `random.choice` actually returns is not modelled.
- A board with no legal column is not reachable inside the column loop, because `is_board_full` is tested first. The model still returns the sentinel score and None there, as the source returns `-inf`/`inf` and None.
- Python integers are unbounded, and so are Dafny's `int`, so no overflow or wrap-around arises.
