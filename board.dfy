/**
 * The Connect-Four grid of `Connect4Game` (connect4.py): six rows of seven
 * cells, row 0 at the top, each cell EMPTY, PLAYER1 or PLAYER2.  This module
 * holds the read-only queries (`is_valid_move`, `is_board_full`), the value
 * semantics of the gravity drop and of its undo, and the gravity invariant
 * that the two of them maintain.
 */
module Board {

  const BOARD_WIDTH: int := 7
  const BOARD_HEIGHT: int := 6

  const EMPTY: int := 0
  const PLAYER1: int := 1
  const PLAYER2: int := 2

  datatype Option<+T> = None | Some(value: T)

  type Row = r: int | 0 <= r < BOARD_HEIGHT
  type Column = c: int | 0 <= c < BOARD_WIDTH

  predicate IsGrid(b: seq<seq<int>>) {
    |b| == BOARD_HEIGHT && forall r :: 0 <= r < |b| ==> |b[r]| == BOARD_WIDTH
  }

  /** `self.board`: a list of BOARD_HEIGHT rows of BOARD_WIDTH cells. */
  type Grid = b: seq<seq<int>> | IsGrid(b) witness seq(BOARD_HEIGHT, _ => seq(BOARD_WIDTH, _ => EMPTY))

  /** The board `__init__` and `reset_game` create. */
  function EmptyGrid(): (b: Grid)
    ensures forall r: Row, c: Column :: b[r][c] == EMPTY
  {
    seq(BOARD_HEIGHT, _ => seq(BOARD_WIDTH, _ => EMPTY))
  }

  /** `board[r][c] = v`: the grid with exactly one cell replaced. */
  function Place(b: Grid, r: Row, c: Column, v: int): (b': Grid)
    ensures forall i: Row, j: Column :: b'[i][j] == if i == r && j == c then v else b[i][j]
  {
    b[r := b[r][c := v]]
  }

  /** `is_valid_move`: the top cell of the column is free. */
  predicate IsValidMove(b: Grid, col: Column) {
    b[0][col] == EMPTY
  }

  /** `is_board_full`: no column has a free top cell. */
  predicate IsBoardFull(b: Grid) {
    forall col: Column :: b[0][col] != EMPTY
  }

  /**
   * The bottom-up scan of `drop_piece`, started at row `r` and moving towards
   * row 0: the lowest EMPTY row among rows 0..r of `col`, if there is one.
   */
  function LowestEmptyFrom(b: Grid, col: Column, r: int): (row: Option<Row>)
    requires -1 <= r < BOARD_HEIGHT
    ensures row.Some? ==> row.value <= r && b[row.value][col] == EMPTY
    ensures row.Some? ==> forall i: Row :: row.value < i <= r ==> b[i][col] != EMPTY
    ensures row.None? ==> forall i: Row :: i <= r ==> b[i][col] != EMPTY
    decreases r + 1
  {
    if r < 0 then None
    else if b[r][col] == EMPTY then Some(r)
    else LowestEmptyFrom(b, col, r - 1)
  }

  /** The row `drop_piece` writes into, or None when it returns None. */
  function LowestEmptyRow(b: Grid, col: Column): Option<Row> {
    LowestEmptyFrom(b, col, BOARD_HEIGHT - 1)
  }

  /**
   * The top-down scan of `undo_move`, started at row `r` and moving towards
   * the bottom: the highest occupied row among rows r..BOARD_HEIGHT-1.
   */
  function TopOccupiedFrom(b: Grid, col: Column, r: int): (row: Option<Row>)
    requires 0 <= r <= BOARD_HEIGHT
    ensures row.Some? ==> r <= row.value && b[row.value][col] != EMPTY
    ensures row.Some? ==> forall i: Row :: r <= i < row.value ==> b[i][col] == EMPTY
    ensures row.None? ==> forall i: Row :: r <= i ==> b[i][col] == EMPTY
    decreases BOARD_HEIGHT - r
  {
    if r == BOARD_HEIGHT then None
    else if b[r][col] != EMPTY then Some(r)
    else TopOccupiedFrom(b, col, r + 1)
  }

  /** The cell `undo_move` clears, or None when it changes nothing. */
  function TopOccupiedRow(b: Grid, col: Column): Option<Row> {
    TopOccupiedFrom(b, col, 0)
  }

  /**
   * The board after `drop_piece(col, player)`: `player` in the lowest EMPTY
   * cell of `col`, every other cell as before; a full column is left alone.
   */
  function Drop(b: Grid, col: Column, player: int): (b': Grid)
    ensures LowestEmptyRow(b, col).None? ==> b' == b
    ensures LowestEmptyRow(b, col).Some? ==>
      var row := LowestEmptyRow(b, col).value;
      && b[row][col] == EMPTY
      && b'[row][col] == player
      && (forall i: Row :: row < i ==> b[i][col] != EMPTY)
      && (forall i: Row, j: Column :: (i != row || j != col) ==> b'[i][j] == b[i][j])
  {
    match LowestEmptyRow(b, col)
    case None => b
    case Some(row) => Place(b, row, col, player)
  }

  /**
   * The board after `undo_move(col)`: the highest occupied cell of `col` is
   * EMPTY again, every other cell as before; an empty column is left alone.
   */
  function Undo(b: Grid, col: Column): (b': Grid)
    ensures TopOccupiedRow(b, col).None? ==> b' == b
    ensures TopOccupiedRow(b, col).Some? ==>
      var row := TopOccupiedRow(b, col).value;
      && b[row][col] != EMPTY
      && b'[row][col] == EMPTY
      && (forall i: Row :: i < row ==> b[i][col] == EMPTY)
      && (forall i: Row, j: Column :: (i != row || j != col) ==> b'[i][j] == b[i][j])
  {
    match TopOccupiedRow(b, col)
    case None => b
    case Some(row) => Place(b, row, col, EMPTY)
  }

  /** An occupied cell rests on the bottom row or on an occupied cell. */
  predicate Supported(b: Grid, r: Row, c: Column) {
    r + 1 < BOARD_HEIGHT && b[r][c] != EMPTY ==> b[r + 1][c] != EMPTY
  }

  /** The gravity invariant: every column is filled contiguously from the bottom. */
  predicate Gravity(b: Grid) {
    forall r: Row, c: Column :: Supported(b, r, c)
  }

  /** The board the game starts from obeys gravity. */
  lemma EmptyGridHasGravity()
    ensures Gravity(EmptyGrid())
  {
  }

  /** Under gravity, an EMPTY cell has only EMPTY cells above it. */
  lemma {:induction false} EmptyAbove(b: Grid, r: Row, c: Column, r': Row)
    requires Gravity(b) && b[r][c] == EMPTY && r' <= r
    ensures b[r'][c] == EMPTY
    decreases r - r'
  {
    if r' < r {
      assert Supported(b, r - 1, c);
      EmptyAbove(b, r - 1, c, r');
    }
  }

  /** Under gravity, an occupied cell has only occupied cells below it. */
  lemma OccupiedBelow(b: Grid, r: Row, c: Column, r': Row)
    requires Gravity(b) && b[r][c] != EMPTY && r <= r'
    ensures b[r'][c] != EMPTY
  {
    if b[r'][c] == EMPTY {
      EmptyAbove(b, r', c, r);
    }
  }

  /**
   * Under gravity, `is_valid_move(col)` holds exactly when `drop_piece(col, _)`
   * finds a free row (and so does not return None).
   */
  lemma ValidMoveIffDropSucceeds(b: Grid, col: Column)
    requires Gravity(b)
    ensures IsValidMove(b, col) <==> LowestEmptyRow(b, col).Some?
  {
    if LowestEmptyRow(b, col).Some? {
      EmptyAbove(b, LowestEmptyRow(b, col).value, col, 0);
    }
  }

  /**
   * Under gravity, `is_board_full()` (a row-0 test) holds exactly when no
   * cell of the board is EMPTY.
   */
  lemma FullBoardHasNoEmptyCell(b: Grid)
    requires Gravity(b)
    ensures IsBoardFull(b) <==> forall r: Row, c: Column :: b[r][c] != EMPTY
  {
    if IsBoardFull(b) {
      forall r: Row, c: Column ensures b[r][c] != EMPTY {
        OccupiedBelow(b, 0, c, r);
      }
    }
  }

  /** Dropping a real piece keeps every column contiguous from the bottom. */
  lemma DropPreservesGravity(b: Grid, col: Column, player: int)
    requires Gravity(b) && player != EMPTY
    ensures Gravity(Drop(b, col, player))
  {
    var b' := Drop(b, col, player);
    if LowestEmptyRow(b, col).Some? {
      var row := LowestEmptyRow(b, col).value;
      forall r: Row, c: Column ensures Supported(b', r, c) {
        assert Supported(b, r, c);
        if c == col && r + 1 == row && b'[r][c] != EMPTY {
          EmptyAbove(b, row, col, r);
        }
      }
    }
  }

  /** Clearing the top piece of a column keeps the column contiguous. */
  lemma UndoPreservesGravity(b: Grid, col: Column)
    requires Gravity(b)
    ensures Gravity(Undo(b, col))
  {
    var b' := Undo(b, col);
    if TopOccupiedRow(b, col).Some? {
      forall r: Row, c: Column ensures Supported(b', r, c) {
        assert Supported(b, r, c);
      }
    }
  }

  /**
   * `drop_piece(col, p)` followed by `undo_move(col)` restores the board
   * exactly, whenever the column has room and the board obeys gravity.
   */
  lemma DropUndoRoundTrip(b: Grid, col: Column, player: int)
    requires Gravity(b) && IsValidMove(b, col) && player != EMPTY
    ensures Undo(Drop(b, col, player), col) == b
  {
    ValidMoveIffDropSucceeds(b, col);
    var row := LowestEmptyRow(b, col).value;
    var b' := Drop(b, col, player);
    forall i: Row | i < row ensures b'[i][col] == EMPTY {
      EmptyAbove(b, row, col, i);
    }
    TopOccupiedIs(b', col, row);
    var b'' := Undo(b', col);
    forall i: Row, j: Column ensures b''[i][j] == b[i][j] {
    }
    GridExtensionality(b'', b);
  }

  /**
   * `undo_move(col)` followed by dropping the removed piece back into `col`
   * restores the board exactly, whenever the board obeys gravity.
   */
  lemma UndoDropRoundTrip(b: Grid, col: Column)
    requires Gravity(b) && TopOccupiedRow(b, col).Some?
    ensures Drop(Undo(b, col), col, b[TopOccupiedRow(b, col).value][col]) == b
  {
    var row := TopOccupiedRow(b, col).value;
    var b' := Undo(b, col);
    forall i: Row | row < i ensures b'[i][col] != EMPTY {
      OccupiedBelow(b, row, col, i);
    }
    LowestEmptyIs(b', col, row);
    var b'' := Drop(b', col, b[row][col]);
    forall i: Row, j: Column ensures b''[i][j] == b[i][j] {
    }
    GridExtensionality(b'', b);
  }

  lemma TopOccupiedIs(b: Grid, col: Column, row: Row)
    requires b[row][col] != EMPTY
    requires forall i: Row :: i < row ==> b[i][col] == EMPTY
    ensures TopOccupiedRow(b, col) == Some(row)
  {
  }

  lemma LowestEmptyIs(b: Grid, col: Column, row: Row)
    requires b[row][col] == EMPTY
    requires forall i: Row :: row < i ==> b[i][col] != EMPTY
    ensures LowestEmptyRow(b, col) == Some(row)
  {
  }

  /** Two grids with the same cells are the same grid. */
  lemma GridExtensionality(b: Grid, b': Grid)
    requires forall i: Row, j: Column :: b[i][j] == b'[i][j]
    ensures b == b'
  {
    forall i | 0 <= i < BOARD_HEIGHT ensures b[i] == b'[i] {
      var row: Row := i;
      assert forall j: Column :: b[row][j] == b'[row][j];
    }
  }
}
