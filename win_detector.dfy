/**
 * `check_win` (connect4.py): the length-4 windows of the board, grouped in
 * the four direction families the source scans, and the win predicate over
 * them, with an independent "run of four in any of the eight directions"
 * definition it is proved equal to.
 */
module WinDetector {
  import opened Board

  /**
   * One direction family: the windows start at rows rowLo..rowHi-1 and
   * columns 0..colHi-1, and step (dr, dc) from one cell to the next.
   */
  datatype Family = Family(rowLo: int, rowHi: int, colHi: int, dr: int, dc: int)

  /** `board[row][col + i]`, rows 0..5, columns 0..3. */
  const HORIZONTAL: Family := Family(0, BOARD_HEIGHT, BOARD_WIDTH - 3, 0, 1)
  /** `board[row + i][col]`, rows 0..2, columns 0..6. */
  const VERTICAL: Family := Family(0, BOARD_HEIGHT - 3, BOARD_WIDTH, 1, 0)
  /** `board[row + i][col + i]`, rows 0..2, columns 0..3 (the source's "/" loop). */
  const DIAGONAL_DOWN: Family := Family(0, BOARD_HEIGHT - 3, BOARD_WIDTH - 3, 1, 1)
  /** `board[row - i][col + i]`, rows 3..5, columns 0..3 (the source's "\" loop). */
  const DIAGONAL_UP: Family := Family(3, BOARD_HEIGHT, BOARD_WIDTH - 3, -1, 1)

  /** Every window of the family lies inside the board. */
  predicate ValidFamily(f: Family) {
    && 0 <= f.rowLo <= f.rowHi <= BOARD_HEIGHT
    && 0 <= f.colHi
    && -1 <= f.dr <= 1 && 0 <= f.dc <= 1
    && 0 <= f.rowLo + 3 * f.dr
    && f.rowHi - 1 + 3 * f.dr < BOARD_HEIGHT
    && f.colHi - 1 + 3 * f.dc < BOARD_WIDTH
  }

  /** The four families `check_win` scans stay inside the board. */
  lemma FamiliesAreValid()
    ensures ValidFamily(HORIZONTAL) && ValidFamily(VERTICAL) && ValidFamily(DIAGONAL_DOWN) && ValidFamily(DIAGONAL_UP)
  {
  }

  predicate IsStart(f: Family, r: int, c: int) {
    f.rowLo <= r < f.rowHi && 0 <= c < f.colHi
  }

  /** The four cells of the window of family `f` that starts at (r, c). */
  function Window(b: Grid, f: Family, r: int, c: int): (w: seq<int>)
    requires ValidFamily(f) && IsStart(f, r, c)
    ensures |w| == 4
  {
    [b[r][c], b[r + f.dr][c + f.dc], b[r + 2 * f.dr][c + 2 * f.dc], b[r + 3 * f.dr][c + 3 * f.dc]]
  }

  /** One of the four nested loops of `check_win` finds an all-`p` window. */
  predicate FamilyWin(b: Grid, p: int, f: Family)
    requires ValidFamily(f)
  {
    exists r, c | f.rowLo <= r < f.rowHi && 0 <= c < f.colHi :: Window(b, f, r, c) == [p, p, p, p]
  }

  /** `check_win(p)`: the four families are scanned in this order. */
  predicate CheckWin(b: Grid, p: int) {
    || FamilyWin(b, p, HORIZONTAL)
    || FamilyWin(b, p, VERTICAL)
    || FamilyWin(b, p, DIAGONAL_DOWN)
    || FamilyWin(b, p, DIAGONAL_UP)
  }

  predicate InBounds(r: int, c: int) {
    0 <= r < BOARD_HEIGHT && 0 <= c < BOARD_WIDTH
  }

  /**
   * Reference definition: four cells in a straight line, in any of the eight
   * directions, inside the board and all equal to `p`.
   */
  ghost predicate RunOfFour(b: Grid, p: int, r: int, c: int, dr: int, dc: int) {
    && -1 <= dr <= 1 && -1 <= dc <= 1 && (dr != 0 || dc != 0)
    && InBounds(r, c) && InBounds(r + 3 * dr, c + 3 * dc)
    && b[r][c] == p
    && b[r + dr][c + dc] == p
    && b[r + 2 * dr][c + 2 * dc] == p
    && b[r + 3 * dr][c + 3 * dc] == p
  }

  /**
   * `check_win(p)` is true exactly when some horizontal, vertical or
   * diagonal run of four in-bounds cells all equal `p`, in either reading
   * direction.
   */
  lemma CheckWinIffRunOfFour(b: Grid, p: int)
    ensures CheckWin(b, p) <==> exists r, c, dr, dc :: RunOfFour(b, p, r, c, dr, dc)
  {
    if CheckWin(b, p) {
      var f :=
        if FamilyWin(b, p, HORIZONTAL) then HORIZONTAL
        else if FamilyWin(b, p, VERTICAL) then VERTICAL
        else if FamilyWin(b, p, DIAGONAL_DOWN) then DIAGONAL_DOWN
        else DIAGONAL_UP;
      var r, c :| f.rowLo <= r < f.rowHi && 0 <= c < f.colHi && Window(b, f, r, c) == [p, p, p, p];
      assert RunOfFour(b, p, r, c, f.dr, f.dc);
    }
    if exists r, c, dr, dc :: RunOfFour(b, p, r, c, dr, dc) {
      var r, c, dr, dc :| RunOfFour(b, p, r, c, dr, dc);
      RunIsWin(b, p, r, c, dr, dc);
    }
  }

  /** A run of four in any direction is found by one of the four families. */
  lemma RunIsWin(b: Grid, p: int, r: int, c: int, dr: int, dc: int)
    requires RunOfFour(b, p, r, c, dr, dc)
    ensures CheckWin(b, p)
  {
    if dc == -1 || (dc == 0 && dr == -1) {
      // read the same four cells from the other end
      assert RunOfFour(b, p, r + 3 * dr, c + 3 * dc, -dr, -dc);
      ForwardRunIsWin(b, p, r + 3 * dr, c + 3 * dc, -dr, -dc);
    } else {
      ForwardRunIsWin(b, p, r, c, dr, dc);
    }
  }

  lemma ForwardRunIsWin(b: Grid, p: int, r: int, c: int, dr: int, dc: int)
    requires RunOfFour(b, p, r, c, dr, dc)
    requires dc == 1 || (dc == 0 && dr == 1)
    ensures CheckWin(b, p)
  {
    var f :=
      if dr == 0 then HORIZONTAL
      else if dc == 0 then VERTICAL
      else if dr == 1 then DIAGONAL_DOWN
      else DIAGONAL_UP;
    assert IsStart(f, r, c);
    assert Window(b, f, r, c) == [p, p, p, p];
  }

  /**
   * A win of `p` survives any change that keeps every `p` cell: if every
   * cell equal to `p` in `b'` was already `p` in `b`, a win of `p` in `b'`
   * was a win in `b`.
   */
  lemma WinNeedsOwnCells(b: Grid, b': Grid, p: int)
    requires forall i: Row, j: Column :: b'[i][j] == p ==> b[i][j] == p
    requires CheckWin(b', p)
    ensures CheckWin(b, p)
  {
    var f :=
      if FamilyWin(b', p, HORIZONTAL) then HORIZONTAL
      else if FamilyWin(b', p, VERTICAL) then VERTICAL
      else if FamilyWin(b', p, DIAGONAL_DOWN) then DIAGONAL_DOWN
      else DIAGONAL_UP;
    var r, c :| f.rowLo <= r < f.rowHi && 0 <= c < f.colHi && Window(b', f, r, c) == [p, p, p, p];
    assert Window(b', f, r, c)[1] == p && Window(b', f, r, c)[2] == p && Window(b', f, r, c)[3] == p;
    assert Window(b, f, r, c) == [p, p, p, p];
  }

  /**
   * Dropping a piece of `q` creates no win for anyone else, and destroys no
   * existing win of a real player.
   */
  lemma DropAndWins(b: Grid, col: Column, q: int, p: int)
    ensures p != q && CheckWin(Drop(b, col, q), p) ==> CheckWin(b, p)
    ensures p != EMPTY && CheckWin(b, p) ==> CheckWin(Drop(b, col, q), p)
  {
    var b' := Drop(b, col, q);
    if p != q && CheckWin(b', p) {
      WinNeedsOwnCells(b, b', p);
    }
    if p != EMPTY && CheckWin(b, p) {
      WinNeedsOwnCells(b', b, p);
    }
  }

  /** The empty grid holds no win for either player. */
  lemma NoWinOnEmptyGrid()
    ensures !CheckWin(EmptyGrid(), PLAYER1) && !CheckWin(EmptyGrid(), PLAYER2)
  {
  }
}
