/**
 * The value semantics of `minimax` (connect4.py): an unpruned, depth-limited
 * minimax value `MinimaxValue`, the alpha-beta search as the source runs it
 * (`AlphaBeta`, whose loop over the centre-first column order is `Explore`),
 * and the facts that tie the two together.
 */
module Search {
  import opened Board
  import opened WinDetector
  import opened Evaluator

  /** The base of the depth-adjusted win and loss scores. */
  const WIN_SCORE: int := 999999999
  /** Stands for `math.inf`: larger than every score the search can reach at any depth below 10^18 - WIN_SCORE. */
  const INFINITY: int := 1_000_000_000_000_000_000
  /** `cols_order`: centre columns first; also the tie-break order. */
  const COLUMN_ORDER: seq<Column> := [3, 2, 4, 1, 5, 0, 6]

  /** PLAYER2 maximises, PLAYER1 minimises. */
  function Mover(maximizing: bool): int {
    if maximizing then PLAYER2 else PLAYER1
  }

  /** `x` is strictly preferable to `y` for the side to move. */
  predicate Better(maximizing: bool, x: int, y: int) {
    if maximizing then x > y else x < y
  }

  function Max(x: int, y: int): int { if x >= y then x else y }
  function Min(x: int, y: int): int { if x <= y then x else y }

  /** One of the four early returns of `minimax` applies. */
  predicate Terminal(b: Grid, depth: nat) {
    CheckWin(b, PLAYER2) || CheckWin(b, PLAYER1) || IsBoardFull(b) || depth == 0
  }

  /** The score of the first early return that applies, in the source's order. */
  function TerminalScore(b: Grid, depth: nat): (score: int)
    requires Terminal(b, depth)
    ensures -(WIN_SCORE + depth) <= score <= WIN_SCORE + depth
  {
    if CheckWin(b, PLAYER2) then WIN_SCORE + depth
    else if CheckWin(b, PLAYER1) then -WIN_SCORE - depth
    else if IsBoardFull(b) then 0
    else Evaluation(b)
  }

  /** A board that is not full has a legal column in the exploration order. */
  lemma HasLegalColumn(b: Grid)
    requires !IsBoardFull(b)
    ensures exists c :: c in COLUMN_ORDER && IsValidMove(b, c)
  {
    var c: Column :| b[0][c] == EMPTY;
    assert c in COLUMN_ORDER;
  }

  /**
   * Unpruned depth-limited minimax: the terminal cases of `minimax` and,
   * otherwise, the best value over the legal columns for the side to move.
   * A node `depth` plies from the horizon never scores beyond the win and
   * loss scores for that depth.
   */
  function MinimaxValue(b: Grid, depth: nat, maximizing: bool): (v: int)
    ensures -(WIN_SCORE + depth) <= v <= WIN_SCORE + depth
    decreases depth, 2
  {
    if Terminal(b, depth) then TerminalScore(b, depth)
    else
      HasLegalColumn(b);
      BestOf(b, depth, maximizing, COLUMN_ORDER).value
  }

  /**
   * The extreme scores identify decided boards: WIN_SCORE + depth exactly
   * when PLAYER2 has already won, -(WIN_SCORE + depth) exactly when PLAYER1
   * has won and PLAYER2 has not; deeper wins always score less.
   */
  lemma MinimaxWinScores(b: Grid, depth: nat, maximizing: bool)
    ensures MinimaxValue(b, depth, maximizing) == WIN_SCORE + depth <==> CheckWin(b, PLAYER2)
    ensures MinimaxValue(b, depth, maximizing) == -(WIN_SCORE + depth) <==> !CheckWin(b, PLAYER2) && CheckWin(b, PLAYER1)
  {
    if !Terminal(b, depth) {
      HasLegalColumn(b);
      var c :| c in COLUMN_ORDER && IsValidMove(b, c)
        && ChildValue(b, depth, maximizing, c) == BestOf(b, depth, maximizing, COLUMN_ORDER).value;
    }
  }

  /** The minimax value of the board after the side to move plays `col`. */
  function ChildValue(b: Grid, depth: nat, maximizing: bool, col: Column): (v: int)
    requires depth > 0
    ensures -(WIN_SCORE + depth) < v < WIN_SCORE + depth
    decreases depth, 0, 0
  {
    MinimaxValue(Drop(b, col, Mover(maximizing)), depth - 1, !maximizing)
  }

  /**
   * The best child value over the legal columns in `cols`: one of them, and
   * no legal column in `cols` does better; None when none is legal.
   */
  function BestOf(b: Grid, depth: nat, maximizing: bool, cols: seq<Column>): (best: Option<int>)
    requires depth > 0
    ensures best.Some? <==> exists c :: c in cols && IsValidMove(b, c)
    ensures best.Some? ==>
      exists c :: c in cols && IsValidMove(b, c) && ChildValue(b, depth, maximizing, c) == best.value
    ensures best.Some? ==>
      forall c :: c in cols && IsValidMove(b, c) ==> !Better(maximizing, ChildValue(b, depth, maximizing, c), best.value)
    decreases depth, 1, |cols|
  {
    if cols == [] then None
    else
      var rest := BestOf(b, depth, maximizing, cols[1..]);
      if !IsValidMove(b, cols[0]) then rest
      else
        var v := ChildValue(b, depth, maximizing, cols[0]);
        if rest.None? || Better(maximizing, v, rest.value) then Some(v) else rest
  }

  /** The `(score, best_column)` pair `minimax` returns. */
  datatype SearchResult = SearchResult(score: int, col: Option<Column>)

  /**
   * `minimax(depth, alpha, beta, maximizing)` as a function of the board it
   * starts from: the early returns, then the loop over COLUMN_ORDER.
   */
  function AlphaBeta(b: Grid, depth: nat, alpha: int, beta: int, maximizing: bool): SearchResult
    decreases depth, 2
  {
    if Terminal(b, depth) then SearchResult(TerminalScore(b, depth), None)
    else Explore(b, depth, alpha, beta, maximizing, COLUMN_ORDER, if maximizing then -INFINITY else INFINITY, None)
  }

  /**
   * The loop of `minimax` over the columns `cols` still to visit, with the
   * current window and best (score, column).  A column replaces the best only
   * when strictly better (the first column visited always does: it beats the
   * initial infinity), and the loop stops once alpha >= beta.
   */
  function Explore(b: Grid, depth: nat, alpha: int, beta: int, maximizing: bool, cols: seq<Column>,
                   bestScore: int, bestCol: Option<Column>): SearchResult
    requires depth > 0
    decreases depth, 1, |cols|
  {
    if cols == [] then SearchResult(bestScore, bestCol)
    else if !IsValidMove(b, cols[0]) then Explore(b, depth, alpha, beta, maximizing, cols[1..], bestScore, bestCol)
    else
      var col := cols[0];
      var e := AlphaBeta(Drop(b, col, Mover(maximizing)), depth - 1, alpha, beta, !maximizing).score;
      var improved := bestCol.None? || Better(maximizing, e, bestScore);
      var bestScore' := if improved then e else bestScore;
      var bestCol' := if improved then Some(col) else bestCol;
      var alpha' := if maximizing then Max(alpha, e) else alpha;
      var beta' := if maximizing then beta else Min(beta, e);
      if alpha' >= beta' then SearchResult(bestScore', bestCol')
      else Explore(b, depth, alpha', beta', maximizing, cols[1..], bestScore', bestCol')
  }

  /** One legal column of the loop of `Explore`: search it, update the best and the window, go on or cut off. */
  lemma ExploreVisit(b: Grid, depth: nat, alpha: int, beta: int, maximizing: bool, cols: seq<Column>,
                     bestScore: int, bestCol: Option<Column>)
    requires depth > 0 && cols != [] && IsValidMove(b, cols[0])
    ensures var e := AlphaBeta(Drop(b, cols[0], Mover(maximizing)), depth - 1, alpha, beta, !maximizing).score;
      var improved := bestCol.None? || Better(maximizing, e, bestScore);
      var bestScore' := if improved then e else bestScore;
      var bestCol' := if improved then Some(cols[0]) else bestCol;
      var alpha' := if maximizing then Max(alpha, e) else alpha;
      var beta' := if maximizing then beta else Min(beta, e);
      Explore(b, depth, alpha, beta, maximizing, cols, bestScore, bestCol)
        == if alpha' >= beta' then SearchResult(bestScore', bestCol')
           else Explore(b, depth, alpha', beta', maximizing, cols[1..], bestScore', bestCol')
  {
  }

  /**
   * The search returns a column exactly when no early return applies, that
   * column is legal, and its score lies within the win and loss scores.
   */
  lemma AlphaBetaWellFormed(b: Grid, depth: nat, alpha: int, beta: int, maximizing: bool)
    ensures var r := AlphaBeta(b, depth, alpha, beta, maximizing);
      && (r.col.None? <==> Terminal(b, depth))
      && (r.col.Some? ==> IsValidMove(b, r.col.value))
      && -(WIN_SCORE + depth) <= r.score <= WIN_SCORE + depth
    decreases depth, 2
  {
    if !Terminal(b, depth) {
      HasLegalColumn(b);
      ExploreWellFormed(b, depth, alpha, beta, maximizing, COLUMN_ORDER,
                        if maximizing then -INFINITY else INFINITY, None);
    }
  }

  lemma ExploreWellFormed(b: Grid, depth: nat, alpha: int, beta: int, maximizing: bool, cols: seq<Column>,
                          bestScore: int, bestCol: Option<Column>)
    requires depth > 0
    requires bestCol.Some? ==> IsValidMove(b, bestCol.value) && -(WIN_SCORE + depth) < bestScore < WIN_SCORE + depth
    requires bestCol.Some? || exists c :: c in cols && IsValidMove(b, c)
    ensures var r := Explore(b, depth, alpha, beta, maximizing, cols, bestScore, bestCol);
      && r.col.Some? && IsValidMove(b, r.col.value)
      && -(WIN_SCORE + depth) < r.score < WIN_SCORE + depth
    decreases depth, 1, |cols|
  {
    if cols != [] {
      if !IsValidMove(b, cols[0]) {
        assert forall c :: c in cols && c != cols[0] ==> c in cols[1..];
        ExploreWellFormed(b, depth, alpha, beta, maximizing, cols[1..], bestScore, bestCol);
      } else {
        var col := cols[0];
        AlphaBetaWellFormed(Drop(b, col, Mover(maximizing)), depth - 1, alpha, beta, !maximizing);
        var e := AlphaBeta(Drop(b, col, Mover(maximizing)), depth - 1, alpha, beta, !maximizing).score;
        var improved := bestCol.None? || Better(maximizing, e, bestScore);
        var bestScore' := if improved then e else bestScore;
        var bestCol' := if improved then Some(col) else bestCol;
        var alpha' := if maximizing then Max(alpha, e) else alpha;
        var beta' := if maximizing then beta else Min(beta, e);
        if alpha' < beta' {
          ExploreWellFormed(b, depth, alpha', beta', maximizing, cols[1..], bestScore', bestCol');
        }
      }
    }
  }

  /**
   * Fail-soft bounds of an alpha-beta score `v` against the exact value:
   * exact inside the window, an upper bound on a fail-low, a lower bound on a
   * fail-high.
   */
  predicate FailSoft(v: int, alpha: int, beta: int, exact: int) {
    && (alpha < v < beta ==> v == exact)
    && (v <= alpha ==> exact <= v)
    && (v >= beta ==> exact >= v)
  }

  /** The better of two optional values for the side to move. */
  function Combine(maximizing: bool, x: Option<int>, y: Option<int>): Option<int> {
    if x.None? then y
    else if y.None? then x
    else Some(if maximizing then Max(x.value, y.value) else Min(x.value, y.value))
  }

  /**
   * Alpha-beta with pruning agrees with unpruned minimax wherever its score
   * falls strictly inside (alpha, beta), and bounds it from the correct side
   * otherwise.
   */
  lemma AlphaBetaFailSoft(b: Grid, depth: nat, alpha: int, beta: int, maximizing: bool)
    requires alpha < beta
    ensures FailSoft(AlphaBeta(b, depth, alpha, beta, maximizing).score, alpha, beta, MinimaxValue(b, depth, maximizing))
    decreases depth, 2
  {
    if !Terminal(b, depth) {
      HasLegalColumn(b);
      ExploreFailSoft(b, depth, alpha, beta, alpha, beta, maximizing, COLUMN_ORDER,
                      if maximizing then -INFINITY else INFINITY, None, None);
    }
  }

  /**
   * The state the loop of `Explore` keeps for AlphaBetaFailSoft: the window
   * is still open and tightened by the best score so far, and `seen` (the
   * best exact child value among the columns visited) never beats the best
   * returned score and equals it once that score lies beyond the original
   * bound on the mover's own side.
   */
  predicate FailSoftInvariant(maximizing: bool, alpha0: int, beta0: int, alpha: int, beta: int,
                              bestScore: int, hasBest: bool, seen: Option<int>) {
    && alpha < beta
    && (maximizing ==> beta == beta0 && alpha == (if hasBest then Max(alpha0, bestScore) else alpha0))
    && (!maximizing ==> alpha == alpha0 && beta == (if hasBest then Min(beta0, bestScore) else beta0))
    && (hasBest <==> seen.Some?)
    && (seen.Some? ==> !Better(maximizing, seen.value, bestScore))
    && (seen.Some? && (if maximizing then alpha0 < bestScore else bestScore < beta0) ==> seen.value == bestScore)
  }

  /** When the loop runs out of columns, its best score is fail-soft for `seen`. */
  lemma FailSoftDone(maximizing: bool, alpha0: int, beta0: int, alpha: int, beta: int,
                     bestScore: int, hasBest: bool, seen: Option<int>)
    requires FailSoftInvariant(maximizing, alpha0, beta0, alpha, beta, bestScore, hasBest, seen)
    requires seen.Some?
    ensures FailSoft(bestScore, alpha0, beta0, seen.value)
  {
  }

  /**
   * One visited column, given that the child score `e` is fail-soft for its
   * exact value: either the loop cuts off with a fail-soft best score, or the
   * invariant holds again.
   */
  lemma FailSoftStep(maximizing: bool, alpha0: int, beta0: int, alpha: int, beta: int,
                     bestScore: int, hasBest: bool, seen: Option<int>, e: int, exact: int, rest: Option<int>)
    requires FailSoftInvariant(maximizing, alpha0, beta0, alpha, beta, bestScore, hasBest, seen)
    requires FailSoft(e, alpha, beta, exact)
    ensures var improved := !hasBest || Better(maximizing, e, bestScore);
      var bestScore' := if improved then e else bestScore;
      var alpha' := if maximizing then Max(alpha, e) else alpha;
      var beta' := if maximizing then beta else Min(beta, e);
      var seen' := Combine(maximizing, seen, Some(exact));
      && (alpha' >= beta' ==> FailSoft(bestScore', alpha0, beta0, Combine(maximizing, seen', rest).value))
      && (alpha' < beta' ==> FailSoftInvariant(maximizing, alpha0, beta0, alpha', beta', bestScore', true, seen'))
  {
  }

  /** The search of one child position is fail-soft for the child's exact value. */
  lemma ChildFailSoft(b: Grid, depth: nat, alpha: int, beta: int, maximizing: bool, col: Column)
    requires depth > 0 && alpha < beta
    ensures FailSoft(AlphaBeta(Drop(b, col, Mover(maximizing)), depth - 1, alpha, beta, !maximizing).score,
                     alpha, beta, ChildValue(b, depth, maximizing, col))
    decreases depth, 0
  {
    AlphaBetaFailSoft(Drop(b, col, Mover(maximizing)), depth - 1, alpha, beta, !maximizing);
    assert ChildValue(b, depth, maximizing, col) == MinimaxValue(Drop(b, col, Mover(maximizing)), depth - 1, !maximizing);
  }

  /** Child search scores lie strictly inside the parent's win scores. */
  lemma ChildBounded(b: Grid, depth: nat, alpha: int, beta: int, maximizing: bool, col: Column)
    requires depth > 0
    ensures -(WIN_SCORE + depth) < AlphaBeta(Drop(b, col, Mover(maximizing)), depth - 1, alpha, beta, !maximizing).score < WIN_SCORE + depth
  {
    AlphaBetaWellFormed(Drop(b, col, Mover(maximizing)), depth - 1, alpha, beta, !maximizing);
  }

  /** One step of BestOf, as a Combine. */
  lemma BestOfUnfold(b: Grid, depth: nat, maximizing: bool, cols: seq<Column>)
    requires depth > 0 && cols != [] && IsValidMove(b, cols[0])
    ensures BestOf(b, depth, maximizing, cols)
         == Combine(maximizing, Some(ChildValue(b, depth, maximizing, cols[0])), BestOf(b, depth, maximizing, cols[1..]))
  {
    var v := ChildValue(b, depth, maximizing, cols[0]);
    var rest := BestOf(b, depth, maximizing, cols[1..]);
    assert BestOf(b, depth, maximizing, cols) == if rest.None? || Better(maximizing, v, rest.value) then Some(v) else rest;
    CombineSome(maximizing, v, rest);
  }

  /** Combining with a known value keeps it exactly when the other side does not beat it. */
  lemma CombineSome(maximizing: bool, v: int, rest: Option<int>)
    ensures Combine(maximizing, Some(v), rest) == if rest.None? || Better(maximizing, v, rest.value) then Some(v) else rest
  {
  }

  lemma CombineAssociative(maximizing: bool, x: Option<int>, y: Option<int>, z: Option<int>)
    ensures Combine(maximizing, x, Combine(maximizing, y, z)) == Combine(maximizing, Combine(maximizing, x, y), z)
  {
  }

  /**
   * The loop of `Explore`, from a state satisfying FailSoftInvariant, returns
   * a score that is fail-soft for the best exact value over the columns seen
   * and still to visit.
   */
  lemma ExploreFailSoft(b: Grid, depth: nat, alpha0: int, beta0: int, alpha: int, beta: int, maximizing: bool,
                        cols: seq<Column>, bestScore: int, bestCol: Option<Column>, seen: Option<int>)
    requires depth > 0
    requires FailSoftInvariant(maximizing, alpha0, beta0, alpha, beta, bestScore, bestCol.Some?, seen)
    ensures var total := Combine(maximizing, seen, BestOf(b, depth, maximizing, cols));
      total.Some? ==> FailSoft(Explore(b, depth, alpha, beta, maximizing, cols, bestScore, bestCol).score, alpha0, beta0, total.value)
    decreases depth, 1, |cols|, 1
  {
    if cols == [] {
      if seen.Some? {
        FailSoftDone(maximizing, alpha0, beta0, alpha, beta, bestScore, bestCol.Some?, seen);
      }
    } else if !IsValidMove(b, cols[0]) {
      assert Explore(b, depth, alpha, beta, maximizing, cols, bestScore, bestCol)
          == Explore(b, depth, alpha, beta, maximizing, cols[1..], bestScore, bestCol);
      assert BestOf(b, depth, maximizing, cols) == BestOf(b, depth, maximizing, cols[1..]);
      ExploreFailSoft(b, depth, alpha0, beta0, alpha, beta, maximizing, cols[1..], bestScore, bestCol, seen);
    } else {
      ExploreFailSoftVisit(b, depth, alpha0, beta0, alpha, beta, maximizing, cols, bestScore, bestCol, seen);
    }
  }

  /** ExploreFailSoft, when the first column is legal and gets searched. */
  lemma ExploreFailSoftVisit(b: Grid, depth: nat, alpha0: int, beta0: int, alpha: int, beta: int, maximizing: bool,
                             cols: seq<Column>, bestScore: int, bestCol: Option<Column>, seen: Option<int>)
    requires depth > 0 && cols != [] && IsValidMove(b, cols[0])
    requires FailSoftInvariant(maximizing, alpha0, beta0, alpha, beta, bestScore, bestCol.Some?, seen)
    ensures var total := Combine(maximizing, seen, BestOf(b, depth, maximizing, cols));
      total.Some? ==> FailSoft(Explore(b, depth, alpha, beta, maximizing, cols, bestScore, bestCol).score, alpha0, beta0, total.value)
    decreases depth, 1, |cols|, 0
  {
    ChildFailSoft(b, depth, alpha, beta, maximizing, cols[0]);
    var e := AlphaBeta(Drop(b, cols[0], Mover(maximizing)), depth - 1, alpha, beta, !maximizing).score;
    var exact := ChildValue(b, depth, maximizing, cols[0]);
    var improved := bestCol.None? || Better(maximizing, e, bestScore);
    var bestScore' := if improved then e else bestScore;
    var bestCol' := if improved then Some(cols[0]) else bestCol;
    var alpha' := if maximizing then Max(alpha, e) else alpha;
    var beta' := if maximizing then beta else Min(beta, e);
    var seen' := Combine(maximizing, seen, Some(exact));
    var rest := BestOf(b, depth, maximizing, cols[1..]);
    BestOfUnfold(b, depth, maximizing, cols);
    CombineAssociative(maximizing, seen, Some(exact), rest);
    FailSoftStep(maximizing, alpha0, beta0, alpha, beta, bestScore, bestCol.Some?, seen, e, exact, rest);
    ExploreVisit(b, depth, alpha, beta, maximizing, cols, bestScore, bestCol);
    if alpha' < beta' {
      assert Explore(b, depth, alpha, beta, maximizing, cols, bestScore, bestCol)
          == Explore(b, depth, alpha', beta', maximizing, cols[1..], bestScore', bestCol');
      ExploreFailSoft(b, depth, alpha0, beta0, alpha', beta', maximizing, cols[1..], bestScore', bestCol', seen');
    } else {
      assert Explore(b, depth, alpha, beta, maximizing, cols, bestScore, bestCol) == SearchResult(bestScore', bestCol');
    }
  }


  /** COLUMN_ORDER visits every column exactly once. */
  lemma ColumnOrderIsPermutation()
    ensures forall c: Column :: c in COLUMN_ORDER
    ensures forall i, j :: 0 <= i < j < |COLUMN_ORDER| ==> COLUMN_ORDER[i] != COLUMN_ORDER[j]
  {
  }

  /**
   * With a window wider than every reachable score (as `ai_move` calls it,
   * with -inf and inf), the search at a non-terminal position returns the
   * exact minimax value and the FIRST column in centre-first order that
   * reaches it: the column is legal and achieves the value, no legal column
   * does better, and every legal column visited before it does strictly
   * worse.
   */
  lemma RootSearchPicksFirstOptimalColumn(b: Grid, depth: nat, alpha: int, beta: int, maximizing: bool)
    requires !Terminal(b, depth)
    requires alpha < -(WIN_SCORE + depth) && WIN_SCORE + depth < beta
    ensures var r := AlphaBeta(b, depth, alpha, beta, maximizing);
      && r.col.Some?
      && IsValidMove(b, r.col.value)
      && r.score == MinimaxValue(b, depth, maximizing)
      && ChildValue(b, depth, maximizing, r.col.value) == r.score
      && (forall c: Column :: IsValidMove(b, c) ==> !Better(maximizing, ChildValue(b, depth, maximizing, c), r.score))
      && (forall i, j :: 0 <= i < j < |COLUMN_ORDER| && COLUMN_ORDER[j] == r.col.value && IsValidMove(b, COLUMN_ORDER[i]) ==>
            Better(maximizing, r.score, ChildValue(b, depth, maximizing, COLUMN_ORDER[i])))
  {
    var r := AlphaBeta(b, depth, alpha, beta, maximizing);
    RootSearchOutcome(b, depth, alpha, beta, maximizing, r);
    OutcomeIsMinimaxValue(b, depth, maximizing, r);
  }

  /** The full-window root loop ends in RootOutcome, by RootInvariant over the table of child values. */
  lemma RootSearchOutcome(b: Grid, depth: nat, alpha: int, beta: int, maximizing: bool, r: SearchResult)
    requires !Terminal(b, depth)
    requires alpha < -(WIN_SCORE + depth) && WIN_SCORE + depth < beta
    requires r == AlphaBeta(b, depth, alpha, beta, maximizing)
    ensures depth > 0 && RootOutcome(b, depth, maximizing, r)
  {
    HasLegalColumn(b);
    assert COLUMN_ORDER[0..] == COLUMN_ORDER;
    var legal := seq(|COLUMN_ORDER|, i requires 0 <= i < |COLUMN_ORDER| => IsValidMove(b, COLUMN_ORDER[i]));
    var vals := seq(|COLUMN_ORDER|, i requires 0 <= i < |COLUMN_ORDER| =>
      if IsValidMove(b, COLUMN_ORDER[i]) then ChildValue(b, depth, maximizing, COLUMN_ORDER[i]) else 0);
    var w :| w in COLUMN_ORDER && IsValidMove(b, w);
    var wi :| 0 <= wi < |COLUMN_ORDER| && COLUMN_ORDER[wi] == w;
    assert legal[wi];
    ExploreRoot(b, depth, maximizing, legal, vals, alpha, beta, alpha, beta, 0,
                if maximizing then -INFINITY else INFINITY, None, 0, r);
  }

  /** A RootOutcome scores exactly the minimax value, and no legal column does better. */
  lemma OutcomeIsMinimaxValue(b: Grid, depth: nat, maximizing: bool, r: SearchResult)
    requires !Terminal(b, depth) && depth > 0 && RootOutcome(b, depth, maximizing, r)
    ensures r.score == MinimaxValue(b, depth, maximizing)
    ensures forall c: Column :: IsValidMove(b, c) ==> !Better(maximizing, ChildValue(b, depth, maximizing, c), r.score)
  {
    ColumnOrderIsPermutation();
    forall c: Column | IsValidMove(b, c)
      ensures !Better(maximizing, ChildValue(b, depth, maximizing, c), r.score)
    {
      assert c in COLUMN_ORDER;
      var i :| 0 <= i < |COLUMN_ORDER| && COLUMN_ORDER[i] == c;
    }
    HasLegalColumn(b);
    var best := BestOf(b, depth, maximizing, COLUMN_ORDER).value;
    var c :| c in COLUMN_ORDER && IsValidMove(b, c) && ChildValue(b, depth, maximizing, c) == best;
    assert !Better(maximizing, best, r.score);
    assert !Better(maximizing, r.score, best) by {
      assert r.col.value in COLUMN_ORDER;
    }
  }

  /**
   * One visited column of the full-window root loop: a child score is never
   * cut off, it is exact whenever it improves the best, and a column that
   * does not improve the best is no better than it.
   */
  lemma RootStep(maximizing: bool, alpha0: int, beta0: int, alpha: int, beta: int,
                 bestScore: int, hasBest: bool, e: int, exact: int, bound: int)
    requires alpha0 < -bound && bound < beta0
    requires -bound < e < bound && -bound < exact < bound
    requires hasBest ==> -bound < bestScore < bound
    requires maximizing ==> beta == beta0 && alpha == (if hasBest then Max(alpha0, bestScore) else alpha0)
    requires !maximizing ==> alpha == alpha0 && beta == (if hasBest then Min(beta0, bestScore) else beta0)
    requires FailSoft(e, alpha, beta, exact)
    ensures var improved := !hasBest || Better(maximizing, e, bestScore);
      var bestScore' := if improved then e else bestScore;
      var alpha' := if maximizing then Max(alpha, e) else alpha;
      var beta' := if maximizing then beta else Min(beta, e);
      && (improved ==> exact == e)
      && (!improved ==> !Better(maximizing, exact, bestScore))
      && alpha' < beta'
      && (maximizing ==> beta' == beta0 && alpha' == Max(alpha0, bestScore'))
      && (!maximizing ==> alpha' == alpha0 && beta' == Min(beta0, bestScore'))
  {
  }

  /** A score no better than the best so far is no better than an improvement on it. */
  lemma NotBetterKept(maximizing: bool, v: int, bestScore: int, e: int)
    requires !Better(maximizing, v, bestScore)
    ensures !Better(maximizing, v, if Better(maximizing, e, bestScore) then e else bestScore)
  {
  }

  /**
   * `legal` and `vals` record, for each entry of COLUMN_ORDER, whether it is
   * a legal move on `b` and, if so, its exact minimax value.
   */
  predicate ChildTable(b: Grid, depth: nat, maximizing: bool, legal: seq<bool>, vals: seq<int>)
    requires depth > 0
  {
    && |legal| == |COLUMN_ORDER| && |vals| == |COLUMN_ORDER|
    && (forall i :: 0 <= i < |COLUMN_ORDER| ==> legal[i] == IsValidMove(b, COLUMN_ORDER[i]))
    && (forall i :: 0 <= i < |COLUMN_ORDER| && legal[i] ==> vals[i] == ChildValue(b, depth, maximizing, COLUMN_ORDER[i]))
  }

  /**
   * The state of the full-window root loop after the first k columns of
   * COLUMN_ORDER, over the table of legal columns and exact values: no
   * cut-off has happened, the window is tightened by the best score, and the
   * best column (at index bestIdx) is a legal column of maximal exact value
   * among those visited, strictly better than every legal column visited
   * before it.
   */
  predicate RootInvariant(legal: seq<bool>, vals: seq<int>, maximizing: bool, alpha0: int, beta0: int,
                          alpha: int, beta: int, k: nat, bestScore: int, bestCol: Option<Column>, bestIdx: nat, bound: int)
    requires |legal| == |COLUMN_ORDER| && |vals| == |COLUMN_ORDER| && k <= |COLUMN_ORDER|
  {
    && alpha0 < -bound && bound < beta0
    && (maximizing ==> beta == beta0 && alpha == (if bestCol.None? then alpha0 else Max(alpha0, bestScore)))
    && (!maximizing ==> alpha == alpha0 && beta == (if bestCol.None? then beta0 else Min(beta0, bestScore)))
    && (bestCol.None? ==> forall i :: 0 <= i < k ==> !legal[i])
    && (bestCol.None? ==> exists i :: k <= i < |COLUMN_ORDER| && legal[i])
    && (bestCol.Some? ==>
      && bestIdx < k && COLUMN_ORDER[bestIdx] == bestCol.value && legal[bestIdx]
      && vals[bestIdx] == bestScore && -bound < bestScore < bound
      && (forall i :: 0 <= i < k && legal[i] ==> !Better(maximizing, vals[i], bestScore))
      && (forall i :: 0 <= i < bestIdx && legal[i] ==> Better(maximizing, bestScore, vals[i])))
  }

  /**
   * Visiting the legal column at index k, whose searched score `e` is
   * fail-soft for its exact value, keeps RootInvariant and does not cut off.
   */
  lemma RootInvariantStep(legal: seq<bool>, vals: seq<int>, maximizing: bool, alpha0: int, beta0: int,
                          alpha: int, beta: int, k: nat, bestScore: int, bestCol: Option<Column>, bestIdx: nat,
                          bound: int, e: int)
    requires |legal| == |COLUMN_ORDER| && |vals| == |COLUMN_ORDER| && k < |COLUMN_ORDER| && legal[k]
    requires RootInvariant(legal, vals, maximizing, alpha0, beta0, alpha, beta, k, bestScore, bestCol, bestIdx, bound)
    requires FailSoft(e, alpha, beta, vals[k])
    requires -bound < e < bound && -bound < vals[k] < bound
    ensures var improved := bestCol.None? || Better(maximizing, e, bestScore);
      var alpha' := if maximizing then Max(alpha, e) else alpha;
      var beta' := if maximizing then beta else Min(beta, e);
      && alpha' < beta'
      && RootInvariant(legal, vals, maximizing, alpha0, beta0, alpha', beta', k + 1,
                       if improved then e else bestScore, if improved then Some(COLUMN_ORDER[k]) else bestCol,
                       if improved then k else bestIdx, bound)
  {
    var improved := bestCol.None? || Better(maximizing, e, bestScore);
    var bestScore' := if improved then e else bestScore;
    RootStep(maximizing, alpha0, beta0, alpha, beta, bestScore, bestCol.Some?, e, vals[k], bound);
    forall i | 0 <= i < k + 1 && legal[i]
      ensures !Better(maximizing, vals[i], bestScore')
    {
      if i < k {
        NotBetterKept(maximizing, vals[i], bestScore, e);
      }
    }
  }

  /** Skipping the illegal column at index k keeps RootInvariant. */
  lemma RootInvariantSkip(legal: seq<bool>, vals: seq<int>, maximizing: bool, alpha0: int, beta0: int,
                          alpha: int, beta: int, k: nat, bestScore: int, bestCol: Option<Column>, bestIdx: nat, bound: int)
    requires |legal| == |COLUMN_ORDER| && |vals| == |COLUMN_ORDER| && k < |COLUMN_ORDER| && !legal[k]
    requires RootInvariant(legal, vals, maximizing, alpha0, beta0, alpha, beta, k, bestScore, bestCol, bestIdx, bound)
    ensures RootInvariant(legal, vals, maximizing, alpha0, beta0, alpha, beta, k + 1, bestScore, bestCol, bestIdx, bound)
  {
    if bestCol.None? {
      var i :| k <= i < |COLUMN_ORDER| && legal[i];
      assert k + 1 <= i;
    }
  }

  /**
   * What the full-window root search returns: a legal column that achieves
   * the returned score, such that no legal column does better and every legal
   * column before it in COLUMN_ORDER does strictly worse.
   */
  predicate RootOutcome(b: Grid, depth: nat, maximizing: bool, r: SearchResult)
    requires depth > 0
  {
    && r.col.Some?
    && IsValidMove(b, r.col.value)
    && ChildValue(b, depth, maximizing, r.col.value) == r.score
    && (forall i :: 0 <= i < |COLUMN_ORDER| && IsValidMove(b, COLUMN_ORDER[i]) ==>
          !Better(maximizing, ChildValue(b, depth, maximizing, COLUMN_ORDER[i]), r.score))
    && (forall i, j :: 0 <= i < j < |COLUMN_ORDER| && COLUMN_ORDER[j] == r.col.value && IsValidMove(b, COLUMN_ORDER[i]) ==>
          Better(maximizing, r.score, ChildValue(b, depth, maximizing, COLUMN_ORDER[i])))
  }

  /** Once every column is visited, RootInvariant over the table is the outcome. */
  lemma RootInvariantDone(b: Grid, depth: nat, maximizing: bool, legal: seq<bool>, vals: seq<int>,
                          alpha0: int, beta0: int, alpha: int, beta: int,
                          bestScore: int, bestCol: Option<Column>, bestIdx: nat)
    requires depth > 0 && ChildTable(b, depth, maximizing, legal, vals)
    requires RootInvariant(legal, vals, maximizing, alpha0, beta0, alpha, beta, |COLUMN_ORDER|,
                           bestScore, bestCol, bestIdx, WIN_SCORE + depth)
    ensures RootOutcome(b, depth, maximizing, SearchResult(bestScore, bestCol))
  {
    ColumnOrderIsPermutation();
    assert bestCol.Some?;
    forall i | 0 <= i < |COLUMN_ORDER| && IsValidMove(b, COLUMN_ORDER[i])
      ensures !Better(maximizing, ChildValue(b, depth, maximizing, COLUMN_ORDER[i]), bestScore)
    {
      assert legal[i];
    }
    forall i, j | 0 <= i < j < |COLUMN_ORDER| && COLUMN_ORDER[j] == bestCol.value && IsValidMove(b, COLUMN_ORDER[i])
      ensures Better(maximizing, bestScore, ChildValue(b, depth, maximizing, COLUMN_ORDER[i]))
    {
      assert j == bestIdx && legal[i];
    }
  }

  /** From RootInvariant after k columns, the rest `r` of the root loop satisfies RootOutcome. */
  lemma ExploreRoot(b: Grid, depth: nat, maximizing: bool, legal: seq<bool>, vals: seq<int>,
                    alpha0: int, beta0: int, alpha: int, beta: int,
                    k: nat, bestScore: int, bestCol: Option<Column>, bestIdx: nat, r: SearchResult)
    requires depth > 0 && k <= |COLUMN_ORDER| && ChildTable(b, depth, maximizing, legal, vals)
    requires RootInvariant(legal, vals, maximizing, alpha0, beta0, alpha, beta, k, bestScore, bestCol, bestIdx, WIN_SCORE + depth)
    requires r == Explore(b, depth, alpha, beta, maximizing, COLUMN_ORDER[k..], bestScore, bestCol)
    ensures RootOutcome(b, depth, maximizing, r)
    decreases |COLUMN_ORDER| - k, 1
  {
    var cols := COLUMN_ORDER[k..];
    if k == |COLUMN_ORDER| {
      RootInvariantDone(b, depth, maximizing, legal, vals, alpha0, beta0, alpha, beta, bestScore, bestCol, bestIdx);
    } else {
      var col := COLUMN_ORDER[k];
      assert cols[0] == col && cols[1..] == COLUMN_ORDER[k + 1..];
      if !IsValidMove(b, col) {
        RootInvariantSkip(legal, vals, maximizing, alpha0, beta0, alpha, beta, k, bestScore, bestCol, bestIdx, WIN_SCORE + depth);
        ExploreRoot(b, depth, maximizing, legal, vals, alpha0, beta0, alpha, beta, k + 1, bestScore, bestCol, bestIdx, r);
      } else {
        ExploreRootVisit(b, depth, maximizing, legal, vals, alpha0, beta0, alpha, beta, k, bestScore, bestCol, bestIdx, r);
      }
    }
  }

  /** ExploreRoot, when COLUMN_ORDER[k] is legal and gets searched. */
  lemma ExploreRootVisit(b: Grid, depth: nat, maximizing: bool, legal: seq<bool>, vals: seq<int>,
                         alpha0: int, beta0: int, alpha: int, beta: int,
                         k: nat, bestScore: int, bestCol: Option<Column>, bestIdx: nat, r: SearchResult)
    requires depth > 0 && k < |COLUMN_ORDER| && IsValidMove(b, COLUMN_ORDER[k]) && ChildTable(b, depth, maximizing, legal, vals)
    requires RootInvariant(legal, vals, maximizing, alpha0, beta0, alpha, beta, k, bestScore, bestCol, bestIdx, WIN_SCORE + depth)
    requires r == Explore(b, depth, alpha, beta, maximizing, COLUMN_ORDER[k..], bestScore, bestCol)
    ensures RootOutcome(b, depth, maximizing, r)
    decreases |COLUMN_ORDER| - k, 0
  {
    var col := COLUMN_ORDER[k];
    ChildFailSoft(b, depth, alpha, beta, maximizing, col);
    ChildBounded(b, depth, alpha, beta, maximizing, col);
    var e := AlphaBeta(Drop(b, col, Mover(maximizing)), depth - 1, alpha, beta, !maximizing).score;
    assert legal[k] && vals[k] == ChildValue(b, depth, maximizing, col);
    RootInvariantStep(legal, vals, maximizing, alpha0, beta0, alpha, beta, k, bestScore, bestCol, bestIdx, WIN_SCORE + depth, e);
    var improved := bestCol.None? || Better(maximizing, e, bestScore);
    var bestScore' := if improved then e else bestScore;
    var bestCol' := if improved then Some(col) else bestCol;
    var bestIdx' := if improved then k else bestIdx;
    var alpha' := if maximizing then Max(alpha, e) else alpha;
    var beta' := if maximizing then beta else Min(beta, e);
    assert COLUMN_ORDER[k..][0] == col && COLUMN_ORDER[k..][1..] == COLUMN_ORDER[k + 1..];
    ExploreVisit(b, depth, alpha, beta, maximizing, COLUMN_ORDER[k..], bestScore, bestCol);
    ExploreRoot(b, depth, maximizing, legal, vals, alpha0, beta0, alpha', beta', k + 1, bestScore', bestCol', bestIdx', r);
  }

  /**
   * A position the side to move can win with one piece: the full-window
   * search picks a winning column, scored as a win one ply down.
   */
  lemma TakesImmediateWin(b: Grid, depth: nat, alpha: int, beta: int, maximizing: bool, win: Column)
    requires !Terminal(b, depth)
    requires alpha < -(WIN_SCORE + depth) && WIN_SCORE + depth < beta
    requires IsValidMove(b, win) && CheckWin(Drop(b, win, Mover(maximizing)), Mover(maximizing))
    ensures var r := AlphaBeta(b, depth, alpha, beta, maximizing);
      && r.col.Some?
      && CheckWin(Drop(b, r.col.value, Mover(maximizing)), Mover(maximizing))
      && r.score == (if maximizing then WIN_SCORE + depth - 1 else -(WIN_SCORE + depth - 1))
  {
    RootSearchPicksFirstOptimalColumn(b, depth, alpha, beta, maximizing);
    var r := AlphaBeta(b, depth, alpha, beta, maximizing);
    MinimaxWinScores(Drop(b, win, Mover(maximizing)), depth - 1, !maximizing);
    MinimaxWinScores(Drop(b, r.col.value, Mover(maximizing)), depth - 1, !maximizing);
    if !maximizing {
      DropAndWins(b, win, PLAYER1, PLAYER2);
      DropAndWins(b, r.col.value, PLAYER1, PLAYER2);
    }
    assert ChildValue(b, depth, maximizing, win) == (if maximizing then WIN_SCORE + depth - 1 else -(WIN_SCORE + depth - 1));
  }
}
