/** Exhaustive minimax search. Scores are always taken from the point of view of the symbol +1:
    a +1 win at depth d scores 10 - d, a -1 win scores -10 + d, a draw 0. The mover's symbol
    flips sign at every ply and the maximizing role alternates with it. */
module Search {
  import opened Grid
  import opened Evaluator

  /** A search score. The two infinities are the starting values of a maximizing and a
      minimizing ply before any child has been scored. */
  datatype Score = NegInf | Fin(v: int) | PosInf

  predicate Le(a: Score, b: Score) {
    match (a, b)
    case (NegInf, _) => true
    case (_, PosInf) => true
    case (Fin(x), Fin(y)) => x <= y
    case _ => false
  }

  predicate Lt(a: Score, b: Score) {
    Le(a, b) && a != b
  }

  lemma LeTotalOrder()
    ensures forall a :: Le(a, a)
    ensures forall a, b :: Le(a, b) || Le(b, a)
    ensures forall a, b :: Le(a, b) && Le(b, a) ==> a == b
    ensures forall a, b, c :: Le(a, b) && Le(b, c) ==> Le(a, c)
  {
  }

  /** The larger of two scores. */
  function Max(a: Score, b: Score): (m: Score)
    ensures Le(a, m) && Le(b, m) && (m == a || m == b)
  {
    if Le(b, a) then a else b
  }

  /** The smaller of two scores. */
  function Min(a: Score, b: Score): (m: Score)
    ensures Le(m, a) && Le(m, b) && (m == a || m == b)
  {
    if Le(a, b) then a else b
  }

  /** How a ply folds a child's score into its best so far. */
  function Combine(maximizing: bool, score: Score, best: Score): (r: Score)
    ensures AtLeastAsGood(maximizing, r, score) && AtLeastAsGood(maximizing, r, best)
    ensures r == score || r == best
  {
    if maximizing then Max(score, best) else Min(score, best)
  }

  /** `a` is at least as good as `b` for the side to move. */
  predicate AtLeastAsGood(maximizing: bool, a: Score, b: Score) {
    if maximizing then Le(b, a) else Le(a, b)
  }

  /** The score of `b` for the side playing `sym`, `depth` plies below the root. */
  function Minmax(b: Board, sym: int, depth: int, maximizing: bool): Score
    requires IsSquare(b) && sym != Empty
    decreases AvailableMoveCount(b), 1, 0, 0
  {
    var result := Outcome(b, AvailableMoveCount(b));
    if result == Some(-1) then Fin(-10 + depth)
    else if result == Some(1) then Fin(10 - depth)
    else if result == Some(0) then Fin(0)
    else Children(b, sym, depth, maximizing, 0, 0, if maximizing then NegInf else PosInf)
  }

  /** The nested loop over the cells in row-major order, from cell (i, j) on: each free cell is
      occupied by `sym`, scored one ply deeper with the roles swapped, and combined into `best`. */
  function Children(b: Board, sym: int, depth: int, maximizing: bool, i: int, j: int, best: Score): Score
    requires IsSquare(b) && sym != Empty && 0 <= i <= |b| && 0 <= j <= |b|
    decreases AvailableMoveCount(b), 0, |b| - i, |b| - j
  {
    if i == |b| then best
    else if j == |b| then Children(b, sym, depth, maximizing, i + 1, 0, best)
    else if b[i][j] == Empty then
      var score := ChildScore(b, sym, depth, maximizing, i, j);
      Children(b, sym, depth, maximizing, i, j + 1, Combine(maximizing, score, best))
    else
      Children(b, sym, depth, maximizing, i, j + 1, best)
  }

  /** The score of the child reached by playing `sym` at the free cell (i, j), one ply deeper
      with the roles swapped. */
  function ChildScore(b: Board, sym: int, depth: int, maximizing: bool, i: int, j: int): Score
    requires IsSquare(b) && sym != Empty && 0 <= i < |b| && 0 <= j < |b| && b[i][j] == Empty
    decreases AvailableMoveCount(b), 0, |b| - i, |b| - j - 1
  {
    PlaceEmptyCells(b, i, j, sym);
    Minmax(Place(b, i, j, sym), -sym, depth + 1, !maximizing)
  }

  /** Cell (p, q) comes at or after cell (i, j) in row-major order. */
  ghost predicate AtOrAfter(p: int, q: int, i: int, j: int) {
    p > i || (p == i && q >= j)
  }

  /** Cell (p, q) comes strictly before cell (i, j) in row-major order. */
  ghost predicate Before(p: int, q: int, i: int, j: int) {
    p < i || (p == i && q < j)
  }

  /** Every cell holds 0, +1 or -1. */
  ghost predicate ValidCells(b: Board)
    requires IsSquare(b)
  {
    forall i, j :: 0 <= i < |b| && 0 <= j < |b| ==> b[i][j] == Empty || b[i][j] == 1 || b[i][j] == -1
  }

  /** Writing 0, +1 or -1 keeps every cell 0, +1 or -1. */
  lemma PlaceKeepsValid(b: Board, i: int, j: int, v: int)
    requires IsSquare(b) && ValidCells(b) && 0 <= i < |b| && 0 <= j < |b|
    requires v == Empty || v == 1 || v == -1
    ensures ValidCells(Place(b, i, j, v))
  {
    var r := Place(b, i, j, v);
    forall p, q | 0 <= p < |b| && 0 <= q < |b|
      ensures r[p][q] == Empty || r[p][q] == 1 || r[p][q] == -1
    {
      if p != i || q != j {
        assert r[p][q] == b[p][q];
      }
    }
  }

  lemma GoodTransitive(maximizing: bool, a: Score, b: Score, c: Score)
    requires AtLeastAsGood(maximizing, a, b) && AtLeastAsGood(maximizing, b, c)
    ensures AtLeastAsGood(maximizing, a, c)
  {
  }

  /** The fold over the remaining cells returns a score at least as good for the mover as its
      starting value and as every remaining child. */
  lemma {:induction false} ChildrenDominate(b: Board, sym: int, depth: int, maximizing: bool, i: int, j: int, best: Score)
    requires IsSquare(b) && sym != Empty && 0 <= i <= |b| && 0 <= j <= |b|
    ensures AtLeastAsGood(maximizing, Children(b, sym, depth, maximizing, i, j, best), best)
    ensures forall p, q {:trigger ChildScore(b, sym, depth, maximizing, p, q)} :: 0 <= p < |b| && 0 <= q < |b| && AtOrAfter(p, q, i, j) && b[p][q] == Empty ==>
              AtLeastAsGood(maximizing, Children(b, sym, depth, maximizing, i, j, best), ChildScore(b, sym, depth, maximizing, p, q))
    decreases |b| - i, |b| - j
  {
    var r := Children(b, sym, depth, maximizing, i, j, best);
    if i == |b| {
      LeTotalOrder();
      assert forall p, q :: 0 <= p < |b| ==> !AtOrAfter(p, q, i, j);
    } else if j == |b| {
      ChildrenDominate(b, sym, depth, maximizing, i + 1, 0, best);
      assert r == Children(b, sym, depth, maximizing, i + 1, 0, best);
      forall p, q | 0 <= p < |b| && 0 <= q < |b| && AtOrAfter(p, q, i, j) && b[p][q] == Empty
        ensures AtLeastAsGood(maximizing, r, ChildScore(b, sym, depth, maximizing, p, q))
      {
        assert AtOrAfter(p, q, i + 1, 0);
      }
    } else if b[i][j] == Empty {
      var score := ChildScore(b, sym, depth, maximizing, i, j);
      var next := Combine(maximizing, score, best);
      assert r == Children(b, sym, depth, maximizing, i, j + 1, next);
      ChildrenDominate(b, sym, depth, maximizing, i, j + 1, next);
      assert AtLeastAsGood(maximizing, next, best) && AtLeastAsGood(maximizing, next, score);
      GoodTransitive(maximizing, r, next, best);
      GoodTransitive(maximizing, r, next, score);
      forall p, q | 0 <= p < |b| && 0 <= q < |b| && AtOrAfter(p, q, i, j) && b[p][q] == Empty
        ensures AtLeastAsGood(maximizing, r, ChildScore(b, sym, depth, maximizing, p, q))
      {
        if p == i && q == j {
        } else {
          assert AtOrAfter(p, q, i, j + 1);
        }
      }
    } else {
      ChildrenDominate(b, sym, depth, maximizing, i, j + 1, best);
      forall p, q | 0 <= p < |b| && 0 <= q < |b| && AtOrAfter(p, q, i, j) && b[p][q] == Empty
        ensures AtLeastAsGood(maximizing, r, ChildScore(b, sym, depth, maximizing, p, q))
      {
        assert AtOrAfter(p, q, i, j + 1);
      }
    }
  }

  /** The scores of the free cells from (i, j) on, in the order the fold visits them. */
  ghost function RemainingScores(b: Board, sym: int, depth: int, maximizing: bool, i: int, j: int): set<Score>
    requires IsSquare(b) && sym != Empty && 0 <= i <= |b| && 0 <= j <= |b|
    decreases |b| - i, |b| - j
  {
    if i == |b| then {}
    else if j == |b| then RemainingScores(b, sym, depth, maximizing, i + 1, 0)
    else if b[i][j] == Empty then
      {ChildScore(b, sym, depth, maximizing, i, j)} + RemainingScores(b, sym, depth, maximizing, i, j + 1)
    else RemainingScores(b, sym, depth, maximizing, i, j + 1)
  }

  lemma {:induction false} RemainingScoresAreChildren(b: Board, sym: int, depth: int, maximizing: bool, i: int, j: int, s: Score)
    requires IsSquare(b) && sym != Empty && 0 <= i <= |b| && 0 <= j <= |b|
    requires s in RemainingScores(b, sym, depth, maximizing, i, j)
    ensures exists p, q {:trigger ChildScore(b, sym, depth, maximizing, p, q)} ::
              0 <= p < |b| && 0 <= q < |b| && AtOrAfter(p, q, i, j) && b[p][q] == Empty &&
              s == ChildScore(b, sym, depth, maximizing, p, q)
    decreases |b| - i, |b| - j
  {
    if i == |b| {
      assert false;
    } else if j == |b| {
      RemainingScoresAreChildren(b, sym, depth, maximizing, i + 1, 0, s);
      var p, q :| 0 <= p < |b| && 0 <= q < |b| && AtOrAfter(p, q, i + 1, 0) && b[p][q] == Empty &&
                  s == ChildScore(b, sym, depth, maximizing, p, q);
      assert AtOrAfter(p, q, i, j);
    } else if b[i][j] == Empty && s == ChildScore(b, sym, depth, maximizing, i, j) {
      assert AtOrAfter(i, j, i, j);
    } else {
      RemainingScoresAreChildren(b, sym, depth, maximizing, i, j + 1, s);
      var p, q :| 0 <= p < |b| && 0 <= q < |b| && AtOrAfter(p, q, i, j + 1) && b[p][q] == Empty &&
                  s == ChildScore(b, sym, depth, maximizing, p, q);
      assert AtOrAfter(p, q, i, j);
    }
  }

  /** The fold's result is its starting value or the score of one of the remaining children. */
  lemma {:induction false} ChildrenAttained(b: Board, sym: int, depth: int, maximizing: bool, i: int, j: int, best: Score)
    requires IsSquare(b) && sym != Empty && 0 <= i <= |b| && 0 <= j <= |b|
    ensures var r := Children(b, sym, depth, maximizing, i, j, best);
            r == best || r in RemainingScores(b, sym, depth, maximizing, i, j)
    decreases |b| - i, |b| - j
  {
    if i == |b| {
    } else if j == |b| {
      ChildrenAttained(b, sym, depth, maximizing, i + 1, 0, best);
    } else if b[i][j] == Empty {
      var score := ChildScore(b, sym, depth, maximizing, i, j);
      ChildrenAttained(b, sym, depth, maximizing, i, j + 1, Combine(maximizing, score, best));
    } else {
      ChildrenAttained(b, sym, depth, maximizing, i, j + 1, best);
    }
  }

  /** At a board where play goes on, a maximizing ply scores the maximum of its children and a
      minimizing ply the minimum. */
  lemma MinmaxChildren(b: Board, sym: int, depth: int, maximizing: bool)
    requires IsSquare(b) && sym != Empty
    requires !HasWinner(b) && AvailableMoveCount(b) > 0
    ensures forall p, q {:trigger ChildScore(b, sym, depth, maximizing, p, q)} :: 0 <= p < |b| && 0 <= q < |b| && b[p][q] == Empty ==>
              AtLeastAsGood(maximizing, Minmax(b, sym, depth, maximizing), ChildScore(b, sym, depth, maximizing, p, q))
    ensures exists p, q {:trigger ChildScore(b, sym, depth, maximizing, p, q)} :: 0 <= p < |b| && 0 <= q < |b| && b[p][q] == Empty &&
              Minmax(b, sym, depth, maximizing) == ChildScore(b, sym, depth, maximizing, p, q)
  {
    LeTotalOrder();
    var start := if maximizing then NegInf else PosInf;
    var r := Minmax(b, sym, depth, maximizing);
    assert r == Children(b, sym, depth, maximizing, 0, 0, start);
    ChildrenDominate(b, sym, depth, maximizing, 0, 0, start);
    ChildrenAttained(b, sym, depth, maximizing, 0, 0, start);
    EmptyCellExists(b);
    var p, q :| 0 <= p < |b| && 0 <= q < |b| && b[p][q] == Empty;
    assert AtOrAfter(p, q, 0, 0);
    if r == start {
      assert r == ChildScore(b, sym, depth, maximizing, p, q);
    } else {
      RemainingScoresAreChildren(b, sym, depth, maximizing, 0, 0, r);
    }
  }

  /** Leaf scores: a board whose only complete lines are +1's scores 10 - depth, one whose only
      complete lines are -1's scores -10 + depth, and a full board without a line scores 0. */
  lemma MinmaxLeaf(b: Board, sym: int, depth: int, maximizing: bool)
    requires IsSquare(b) && sym != Empty
    ensures IsWinner(b, 1) && (forall v :: IsWinner(b, v) ==> v == 1) ==>
              Minmax(b, sym, depth, maximizing) == Fin(10 - depth)
    ensures IsWinner(b, -1) && (forall v :: IsWinner(b, v) ==> v == -1) ==>
              Minmax(b, sym, depth, maximizing) == Fin(-10 + depth)
    ensures !HasWinner(b) && AvailableMoveCount(b) == 0 ==> Minmax(b, sym, depth, maximizing) == Fin(0)
  {
    var result := Outcome(b, AvailableMoveCount(b));
    if IsWinner(b, 1) {
      WinnerHasLine(b, 1);
    }
    if IsWinner(b, -1) {
      WinnerHasLine(b, -1);
    }
  }

  /** A complete line is made of some cell's value. */
  lemma WinnerIsCellValue(b: Board, v: int)
    requires IsSquare(b) && ValidCells(b) && IsWinner(b, v)
    ensures v == 1 || v == -1
  {
    if exists i :: 0 <= i < |b| && RowWins(b, i, v) {
      var i :| 0 <= i < |b| && RowWins(b, i, v);
      assert b[i][0] == v;
    } else if exists j :: 0 <= j < |b| && ColumnWins(b, j, v) {
      var j :| 0 <= j < |b| && ColumnWins(b, j, v);
      assert b[0][j] == v;
    } else if AntiDiagonalWins(b, v) {
      assert b[|b| - 1][0] == v;
    } else {
      assert b[0][0] == v;
    }
  }

  /** On a board of 0, +1 and -1 with the mover playing +1 or -1, minimax never returns an
      infinity: a decided board scores a finite constant, and any other board scores as one of
      its children, which has one free cell fewer. */
  lemma {:induction false} MinmaxFinite(b: Board, sym: int, depth: int, maximizing: bool)
    requires IsSquare(b) && ValidCells(b) && (sym == 1 || sym == -1)
    ensures Minmax(b, sym, depth, maximizing).Fin?
    decreases AvailableMoveCount(b)
  {
    var result := Outcome(b, AvailableMoveCount(b));
    if result.Some? && result.value != 0 {
      WinnerIsCellValue(b, result.value);
    } else if result.None? {
      MinmaxChildren(b, sym, depth, maximizing);
      var p, q :| 0 <= p < |b| && 0 <= q < |b| && b[p][q] == Empty &&
                  Minmax(b, sym, depth, maximizing) == ChildScore(b, sym, depth, maximizing, p, q);
      PlaceEmptyCells(b, p, q, sym);
      var child := Place(b, p, q, sym);
      PlaceKeepsValid(b, p, q, sym);
      MinmaxFinite(child, -sym, depth + 1, !maximizing);
    }
  }

  /** The score `best_move` gives to playing `sym` at (i, j): the opponent, playing -sym,
      answers on a minimizing ply at depth 0. */
  function ScoreAt(b: Board, sym: int, i: int, j: int): Score
    requires IsSquare(b) && sym != Empty && 0 <= i < |b| && 0 <= j < |b|
  {
    Minmax(Place(b, i, j, sym), -sym, 0, false)
  }

  /** `t` holds the score of every cell of `b`. */
  ghost predicate ScoresOf(b: Board, sym: int, t: seq<seq<Score>>)
    requires IsSquare(b) && sym != Empty
  {
    && Fits(b, t)
    && forall p, q {:trigger ScoreAt(b, sym, p, q)} :: 0 <= p < |b| && 0 <= q < |b| ==> t[p][q] == ScoreAt(b, sym, p, q)
  }

  /** The scores of all cells, as a table; used only to state the scan's progress. */
  lemma ScoreTable(b: Board, sym: int) returns (t: seq<seq<Score>>)
    requires IsSquare(b) && sym != Empty
    ensures ScoresOf(b, sym, t)
  {
    t := seq(|b|, p requires 0 <= p < |b| => seq(|b|, q requires 0 <= q < |b| => ScoreAt(b, sym, p, q)));
  }

  /** A table with one score per cell of `b`. */
  ghost predicate Fits(b: Board, t: seq<seq<Score>>) {
    |t| == |b| && forall p :: 0 <= p < |b| ==> |t[p]| == |b|
  }

  /** The state of `best_move`'s scan, with cell scores `t`, once every cell before (i, j) has
      been tried: `move` is the first free cell seen with the highest score so far,
      `bestScore` its score, and when no cell has been chosen every free cell seen scored
      minus infinity. */
  ghost predicate Scanned(b: Board, t: seq<seq<Score>>, i: int, j: int, bestScore: Score, move: Option<(int, int)>)
    requires IsSquare(b) && Fits(b, t)
  {
    && (move.None? ==> bestScore == NegInf)
    && (move.None? ==>
          forall p, q :: 0 <= p < |b| && 0 <= q < |b| && Before(p, q, i, j) && b[p][q] == Empty ==>
            t[p][q] == NegInf)
    && (move.Some? ==>
          && 0 <= move.value.0 < |b| && 0 <= move.value.1 < |b|
          && Before(move.value.0, move.value.1, i, j)
          && b[move.value.0][move.value.1] == Empty
          && bestScore == t[move.value.0][move.value.1]
          && bestScore != NegInf)
    && (move.Some? ==>
          forall p, q :: 0 <= p < |b| && 0 <= q < |b| && Before(p, q, i, j) && b[p][q] == Empty ==>
            Le(t[p][q], bestScore))
    && (move.Some? ==>
          forall p, q :: 0 <= p < |b| && 0 <= q < |b| && b[p][q] == Empty && Before(p, q, move.value.0, move.value.1) ==>
            Lt(t[p][q], bestScore))
  }

  /** Trying the free cell (i, j): its score replaces the best one only if strictly higher. */
  lemma ScanFreeCell(b: Board, t: seq<seq<Score>>, i: int, j: int, bestScore: Score, move: Option<(int, int)>)
    requires IsSquare(b) && Fits(b, t) && 0 <= i < |b| && 0 <= j < |b| && b[i][j] == Empty
    requires Scanned(b, t, i, j, bestScore, move)
    ensures if Lt(bestScore, t[i][j]) then Scanned(b, t, i, j + 1, t[i][j], Some((i, j)))
            else Scanned(b, t, i, j + 1, bestScore, move)
  {
    LeTotalOrder();
    var score := t[i][j];
    if Lt(bestScore, score) {
      forall p, q | 0 <= p < |b| && 0 <= q < |b| && Before(p, q, i, j + 1) && b[p][q] == Empty
        ensures Le(t[p][q], score)
      {
        if p != i || q != j {
          assert Before(p, q, i, j);
        }
      }
    } else {
      forall p, q | 0 <= p < |b| && 0 <= q < |b| && Before(p, q, i, j + 1) && b[p][q] == Empty
        ensures move.Some? ==> Le(t[p][q], bestScore)
        ensures move.None? ==> t[p][q] == NegInf
      {
        if p != i || q != j {
          assert Before(p, q, i, j);
        }
      }
    }
  }

  /** Skipping an occupied cell changes nothing. */
  lemma ScanOccupiedCell(b: Board, t: seq<seq<Score>>, i: int, j: int, bestScore: Score, move: Option<(int, int)>)
    requires IsSquare(b) && Fits(b, t) && 0 <= i < |b| && 0 <= j < |b| && b[i][j] != Empty
    requires Scanned(b, t, i, j, bestScore, move)
    ensures Scanned(b, t, i, j + 1, bestScore, move)
  {
    forall p, q | 0 <= p < |b| && 0 <= q < |b| && Before(p, q, i, j + 1) && b[p][q] == Empty
      ensures Before(p, q, i, j)
    {
    }
  }

  /** The end of a row is the start of the next. */
  lemma ScanNextRow(b: Board, t: seq<seq<Score>>, i: int, bestScore: Score, move: Option<(int, int)>)
    requires IsSquare(b) && Fits(b, t) && 0 <= i < |b|
    requires Scanned(b, t, i, |b|, bestScore, move)
    ensures Scanned(b, t, i + 1, 0, bestScore, move)
  {
    forall p, q | 0 <= p < |b| && 0 <= q < |b| && Before(p, q, i + 1, 0)
      ensures Before(p, q, i, |b|)
    {
    }
  }

  /** What `best_move` promises of its answer: a chosen move is a free cell whose score no
      free cell beats and which every earlier free cell scores strictly below; no move is
      chosen exactly when every free cell scores minus infinity. */
  ghost predicate ChosenMove(b: Board, sym: int, move: Option<(int, int)>)
    requires IsSquare(b) && sym != Empty
  {
    && (move.Some? ==> 0 <= move.value.0 < |b| && 0 <= move.value.1 < |b|)
    && (move.Some? ==> b[move.value.0][move.value.1] == Empty)
    && (move.Some? ==>
          forall p, q {:trigger ScoreAt(b, sym, p, q)} :: 0 <= p < |b| && 0 <= q < |b| && b[p][q] == Empty ==>
            Le(ScoreAt(b, sym, p, q), ScoreAt(b, sym, move.value.0, move.value.1)))
    && (move.Some? ==>
          forall p, q {:trigger ScoreAt(b, sym, p, q)} :: 0 <= p < |b| && 0 <= q < |b| && b[p][q] == Empty && Before(p, q, move.value.0, move.value.1) ==>
            Lt(ScoreAt(b, sym, p, q), ScoreAt(b, sym, move.value.0, move.value.1)))
    && (move.None? <==>
          forall p, q {:trigger ScoreAt(b, sym, p, q)} :: 0 <= p < |b| && 0 <= q < |b| && b[p][q] == Empty ==> ScoreAt(b, sym, p, q) == NegInf)
  }

  /** The same promise over a table `t` of cell scores. */
  ghost predicate ChosenIn(b: Board, t: seq<seq<Score>>, move: Option<(int, int)>)
    requires IsSquare(b) && Fits(b, t)
  {
    && (move.Some? ==> 0 <= move.value.0 < |b| && 0 <= move.value.1 < |b|)
    && (move.Some? ==> b[move.value.0][move.value.1] == Empty)
    && (move.Some? ==>
          forall p, q :: 0 <= p < |b| && 0 <= q < |b| && b[p][q] == Empty ==>
            Le(t[p][q], t[move.value.0][move.value.1]))
    && (move.Some? ==>
          forall p, q :: 0 <= p < |b| && 0 <= q < |b| && b[p][q] == Empty && Before(p, q, move.value.0, move.value.1) ==>
            Lt(t[p][q], t[move.value.0][move.value.1]))
    && (move.None? <==>
          forall p, q :: 0 <= p < |b| && 0 <= q < |b| && b[p][q] == Empty ==> t[p][q] == NegInf)
  }

  /** Once every cell has been tried, the scan's choice is the first free cell of highest
      score, and it is missing only when every free cell scored minus infinity. */
  lemma ScanComplete(b: Board, t: seq<seq<Score>>, bestScore: Score, move: Option<(int, int)>)
    requires IsSquare(b) && Fits(b, t)
    requires Scanned(b, t, |b|, 0, bestScore, move)
    ensures ChosenIn(b, t, move)
  {
    assert forall p, q :: 0 <= p < |b| && 0 <= q < |b| ==> Before(p, q, |b|, 0);
  }

  /** A choice made over the table of the cells' scores is a choice over the scores. */
  lemma ChosenByScores(b: Board, sym: int, t: seq<seq<Score>>, move: Option<(int, int)>)
    requires IsSquare(b) && sym != Empty && ScoresOf(b, sym, t)
    requires ChosenIn(b, t, move)
    ensures ChosenMove(b, sym, move)
  {
    if move.Some? {
      var (x, y) := move.value;
      assert ScoreAt(b, sym, x, y) == t[x][y];
    }
  }

  /** On a board of 0, +1 and -1 played by +1 or -1, no move is chosen exactly when no cell
      is free. */
  lemma ChosenMoveExists(b: Board, sym: int, move: Option<(int, int)>)
    requires IsSquare(b) && ValidCells(b) && (sym == 1 || sym == -1) && ChosenMove(b, sym, move)
    ensures move.None? <==> AvailableMoveCount(b) == 0
  {
    EmptyCellExists(b);
    if AvailableMoveCount(b) > 0 {
      SomeFreeCellScores(b, sym);
    }
  }

  /** On a board of 0, +1 and -1 played by +1 or -1, a free cell scores above minus infinity. */
  lemma SomeFreeCellScores(b: Board, sym: int)
    requires IsSquare(b) && ValidCells(b) && (sym == 1 || sym == -1)
    requires AvailableMoveCount(b) > 0
    ensures exists p, q {:trigger ScoreAt(b, sym, p, q)} ::
              0 <= p < |b| && 0 <= q < |b| && b[p][q] == Empty && ScoreAt(b, sym, p, q) != NegInf
  {
    EmptyCellExists(b);
    var p, q :| 0 <= p < |b| && 0 <= q < |b| && b[p][q] == Empty;
    var child := Place(b, p, q, sym);
    PlaceKeepsValid(b, p, q, sym);
    MinmaxFinite(child, -sym, 0, false);
    assert ScoreAt(b, sym, p, q) == Minmax(child, -sym, 0, false);
  }

  /** The free cell with the highest score, the first in row-major order among equals; None
      when no free cell scores above minus infinity. Each trial placement is undone before
      the next cell is tried. The ghost table `scores` names the score of every cell, so that
      the choice can be stated over it; it takes no part in the computation. */
  method BestMove(b: Board, sym: int, ghost scores: seq<seq<Score>>) returns (move: Option<(int, int)>)
    requires IsSquare(b) && sym != Empty && ScoresOf(b, sym, scores)
    ensures ChosenIn(b, scores, move)
    ensures ValidCells(b) && (sym == 1 || sym == -1) ==> (move.None? <==> AvailableMoveCount(b) == 0)
  {
    var bestScore := NegInf;
    move := None;
    var i := 0;
    while i < |b|
      invariant 0 <= i <= |b|
      invariant Scanned(b, scores, i, 0, bestScore, move)
    {
      var j := 0;
      while j < |b|
        invariant 0 <= j <= |b|
        invariant Scanned(b, scores, i, j, bestScore, move)
      {
        bestScore, move := TryCell(b, sym, scores, i, j, bestScore, move);
        j := j + 1;
      }
      ScanNextRow(b, scores, i, bestScore, move);
      i := i + 1;
    }
    ScanComplete(b, scores, bestScore, move);
    if ValidCells(b) && (sym == 1 || sym == -1) {
      ChosenByScores(b, sym, scores, move);
      ChosenMoveExists(b, sym, move);
    }
  }

  /** One step of the scan: a free cell is tried by placing `sym` there, scoring the board and
      clearing the cell again; it becomes the move only when it scores strictly better. */
  method TryCell(b: Board, sym: int, ghost t: seq<seq<Score>>, i: int, j: int, bestScore: Score, move: Option<(int, int)>)
    returns (bestScore': Score, move': Option<(int, int)>)
    requires IsSquare(b) && sym != Empty && 0 <= i < |b| && 0 <= j < |b| && ScoresOf(b, sym, t)
    requires Scanned(b, t, i, j, bestScore, move)
    ensures Scanned(b, t, i, j + 1, bestScore', move')
    ensures b[i][j] != Empty ==> bestScore' == bestScore && move' == move
    ensures b[i][j] == Empty ==>
              if Lt(bestScore, t[i][j]) then bestScore' == t[i][j] && move' == Some((i, j))
              else bestScore' == bestScore && move' == move
  {
    bestScore', move' := bestScore, move;
    if b[i][j] == Empty {
      ScanFreeCell(b, t, i, j, bestScore, move);
      var board := Place(b, i, j, sym);
      var score := Minmax(board, -sym, 0, false);
      assert score == ScoreAt(b, sym, i, j) == t[i][j];
      PlaceUndo(b, i, j, sym);
      board := Place(board, i, j, Empty);
      assert board == b;
      if Lt(bestScore, score) {
        bestScore', move' := score, Some((i, j));
      }
    } else {
      ScanOccupiedCell(b, t, i, j, bestScore, move);
    }
  }
}
