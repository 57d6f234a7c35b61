/** Concrete 3-by-3 positions checked against the model. */
module Scenarios {
  import opened Grid
  import opened Evaluator
  import opened Search

  /** The eight lines of a 3-by-3 board, cell by cell. */
  predicate Line3(b: Board)
    requires IsSquare(b) && |b| == 3
  {
    || (b[0][0] != Empty && b[0][1] == b[0][0] && b[0][2] == b[0][0])
    || (b[1][0] != Empty && b[1][1] == b[1][0] && b[1][2] == b[1][0])
    || (b[2][0] != Empty && b[2][1] == b[2][0] && b[2][2] == b[2][0])
    || (b[0][0] != Empty && b[1][0] == b[0][0] && b[2][0] == b[0][0])
    || (b[0][1] != Empty && b[1][1] == b[0][1] && b[2][1] == b[0][1])
    || (b[0][2] != Empty && b[1][2] == b[0][2] && b[2][2] == b[0][2])
    || (b[2][0] != Empty && b[1][1] == b[2][0] && b[0][2] == b[2][0])
    || (b[0][0] != Empty && b[1][1] == b[0][0] && b[2][2] == b[0][0])
  }

  /** On a 3-by-3 board a complete line is one of the eight listed lines. */
  lemma HasWinner3(b: Board)
    requires IsSquare(b) && |b| == 3
    ensures HasWinner(b) <==> Line3(b)
  {
    forall i | 0 <= i < 3
      ensures RowWins(b, i, b[i][0]) <==> b[i][0] != Empty && b[i][1] == b[i][0] && b[i][2] == b[i][0]
    {
      if b[i][0] != Empty && b[i][1] == b[i][0] && b[i][2] == b[i][0] {
        forall j | 0 <= j < 3 ensures b[i][j] == b[i][0] { assert j == 0 || j == 1 || j == 2; }
      }
    }
    forall j | 0 <= j < 3
      ensures ColumnWins(b, j, b[0][j]) <==> b[0][j] != Empty && b[1][j] == b[0][j] && b[2][j] == b[0][j]
    {
      if b[0][j] != Empty && b[1][j] == b[0][j] && b[2][j] == b[0][j] {
        forall i | 0 <= i < 3 ensures b[i][j] == b[0][j] { assert i == 0 || i == 1 || i == 2; }
      }
    }
    assert AntiDiagonalWins(b, b[2][0]) <==> b[2][0] != Empty && b[1][1] == b[2][0] && b[0][2] == b[2][0] by {
      if b[2][0] != Empty && b[1][1] == b[2][0] && b[0][2] == b[2][0] {
        forall i, j | 0 <= i < 3 && 0 <= j < 3 && i + j == 2 ensures b[i][j] == b[2][0] {
          assert (i == 0 && j == 2) || (i == 1 && j == 1) || (i == 2 && j == 0);
        }
      }
    }
    assert MainDiagonalWins(b, b[0][0]) <==> b[0][0] != Empty && b[1][1] == b[0][0] && b[2][2] == b[0][0] by {
      if b[0][0] != Empty && b[1][1] == b[0][0] && b[2][2] == b[0][0] {
        forall k | 0 <= k < 3 ensures b[k][k] == b[0][0] { assert k == 0 || k == 1 || k == 2; }
      }
    }
  }

  /** The top row is complete for +1. */
  lemma TopRowWins()
    ensures Outcome([[1, 1, 1], [0, -1, 0], [-1, 0, 0]], 4) == Some(1)
  {
    var b := [[1, 1, 1], [0, -1, 0], [-1, 0, 0]];
    assert !ColumnWins(b, 0, b[0][0]) by { assert b[1][0] != b[0][0]; }
    assert !ColumnWins(b, 1, b[0][1]) by { assert b[2][1] != b[0][1]; }
    assert !ColumnWins(b, 2, b[0][2]) by { assert b[1][2] != b[0][2]; }
    assert RowWins(b, 0, 1);
  }

  /** A full board without a complete line is a draw. */
  lemma FullBoardDraws()
    ensures Outcome([[1, -1, 1], [-1, 1, -1], [-1, 1, -1]], 0) == Some(0)
  {
    var b := [[1, -1, 1], [-1, 1, -1], [-1, 1, -1]];
    HasWinner3(b);
  }

  /** The main diagonal is complete for +1. */
  lemma MainDiagonalCompletes()
    ensures Outcome([[1, -1, 0], [0, 1, 0], [0, -1, 1]], 4) == Some(1)
  {
    var b := [[1, -1, 0], [0, 1, 0], [0, -1, 1]];
    assert !RowWins(b, 0, b[0][0]) by { assert b[0][1] != b[0][0]; }
    assert !RowWins(b, 1, b[1][0]) by { assert b[1][0] == 0; }
    assert !RowWins(b, 2, b[2][0]) by { assert b[2][0] == 0; }
    assert !ColumnWins(b, 0, b[0][0]) by { assert b[1][0] != b[0][0]; }
    assert !ColumnWins(b, 1, b[0][1]) by { assert b[1][1] != b[0][1]; }
    assert !ColumnWins(b, 2, b[0][2]) by { assert b[0][2] == 0; }
    assert !AntiDiagonalWins(b, b[2][0]) by { assert b[2][0] == 0; }
    assert MainDiagonalWins(b, 1);
  }

  /** Playing +1 into the last free cell completes column 2, a win at depth 0. */
  lemma ForcedWinScore(b: Board)
    requires b == [[1, -1, 1], [-1, -1, 1], [-1, 1, 0]]
    ensures ScoreAt(b, 1, 2, 2) == Fin(10)
  {
    var child := Place(b, 2, 2, 1);
    assert child[2] == [-1, 1, 1];
    assert child == [[1, -1, 1], [-1, -1, 1], [-1, 1, 1]];
    assert ColumnWins(child, 2, 1);
    assert !ColumnWins(child, 0, child[0][0]) by { assert child[1][0] != child[0][0]; }
    assert !ColumnWins(child, 1, child[0][1]) by { assert child[2][1] != child[0][1]; }
    assert Outcome(child, AvailableMoveCount(child)) == Some(1);
  }

  /** With one free cell left and +1 to move, the search plays it. */
  method ForcedWin(b: Board) returns (move: Option<(int, int)>)
    requires b == [[1, -1, 1], [-1, -1, 1], [-1, 1, 0]]
    ensures move == Some((2, 2))
  {
    ForcedWinScore(b);
    ghost var scores := ScoreTable(b, 1);
    move := BestMove(b, 1, scores);
    ChosenByScores(b, 1, scores, move);
    assert b[2][2] == Empty;
    assert move.Some?;
    var (x, y) := move.value;
    OnlyFreeCell(b, x, y);
  }

  /** (2, 2) is the one free cell of the position before the forced win. */
  lemma OnlyFreeCell(b: Board, x: int, y: int)
    requires b == [[1, -1, 1], [-1, -1, 1], [-1, 1, 0]]
    requires 0 <= x < 3 && 0 <= y < 3 && b[x][y] == Empty
    ensures x == 2 && y == 2
  {
  }

  /** The board filled without a complete line scores as a draw. */
  lemma FilledWithoutLineScoresZero(full: Board)
    requires full == [[1, -1, -1], [-1, 1, 1], [1, -1, -1]]
    ensures Minmax(full, 1, 1, true) == Fin(0)
  {
    HasWinner3(full);
    assert !HasWinner(full);
    forall i, j | 0 <= i < 3 && 0 <= j < 3 ensures full[i][j] != Empty {
      assert full[i] != [];
    }
    EmptyCellExists(full);
    assert AvailableMoveCount(full) == 0;
    MinmaxLeaf(full, 1, 1, true);
  }

  /** With one free cell, -1 must fill it and the game ends drawn. */
  lemma LastCellDraws(child: Board)
    requires child == [[1, -1, -1], [-1, 1, 1], [1, -1, 0]]
    ensures Minmax(child, -1, 0, false) == Fin(0)
  {
    HasWinner3(child);
    assert !HasWinner(child);
    assert child[2][2] == Empty;
    EmptyCellExists(child);
    assert AvailableMoveCount(child) > 0;
    MinmaxChildren(child, -1, 0, false);
    var p, q :| 0 <= p < 3 && 0 <= q < 3 && child[p][q] == Empty
                && Minmax(child, -1, 0, false) == ChildScore(child, -1, 0, false, p, q);
    LastCellIsOnlyFree(child, p, q);
    var full := Place(child, 2, 2, -1);
    FillLastCell(child);
    FilledWithoutLineScoresZero(full);
  }

  lemma FillLastCell(child: Board)
    requires child == [[1, -1, -1], [-1, 1, 1], [1, -1, 0]]
    ensures Place(child, 2, 2, -1) == [[1, -1, -1], [-1, 1, 1], [1, -1, -1]]
  {
    var full := Place(child, 2, 2, -1);
    assert full[2] == [1, -1, -1];
  }

  /** (2, 2) is the one free cell left after +1 plays (2, 0). */
  lemma LastCellIsOnlyFree(child: Board, x: int, y: int)
    requires child == [[1, -1, -1], [-1, 1, 1], [1, -1, 0]]
    requires 0 <= x < 3 && 0 <= y < 3 && child[x][y] == Empty
    ensures x == 2 && y == 2
  {
  }

  /** Playing +1 at (2, 0) leaves -1 only (2, 2), which fills the board without a line. */
  lemma EarlierCellDraws(b: Board)
    requires b == [[1, -1, -1], [-1, 1, 1], [0, -1, 0]]
    ensures ScoreAt(b, 1, 2, 0) == Fin(0)
  {
    var child := Place(b, 2, 0, 1);
    assert child[2] == [1, -1, 0];
    assert child == [[1, -1, -1], [-1, 1, 1], [1, -1, 0]];
    LastCellDraws(child);
  }

  /** Playing +1 at (2, 2) completes the main diagonal at once. */
  lemma LaterCellWins(b: Board)
    requires b == [[1, -1, -1], [-1, 1, 1], [0, -1, 0]]
    ensures ScoreAt(b, 1, 2, 2) == Fin(10)
  {
    var child := Place(b, 2, 2, 1);
    assert child[2] == [0, -1, 1];
    assert child == [[1, -1, -1], [-1, 1, 1], [0, -1, 1]];
    assert !ColumnWins(child, 0, child[0][0]) by { assert child[1][0] != child[0][0]; }
    assert !ColumnWins(child, 1, child[0][1]) by { assert child[1][1] != child[0][1]; }
    assert !ColumnWins(child, 2, child[0][2]) by { assert child[1][2] != child[0][2]; }
    assert !RowWins(child, 0, child[0][0]) by { assert child[0][1] != child[0][0]; }
    assert !RowWins(child, 1, child[1][0]) by { assert child[1][1] != child[1][0]; }
    assert !RowWins(child, 2, child[2][0]) by { assert child[2][0] == 0; }
    assert !AntiDiagonalWins(child, child[2][0]) by { assert child[2][0] == 0; }
    assert MainDiagonalWins(child, 1);
    assert Outcome(child, AvailableMoveCount(child)) == Some(1);
  }

  /** The only free cell scoring at least as well as (2, 2) is (2, 2) itself. */
  lemma OnlyWinningCellIsBest(b: Board, x: int, y: int)
    requires b == [[1, -1, -1], [-1, 1, 1], [0, -1, 0]]
    requires 0 <= x < 3 && 0 <= y < 3 && b[x][y] == Empty
    requires Le(ScoreAt(b, 1, 2, 2), ScoreAt(b, 1, x, y))
    ensures x == 2 && y == 2
  {
    if x != 2 || y != 2 {
      assert x == 2 && y == 0;
      EarlierCellDraws(b);
      LaterCellWins(b);
      assert false;
    }
  }

  /** Of two free cells the search takes the winning one, although it comes second. The
      position is reachable: -1 moved first and has one symbol more than +1. */
  method PrefersWin(b: Board) returns (move: Option<(int, int)>)
    requires b == [[1, -1, -1], [-1, 1, 1], [0, -1, 0]]
    ensures move == Some((2, 2))
  {
    LaterCellWins(b);
    ghost var scores := ScoreTable(b, 1);
    move := BestMove(b, 1, scores);
    ChosenByScores(b, 1, scores, move);
    assert b[2][2] == Empty;
    assert move.Some?;
    var (x, y) := move.value;
    OnlyWinningCellIsBest(b, x, y);
  }
}
