/** Terminal-condition evaluation: which complete line, if any, decides the game, and whether a
    full board without one is a draw. */
module Evaluator {
  import opened Grid

  // ---------------------------------------------------------------------------------------
  // What a complete line is, stated cell by cell.

  ghost predicate RowWins(b: Board, i: int, v: int)
    requires IsSquare(b) && 0 <= i < |b|
  {
    v != Empty && forall j :: 0 <= j < |b| ==> b[i][j] == v
  }

  ghost predicate ColumnWins(b: Board, j: int, v: int)
    requires IsSquare(b) && 0 <= j < |b|
  {
    v != Empty && forall i :: 0 <= i < |b| ==> b[i][j] == v
  }

  /** The anti-diagonal runs through the cells (i, j) with i + j == n - 1. */
  ghost predicate AntiDiagonalWins(b: Board, v: int)
    requires IsSquare(b)
  {
    v != Empty && forall i, j :: 0 <= i < |b| && 0 <= j < |b| && i + j == |b| - 1 ==> b[i][j] == v
  }

  /** The main diagonal runs through the cells (k, k). */
  ghost predicate MainDiagonalWins(b: Board, v: int)
    requires IsSquare(b)
  {
    v != Empty && forall k :: 0 <= k < |b| ==> b[k][k] == v
  }

  /** Some row, column or diagonal is filled with the symbol `v`. */
  ghost predicate IsWinner(b: Board, v: int)
    requires IsSquare(b)
  {
    || (exists i :: 0 <= i < |b| && RowWins(b, i, v))
    || (exists j :: 0 <= j < |b| && ColumnWins(b, j, v))
    || AntiDiagonalWins(b, v)
    || MainDiagonalWins(b, v)
  }

  /** The anti-diagonal starts at the bottom-left cell. */
  lemma AntiDiagonalHead(b: Board)
    requires IsSquare(b)
    ensures forall v :: AntiDiagonalWins(b, v) ==> v == b[|b| - 1][0]
  {
  }

  /** Some line is complete, whatever its symbol. */
  ghost predicate HasWinner(b: Board)
    requires IsSquare(b)
  {
    || (exists i :: 0 <= i < |b| && RowWins(b, i, b[i][0]))
    || (exists j :: 0 <= j < |b| && ColumnWins(b, j, b[0][j]))
    || AntiDiagonalWins(b, b[|b| - 1][0])
    || MainDiagonalWins(b, b[0][0])
  }

  /** A complete line of `v` is a complete line. */
  lemma WinnerHasLine(b: Board, v: int)
    requires IsSquare(b) && IsWinner(b, v)
    ensures HasWinner(b)
  {
    if exists i :: 0 <= i < |b| && RowWins(b, i, v) {
      var i :| 0 <= i < |b| && RowWins(b, i, v);
      assert RowWins(b, i, b[i][0]);
    } else if exists j :: 0 <= j < |b| && ColumnWins(b, j, v) {
      var j :| 0 <= j < |b| && ColumnWins(b, j, v);
      assert ColumnWins(b, j, b[0][j]);
    } else if AntiDiagonalWins(b, v) {
      AntiDiagonalHead(b);
    } else {
      assert b[0][0] == v;
    }
  }

  // ---------------------------------------------------------------------------------------
  // The scans as the game performs them: collect a line, then test it by counting.

  /** A line counts as won when its first cell is occupied and is counted `|line|` times. */
  predicate Uniform(line: seq<int>)
    requires |line| > 0
  {
    Count(line, line[0]) == |line| && line[0] != Empty
  }

  lemma UniformMeansAllEqual(line: seq<int>)
    requires |line| > 0
    ensures Uniform(line) <==> line[0] != Empty && forall k :: 0 <= k < |line| ==> line[k] == line[0]
  {
    CountAll(line, line[0]);
  }

  /** The head of the first uniform line at index `from` or later. */
  function FirstUniform(lines: seq<seq<int>>, from: nat): (r: Option<int>)
    requires from <= |lines|
    requires forall k :: 0 <= k < |lines| ==> |lines[k]| > 0
    ensures r.None? <==> forall k :: from <= k < |lines| ==> !Uniform(lines[k])
    ensures r.Some? ==>
      exists k :: from <= k < |lines| && Uniform(lines[k]) && r.value == lines[k][0]
                  && forall m :: from <= m < k ==> !Uniform(lines[m])
    decreases |lines| - from
  {
    if from == |lines| then None
    else if Uniform(lines[from]) then Some(lines[from][0])
    else FirstUniform(lines, from + 1)
  }

  /** Row `i` passes the count test exactly when it is a complete row. */
  lemma RowUniform(b: Board, i: int)
    requires IsSquare(b) && 0 <= i < |b|
    ensures Uniform(b[i]) <==> RowWins(b, i, b[i][0])
  {
    UniformMeansAllEqual(b[i]);
  }

  /** The cells of column `col`, top to bottom; the count test passes on them exactly when
      the column is complete. */
  function Column(b: Board, col: int): (c: seq<int>)
    requires IsSquare(b) && 0 <= col < |b|
    ensures |c| == |b| && forall i :: 0 <= i < |b| ==> c[i] == b[i][col]
    ensures Uniform(c) <==> ColumnWins(b, col, b[0][col])
  {
    var c := seq(|b|, i requires 0 <= i < |b| => b[i][col]);
    UniformMeansAllEqual(c);
    c
  }

  /** The cells (n-1-k, k), collected column by column; the count test passes on them exactly
      when every cell (i, j) with i + j == n - 1 holds the bottom-left cell's symbol. */
  function AntiDiagonal(b: Board): (d: seq<int>)
    requires IsSquare(b)
    ensures |d| == |b| && forall k :: 0 <= k < |b| ==> d[k] == b[|b| - 1 - k][k]
    ensures d[0] == b[|b| - 1][0]
    ensures Uniform(d) <==> AntiDiagonalWins(b, b[|b| - 1][0])
  {
    var d := seq(|b|, k requires 0 <= k < |b| => b[|b| - 1 - k][k]);
    var v := b[|b| - 1][0];
    assert d[0] == v;
    UniformMeansAllEqual(d);
    assert Uniform(d) <==> AntiDiagonalWins(b, v) by {
      forall i, j | 0 <= i < |b| && 0 <= j < |b| && i + j == |b| - 1 ensures b[i][j] == d[j] {
        assert i == |b| - 1 - j;
      }
      if AntiDiagonalWins(b, v) {
        forall k | 0 <= k < |b| ensures d[k] == v {
          var i := |b| - 1 - k;
          assert b[i][k] == v;
        }
        assert Uniform(d);
      }
      if Uniform(d) {
        forall i, j | 0 <= i < |b| && 0 <= j < |b| && i + j == |b| - 1 ensures b[i][j] == v {
          assert b[i][j] == d[j] == d[0];
        }
      }
    }
    d
  }

  /** The cells (k, k); the count test passes on them exactly when the main diagonal is
      complete. */
  function MainDiagonal(b: Board): (d: seq<int>)
    requires IsSquare(b)
    ensures |d| == |b| && forall k :: 0 <= k < |b| ==> d[k] == b[k][k]
    ensures Uniform(d) <==> MainDiagonalWins(b, b[0][0])
  {
    var d := seq(|b|, k requires 0 <= k < |b| => b[k][k]);
    UniformMeansAllEqual(d);
    d
  }

  /** The symbol of the first complete row, or None. */
  function CheckHorizontal(b: Board): (r: Option<int>)
    requires IsSquare(b)
    ensures r.Some? ==> r.value != Empty
    ensures r.None? <==> forall i :: 0 <= i < |b| ==> !RowWins(b, i, b[i][0])
    ensures r.Some? ==>
      exists i :: 0 <= i < |b| && RowWins(b, i, r.value)
                  && forall k :: 0 <= k < i ==> !RowWins(b, k, b[k][0])
  {
    forall i | 0 <= i < |b| ensures Uniform(b[i]) <==> RowWins(b, i, b[i][0]) {
      RowUniform(b, i);
    }
    FirstUniform(b, 0)
  }

  /** The symbol of the first complete column, or None. */
  function CheckVertical(b: Board): (r: Option<int>)
    requires IsSquare(b)
    ensures r.Some? ==> r.value != Empty
    ensures r.None? <==> forall j :: 0 <= j < |b| ==> !ColumnWins(b, j, b[0][j])
    ensures r.Some? ==>
      exists j :: 0 <= j < |b| && ColumnWins(b, j, r.value)
                  && forall k :: 0 <= k < j ==> !ColumnWins(b, k, b[0][k])
  {
    var columns := seq(|b|, col requires 0 <= col < |b| => Column(b, col));
    forall j | 0 <= j < |b| ensures Uniform(columns[j]) <==> ColumnWins(b, j, b[0][j]) {
      assert columns[j] == Column(b, j);
    }
    FirstUniform(columns, 0)
  }

  /** The anti-diagonal's symbol if it is complete, else the main diagonal's, else None. */
  function CheckDiagonal(b: Board): (r: Option<int>)
    requires IsSquare(b)
    ensures r.Some? ==> r.value != Empty
    ensures AntiDiagonalWins(b, b[|b| - 1][0]) ==> r == Some(b[|b| - 1][0])
    ensures !AntiDiagonalWins(b, b[|b| - 1][0]) && MainDiagonalWins(b, b[0][0]) ==> r == Some(b[0][0])
    ensures r.None? <==> !AntiDiagonalWins(b, b[|b| - 1][0]) && !MainDiagonalWins(b, b[0][0])
  {
    var anti := AntiDiagonal(b);
    var main := MainDiagonal(b);
    if Uniform(anti) then Some(anti[0])
    else if Uniform(main) then Some(main[0])
    else None
  }

  /** The verdict on a board given its number of free cells: the symbol of a complete line
      (columns first, then rows, then diagonals), 0 for a draw, None while play goes on. */
  function Outcome(b: Board, availableMoves: int): (r: Option<int>)
    requires IsSquare(b)
    ensures r == Some(0) <==> !HasWinner(b) && availableMoves == 0
    ensures r.None? <==> !HasWinner(b) && availableMoves != 0
    ensures r.Some? && r.value != 0 ==> IsWinner(b, r.value)
    ensures CheckVertical(b).Some? ==> r == CheckVertical(b)
    ensures CheckVertical(b).None? && CheckHorizontal(b).Some? ==> r == CheckHorizontal(b)
    ensures CheckVertical(b).None? && CheckHorizontal(b).None? && CheckDiagonal(b).Some? ==>
              r == CheckDiagonal(b)
  {
    var vertical := CheckVertical(b);
    var horizontal := CheckHorizontal(b);
    var diagonal := CheckDiagonal(b);
    if vertical.None? && horizontal.None? && diagonal.None? && availableMoves == 0 then
      Some(0)
    else if vertical.Some? || horizontal.Some? || diagonal.Some? then
      if vertical.Some? then vertical
      else if horizontal.Some? then horizontal
      else diagonal
    else
      None
  }

  /** The verdict together with the game-over flag after the check. An evaluating call
      (`eval`) leaves the flag alone; otherwise a win or a draw raises it, and nothing lowers it. */
  function CheckWinning(b: Board, availableMoves: int, eval: bool, gameOver: bool): (r: (Option<int>, bool))
    requires IsSquare(b)
    ensures r.0 == Outcome(b, availableMoves)
    ensures eval ==> r.1 == gameOver
    ensures !eval ==> (r.1 <==> gameOver || HasWinner(b) || availableMoves == 0)
  {
    var result := Outcome(b, availableMoves);
    (result, gameOver || (!eval && result.Some?))
  }
}
