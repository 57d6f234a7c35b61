/** The n-by-n playing grid of the game: a sequence of rows of integers, where 0 marks an
    empty cell and any other value is the symbol of the player occupying it. */
module Grid {

  /** An optional value; the game uses it for "no winner yet" and "no move possible". */
  datatype Option<+T> = None | Some(value: T)

  /** Rows of cells, indexed board[row][column]. */
  type Board = seq<seq<int>>

  /** The value of an unoccupied cell. */
  const Empty: int := 0

  /** A well-formed board: n >= 1 rows, each of length n. */
  predicate IsSquare(b: Board) {
    |b| >= 1 && forall i :: 0 <= i < |b| ==> |b[i]| == |b|
  }

  /** The cells of the board that are not occupied. */
  ghost function EmptyCells(b: Board): set<(int, int)> {
    set i, j | 0 <= i < |b| && 0 <= j < |b[i]| && b[i][j] == Empty :: (i, j)
  }

  /** The all-empty board built when a game is created. */
  function NewBoard(n: nat): (b: Board)
    ensures |b| == n
    ensures forall i :: 0 <= i < n ==> |b[i]| == n
    ensures forall i, j :: 0 <= i < n && 0 <= j < n ==> b[i][j] == Empty
    ensures n >= 1 ==> IsSquare(b)
  {
    seq(n, _ => seq(n, _ => Empty))
  }

  /** Number of occurrences of `v` in `s` (a list's `count`). */
  function Count(s: seq<int>, v: int): (c: nat)
    ensures c <= |s|
  {
    if |s| == 0 then 0
    else Count(s[..|s| - 1], v) + (if s[|s| - 1] == v then 1 else 0)
  }

  /** Every element equals `v` exactly when `v` is counted once per element. */
  lemma {:induction false} CountAll(s: seq<int>, v: int)
    ensures Count(s, v) == |s| <==> forall k :: 0 <= k < |s| ==> s[k] == v
  {
    if |s| > 0 {
      var init := s[..|s| - 1];
      CountAll(init, v);
      if Count(s, v) == |s| {
        assert Count(init, v) == |init| && s[|s| - 1] == v;
        forall k | 0 <= k < |s| ensures s[k] == v {
          if k < |s| - 1 { assert s[k] == init[k]; }
        }
      } else if forall k :: 0 <= k < |s| ==> s[k] == v {
        forall k | 0 <= k < |init| ensures init[k] == v { assert init[k] == s[k]; }
        assert false;
      }
    }
  }

  /** Whether the cell (x, y) is still free. */
  function AvailableMove(b: Board, x: int, y: int): (r: bool)
    requires IsSquare(b) && 0 <= x < |b| && 0 <= y < |b|
    ensures r <==> (x, y) in EmptyCells(b)
  {
    b[x][y] == Empty
  }

  /** Number of free cells, summed row by row. */
  function AvailableMoveCount(b: Board): (c: nat)
  {
    if |b| == 0 then 0
    else AvailableMoveCount(b[..|b| - 1]) + Count(b[|b| - 1], Empty)
  }

  /** The free cells of row `i` among its first `k` columns. */
  ghost function RowEmptyCells(b: Board, i: int, k: int): set<(int, int)>
    requires 0 <= i < |b| && 0 <= k <= |b[i]|
  {
    set j | 0 <= j < k && b[i][j] == Empty :: (i, j)
  }

  lemma {:induction false} RowEmptyCellsCount(b: Board, i: int, k: int)
    requires 0 <= i < |b| && 0 <= k <= |b[i]|
    ensures |RowEmptyCells(b, i, k)| == Count(b[i][..k], Empty)
  {
    if k > 0 {
      RowEmptyCellsCount(b, i, k - 1);
      assert b[i][..k][..k - 1] == b[i][..k - 1];
      if b[i][k - 1] == Empty {
        assert RowEmptyCells(b, i, k) == RowEmptyCells(b, i, k - 1) + {(i, k - 1)};
      } else {
        assert RowEmptyCells(b, i, k) == RowEmptyCells(b, i, k - 1);
      }
    } else {
      assert RowEmptyCells(b, i, k) == {};
    }
  }

  /** The running count is exactly the number of free cells. */
  lemma {:induction false} AvailableMoveCountIsEmptyCells(b: Board)
    ensures AvailableMoveCount(b) == |EmptyCells(b)|
  {
    if |b| == 0 {
      assert EmptyCells(b) == {};
    } else {
      var m := |b| - 1;
      var init := b[..m];
      AvailableMoveCountIsEmptyCells(init);
      var last := RowEmptyCells(b, m, |b[m]|);
      RowEmptyCellsCount(b, m, |b[m]|);
      assert b[m][..|b[m]|] == b[m];
      assert EmptyCells(b) == EmptyCells(init) + last by {
        forall c | c in EmptyCells(b) ensures c in EmptyCells(init) + last {
          if c.0 < m { assert init[c.0] == b[c.0]; }
        }
        forall c | c in EmptyCells(init) ensures c in EmptyCells(b) {
          assert init[c.0] == b[c.0];
        }
      }
      assert EmptyCells(init) !! last;
    }
  }

  lemma {:induction false} AvailableMoveCountBound(b: Board, n: nat)
    requires forall i :: 0 <= i < |b| ==> |b[i]| == n
    ensures AvailableMoveCount(b) <= |b| * n
  {
    if |b| > 0 {
      AvailableMoveCountBound(b[..|b| - 1], n);
      assert (|b| - 1) * n + n == |b| * n;
    }
  }

  /** A board whose rows are all empty and of length n has |b| * n free cells. */
  lemma {:induction false} AllEmptyCount(b: Board, n: nat)
    requires forall i :: 0 <= i < |b| ==> |b[i]| == n
    requires forall i, j :: 0 <= i < |b| && 0 <= j < n ==> b[i][j] == Empty
    ensures AvailableMoveCount(b) == |b| * n
  {
    if |b| > 0 {
      AllEmptyCount(b[..|b| - 1], n);
      CountAll(b[|b| - 1], Empty);
      assert (|b| - 1) * n + n == |b| * n;
    }
  }

  /** A fresh n-by-n board has n * n free cells. */
  lemma NewBoardCount(n: nat)
    ensures AvailableMoveCount(NewBoard(n)) == n * n
  {
    AllEmptyCount(NewBoard(n), n);
  }

  /** The free-cell count of a square board lies in [0, n * n]. */
  lemma AvailableMoveCountRange(b: Board)
    requires IsSquare(b)
    ensures 0 <= AvailableMoveCount(b) <= |b| * |b|
  {
    AvailableMoveCountBound(b, |b|);
  }

  /** Writes `v` into cell (i, j). */
  function Place(b: Board, i: int, j: int, v: int): (r: Board)
    requires 0 <= i < |b| && 0 <= j < |b[i]|
    ensures |r| == |b| && forall p :: 0 <= p < |b| ==> |r[p]| == |b[p]|
    ensures r[i][j] == v
    ensures forall p, q {:trigger r[p][q]} :: 0 <= p < |b| && 0 <= q < |b[p]| && (p != i || q != j) ==> r[p][q] == b[p][q]
    ensures IsSquare(b) ==> IsSquare(r)
  {
    b[i := b[i][j := v]]
  }

  /** Occupying a free cell removes exactly that cell from the free cells. */
  lemma PlaceEmptyCells(b: Board, i: int, j: int, v: int)
    requires 0 <= i < |b| && 0 <= j < |b[i]| && b[i][j] == Empty && v != Empty
    ensures EmptyCells(Place(b, i, j, v)) == EmptyCells(b) - {(i, j)}
    ensures AvailableMoveCount(Place(b, i, j, v)) == AvailableMoveCount(b) - 1
  {
    var r := Place(b, i, j, v);
    assert EmptyCells(r) == EmptyCells(b) - {(i, j)};
    assert (i, j) in EmptyCells(b);
    AvailableMoveCountIsEmptyCells(b);
    AvailableMoveCountIsEmptyCells(r);
  }

  /** Occupying a free cell and clearing it again restores the board. */
  lemma PlaceUndo(b: Board, i: int, j: int, v: int)
    requires 0 <= i < |b| && 0 <= j < |b[i]| && b[i][j] == Empty
    ensures Place(Place(b, i, j, v), i, j, Empty) == b
  {
    var r := Place(Place(b, i, j, v), i, j, Empty);
    assert r[i] == b[i];
  }

  /** Some cell is free exactly when the free-cell count is positive. */
  lemma EmptyCellExists(b: Board)
    requires IsSquare(b)
    ensures AvailableMoveCount(b) > 0 <==> exists i, j :: 0 <= i < |b| && 0 <= j < |b| && b[i][j] == Empty
  {
    AvailableMoveCountIsEmptyCells(b);
    if AvailableMoveCount(b) > 0 {
      var c :| c in EmptyCells(b);
      assert b[c.0][c.1] == Empty;
    }
    forall i, j | 0 <= i < |b| && 0 <= j < |b| && b[i][j] == Empty
      ensures (i, j) in EmptyCells(b)
    {
    }
  }
}
