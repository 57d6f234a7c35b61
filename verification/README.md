# Tic-tac-toe game engine in Dafny

A model of the game-state engine of the `TicTacToe` class: the n-by-n board, the terminal
evaluator (`check_horizontal`, `check_vertical`, `check_diagonal`, `check_winning`), the
free-cell queries (`available_move`, `available_move_count`), the move transition
(`next_state`) and the exhaustive search (`minmax`, `best_move`).

- `grid.dfy` (module `Grid`). The board is `seq<seq<int>>`, indexed `board[row][column]`.
  The value 0 marks a free cell. `AvailableMove` requires a square board and coordinates in
  0..n-1. `AvailableMoveCount` takes any board. `Place` writes one cell, which must exist. `EmptyCells` is the set of free
  cells, against which the row-by-row count is proved.
- `evaluator.dfy` (module `Evaluator`). The line predicates say cell by cell what a complete
  row, column or diagonal is. The three scans follow the code: build each line, then test it
  with `count(line[0]) == len(line) and line[0] != 0`.
  - The scans require a square board with n >= 1, because the code reads `row[0]`, `check[0]`,
    `diags1[0]` and `diags2[0]`.
  - `Outcome` is the value `check_winning` returns: a symbol, `0` for a draw, or `None`.
  - `CheckWinning` pairs that value with the updated `game_over` flag.
  - The code tests the checks' results by truthiness (`not vertical`). The model tests
    `.None?`, which agrees because every check returns only non-zero symbols.
- `engine.dfy` (module `Engine`). The game is its board and `game_over` flag. A player is the
  symbol it writes plus its move log. `NextState` is `next_state` without printing.
- `search.dfy` (module `Search`). `Minmax` is a recursive function. It decreases on the number
  of free cells, which is how `minmax` terminates for a non-zero symbol.
  - The two nested `for` loops of a ply are the fold `Children` over the cells in row-major
    order.
  - `math.inf` becomes `Score = NegInf | Fin(v) | PosInf`.
  - `BestMove` is a method with the same loop structure as `best_move`. `TryCell` is its loop
    body: place the symbol, score, clear the cell, and keep the cell only on a strict
    improvement.
  - `BestMove` also takes a ghost table `scores` holding the score of every cell. It takes no
    part in the computation. Its only requirement is that it holds the true scores, and
    `ScoreTable` builds such a table for every board. The choice is stated over the table, and
    `ChosenByScores` carries it over to the scores themselves.
  - The board is an immutable value. In `minmax` the code writes a symbol into a free cell,
    scores the board and clears the cell. `ChildScore` models this by scoring `Place(b, i, j,
    sym)` while `b` itself stays unchanged, so no clearing step is needed. In `best_move`,
    `TryCell` keeps the clearing write, and `PlaceUndo` shows that it restores the board.
- `scenarios.dfy` (module `Scenarios`). Concrete 3-by-3 positions:
  - a top-row win;
  - a full drawn board;
  - a main-diagonal win;
  - a forced win in the last free cell;
  - a position where the search skips an earlier cell that only draws for a later cell that
    wins.

Points where the code's behaviour is easy to misread, all modelled as the code has them:

- `check_winning` tries columns first, then rows, then diagonals.
- `check_diagonal` tries the anti-diagonal, i.e. the cells (n-1-k, k), before the main
  diagonal.
- `minmax` scores from the fixed point of view of the symbol +1. A +1 win scores
  `10 - depth` and a -1 win scores `-10 + depth`, whatever symbol the search started with.
  `best_move` always maximises, so it plays well only for the symbol +1, which is the symbol
  the driver gives the computer player.
- `best_move` returns `None` exactly when every free cell scores minus infinity. That means
  no cell is free only on boards of 0, +1 and -1 searched with the symbols +1 and -1.

## Model

| member | source | states |
|---|---|---|
| Grid.NewBoard | src/tic_tac_toe.py:19-22 | A new board has n rows of n cells, every cell 0, and is square when n >= 1 |
| Grid.NewBoardCount | src/tic_tac_toe.py:19-22 | A freshly built n-by-n board has exactly n*n free cells |
| Grid.CountAll | src/tic_tac_toe.py:30 | `s.count(v) == len(s)` holds exactly when every element of `s` equals `v`, both directions |
| Grid.AvailableMove | src/tic_tac_toe.py:88-89 | The cell (x, y) is reported available exactly when it belongs to the set of free cells |
| Grid.Count | src/tic_tac_toe.py:94 | `list.count`: the number of occurrences is at most the length; `CountAll` says it equals the length exactly when every element is the value |
| Grid.AvailableMoveCount | src/tic_tac_toe.py:91-95 | The sum of `row.count(0)` over the rows; `AvailableMoveCountIsEmptyCells` proves it is the number of free cells |
| Grid.AvailableMoveCountIsEmptyCells | src/tic_tac_toe.py:91-95 | Summing `row.count(0)` over the rows gives exactly the number of free cells of the board |
| Grid.AvailableMoveCountRange | src/tic_tac_toe.py:91-95 | The free-cell count of an n-by-n board lies between 0 and n*n |
| Grid.EmptyCellExists | src/tic_tac_toe.py:91-95 | The free-cell count is positive exactly when some in-range cell holds 0 |
| Grid.Place | src/tic_tac_toe.py:99 | Writing a cell sets that cell to the value, leaves every other cell and the board's shape unchanged |
| Grid.PlaceEmptyCells | src/tic_tac_toe.py:147-149 | Occupying a free cell with a non-zero symbol removes exactly that cell from the free cells, so the count drops by one |
| Grid.PlaceUndo | src/tic_tac_toe.py:173-175 | Occupying a free cell and then writing 0 back gives the original board again |
| Evaluator.Uniform | src/tic_tac_toe.py:30 | The line test `count(line[0]) == len(line) and line[0] != 0`; `UniformMeansAllEqual` says it holds exactly when the line is non-zero and all its cells are equal |
| Evaluator.UniformMeansAllEqual | src/tic_tac_toe.py:41 | The line test `count(line[0]) == len(line) and line[0] != 0` holds exactly when the line is non-zero and all its cells are equal |
| Evaluator.FirstUniform | src/tic_tac_toe.py:29-32 | The scan returns None exactly when no line passes the test; otherwise it returns the head of the first line that passes |
| Evaluator.CheckHorizontal | src/tic_tac_toe.py:28-32 | The result is None exactly when no row is complete; otherwise it is the non-zero symbol of a complete row with no complete row before it |
| Evaluator.CheckVertical | src/tic_tac_toe.py:34-43 | The result is None exactly when no column is complete; otherwise it is the non-zero symbol of a complete column with no complete column before it |
| Evaluator.RowUniform | src/tic_tac_toe.py:29-31 | The count test passes on row i exactly when every cell of the row holds the same non-zero symbol |
| Evaluator.Column | src/tic_tac_toe.py:35-41 | The collected column holds column j's cells top to bottom, and the count test passes on it exactly when every cell of column j holds the same non-zero symbol |
| Evaluator.AntiDiagonal | src/tic_tac_toe.py:46-55 | The collected line starts at the bottom-left cell, and the count test passes on it exactly when every cell (i, j) with i + j == n - 1 holds that cell's non-zero symbol |
| Evaluator.MainDiagonal | src/tic_tac_toe.py:51-58 | The count test passes on the collected line exactly when every cell (k, k) holds the top-left cell's non-zero symbol |
| Evaluator.CheckDiagonal | src/tic_tac_toe.py:45-61 | A complete anti-diagonal wins first, then a complete main diagonal; None exactly when neither is complete |
| Evaluator.Outcome | src/tic_tac_toe.py:63-86 | Draw (0) exactly when no line is complete and no cell is free; None exactly when no line is complete and cells remain; any other result is a symbol owning a complete line, taken from columns, then rows, then diagonals |
| Evaluator.CheckWinning | src/tic_tac_toe.py:63-86 | The result is the verdict; an evaluating call leaves `game_over` unchanged, otherwise it becomes true exactly on a win or a draw and is never lowered |
| Engine.NewGame | src/tic_tac_toe.py:16-22 | A new game is not over and its n-by-n board is all free, with n*n free cells |
| Engine.NextState | src/tic_tac_toe.py:97-107 | The move's cell gets the player's symbol and every other cell is unchanged; the move is appended to the player's log; `game_over` becomes true exactly on a win or a full board and is never reset; a move into a free cell removes exactly that cell from the free cells and lowers the count by one |
| Search.Max | src/tic_tac_toe.py:151 | `max` returns one of its arguments and is at least both of them |
| Search.Min | src/tic_tac_toe.py:163 | `min` returns one of its arguments and is at most both of them |
| Search.Combine | src/tic_tac_toe.py:143-165 | Folding a child's score into the best so far keeps one of the two and is at least as good as both for the side to move |
| Search.Minmax | src/tic_tac_toe.py:126-165 | The score of a board from +1's side, terminating on the number of free cells; its meaning is stated by `MinmaxLeaf` (decided boards), `MinmaxChildren` (max or min over the free children) and `MinmaxFinite` (never infinite on boards of 0, +1 and -1) |
| Search.Children | src/tic_tac_toe.py:143-165 | The two nested loops of a ply, folding each free child's score into the best so far; `ChildrenDominate` and `ChildrenAttained` state that the fold yields the best of the start value and the children's scores |
| Search.ChildScore | src/tic_tac_toe.py:146-150 | The score of the board with `sym` written into the free cell (i, j), searched one ply deeper by `-sym` with the roles swapped; `PlaceEmptyCells` shows the child has one free cell fewer |
| Search.ScoreAt | src/tic_tac_toe.py:172-175 | The score `best_move` gives a cell: the minimizing reply of `-sym` at depth 0 after `sym` is written there; `ScoresOf` and `ChosenByScores` tie `best_move`'s choice to it |
| Search.ChildrenDominate | src/tic_tac_toe.py:145-153 | The row-major loop over the remaining cells returns a score at least as good for the mover as its start value and as every remaining free child |
| Search.ChildrenAttained | src/tic_tac_toe.py:145-153 | The loop's result is its start value or the score of one of the remaining free children |
| Search.MinmaxLeaf | src/tic_tac_toe.py:130-141 | On a board won only by +1 the score is 10 - depth, won only by -1 it is -10 + depth, and on a full board without a line it is 0 |
| Search.MinmaxChildren | src/tic_tac_toe.py:143-165 | On an undecided board with a free cell, a maximizing ply scores the maximum and a minimizing ply the minimum of the children's scores, and some free child attains it |
| Search.MinmaxFinite | src/tic_tac_toe.py:143-165 | On boards of 0, +1 and -1 searched with +1 or -1, the score is never an infinity |
| Search.TryCell | src/tic_tac_toe.py:172-178 | Trying a cell leaves the choice alone for an occupied cell, and for a free cell adopts its score and position only when strictly better |
| Search.ScanFreeCell | src/tic_tac_toe.py:176-178 | With the strict comparison, the kept cell stays the first free cell of highest score among those tried |
| Search.BestMove | src/tic_tac_toe.py:167-179 | Given the table of the cells' minimax scores, a returned move is a free cell whose score no free cell beats and which every earlier free cell scores strictly below; None exactly when every free cell scores minus infinity, which on boards of 0, +1 and -1 with symbol +1 or -1 means no cell is free |
| Search.ChosenByScores | src/tic_tac_toe.py:167-179 | A choice that is best in a table holding each cell's score is best among the cells' minimax scores themselves |
| Search.ChosenMoveExists | src/tic_tac_toe.py:167-179 | On boards of 0, +1 and -1 with symbol +1 or -1, no move is chosen exactly when the free-cell count is 0 |
| Scenarios.HasWinner3 | src/tic_tac_toe.py:28-61 | On a 3-by-3 board a complete line is exactly one of the three rows, three columns or two diagonals written out cell by cell |
| Scenarios.TopRowWins | src/tic_tac_toe.py:28-32 | The board with a top row of +1 evaluates to a +1 win |
| Scenarios.FullBoardDraws | src/tic_tac_toe.py:68-75 | A full board without a complete line evaluates to a draw |
| Scenarios.MainDiagonalCompletes | src/tic_tac_toe.py:58-59 | A main diagonal of +1 evaluates to a +1 win even though the anti-diagonal is tried first |
| Scenarios.LastCellDraws | src/tic_tac_toe.py:155-165 | A minimizing ply with one free cell scores what filling it scores: a draw, 0 |
| Scenarios.ForcedWin | src/tic_tac_toe.py:167-179 | With one free cell left whose filling wins for +1, the search picks it |
| Scenarios.PrefersWin | src/tic_tac_toe.py:167-179 | Of two free cells, the later one that wins at once beats the earlier one that only draws |

## Left out

- Printing: `print_board`, `print_title`, the `print` calls in `check_winning`, and the winner
  message in `next_state`. That message fires whenever the result is not 0, including `None`;
  it is output only.
- The interactive driver: `create_player`, `main`, the input and coordinate-validation loop,
  and the random choice of the starting player. These are terminal I/O and nondeterminism
  outside the engine.
- Player name, display glyph, `ai` flag and the list of players. They only matter for display;
  a player is modelled as its symbol and move log.
- `get_len`: the core never calls it.
- Python's negative-index wrap-around in `available_move` and `next_state`. The model requires
  coordinates in 0..n-1 and n >= 1.
- `math.inf` as a float: modelled as the `Score` datatype, since every finite score is an
  integer.
- In-place mutation of the shared board. The board is a value. `minmax`'s temporary placement
  becomes a `Place` on a copy. `best_move`'s clearing write is kept, and `PlaceUndo` shows that
  it restores the board.
- Game-theoretic optimality from the empty 3-by-3 board. That tree has hundreds of thousands of
  leaves. Only near-terminal positions are checked in `scenarios.dfy`.
- Search.BestMove: the "None exactly when no cell is free" clause is stated only for boards of
  0, +1 and -1 searched with +1 or -1. With other values the code's `minmax` can return an
  infinity, and the clause does not hold.
- Search.Minmax: requires a non-zero symbol, as do `ChildScore`, `ScoreAt`, `TryCell` and
  `BestMove`. With symbol 0, `minmax` writes 0 into a free cell, so the free-cell count never
  drops. On an undecided board the recursion then never ends, until Python raises
  `RecursionError`. The model does not describe that failure. The program only ever searches
  with +1 and -1.
- Search.MinmaxFinite: stated only for boards of 0, +1 and -1 and the symbols +1 and -1. There
  every complete line is +1 or -1 and is scored at once. A line of any other symbol falls
  through to the loop over the free cells, as in the code, and a full board can then score an
  infinity.
