/** The game engine: the board plus the game-over flag, and the transition that applies one
    player's move. */
module Engine {
  import opened Grid
  import opened Evaluator

  /** A player as the engine sees it: the symbol written on the board and the log of moves
      played, in order. */
  datatype Player = Player(symbol: int, moves: seq<(int, int)>)

  datatype Game = Game(board: Board, gameOver: bool)

  /** A new game on an n-by-n board: every cell free and the game not over. */
  function NewGame(n: nat): (g: Game)
    ensures !g.gameOver
    ensures |g.board| == n && AvailableMoveCount(g.board) == n * n
    ensures forall i :: 0 <= i < n ==> |g.board[i]| == n
    ensures forall i, j :: 0 <= i < n && 0 <= j < n ==> g.board[i][j] == Empty
  {
    NewBoardCount(n);
    Game(NewBoard(n), false)
  }

  /** Plays `move` for `player`: writes the player's symbol into the cell, appends the move to
      the player's log and re-evaluates the board, raising the game-over flag on a win or draw.
      A move into a free cell uses up exactly that cell. */
  function NextState(g: Game, move: (int, int), player: Player): (r: (Game, Player))
    requires IsSquare(g.board)
    requires 0 <= move.0 < |g.board| && 0 <= move.1 < |g.board|
    ensures IsSquare(r.0.board) && |r.0.board| == |g.board|
    ensures r.0.board[move.0][move.1] == player.symbol
    ensures forall i, j :: 0 <= i < |g.board| && 0 <= j < |g.board| && (i, j) != move ==>
              r.0.board[i][j] == g.board[i][j]
    ensures r.1.symbol == player.symbol && r.1.moves == player.moves + [move]
    ensures r.0.gameOver <==> g.gameOver || HasWinner(r.0.board) || EmptyCells(r.0.board) == {}
    ensures g.board[move.0][move.1] == Empty && player.symbol != Empty ==>
              && EmptyCells(r.0.board) == EmptyCells(g.board) - {move}
              && AvailableMoveCount(r.0.board) == AvailableMoveCount(g.board) - 1
  {
    var (x, y) := move;
    var board := Place(g.board, x, y, player.symbol);
    AvailableMoveCountIsEmptyCells(board);
    var (_, over) := CheckWinning(board, AvailableMoveCount(board), false, g.gameOver);
    assert g.board[x][y] == Empty && player.symbol != Empty ==>
             EmptyCells(board) == EmptyCells(g.board) - {move} &&
             AvailableMoveCount(board) == AvailableMoveCount(g.board) - 1 by {
      if g.board[x][y] == Empty && player.symbol != Empty {
        PlaceEmptyCells(g.board, x, y, player.symbol);
      }
    }
    (Game(board, over), player.(moves := player.moves + [move]))
  }
}
