/** The game wrapper of quart_lib: the game state, whose turn it is, the board and the game-over
    description. */
module QuartGame {
  import opened Prelude
  import opened QuartBoard

  /** `GameState` */
  datatype GameState = SelectPiece | PlacePiece | GameOver

  /** `Game`: its methods update the fields in place. */
  class Game {
    var state: GameState
    var playerTurn: u32
    var board: Board
    var gameOverInfo: Option<GameOverInfo>

    /** The game is over exactly when a game-over description is stored. */
    ghost predicate Valid()
      reads this
    {
      (state == GameOver) == gameOverInfo.Some?
    }

    /** `Game::new`: selecting a piece, player 1 to move, an empty board, no description. */
    constructor ()
      ensures state == SelectPiece && playerTurn == 1
      ensures board == EmptyBoard() && gameOverInfo == None
      ensures Valid()
    {
      state := SelectPiece;
      playerTurn := 1;
      board := EmptyBoard();
      gameOverInfo := None;
    }

    /** `is_over`: the state is `GameOver`; in a valid game, exactly when a description is stored. */
    function IsOver(): (r: bool)
      reads this
      ensures r <==> state == GameOver
      ensures Valid() ==> (r <==> gameOverInfo.Some?)
    {
      state == GameOver
    }

    /** `check`: asks the board for a winning line. On a win the game is latched into `GameOver`
        with the board's description; otherwise nothing changes. The board is never modified. */
    method Check() returns (r: bool)
      modifies this
      ensures r <==> FirstWin(old(board)).Some?
      ensures board == old(board) && playerTurn == old(playerTurn)
      ensures r ==> state == GameOver && gameOverInfo == FirstWin(board)
      ensures !r ==> state == old(state) && gameOverInfo == old(gameOverInfo)
      ensures r ==> Valid()
      ensures old(Valid()) ==> Valid()
    {
      var info := QuartBoard.Check(board);
      if info.Some? {
        state := GameOver;
        gameOverInfo := info;
        r := true;
      } else {
        r := false;
      }
    }
  }

  /** Checking twice in a row gives the same answer and leaves the game as the first check left it. */
  method CheckTwice(g: Game) returns (r1: bool, r2: bool)
    modifies g
    ensures r1 == r2
    ensures r1 <==> FirstWin(old(g.board)).Some?
    ensures g.board == old(g.board) && g.playerTurn == old(g.playerTurn)
    ensures r1 ==> g.state == GameOver && g.gameOverInfo == FirstWin(g.board)
    ensures !r1 ==> g.state == old(g.state) && g.gameOverInfo == old(g.gameOverInfo)
  {
    r1 := g.Check();
    r2 := g.Check();
  }

  /** A new game is not over, and its first `check` finds no winning line. */
  lemma NewGameNotWon()
    ensures FirstWin(EmptyBoard()).None?
  {
    NoWinWithTwoPieces(EmptyBoard(), BPos(0, 0), BPos(0, 0));
  }
}
