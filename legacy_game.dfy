/** The game of the older terminal client (`src/game/mod.rs`): besides the main board it keeps the
    pool of pieces not yet handed out, a cursor and the piece in hand. One step of play is a pair of
    `enter`s: pick a piece from the pool, then put it on an empty cell of the main board. */
module LegacyGame {
  import opened Prelude
  import opened QuartBoard
  import LegacyBoard
  import opened QuartGame

  /** One step of `move_cursor` along one axis: `(c + 4 + d).abs() as u16 % 4`. The addition and
      `abs` are on `i32`, so they must not overflow. As long as the sum before `abs` is not negative
      this is the intended wrap-around modulo 4; below that `abs` mirrors the sum instead. */
  function CursorStep(c: u16, d: i32): (r: u16)
    requires -0x8000_0000 < c as int + 4 + d as int < 0x8000_0000
    ensures r < 4
    ensures c as int + d as int + 4 >= 0 ==> r as int == (c as int + d as int) % 4
    ensures c as int + d as int + 4 < 0 ==> r as int == (-(c as int + d as int + 4)) % 4
  {
    var v := c as int + 4 + d as int;
    var a := if v < 0 then -v else v;
    ((a % 0x1_0000) % 4) as u16
  }

  /** Moving by a small delta (at most 4 cells to the left or up) wraps around the board edge. */
  lemma CursorStepWraps(c: u16, d: i32)
    requires c < 4 && -4 <= d <= 4
    ensures CursorStep(c, d) as int == (c as int + d as int) % 4
    ensures d == 1 ==> CursorStep(c, d) == (if c == 3 then 0 else c + 1)
    ensures d == -1 ==> CursorStep(c, d) == (if c == 0 then 3 else c - 1)
  {
  }

  /** `Game` of the terminal client: its methods update the fields in place. */
  class Game {
    var state: GameState
    var playerTurn: u32
    var mainBoard: Board
    var piecesBoard: Board
    var cursorPos: BPos
    var selectedPiece: Option<Piece>
    var gameOverInfo: Option<GameOverInfo>

    /** Pieces are neither created nor lost: those in the pool, on the main board and in hand are
        sixteen in all. A piece is in hand exactly while it waits to be placed, the turn is player
        1's or player 2's, and a game-over description is stored exactly when the game is over. */
    ghost predicate Valid()
      reads this
    {
      && (playerTurn == 1 || playerTurn == 2)
      && PieceCount(piecesBoard) + PieceCount(mainBoard) + (if selectedPiece.Some? then 1 else 0) == 16
      && (state == SelectPiece ==> selectedPiece.None?)
      && (state == PlacePiece ==> selectedPiece.Some?)
      && ((state == GameOver) <==> gameOverInfo.Some?)
    }

    /** `Game::new`: all sixteen pieces in the pool, an empty main board, the cursor at (0, 0),
        player 1 to select. */
    constructor ()
      ensures state == SelectPiece && playerTurn == 1
      ensures mainBoard == EmptyBoard() && piecesBoard == FullBoard()
      ensures cursorPos == BPos(0, 0) && selectedPiece == None && gameOverInfo == None
      ensures Valid()
    {
      state := SelectPiece;
      playerTurn := 1;
      mainBoard := EmptyBoard();
      var full := QuartBoard.Full();
      piecesBoard := full;
      cursorPos := LegacyBoard.NewPos(0, 0);
      selectedPiece := None;
      gameOverInfo := None;
      FullBoardProperties();
    }

    /** `is_over`: the state is `GameOver`; in a valid game, exactly when a description is stored. */
    function IsOver(): (r: bool)
      reads this
      ensures r <==> state == GameOver
      ensures Valid() ==> (r <==> gameOverInfo.Some?)
    {
      state == GameOver
    }

    /** `move_cursor`: each coordinate takes one `CursorStep`, so the cursor ends on the board. */
    method MoveCursor(dx: i32, dy: i32)
      requires -0x8000_0000 < cursorPos.x as int + 4 + dx as int < 0x8000_0000
      requires -0x8000_0000 < cursorPos.y as int + 4 + dy as int < 0x8000_0000
      modifies this
      ensures cursorPos == BPos(CursorStep(old(cursorPos.x), dx), CursorStep(old(cursorPos.y), dy))
      ensures cursorPos.OnBoard()
      ensures state == old(state) && playerTurn == old(playerTurn)
      ensures mainBoard == old(mainBoard) && piecesBoard == old(piecesBoard)
      ensures selectedPiece == old(selectedPiece) && gameOverInfo == old(gameOverInfo)
      ensures old(Valid()) ==> Valid()
    {
      cursorPos := BPos(CursorStep(cursorPos.x, dx), CursorStep(cursorPos.y, dy));
    }

    /** `set_cursor_x`: the column is stored as given, even off the board; nothing else changes. */
    method SetCursorX(x: u16)
      modifies this
      ensures cursorPos == BPos(x, old(cursorPos.y))
      ensures state == old(state) && playerTurn == old(playerTurn)
      ensures mainBoard == old(mainBoard) && piecesBoard == old(piecesBoard)
      ensures selectedPiece == old(selectedPiece) && gameOverInfo == old(gameOverInfo)
      ensures old(Valid()) ==> Valid()
    {
      cursorPos := BPos(x, cursorPos.y);
    }

    /** `set_cursor_y`: the row is stored as given, even off the board; nothing else changes. */
    method SetCursorY(y: u16)
      modifies this
      ensures cursorPos == BPos(old(cursorPos.x), y)
      ensures state == old(state) && playerTurn == old(playerTurn)
      ensures mainBoard == old(mainBoard) && piecesBoard == old(piecesBoard)
      ensures selectedPiece == old(selectedPiece) && gameOverInfo == old(gameOverInfo)
      ensures old(Valid()) ==> Valid()
    {
      cursorPos := BPos(cursorPos.x, y);
    }

    /** `enter`. Selecting takes the pool's cell under the cursor into hand; when that cell held a
        piece the state moves on to placing and the turn passes to the other player. Placing puts
        the piece in hand onto the main board when the cell under the cursor is empty and goes back
        to selecting; on an occupied cell nothing happens. A finished game ignores `enter`.
        Indexing with the cursor panics off the board, and `3 - player_turn`, evaluated only when a
        piece was taken from the pool, underflows above 3. */
    method Enter()
      requires state != GameOver ==> cursorPos.OnBoard()
      requires state == SelectPiece && cursorPos.OnBoard() && At(piecesBoard, cursorPos).Some? ==>
        playerTurn <= 3
      modifies this
      ensures cursorPos == old(cursorPos) && gameOverInfo == old(gameOverInfo)
      ensures old(state) == SelectPiece ==>
        && selectedPiece == At(old(piecesBoard), cursorPos)
        && piecesBoard == Set(old(piecesBoard), cursorPos, None)
        && mainBoard == old(mainBoard)
        && (selectedPiece.Some? ==> state == PlacePiece && playerTurn as int == 3 - old(playerTurn) as int)
        && (selectedPiece.None? ==> state == SelectPiece && playerTurn == old(playerTurn))
      ensures old(state) == PlacePiece ==>
        && piecesBoard == old(piecesBoard) && playerTurn == old(playerTurn)
        && (At(old(mainBoard), cursorPos).None? ==>
              mainBoard == Set(old(mainBoard), cursorPos, old(selectedPiece))
              && selectedPiece == None && state == SelectPiece)
        && (At(old(mainBoard), cursorPos).Some? ==>
              mainBoard == old(mainBoard) && selectedPiece == old(selectedPiece) && state == PlacePiece)
      ensures old(state) == GameOver ==>
        && state == GameOver && playerTurn == old(playerTurn)
        && mainBoard == old(mainBoard) && piecesBoard == old(piecesBoard)
        && selectedPiece == old(selectedPiece)
      ensures old(Valid()) ==> Valid()
    {
      match state
      case SelectPiece =>
        selectedPiece := At(piecesBoard, cursorPos);
        piecesBoard := Set(piecesBoard, cursorPos, None);
        if selectedPiece.Some? {
          state := PlacePiece;
          playerTurn := 3 - playerTurn;
        }
      case PlacePiece =>
        if At(mainBoard, cursorPos).None? {
          mainBoard := Set(mainBoard, cursorPos, selectedPiece);
          selectedPiece := None;
          state := SelectPiece;
        }
      case GameOver =>
    }

    /** `check`: asks the main board for a winning line. On a win the game is latched into
        `GameOver` with the board's description; otherwise nothing changes. No board is modified. */
    method Check() returns (r: bool)
      modifies this
      ensures r <==> FirstWin(old(mainBoard)).Some?
      ensures mainBoard == old(mainBoard) && piecesBoard == old(piecesBoard)
      ensures playerTurn == old(playerTurn) && cursorPos == old(cursorPos)
      ensures selectedPiece == old(selectedPiece)
      ensures r ==> state == GameOver && gameOverInfo == FirstWin(mainBoard)
      ensures !r ==> state == old(state) && gameOverInfo == old(gameOverInfo)
      ensures old(Valid()) ==> Valid()
    {
      var info := QuartBoard.Check(mainBoard);
      if info.Some? {
        state := GameOver;
        gameOverInfo := info;
        r := true;
      } else {
        r := false;
      }
    }
  }
}
