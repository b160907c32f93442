/** The random opponent. The random number generator is a parameter: a sequence of the values it
    hands out, one element per call of `random_bpos` or `random_piece`. */
module RandAgent {
  import opened Prelude
  import opened QuartBoard
  import QuartGame

  /** What one call of `random_bpos` draws: two values of `gen_range(0, 4)`. */
  type PosDraw = (u16, u16)

  /** What one call of `random_piece` draws: four random booleans. */
  type PieceDraw = (bool, bool, bool, bool)

  /** `gen_range(0, 4)` only yields values below 4. */
  ghost predicate InRange(draws: seq<PosDraw>)
  {
    forall i :: 0 <= i < |draws| ==> draws[i].0 < 4 && draws[i].1 < 4
  }

  /** `random_bpos`: the drawn coordinates as a position, always on the board. */
  function RandomBPos(d: PosDraw): (p: BPos)
    requires d.0 < 4 && d.1 < 4
    ensures p.OnBoard() && p.x == d.0 && p.y == d.1
  {
    NewPos(d.0, d.1)
  }

  /** `random_piece`: the four drawn booleans become size, colour, shape and top. */
  function RandomPiece(d: PieceDraw): (p: Piece)
    ensures Attr(p, Size) == d.0 && Attr(p, Color) == d.1
    ensures Attr(p, Shape) == d.2 && Attr(p, Top) == d.3
  {
    Piece(d.0, d.1, d.2, d.3)
  }

  /** `valid_random_move`: draws positions until one is empty, then pieces until one is not on the
      board. The draws are assumed to hold an acceptable value somewhere, so both loops stop; the
      result is the first acceptable position and the first acceptable piece. */
  method ValidRandomMove(b: Board, posDraws: seq<PosDraw>, pieceDraws: seq<PieceDraw>)
    returns (pos: BPos, piece: Piece)
    requires PieceCount(b) < 16
    requires InRange(posDraws)
    requires exists n :: 0 <= n < |posDraws| && At(b, RandomBPos(posDraws[n])).None?
    requires exists n :: 0 <= n < |pieceDraws| && !Contains(b, RandomPiece(pieceDraws[n]))
    ensures pos.OnBoard() && At(b, pos).None?
    ensures !Contains(b, piece)
    ensures exists i :: (0 <= i < |posDraws| && pos == RandomBPos(posDraws[i])
      && forall j :: 0 <= j < i ==> At(b, RandomBPos(posDraws[j])).Some?)
    ensures exists i :: (0 <= i < |pieceDraws| && piece == RandomPiece(pieceDraws[i])
      && forall j :: 0 <= j < i ==> Contains(b, RandomPiece(pieceDraws[j])))
  {
    ghost var n :| 0 <= n < |posDraws| && At(b, RandomBPos(posDraws[n])).None?;
    var i := 0;
    pos := RandomBPos(posDraws[0]);
    while At(b, pos).Some?
      invariant 0 <= i <= n
      invariant pos == RandomBPos(posDraws[i])
      invariant forall j :: 0 <= j < i ==> At(b, RandomBPos(posDraws[j])).Some?
      decreases n - i
    {
      i := i + 1;
      pos := RandomBPos(posDraws[i]);
    }

    ghost var m :| 0 <= m < |pieceDraws| && !Contains(b, RandomPiece(pieceDraws[m]));
    var k := 0;
    piece := RandomPiece(pieceDraws[0]);
    while Contains(b, piece)
      invariant 0 <= k <= m
      invariant piece == RandomPiece(pieceDraws[k])
      invariant forall j :: 0 <= j < k ==> Contains(b, RandomPiece(pieceDraws[j]))
      decreases m - k
    {
      k := k + 1;
      piece := RandomPiece(pieceDraws[k]);
    }
  }

  /** The assertion `piece_count() < 16` is what lets both loops stop: on such a board some
      position the generator can produce is empty and some piece it can produce is not on the board. */
  lemma RandomMoveExists(b: Board)
    requires PieceCount(b) < 16
    ensures exists d: PosDraw :: d.0 < 4 && d.1 < 4 && At(b, RandomBPos(d)).None?
    ensures exists d: PieceDraw :: !Contains(b, RandomPiece(d))
  {
    EmptyCellExists(b);
    var p: BPos :| p.OnBoard() && At(b, p).None?;
    assert At(b, RandomBPos((p.x, p.y))).None?;
    AbsentPieceExists(b);
    var piece :| !Contains(b, piece);
    assert RandomPiece((piece.big, piece.dark, piece.round, piece.flat)) == piece;
  }

  /** `RandAgent::play`: a random valid move on the game's board; nothing else of the game is used. */
  method Play(game: QuartGame.Game, posDraws: seq<PosDraw>, pieceDraws: seq<PieceDraw>)
    returns (pos: BPos, piece: Piece)
    requires PieceCount(game.board) < 16
    requires InRange(posDraws)
    requires exists n :: 0 <= n < |posDraws| && At(game.board, RandomBPos(posDraws[n])).None?
    requires exists n :: 0 <= n < |pieceDraws| && !Contains(game.board, RandomPiece(pieceDraws[n]))
    ensures pos.OnBoard() && At(game.board, pos).None?
    ensures !Contains(game.board, piece)
  {
    pos, piece := ValidRandomMove(game.board, posDraws, pieceDraws);
  }
}
