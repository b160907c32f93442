/** The planning opponent: it enumerates moves, looks one move ahead for itself and one move ahead
    for the player, and falls back to a random move. */
module DecisionTreeAgent {
  import opened Prelude
  import opened QuartBoard
  import RandAgent
  import opened Iterators

  // ------------------------------------------------------------------ moves

  /** `Move`: put `piece` at `pos`. */
  datatype Move = Move(pos: BPos, piece: Piece)

  /** `Move::new`: the coordinates go through `BPos::new`, so they wrap modulo 4. */
  function NewMove(xy: (u16, u16), piece: Piece): (m: Move)
    ensures m.pos.OnBoard() && m.piece == piece
    ensures xy.0 < 4 && xy.1 < 4 ==> m.pos == BPos(xy.0, xy.1)
  {
    Move(NewPos(xy.0, xy.1), piece)
  }

  /** A move `apply_move` accepts: its cell exists and is empty. */
  predicate Applicable(b: Board, m: Move)
  {
    m.pos.OnBoard() && At(b, m.pos).None?
  }

  ghost predicate AllApplicable(b: Board, moves: seq<Move>)
  {
    forall i :: 0 <= i < |moves| ==> Applicable(b, moves[i])
  }

  // ------------------------------------------------------------------ enumeration

  /** `get_all_pieces`: `iproduct!(0..4, 0..4)` mapped to pieces, exactly as `Board::full` builds them. */
  function AllPieces(): (ps: seq<Piece>)
    ensures |ps| == 16
  {
    seq(16, i requires 0 <= i < 16 => GridPiece(i / 4, i % 4))
  }

  /** Where a piece stands in `get_all_pieces`. */
  function PieceIndex(p: Piece): (i: int)
    ensures 0 <= i < 16
  {
    4 * GridIndex(p).0 + GridIndex(p).1
  }

  /** `get_all_pieces` yields sixteen pairwise distinct pieces, every piece among them (at
      `PieceIndex`), and each of them is on `Board::full()`. */
  lemma AllPiecesProperties()
    ensures |AllPieces()| == 16
    ensures forall i, j :: 0 <= i < j < 16 ==> AllPieces()[i] != AllPieces()[j]
    ensures forall p: Piece :: AllPieces()[PieceIndex(p)] == p
    ensures forall i :: 0 <= i < 16 ==> Contains(FullBoard(), AllPieces()[i])
  {
    var ps := AllPieces();
    forall i, j | 0 <= i < j < 16
      ensures ps[i] != ps[j]
    {
      if ps[i] == ps[j] {
        GridPieceInjective(i / 4, i % 4, j / 4, j % 4);
      }
    }
    FullBoardProperties();
  }

  /** Rank of a position in the order of `iproduct!(0..4, 0..4)` over `(x, y)`: column by column. */
  function ColRank(p: BPos): int
  {
    4 * p.x as int + p.y as int
  }

  ghost predicate Increasing(ps: seq<BPos>)
  {
    forall i, j :: 0 <= i < j < |ps| ==> ColRank(ps[i]) < ColRank(ps[j])
  }

  /** The sixteen positions in the order `iproduct!(0..4, 0..4)` visits them. */
  function Positions(): seq<BPos>
  {
    seq(16, i requires 0 <= i < 16 => NewPos((i / 4) as u16, (i % 4) as u16))
  }

  /** Every position of the board appears in `Positions`, in increasing column-major rank. */
  lemma PositionsProperties()
    ensures |Positions()| == 16 && Increasing(Positions())
    ensures forall i :: 0 <= i < 16 ==> Positions()[i].OnBoard() && ColRank(Positions()[i]) == i
    ensures forall p: BPos :: p.OnBoard() ==> 0 <= ColRank(p) < 16 && Positions()[ColRank(p)] == p
  {
  }

  /** A position of the board sits at its rank in `Positions`. */
  lemma PositionAt(p: BPos)
    requires p.OnBoard()
    ensures 0 <= ColRank(p) < 16 && Positions()[ColRank(p)] == p
  {
  }

  /** The `filter(|(x, y)| board[(x, y)].is_none())` step. */
  function EmptyIn(b: Board, ps: seq<BPos>): (r: seq<BPos>)
    requires forall i :: 0 <= i < |ps| ==> ps[i].OnBoard()
    ensures |r| <= |ps|
    ensures forall i :: 0 <= i < |r| ==> r[i].OnBoard() && At(b, r[i]).None?
    ensures forall p: BPos :: p in r <==> p in ps && p.OnBoard() && At(b, p).None?
  {
    if ps == [] then []
    else
      var rest := EmptyIn(b, ps[1..]);
      assert forall p :: p in rest ==> p in ps[1..];
      if At(b, ps[0]).None? then [ps[0]] + rest else rest
  }

  /** An empty cell of `ps` keeps a place in the filtered sequence. */
  lemma {:induction false} EmptyInIndex(b: Board, ps: seq<BPos>, k: nat) returns (i: nat)
    requires forall j :: 0 <= j < |ps| ==> ps[j].OnBoard()
    requires k < |ps| && At(b, ps[k]).None?
    ensures i < |EmptyIn(b, ps)| && EmptyIn(b, ps)[i] == ps[k]
  {
    if k == 0 {
      i := 0;
    } else {
      var i' := EmptyInIndex(b, ps[1..], k - 1);
      i := if At(b, ps[0]).None? then i' + 1 else i';
    }
  }

  /** The filter keeps the positions in their order. */
  lemma {:induction false} EmptyInIncreasing(b: Board, ps: seq<BPos>)
    requires forall i :: 0 <= i < |ps| ==> ps[i].OnBoard()
    requires Increasing(ps)
    ensures Increasing(EmptyIn(b, ps))
  {
    if ps != [] {
      EmptyInIncreasing(b, ps[1..]);
      var rest := EmptyIn(b, ps[1..]);
      forall p | p in rest
        ensures ColRank(ps[0]) < ColRank(p)
      {
        var i :| 0 <= i < |ps[1..]| && ps[1..][i] == p;
        assert ps[i + 1] == p;
      }
    }
  }

  /** The empty positions, column by column. */
  function EmptyPositions(b: Board): (r: seq<BPos>)
    ensures forall i :: 0 <= i < |r| ==> r[i].OnBoard() && At(b, r[i]).None?
  {
    var ps := Positions();
    assert forall i :: 0 <= i < |ps| ==> ps[i].OnBoard();
    EmptyIn(b, ps)
  }

  lemma {:induction false} EmptyInConcat(b: Board, ps: seq<BPos>, qs: seq<BPos>)
    requires forall i :: 0 <= i < |ps| ==> ps[i].OnBoard()
    requires forall i :: 0 <= i < |qs| ==> qs[i].OnBoard()
    ensures EmptyIn(b, ps + qs) == EmptyIn(b, ps) + EmptyIn(b, qs)
  {
    if ps != [] {
      assert (ps + qs)[1..] == ps[1..] + qs;
      EmptyInConcat(b, ps[1..], qs);
    } else {
      assert ps + qs == qs;
    }
  }

  function Vacant(c: Cell): nat
  {
    if c.None? then 1 else 0
  }

  lemma EmptyInFour(b: Board, ps: seq<BPos>)
    requires |ps| == 4 && forall i :: 0 <= i < 4 ==> ps[i].OnBoard()
    ensures |EmptyIn(b, ps)| == Vacant(At(b, ps[0])) + Vacant(At(b, ps[1])) + Vacant(At(b, ps[2])) + Vacant(At(b, ps[3]))
  {
    assert ps[3..][1..] == [];
    assert |EmptyIn(b, ps[3..])| == Vacant(At(b, ps[3]));
    assert ps[2..][1..] == ps[3..];
    assert |EmptyIn(b, ps[2..])| == Vacant(At(b, ps[2])) + |EmptyIn(b, ps[3..])|;
    assert ps[1..][1..] == ps[2..];
    assert |EmptyIn(b, ps[1..])| == Vacant(At(b, ps[1])) + |EmptyIn(b, ps[2..])|;
  }

  lemma CountRowFour(row: Row)
    ensures CountRow(row) == Occupied(row[0]) + Occupied(row[1]) + Occupied(row[2]) + Occupied(row[3])
  {
    assert row[3..][1..] == [];
    assert CountRow(row[3..]) == Occupied(row[3]);
    assert row[2..][1..] == row[3..];
    assert CountRow(row[2..]) == Occupied(row[2]) + CountRow(row[3..]);
    assert row[1..][1..] == row[2..];
    assert CountRow(row[1..]) == Occupied(row[1]) + CountRow(row[2..]);
  }

  lemma CountRowsFour(rows: Grid)
    ensures CountRows(rows) == CountRow(rows[0]) + CountRow(rows[1]) + CountRow(rows[2]) + CountRow(rows[3])
  {
    assert rows[3..][1..] == [];
    assert CountRows(rows[3..]) == CountRow(rows[3]);
    assert rows[2..][1..] == rows[3..];
    assert CountRows(rows[2..]) == CountRow(rows[2]) + CountRows(rows[3..]);
    assert rows[1..][1..] == rows[2..];
    assert CountRows(rows[1..]) == CountRow(rows[1]) + CountRows(rows[2..]);
  }

  lemma EmptyInColumn(b: Board, x: int)
    requires 0 <= x < 4
    ensures |EmptyIn(b, ColumnLine(x))|
      == 4 - (Occupied(b.cells[0][x]) + Occupied(b.cells[1][x]) + Occupied(b.cells[2][x]) + Occupied(b.cells[3][x]))
  {
    var c := ColumnLine(x);
    EmptyInFour(b, c);
    assert forall y :: 0 <= y < 4 ==> At(b, c[y]) == b.cells[y][x];
  }

  /** One position per empty cell: `16 - piece_count` of them. */
  lemma EmptyPositionsCount(b: Board)
    ensures |EmptyPositions(b)| == 16 - PieceCount(b)
  {
    var c0, c1, c2, c3 := ColumnLine(0), ColumnLine(1), ColumnLine(2), ColumnLine(3);
    assert Positions() == c0 + c1 + c2 + c3;
    EmptyInConcat(b, c0, c1);
    EmptyInConcat(b, c0 + c1, c2);
    EmptyInConcat(b, c0 + c1 + c2, c3);
    var n := |EmptyIn(b, c0)| + |EmptyIn(b, c1)| + |EmptyIn(b, c2)| + |EmptyIn(b, c3)|;
    assert |EmptyPositions(b)| == n;
    EmptyInColumn(b, 0);
    EmptyInColumn(b, 1);
    EmptyInColumn(b, 2);
    EmptyInColumn(b, 3);
    CountRowsFour(b.cells);
    CountRowFour(b.cells[0]);
    CountRowFour(b.cells[1]);
    CountRowFour(b.cells[2]);
    CountRowFour(b.cells[3]);
  }

  /** `get_all_agent_moves`: the selected piece at every empty position, column by column. */
  function AgentMoves(b: Board, selected: Piece): (ms: seq<Move>)
    ensures |ms| == |EmptyPositions(b)|
    ensures forall i :: 0 <= i < |ms| ==> ms[i].piece == selected && Applicable(b, ms[i])
  {
    var ps := EmptyPositions(b);
    seq(|ps|, i requires 0 <= i < |ps| => Move(ps[i], selected))
  }

  /** Every empty cell is among the empty positions. */
  lemma EmptyPositionsComplete(b: Board, p: BPos) returns (i: nat)
    requires p.OnBoard() && At(b, p).None?
    ensures i < |EmptyPositions(b)| && EmptyPositions(b)[i] == p
  {
    var ps := Positions();
    PositionAt(p);
    assert forall j :: 0 <= j < |ps| ==> ps[j].OnBoard();
    i := EmptyInIndex(b, ps, ColRank(p));
    assert EmptyPositions(b) == EmptyIn(b, ps);
  }

  /** The empty positions are exactly the empty cells. */
  lemma EmptyPositionsExact(b: Board)
    ensures forall p: BPos :: p in EmptyPositions(b) <==> p.OnBoard() && At(b, p).None?
  {
    forall p: BPos | p.OnBoard() && At(b, p).None?
      ensures p in EmptyPositions(b)
    {
      var i := EmptyPositionsComplete(b, p);
      assert EmptyPositions(b)[i] in EmptyPositions(b);
    }
  }

  /** The empty positions keep the column-by-column order. */
  lemma EmptyPositionsIncreasing(b: Board)
    ensures Increasing(EmptyPositions(b))
  {
    PositionsProperties();
    EmptyInIncreasing(b, Positions());
  }

  /** The agent's moves are exactly the moves of the selected piece to empty cells, one per empty
      cell (so `16 - piece_count` of them), listed in increasing column-major position. */
  lemma AgentMovesMeaning(b: Board, selected: Piece)
    ensures |AgentMoves(b, selected)| == 16 - PieceCount(b)
    ensures forall m: Move :: m in AgentMoves(b, selected) <==> m.piece == selected && Applicable(b, m)
    ensures forall i, j :: 0 <= i < j < |AgentMoves(b, selected)| ==>
      ColRank(AgentMoves(b, selected)[i].pos) < ColRank(AgentMoves(b, selected)[j].pos)
  {
    EmptyPositionsCount(b);
    EmptyPositionsIncreasing(b);
    var ps := EmptyPositions(b);
    var ms := AgentMoves(b, selected);
    forall m: Move | m.piece == selected && Applicable(b, m)
      ensures m in ms
    {
      var i := EmptyPositionsComplete(b, m.pos);
      assert ms[i] == m;
    }
  }

  /** The pieces not on the board, in the order of `get_all_pieces`. */
  function FreePieces(b: Board): (r: seq<Piece>)
    ensures forall p :: p in r <==> !Contains(b, p)
  {
    AllPiecesProperties();
    var all := AllPieces();
    var r := Filter(all, p => !Contains(b, p));
    assert forall p: Piece :: !Contains(b, p) ==> all[PieceIndex(p)] in r;
    r
  }

  /** The moves of each piece of `pieces` to `pos`, in the order of `pieces`. */
  function MovesAt(pos: BPos, pieces: seq<Piece>): (ms: seq<Move>)
    ensures |ms| == |pieces|
    ensures forall m :: m in ms <==> m.pos == pos && m.piece in pieces
  {
    if pieces == [] then []
    else
      assert forall p :: p in pieces <==> p == pieces[0] || p in pieces[1..];
      [Move(pos, pieces[0])] + MovesAt(pos, pieces[1..])
  }

  /** The `flat_map`: for each position in turn, one move per piece. */
  function Product(positions: seq<BPos>, pieces: seq<Piece>): (ms: seq<Move>)
    ensures |ms| == |positions| * |pieces|
    ensures forall m :: m in ms <==> m.pos in positions && m.piece in pieces
  {
    if positions == [] then []
    else
      var row := MovesAt(positions[0], pieces);
      var rest := Product(positions[1..], pieces);
      assert forall p :: p in positions <==> p == positions[0] || p in positions[1..];
      assert |row + rest| == |pieces| + (|positions| - 1) * |pieces|;
      row + rest
  }

  /** `get_all_player_moves`: every empty position combined with every piece not yet on the board. */
  function PlayerMoves(b: Board): (ms: seq<Move>)
    ensures forall m :: m in ms <==> Applicable(b, m) && !Contains(b, m.piece)
    ensures forall i :: 0 <= i < |ms| ==> Applicable(b, ms[i])
  {
    var ps := EmptyPositions(b);
    EmptyPositionsExact(b);
    var r := Product(ps, FreePieces(b));
    assert forall i :: 0 <= i < |r| ==> r[i] in r;
    r
  }

  // ------------------------------------------------------------------ searching

  /** `apply_move`: writes the piece into its (empty) cell of a copy of the board; Rust panics when
      the cell is occupied, so that is a precondition here. */
  function ApplyMove(b: Board, m: Move): (r: Board)
    requires Applicable(b, m)
    ensures At(r, m.pos) == Some(m.piece)
    ensures forall q: BPos :: q.OnBoard() && q != m.pos ==> At(r, q) == At(b, q)
    ensures PieceCount(r) == PieceCount(b) + 1
  {
    Set(b, m.pos, Some(m.piece))
  }

  /** `is_winning_move`: the board after the move has a winning line. */
  predicate IsWinningMove(b: Board, m: Move)
    requires Applicable(b, m)
  {
    FirstWin(ApplyMove(b, m)).Some?
  }

  /** A move that is applicable and wins: the closure `find` and `partition` test, with `apply_move`'s
      panic kept apart. */
  predicate WinsAfter(b: Board, m: Move)
  {
    Applicable(b, m) && IsWinningMove(b, m)
  }

  /** `WinsAfter` as the closure handed to `find` and `partition`. */
  function Wins(b: Board): Move -> bool
  {
    m => WinsAfter(b, m)
  }

  /** The moves `find` reaches are applicable: every move up to and including the first winning
      one. Past that point the list is never looked at. */
  ghost predicate ReachedApplicable(b: Board, moves: seq<Move>)
  {
    forall i :: 0 <= i < |moves| && (forall j :: 0 <= j < i ==> !WinsAfter(b, moves[j])) ==> Applicable(b, moves[i])
  }

  /** `find_winning_move`: the first move of the list that wins, or `None` when none does. */
  function FindWinningMove(b: Board, moves: seq<Move>): (r: Option<Move>)
    requires ReachedApplicable(b, moves)
    ensures r.Some? ==> r.value in moves && Applicable(b, r.value) && IsWinningMove(b, r.value)
  {
    Find(moves, Wins(b))
  }

  /** `find_winning_move` returns the move at the first index whose move wins, all moves before it
      being applicable and not winning; it returns `None` exactly when every move of the list is
      applicable and none of them wins. */
  lemma FindWinningMoveMeaning(b: Board, moves: seq<Move>)
    requires ReachedApplicable(b, moves)
    ensures var k := FindIndex(moves, Wins(b));
      && (forall j :: 0 <= j < k ==> Applicable(b, moves[j]) && !IsWinningMove(b, moves[j]))
      && (k < |moves| ==> FindWinningMove(b, moves) == Some(moves[k]) && IsWinningMove(b, moves[k]))
      && (k == |moves| <==> FindWinningMove(b, moves).None?)
  {
    var k := FindIndex(moves, Wins(b));
    forall j | 0 <= j < k
      ensures Applicable(b, moves[j]) && !IsWinningMove(b, moves[j])
    {
      assert !Wins(b)(moves[j]);
      assert forall i :: 0 <= i < j ==> !Wins(b)(moves[i]);
    }
  }

  /** `_partition_moves`: the winning moves and the other moves, each in list order. */
  function PartitionMoves(b: Board, moves: seq<Move>): (r: (seq<Move>, seq<Move>))
    requires AllApplicable(b, moves)
    ensures forall i :: 0 <= i < |r.0| ==> Applicable(b, r.0[i]) && IsWinningMove(b, r.0[i])
    ensures forall i :: 0 <= i < |r.1| ==> !(Applicable(b, r.1[i]) && IsWinningMove(b, r.1[i]))
  {
    Partition(moves, Wins(b))
  }

  /** The two parts of `_partition_moves` are together exactly the input, and the first move
      `find_winning_move` returns heads the winning part. */
  lemma PartitionMovesMeaning(b: Board, moves: seq<Move>)
    requires AllApplicable(b, moves)
    ensures ReachedApplicable(b, moves)
    ensures multiset(PartitionMoves(b, moves).0) + multiset(PartitionMoves(b, moves).1) == multiset(moves)
    ensures var w := PartitionMoves(b, moves).0;
      FindWinningMove(b, moves) == if w == [] then None else Some(w[0])
  {
    PartitionPermutes(moves, Wins(b));
    PartitionHeadIsFind(moves, Wins(b));
  }

  // ------------------------------------------------------------------ play

  /** A move after which the player has no winning move: `find_winning_move` over
      `get_all_player_moves` of the board after the move finds nothing. */
  predicate IsSafe(b: Board, m: Move)
    requires Applicable(b, m)
  {
    var nb := ApplyMove(b, m);
    FindWinningMove(nb, PlayerMoves(nb)).None?
  }

  /** A safe move is one after which no placement of any free piece on any empty cell wins. */
  lemma IsSafeMeaning(b: Board, m: Move)
    requires Applicable(b, m)
    ensures IsSafe(b, m) <==> forall pm: Move ::
      (Applicable(ApplyMove(b, m), pm) && !Contains(ApplyMove(b, m), pm.piece)) ==> !IsWinningMove(ApplyMove(b, m), pm)
  {
    var nb := ApplyMove(b, m);
    var pms := PlayerMoves(nb);
    if IsSafe(b, m) {
      forall pm: Move | Applicable(nb, pm) && !Contains(nb, pm.piece)
        ensures !IsWinningMove(nb, pm)
      {
        FindNoneExcludes(pms, Wins(nb), pm);
      }
    } else {
      var w := Find(pms, Wins(nb)).value;
      assert w in pms && Wins(nb)(w);
    }
  }

  predicate SafeAfter(b: Board, m: Move)
  {
    Applicable(b, m) && IsSafe(b, m)
  }

  /** The closure of the `filter_map` over the agent's moves. */
  function Safe(b: Board): Move -> bool
  {
    m => SafeAfter(b, m)
  }

  /** `DecisionTreeAgent::play` without its random fallback: a winning cell for the selected piece,
      paired with `Piece::default()`; else the first safe move, as its cell and its piece; else
      nothing. */
  function Decide(b: Board, selected: Piece): (r: Option<(BPos, Piece)>)
    ensures r.Some? ==> r.value.0.OnBoard() && At(b, r.value.0).None?
  {
    var ms := AgentMoves(b, selected);
    match FindWinningMove(b, ms)
    case Some(w) => Some((w.pos, DefaultPiece))
    case None =>
      match Find(ms, Safe(b))
      case Some(m) => Some((m.pos, m.piece))
      case None => None
  }

  /** `play` in terms of the two searches' indices: the first winning agent move if there is one,
      otherwise the first safe one, otherwise nothing. */
  lemma DecideByIndex(b: Board, selected: Piece)
    ensures var ms := AgentMoves(b, selected);
      var k := FindIndex(ms, Wins(b));
      var ks := FindIndex(ms, Safe(b));
      && (k < |ms| ==> Decide(b, selected) == Some((ms[k].pos, DefaultPiece)))
      && (k == |ms| && ks < |ms| ==> Decide(b, selected) == Some((ms[ks].pos, selected)))
      && (k == |ms| && ks == |ms| ==> Decide(b, selected).None?)
  {
    var ms := AgentMoves(b, selected);
    FindWinningMoveMeaning(b, ms);
  }

  /** Where the agent's move `Move(q, selected)` sits among its candidate moves. */
  lemma AgentMoveIndex(b: Board, selected: Piece, q: BPos) returns (i: nat)
    requires Applicable(b, Move(q, selected))
    ensures i < |AgentMoves(b, selected)| && AgentMoves(b, selected)[i] == Move(q, selected)
    ensures forall j :: 0 <= j <= i ==> ColRank(AgentMoves(b, selected)[j].pos) <= ColRank(q)
  {
    var ps := EmptyPositions(b);
    i := EmptyPositionsComplete(b, q);
    EmptyPositionsIncreasing(b);
    var ms := AgentMoves(b, selected);
    assert ms[i] == Move(q, selected);
    forall j | 0 <= j <= i
      ensures ColRank(ms[j].pos) <= ColRank(q)
    {
      assert ms[j].pos == ps[j];
    }
  }

  /** When an empty cell `q` wins with the selected piece, `play` places it on a winning cell no
      later (column by column) than `q`, and hands over `Piece::default()`. */
  lemma DecideWins(b: Board, selected: Piece, q: BPos)
    requires Applicable(b, Move(q, selected)) && IsWinningMove(b, Move(q, selected))
    ensures Decide(b, selected).Some? && Decide(b, selected).value.1 == DefaultPiece
    ensures IsWinningMove(b, Move(Decide(b, selected).value.0, selected))
    ensures ColRank(Decide(b, selected).value.0) <= ColRank(q)
  {
    var ms := AgentMoves(b, selected);
    var i := AgentMoveIndex(b, selected, q);
    var k := FindIndex(ms, Wins(b));
    assert Wins(b)(ms[i]);
    assert k <= i;
    DecideByIndex(b, selected);
    assert Wins(b)(ms[k]);
    assert ms[k] == Move(ms[k].pos, selected);
  }

  /** When no empty cell wins but `q` is safe, `play` takes a safe cell no later than `q` and hands
      back the selected piece. */
  lemma DecideSafe(b: Board, selected: Piece, q: BPos)
    requires forall c: BPos :: Applicable(b, Move(c, selected)) ==> !IsWinningMove(b, Move(c, selected))
    requires Applicable(b, Move(q, selected)) && IsSafe(b, Move(q, selected))
    ensures Decide(b, selected).Some? && Decide(b, selected).value.1 == selected
    ensures ColRank(Decide(b, selected).value.0) <= ColRank(q)
  {
    var ms := AgentMoves(b, selected);
    var k := NoWinningAgentMove(b, selected);
    var i := AgentMoveIndex(b, selected, q);
    var ks := FindIndex(ms, Safe(b));
    assert Safe(b)(ms[i]);
    assert ks <= i;
    DecideByIndex(b, selected);
    assert ms[ks] == Move(ms[ks].pos, selected);
  }

  /** When no empty cell wins, the cell `play` takes is safe: after the move the player has no
      winning placement. */
  lemma DecideSafeChoice(b: Board, selected: Piece)
    requires forall c: BPos :: Applicable(b, Move(c, selected)) ==> !IsWinningMove(b, Move(c, selected))
    requires Decide(b, selected).Some?
    ensures IsSafe(b, Move(Decide(b, selected).value.0, selected))
  {
    var ms := AgentMoves(b, selected);
    var k := NoWinningAgentMove(b, selected);
    var ks := FindIndex(ms, Safe(b));
    DecideByIndex(b, selected);
    assert Safe(b)(ms[ks]);
    assert ms[ks] == Move(ms[ks].pos, selected);
  }

  /** When no empty cell wins, the search for a winning agent move runs to the end. */
  lemma NoWinningAgentMove(b: Board, selected: Piece) returns (k: nat)
    requires forall c: BPos :: Applicable(b, Move(c, selected)) ==> !IsWinningMove(b, Move(c, selected))
    ensures k == FindIndex(AgentMoves(b, selected), Wins(b)) == |AgentMoves(b, selected)|
  {
    var ms := AgentMoves(b, selected);
    forall j | 0 <= j < |ms|
      ensures !Wins(b)(ms[j])
    {
      assert ms[j] == Move(ms[j].pos, selected);
    }
    k := FindIndex(ms, Wins(b));
  }

  /** `play` falls back to a random move exactly when no empty cell is winning or safe. */
  lemma DecideNoneMeaning(b: Board, selected: Piece)
    ensures Decide(b, selected).None? <==>
      forall q: BPos :: Applicable(b, Move(q, selected)) ==>
        !IsWinningMove(b, Move(q, selected)) && !IsSafe(b, Move(q, selected))
  {
    if exists q: BPos :: Applicable(b, Move(q, selected)) && IsWinningMove(b, Move(q, selected)) {
      var q: BPos :| Applicable(b, Move(q, selected)) && IsWinningMove(b, Move(q, selected));
      DecideWins(b, selected, q);
    } else if exists q: BPos :: Applicable(b, Move(q, selected)) && IsSafe(b, Move(q, selected)) {
      var q: BPos :| Applicable(b, Move(q, selected)) && IsSafe(b, Move(q, selected));
      DecideSafe(b, selected, q);
    } else {
      var ms := AgentMoves(b, selected);
      var k := NoWinningAgentMove(b, selected);
      forall j | 0 <= j < |ms|
        ensures !Safe(b)(ms[j])
      {
        assert ms[j] == Move(ms[j].pos, selected);
      }
      DecideByIndex(b, selected);
    }
  }

  // ------------------------------------------------------------------ the piece handed over

  /** As written, the safe branch hands over the piece of the move itself, which is the selected
      piece the agent has just placed: after the move that piece is already on the board. */
  lemma SafeBranchHandsBackPlacedPiece(b: Board, selected: Piece)
    requires forall c: BPos :: Applicable(b, Move(c, selected)) ==> !IsWinningMove(b, Move(c, selected))
    requires Decide(b, selected).Some?
    ensures Decide(b, selected).value.1 == selected
    ensures Contains(ApplyMove(b, Move(Decide(b, selected).value.0, selected)), Decide(b, selected).value.1)
  {
    var ms := AgentMoves(b, selected);
    var k := NoWinningAgentMove(b, selected);
    DecideByIndex(b, selected);
    var pos := Decide(b, selected).value.0;
    var nb := ApplyMove(b, Move(pos, selected));
    ContainsIff(nb, selected);
    assert At(nb, pos) == Some(selected);
  }

  /** Every placement of at most two pieces leaves the board without a winning line. */
  lemma NoWinAfterTwoMoves(b: Board, m: Move, pm: Move)
    requires forall c: BPos :: c.OnBoard() ==> At(b, c).None?
    requires Applicable(b, m) && Applicable(ApplyMove(b, m), pm)
    ensures !IsWinningMove(b, m) && !IsWinningMove(ApplyMove(b, m), pm)
  {
    var nb := ApplyMove(b, m);
    NoWinWithTwoPieces(ApplyMove(b, m), m.pos, m.pos);
    NoWinWithTwoPieces(ApplyMove(nb, pm), m.pos, pm.pos);
  }

  /** On a board without pieces no agent move wins, and the agent's move to (0, 0) is safe. */
  lemma NothingPlacedYet(b: Board, selected: Piece)
    requires forall c: BPos :: c.OnBoard() ==> At(b, c).None?
    ensures forall c: BPos :: Applicable(b, Move(c, selected)) ==> !IsWinningMove(b, Move(c, selected))
    ensures Applicable(b, Move(BPos(0, 0), selected)) && IsSafe(b, Move(BPos(0, 0), selected))
  {
    var m0 := Move(BPos(0, 0), selected);
    var nb := ApplyMove(b, m0);
    forall c: BPos | Applicable(b, Move(c, selected))
      ensures !IsWinningMove(b, Move(c, selected))
    {
      NoWinWithTwoPieces(ApplyMove(b, Move(c, selected)), c, c);
    }
    forall pm: Move | Applicable(nb, pm) && !Contains(nb, pm.piece)
      ensures !IsWinningMove(nb, pm)
    {
      NoWinAfterTwoMoves(b, m0, pm);
    }
    IsSafeMeaning(b, m0);
  }

  /** When nothing wins and the first cell `q` (column by column) is safe, the agent takes `q`
      and hands back its own piece. */
  lemma FirstCellDecision(b: Board, selected: Piece, q: BPos)
    requires forall c: BPos :: Applicable(b, Move(c, selected)) ==> !IsWinningMove(b, Move(c, selected))
    requires ColRank(q) == 0 && Applicable(b, Move(q, selected)) && IsSafe(b, Move(q, selected))
    ensures Decide(b, selected) == Some((q, selected))
  {
    DecideSafe(b, selected, q);
    var r := Decide(b, selected);
    FirstRank(r.value.0, q);
    assert r.value == (q, selected);
  }

  /** Rank 0 in the column-by-column order belongs to one position only, (0, 0). */
  lemma FirstRank(p: BPos, q: BPos)
    requires ColRank(p) <= 0 && ColRank(q) == 0
    ensures p == q
  {
  }

  /** On the empty board the agent places the selected piece at (0, 0) and, as written, hands that
      same piece to the player although it is now on the board. */
  lemma EmptyBoardDecision(selected: Piece)
    ensures Decide(EmptyBoard(), selected) == Some((BPos(0, 0), selected))
    ensures Contains(ApplyMove(EmptyBoard(), Move(BPos(0, 0), selected)), selected)
  {
    NothingPlacedYet(EmptyBoard(), selected);
    FirstCellDecision(EmptyBoard(), selected, BPos(0, 0));
    SafeBranchHandsBackPlacedPiece(EmptyBoard(), selected);
  }

  /** The piece to hand over after the agent's move: the first piece, in `get_all_pieces` order,
      that is not on the board, or `Piece::default()` when every piece is on it. */
  function HandOver(b: Board): (p: Piece)
    ensures PieceCount(b) < 16 ==> !Contains(b, p)
  {
    var free := FreePieces(b);
    FreePiecesExist(b);
    if free == [] then DefaultPiece
    else
      assert free[0] in free;
      free[0]
  }

  /** A board with fewer than sixteen pieces leaves some piece free. */
  lemma FreePiecesExist(b: Board)
    ensures PieceCount(b) < 16 ==> FreePieces(b) != []
  {
    if PieceCount(b) < 16 {
      AbsentPieceExists(b);
      var q :| !Contains(b, q);
      assert q in FreePieces(b);
    }
  }

  /** `play` with the piece handed over in the safe branch corrected: the first safe move's cell,
      paired with a piece that is still free after that move. */
  function DecideCorrected(b: Board, selected: Piece): (r: Option<(BPos, Piece)>)
    ensures r.Some? ==> r.value.0.OnBoard() && At(b, r.value.0).None?
  {
    var ms := AgentMoves(b, selected);
    match FindWinningMove(b, ms)
    case Some(w) => Some((w.pos, DefaultPiece))
    case None =>
      match Find(ms, Safe(b))
      case Some(m) => Some((m.pos, HandOver(ApplyMove(b, m))))
      case None => None
  }

  /** The correction changes only the piece of the safe branch: the same cells are chosen, the
      same cases fall back to a random move, and a winning move is reported unchanged. */
  lemma DecideCorrectedAgrees(b: Board, selected: Piece)
    ensures DecideCorrected(b, selected).Some? <==> Decide(b, selected).Some?
    ensures DecideCorrected(b, selected).Some? ==>
      DecideCorrected(b, selected).value.0 == Decide(b, selected).value.0
    ensures (exists c: BPos :: Applicable(b, Move(c, selected)) && IsWinningMove(b, Move(c, selected))) ==>
      DecideCorrected(b, selected) == Decide(b, selected)
  {
    var ms := AgentMoves(b, selected);
    DecideByIndex(b, selected);
    if exists c: BPos :: Applicable(b, Move(c, selected)) && IsWinningMove(b, Move(c, selected)) {
      var c: BPos :| Applicable(b, Move(c, selected)) && IsWinningMove(b, Move(c, selected));
      DecideWins(b, selected, c);
    }
  }

  /** In the corrected safe branch the piece handed over is free after the agent's move, and no
      placement of it on any empty cell lets the player win. */
  lemma DecideCorrectedHandsFreePiece(b: Board, selected: Piece)
    requires forall c: BPos :: Applicable(b, Move(c, selected)) ==> !IsWinningMove(b, Move(c, selected))
    requires DecideCorrected(b, selected).Some? && PieceCount(b) < 15
    ensures var (pos, piece) := DecideCorrected(b, selected).value;
      var nb := ApplyMove(b, Move(pos, selected));
      && !Contains(nb, piece)
      && forall c: BPos :: Applicable(nb, Move(c, piece)) ==> !IsWinningMove(nb, Move(c, piece))
  {
    var ms := AgentMoves(b, selected);
    var k := NoWinningAgentMove(b, selected);
    FindWinningMoveMeaning(b, ms);
    var ks := FindIndex(ms, Safe(b));
    assert ks < |ms|;
    var m := ms[ks];
    assert m == Move(m.pos, selected);
    assert Safe(b)(m);
    var nb := ApplyMove(b, m);
    IsSafeMeaning(b, m);
  }

  // ------------------------------------------------------------------ play

  /** `DecisionTreeAgent::play` as written: the decision when there is one, and otherwise
      `valid_random_move`, whose draws are parameters. */
  method Play(b: Board, selected: Piece, posDraws: seq<RandAgent.PosDraw>, pieceDraws: seq<RandAgent.PieceDraw>)
    returns (pos: BPos, piece: Piece)
    requires Decide(b, selected).None? ==>
      && PieceCount(b) < 16
      && RandAgent.InRange(posDraws)
      && (exists n :: 0 <= n < |posDraws| && At(b, RandAgent.RandomBPos(posDraws[n])).None?)
      && (exists n :: 0 <= n < |pieceDraws| && !Contains(b, RandAgent.RandomPiece(pieceDraws[n])))
    ensures pos.OnBoard() && At(b, pos).None?
    ensures Decide(b, selected).Some? ==> (pos, piece) == Decide(b, selected).value
    ensures Decide(b, selected).None? ==> !Contains(b, piece)
  {
    var d := Decide(b, selected);
    if d.Some? {
      pos, piece := d.value.0, d.value.1;
    } else {
      pos, piece := RandAgent.ValidRandomMove(b, posDraws, pieceDraws);
    }
  }

  /** `DecisionTreeAgent::play` with the corrected hand-over of the safe branch. */
  method PlayCorrected(b: Board, selected: Piece, posDraws: seq<RandAgent.PosDraw>, pieceDraws: seq<RandAgent.PieceDraw>)
    returns (pos: BPos, piece: Piece)
    requires DecideCorrected(b, selected).None? ==>
      && PieceCount(b) < 16
      && RandAgent.InRange(posDraws)
      && (exists n :: 0 <= n < |posDraws| && At(b, RandAgent.RandomBPos(posDraws[n])).None?)
      && (exists n :: 0 <= n < |pieceDraws| && !Contains(b, RandAgent.RandomPiece(pieceDraws[n])))
    ensures pos.OnBoard() && At(b, pos).None?
    ensures DecideCorrected(b, selected).Some? ==> (pos, piece) == DecideCorrected(b, selected).value
    ensures DecideCorrected(b, selected).None? ==> !Contains(b, piece)
  {
    var d := DecideCorrected(b, selected);
    if d.Some? {
      pos, piece := d.value.0, d.value.1;
    } else {
      pos, piece := RandAgent.ValidRandomMove(b, posDraws, pieceDraws);
    }
  }

  // ------------------------------------------------------------------ the tests

  /** `test_apply_move`: the piece (big, dark, not round, not flat) moved to (3, 1) of the empty
      board lands in `self.0[1][3]`. */
  lemma ApplyMoveExample()
    ensures var piece := Piece(true, true, false, false);
      Applicable(EmptyBoard(), NewMove((3, 1), piece)) &&
      ApplyMove(EmptyBoard(), NewMove((3, 1), piece))
        == Board([EmptyRow, [None, None, None, Some(piece)], EmptyRow, EmptyRow])
  {
    var piece := Piece(true, true, false, false);
    var r := ApplyMove(EmptyBoard(), NewMove((3, 1), piece));
    assert r.cells[1] == [None, None, None, Some(piece)];
  }

  /** `test_apply_invalid_move`: moving onto the occupied cell (3, 1) is not a move `apply_move`
      accepts (the source panics on it). */
  lemma ApplyInvalidMoveExample()
    ensures var piece := Piece(true, true, false, false);
      !Applicable(Board([EmptyRow, [None, None, None, Some(piece)], EmptyRow, EmptyRow]), NewMove((3, 1), piece))
  {
  }

  /** The board of `test_is_winning_move` after the move: column 3 holds four big pieces. */
  function ColumnOfBigPieces(): Board
  {
    Board([
      [None, None, None, Some(Piece(true, true, true, true))],
      [None, None, None, Some(Piece(true, true, true, false))],
      [None, None, None, Some(Piece(true, true, false, true))],
      [None, None, None, Some(Piece(true, false, false, false))]])
  }

  /** On that board none of the rows and none of the columns 0..2 gives a `check_fields` result:
      each has an empty cell first. */
  lemma ColumnOfBigPiecesEarlierLines()
    ensures forall j :: 0 <= j < 7 ==> LineResult(ColumnOfBigPieces(), Lines()[j]).None?
  {
    var b := ColumnOfBigPieces();
    var ls := Lines();
    forall j | 0 <= j < 7
      ensures LineResult(b, ls[j]).None?
    {
      EmptyCellNoResult(b, ls[j], 0);
    }
  }

  /** Four filled cells holding big pieces share the size first. */
  lemma AllBigShareSize(fs: seq<Cell>)
    requires |fs| == 4 && forall i :: 0 <= i < 4 ==> fs[i].Some? && fs[i].value.big
    ensures SharedProperty(fs) == Some("Size")
  {
    assert First4(fs) == fs;
    var ps := CollectSome(fs).value;
    assert Agree(ps, Size);
  }

  /** On that board column 3 is won on size. */
  lemma ColumnOfBigPiecesColumn()
    ensures LineResult(ColumnOfBigPieces(), Lines()[7]) == Some("Size")
  {
    var b := ColumnOfBigPieces();
    var line := Lines()[7];
    assert line == ColumnLine(3);
    var fs := Fields(b, line);
    forall i | 0 <= i < 4
      ensures fs[i].Some? && fs[i].value.big
    {
      assert line[i] == BPos(3, i as u16);
    }
    AllBigShareSize(fs);
  }

  /** On that board the first winning line is column 3, won on size. */
  lemma ColumnOfBigPiecesWins()
    ensures FirstWin(ColumnOfBigPieces()) == Some(GameOverInfo(ColumnLine(3), "Size"))
  {
    ColumnOfBigPiecesEarlierLines();
    ColumnOfBigPiecesColumn();
    FirstWinInAt(ColumnOfBigPieces(), Lines(), 7, "Size");
  }

  /** `test_is_winning_move`: three big pieces down column 3 and a fourth big piece moved to (3, 3)
      win; the reported line is that column and the shared attribute is the size. */
  lemma IsWinningMoveExample()
    ensures var b := Board([
        [None, None, None, Some(Piece(true, true, true, true))],
        [None, None, None, Some(Piece(true, true, true, false))],
        [None, None, None, Some(Piece(true, true, false, true))],
        EmptyRow]);
      var m := NewMove((3, 3), Piece(true, false, false, false));
      && Applicable(b, m) && IsWinningMove(b, m)
      && FirstWin(ApplyMove(b, m)) == Some(GameOverInfo(ColumnLine(3), "Size"))
  {
    var b := Board([
        [None, None, None, Some(Piece(true, true, true, true))],
        [None, None, None, Some(Piece(true, true, true, false))],
        [None, None, None, Some(Piece(true, true, false, true))],
        EmptyRow]);
    var m := NewMove((3, 3), Piece(true, false, false, false));
    var r := ApplyMove(b, m);
    assert r.cells[3] == [None, None, None, Some(Piece(true, false, false, false))];
    assert r.cells[..3] == b.cells[..3];
    assert r == ColumnOfBigPieces();
    ColumnOfBigPiecesWins();
  }
}
