/** The board of quart_lib: pieces, positions, the 4x4 grid of cells, piece bookkeeping and the
    game-over test. */
module QuartBoard {
  import opened Prelude

  // ------------------------------------------------------------------ positions

  /** A position on the board: `x` is the column (left to right), `y` the row (top to bottom). */
  datatype BPos = BPos(x: u16, y: u16) {
    /** Indexing a board at this position stays inside the 4x4 array (Rust panics otherwise). */
    predicate OnBoard() { x < 4 && y < 4 }
  }

  /** `BPos::new`: both coordinates are reduced modulo 4, so the position is always on the board. */
  function NewPos(x: u16, y: u16): (p: BPos)
    ensures p.OnBoard()
    ensures (p.x as int - x as int) % 4 == 0 && (p.y as int - y as int) % 4 == 0
    ensures x < 4 && y < 4 ==> p == BPos(x, y)
  {
    BPos(x % 4, y % 4)
  }

  // ------------------------------------------------------------------ pieces

  /** One game piece with its four attributes. */
  datatype Piece = Piece(big: bool, dark: bool, round: bool, flat: bool)

  /** `Piece::default()` */
  const DefaultPiece: Piece := Piece(false, false, false, false)

  /** The four attributes, in the order `check_fields` tries them. */
  datatype Attribute = Size | Color | Shape | Top

  /** Position of an attribute in the order Size, Color, Shape, Top. */
  function Rank(a: Attribute): nat
  {
    match a
    case Size => 0
    case Color => 1
    case Shape => 2
    case Top => 3
  }

  function Attr(p: Piece, a: Attribute): bool
  {
    match a
    case Size => p.big
    case Color => p.dark
    case Shape => p.round
    case Top => p.flat
  }

  /** The property name `check_fields` reports for an attribute. */
  function Name(a: Attribute): string
  {
    match a
    case Size => "Size"
    case Color => "Color"
    case Shape => "Shape"
    case Top => "Top"
  }

  /** All pieces of `ps` have the same value for attribute `a`. */
  predicate Agree(ps: seq<Piece>, a: Attribute)
  {
    forall i, j :: 0 <= i < |ps| && 0 <= j < |ps| ==> Attr(ps[i], a) == Attr(ps[j], a)
  }

  // ------------------------------------------------------------------ the grid

  type Cell = Option<Piece>

  type Row = s: seq<Cell> | |s| == 4 witness [None, None, None, None]

  const EmptyRow: Row := [None, None, None, None]

  type Grid = g: seq<Row> | |g| == 4 witness [EmptyRow, EmptyRow, EmptyRow, EmptyRow]

  /** `Board`: an array of four rows; `cells[y][x]` is the cell at column `x` of row `y`. */
  datatype Board = Board(cells: Grid)

  /** `Board::default()`: every cell empty. */
  function EmptyBoard(): (b: Board)
    ensures forall p: BPos :: p.OnBoard() ==> At(b, p).None?
    ensures PieceCount(b) == 0
  {
    var b := Board([EmptyRow, EmptyRow, EmptyRow, EmptyRow]);
    CountRowNone(EmptyRow);
    CountRowsNone(b.cells);
    b
  }

  /** `Index<BPos>` and `Index<(u16, u16)>`: the cell `self.0[y][x]`. */
  function At(b: Board, p: BPos): Cell
    requires p.OnBoard()
  {
    b.cells[p.y][p.x]
  }

  /** `IndexMut<BPos>`: the board with `c` written into `self.0[y][x]`; no other cell changes. */
  function Set(b: Board, p: BPos, c: Cell): (r: Board)
    requires p.OnBoard()
    ensures At(r, p) == c
    ensures forall q: BPos :: q.OnBoard() && q != p ==> At(r, q) == At(b, q)
    ensures PieceCount(r) == PieceCount(b) - Occupied(At(b, p)) + Occupied(c)
  {
    var r := Board(b.cells[p.y := b.cells[p.y][p.x := c]]);
    PieceCountSet(b, p, c, r);
    r
  }

  // ------------------------------------------------------------------ full board

  /** The piece `full` writes into `self.0[a][b]`: size and colour from `a`, shape and top from `b`. */
  function GridPiece(a: int, b: int): Piece
  {
    Piece(a <= 1, a % 2 == 0, b <= 1, b % 2 == 0)
  }

  /** Row and column from which `GridPiece` builds a given piece. */
  function GridIndex(p: Piece): (ab: (int, int))
    ensures 0 <= ab.0 < 4 && 0 <= ab.1 < 4
    ensures GridPiece(ab.0, ab.1) == p
  {
    ((if p.big then 0 else 2) + (if p.dark then 0 else 1),
     (if p.round then 0 else 2) + (if p.flat then 0 else 1))
  }

  /** Distinct grid cells receive distinct pieces. */
  lemma GridPieceInjective(a: int, b: int, c: int, d: int)
    requires 0 <= a < 4 && 0 <= b < 4 && 0 <= c < 4 && 0 <= d < 4
    requires GridPiece(a, b) == GridPiece(c, d)
    ensures a == c && b == d
  {
  }

  /** The board `full` builds. */
  function FullBoard(): Board
  {
    Board(seq(4, a => seq(4, b => Some(GridPiece(a, b)))))
  }

  /** `Board::full`: the nested loops that write `Some(piece)` into each `board.0[x][y]`. */
  method Full() returns (b: Board)
    ensures b == FullBoard()
  {
    var cells := EmptyBoard().cells;
    for x := 0 to 4
      invariant forall r, c :: 0 <= r < 4 && 0 <= c < 4 ==>
        cells[r][c] == if r < x then Some(GridPiece(r, c)) else None
    {
      for y := 0 to 4
        invariant forall r, c :: 0 <= r < 4 && 0 <= c < 4 ==>
          cells[r][c] == if r < x || (r == x && c < y) then Some(GridPiece(r, c)) else None
      {
        cells := cells[x := cells[x][y := Some(GridPiece(x, y))]];
      }
    }
    forall r | 0 <= r < 4
      ensures cells[r] == FullBoard().cells[r]
    {
    }
    b := Board(cells);
  }

  /** `full` fills every cell, its sixteen pieces are pairwise distinct, and every piece is on it. */
  lemma FullBoardProperties()
    ensures forall p: BPos :: p.OnBoard() ==> At(FullBoard(), p).Some?
    ensures forall p: BPos, q: BPos :: p.OnBoard() && q.OnBoard() && p != q ==>
      At(FullBoard(), p) != At(FullBoard(), q)
    ensures forall piece :: Contains(FullBoard(), piece)
    ensures PieceCount(FullBoard()) == 16
  {
    var f := FullBoard();
    forall p: BPos, q: BPos | p.OnBoard() && q.OnBoard() && p != q
      ensures At(f, p) != At(f, q)
    {
      if At(f, p) == At(f, q) {
        GridPieceInjective(p.y as int, p.x as int, q.y as int, q.x as int);
      }
    }
    forall piece
      ensures Contains(f, piece)
    {
      var ab := GridIndex(piece);
      assert f.cells[ab.0][ab.1] == Some(piece);
    }
    PieceCountFull(f);
  }

  // ------------------------------------------------------------------ contains / remove

  function RowHas(row: seq<Cell>, piece: Piece): (r: bool)
    ensures r <==> exists x :: 0 <= x < |row| && row[x] == Some(piece)
  {
    if row == [] then false
    else row[0] == Some(piece) || RowHas(row[1..], piece)
  }

  function RowsHave(rows: seq<Row>, piece: Piece): (r: bool)
    ensures r <==> exists y, x :: 0 <= y < |rows| && 0 <= x < 4 && rows[y][x] == Some(piece)
  {
    if rows == [] then false
    else RowHas(rows[0], piece) || RowsHave(rows[1..], piece)
  }

  /** `contains`: looks through the rows in order for a cell holding `piece`. */
  function Contains(b: Board, piece: Piece): (r: bool)
    ensures r <==> exists y, x :: 0 <= y < 4 && 0 <= x < 4 && b.cells[y][x] == Some(piece)
  {
    RowsHave(b.cells, piece)
  }

  /** `contains` holds exactly when some position of the board holds the piece. */
  lemma ContainsIff(b: Board, piece: Piece)
    ensures Contains(b, piece) <==> exists p: BPos :: p.OnBoard() && At(b, p) == Some(piece)
  {
    if Contains(b, piece) {
      var y, x :| 0 <= y < 4 && 0 <= x < 4 && b.cells[y][x] == Some(piece);
      assert At(b, BPos(x as u16, y as u16)) == Some(piece);
    }
  }

  /** `pos` is the first cell in row-major order (row by row, left to right) that holds `piece`. */
  ghost predicate FirstMatch(b: Board, piece: Piece, pos: BPos)
  {
    && pos.OnBoard()
    && At(b, pos) == Some(piece)
    && forall y, x :: 0 <= y < 4 && 0 <= x < 4 && (y < pos.y as int || (y == pos.y as int && x < pos.x as int))
         ==> b.cells[y][x] != Some(piece)
  }

  /** `remove`: empties the first cell (row by row) holding `piece` and reports whether there was one.
      The source changes the board in place; here the method returns the changed board. */
  method Remove(b: Board, piece: Piece) returns (found: bool, r: Board)
    ensures found == Contains(b, piece)
    ensures !found ==> r == b
    ensures found ==> exists pos :: FirstMatch(b, piece, pos) && r == Set(b, pos, None)
    ensures found ==> PieceCount(r) == PieceCount(b) - 1
  {
    for y := 0 to 4
      invariant forall y', x' :: 0 <= y' < y && 0 <= x' < 4 ==> b.cells[y'][x'] != Some(piece)
    {
      for x := 0 to 4
        invariant forall x' :: 0 <= x' < x ==> b.cells[y][x'] != Some(piece)
      {
        if b.cells[y][x] == Some(piece) {
          var pos := BPos(x as u16, y as u16);
          assert FirstMatch(b, piece, pos);
          return true, Set(b, pos, None);
        }
      }
    }
    return false, b;
  }

  // ------------------------------------------------------------------ piece count

  function Occupied(c: Cell): nat
  {
    if c.Some? then 1 else 0
  }

  function CountRow(row: seq<Cell>): (n: nat)
    ensures n <= |row|
  {
    if row == [] then 0 else Occupied(row[0]) + CountRow(row[1..])
  }

  function CountRows(rows: seq<Row>): (n: nat)
    ensures n <= 4 * |rows|
  {
    if rows == [] then 0 else CountRow(rows[0]) + CountRows(rows[1..])
  }

  /** `piece_count`: the number of occupied cells, summed row by row. */
  function PieceCount(b: Board): (n: nat)
    ensures n <= 16
  {
    CountRows(b.cells)
  }

  lemma {:induction false} CountRowUpdate(row: seq<Cell>, x: int, c: Cell)
    requires 0 <= x < |row|
    ensures CountRow(row[x := c]) == CountRow(row) - Occupied(row[x]) + Occupied(c)
  {
    if x > 0 {
      assert row[x := c][1..] == row[1..][x - 1 := c];
      CountRowUpdate(row[1..], x - 1, c);
    } else {
      assert row[x := c][1..] == row[1..];
    }
  }

  lemma {:induction false} CountRowsUpdate(rows: seq<Row>, y: int, r: Row)
    requires 0 <= y < |rows|
    ensures CountRows(rows[y := r]) == CountRows(rows) - CountRow(rows[y]) + CountRow(r)
  {
    if y > 0 {
      assert rows[y := r][1..] == rows[1..][y - 1 := r];
      CountRowsUpdate(rows[1..], y - 1, r);
    } else {
      assert rows[y := r][1..] == rows[1..];
    }
  }

  lemma PieceCountSet(b: Board, p: BPos, c: Cell, r: Board)
    requires p.OnBoard()
    requires r == Board(b.cells[p.y := b.cells[p.y][p.x := c]])
    ensures PieceCount(r) == PieceCount(b) - Occupied(b.cells[p.y][p.x]) + Occupied(c)
  {
    CountRowUpdate(b.cells[p.y], p.x as int, c);
    CountRowsUpdate(b.cells, p.y as int, b.cells[p.y][p.x := c]);
  }

  lemma {:induction false} CountRowAll(row: seq<Cell>)
    ensures CountRow(row) == |row| <==> forall x :: 0 <= x < |row| ==> row[x].Some?
  {
    if row != [] {
      CountRowAll(row[1..]);
      assert forall x :: 1 <= x < |row| ==> row[x] == row[1..][x - 1];
    }
  }

  lemma {:induction false} CountRowsAll(rows: seq<Row>)
    ensures CountRows(rows) == 4 * |rows| <==> forall y :: 0 <= y < |rows| ==> CountRow(rows[y]) == 4
  {
    if rows != [] {
      CountRowsAll(rows[1..]);
      assert forall y :: 1 <= y < |rows| ==> rows[y] == rows[1..][y - 1];
    }
  }

  lemma {:induction false} CountRowNone(row: seq<Cell>)
    ensures CountRow(row) == 0 <==> forall x :: 0 <= x < |row| ==> row[x].None?
  {
    if row != [] {
      CountRowNone(row[1..]);
      assert forall x :: 1 <= x < |row| ==> row[x] == row[1..][x - 1];
    }
  }

  lemma {:induction false} CountRowsNone(rows: seq<Row>)
    ensures CountRows(rows) == 0 <==> forall y :: 0 <= y < |rows| ==> CountRow(rows[y]) == 0
  {
    if rows != [] {
      CountRowsNone(rows[1..]);
      assert forall y :: 1 <= y < |rows| ==> rows[y] == rows[1..][y - 1];
    }
  }

  /** The count is 16 exactly when every cell is occupied. */
  lemma PieceCountFull(b: Board)
    ensures PieceCount(b) == 16 <==> forall y, x :: 0 <= y < 4 && 0 <= x < 4 ==> b.cells[y][x].Some?
  {
    CountRowsAll(b.cells);
    forall y | 0 <= y < 4
      ensures CountRow(b.cells[y]) == 4 <==> forall x :: 0 <= x < 4 ==> b.cells[y][x].Some?
    {
      CountRowAll(b.cells[y]);
    }
  }

  /** A board with fewer than sixteen pieces has an empty position. */
  lemma EmptyCellExists(b: Board)
    requires PieceCount(b) < 16
    ensures exists p: BPos :: p.OnBoard() && At(b, p).None?
  {
    PieceCountFull(b);
    var y, x :| 0 <= y < 4 && 0 <= x < 4 && b.cells[y][x].None?;
    assert At(b, BPos(x as u16, y as u16)).None?;
  }

  /** The pieces in a row of cells. */
  ghost function Values(row: seq<Cell>): set<Piece>
  {
    if row == [] then {} else (if row[0].Some? then {row[0].value} else {}) + Values(row[1..])
  }

  ghost function RowsValues(rows: seq<Row>): set<Piece>
  {
    if rows == [] then {} else Values(rows[0]) + RowsValues(rows[1..])
  }

  lemma {:induction false} ValuesBound(row: seq<Cell>)
    ensures |Values(row)| <= CountRow(row)
    ensures forall piece :: piece in Values(row) <==> exists x :: 0 <= x < |row| && row[x] == Some(piece)
  {
    if row != [] {
      ValuesBound(row[1..]);
      assert forall x :: 1 <= x < |row| ==> row[x] == row[1..][x - 1];
    }
  }

  lemma {:induction false} RowsValuesBound(rows: seq<Row>)
    ensures |RowsValues(rows)| <= CountRows(rows)
    ensures forall piece :: RowsHave(rows, piece) ==> piece in RowsValues(rows)
  {
    if rows != [] {
      RowsValuesBound(rows[1..]);
      ValuesBound(rows[0]);
      forall piece | RowsHave(rows, piece)
        ensures piece in RowsValues(rows)
      {
        if !RowHas(rows[0], piece) {
          assert RowsHave(rows[1..], piece);
        }
      }
    }
  }

  ghost function Elems<T>(s: seq<T>): set<T>
  {
    set x | x in s
  }

  lemma {:induction false} DistinctElems<T>(s: seq<T>)
    requires forall i, j :: 0 <= i < j < |s| ==> s[i] != s[j]
    ensures |Elems(s)| == |s|
  {
    if s != [] {
      DistinctElems(s[1..]);
      assert Elems(s) == {s[0]} + Elems(s[1..]);
      assert s[0] !in Elems(s[1..]);
    }
  }

  /** A board with fewer than sixteen pieces misses at least one of the sixteen pieces. */
  lemma AbsentPieceExists(b: Board)
    requires PieceCount(b) < 16
    ensures exists piece :: !Contains(b, piece)
  {
    var universe := seq(16, i => GridPiece(i / 4, i % 4));
    forall i, j | 0 <= i < j < 16
      ensures universe[i] != universe[j]
    {
      if universe[i] == universe[j] {
        GridPieceInjective(i / 4, i % 4, j / 4, j % 4);
      }
    }
    DistinctElems(universe);
    RowsValuesBound(b.cells);
    var e := Elems(universe);
    var rv := RowsValues(b.cells);
    assert e == (e - rv) + (e * rv);
    assert |e * rv| <= |rv| by {
      assert rv == (e * rv) + (rv - e);
    }
    assert |e| == 16 && |rv| < 16;
    assert |e - rv| > 0;
    var piece :| piece in e - rv;
    assert !RowsHave(b.cells, piece);
    assert !Contains(b, piece);
  }

  // ------------------------------------------------------------------ check_fields

  /** `iter().cloned().collect::<Option<Vec<Piece>>>()`: the pieces, or `None` if a cell is empty. */
  function CollectSome(s: seq<Cell>): (r: Option<seq<Piece>>)
    ensures r.Some? <==> forall i :: 0 <= i < |s| ==> s[i].Some?
    ensures r.Some? ==> |r.value| == |s| && forall i :: 0 <= i < |s| ==> s[i] == Some(r.value[i])
  {
    if s == [] then Some([])
    else if s[0].None? then None
    else match CollectSome(s[1..])
      case None => None
      case Some(rest) => Some([s[0].value] + rest)
  }

  /** The first (at most) four cells that `check_fields` looks at. */
  function First4(fields: seq<Cell>): seq<Cell>
  {
    fields[..Min(4, |fields|)]
  }

  /** What `check_fields` returns: `None` when one of the first four cells is empty, otherwise the
      name of the first attribute, in the order Size, Color, Shape, Top, on which those pieces agree,
      or `None` when they agree on none. */
  function SharedProperty(fields: seq<Cell>): Option<string>
    requires |fields| > 0
  {
    match CollectSome(First4(fields))
    case None => None
    case Some(ps) =>
      if Agree(ps, Size) then Some(Name(Size))
      else if Agree(ps, Color) then Some(Name(Color))
      else if Agree(ps, Shape) then Some(Name(Shape))
      else if Agree(ps, Top) then Some(Name(Top))
      else None
  }

  /** The pieces of the first four cells agree on `a` and on no attribute ranked before it. */
  ghost predicate FirstAgreeing(ps: seq<Piece>, a: Attribute)
  {
    Agree(ps, a) && forall a' :: Rank(a') < Rank(a) ==> !Agree(ps, a')
  }

  /** The meaning of `check_fields`: an empty cell among the first four gives `None`; otherwise the
      result names exactly the first agreeing attribute, and is `None` exactly when none agrees. */
  lemma SharedPropertyMeaning(fields: seq<Cell>)
    requires |fields| > 0
    ensures (exists i :: 0 <= i < |First4(fields)| && First4(fields)[i].None?) ==> SharedProperty(fields).None?
    ensures CollectSome(First4(fields)).Some? ==>
      var ps := CollectSome(First4(fields)).value;
      && (SharedProperty(fields).None? <==> forall a :: !Agree(ps, a))
      && (forall a :: SharedProperty(fields) == Some(Name(a)) <==> FirstAgreeing(ps, a))
  {
    if CollectSome(First4(fields)).Some? {
      var ps := CollectSome(First4(fields)).value;
      forall a
        ensures SharedProperty(fields) == Some(Name(a)) <==> FirstAgreeing(ps, a)
      {
        if SharedProperty(fields) == Some(Name(a)) {
          assert Name(a) == SharedProperty(fields).value;
        }
      }
      if forall a :: !Agree(ps, a) {
        assert !Agree(ps, Size) && !Agree(ps, Color) && !Agree(ps, Shape) && !Agree(ps, Top);
      }
    }
  }

  /** Agreement checked against the first piece only, as the loop of `check_fields` does. */
  lemma AgreeWithFirst(ps: seq<Piece>, a: Attribute)
    requires |ps| > 0
    ensures Agree(ps, a) <==> forall j :: 1 <= j < |ps| ==> Attr(ps[0], a) == Attr(ps[j], a)
  {
  }

  /** The loop of `check_fields`: folds the `equal` tuple over the pieces after the first,
      comparing each with the first one; each flag ends up telling whether all pieces agree on
      its attribute. */
  method EqualFlags(pieces: seq<Piece>) returns (equal: (bool, bool, bool, bool))
    requires |pieces| > 0
    ensures equal == (Agree(pieces, Size), Agree(pieces, Color), Agree(pieces, Shape), Agree(pieces, Top))
  {
    var first := pieces[0];
    equal := (true, true, true, true);
    for i := 1 to |pieces|
      invariant equal.0 == forall j :: 1 <= j < i ==> first.big == pieces[j].big
      invariant equal.1 == forall j :: 1 <= j < i ==> first.dark == pieces[j].dark
      invariant equal.2 == forall j :: 1 <= j < i ==> first.round == pieces[j].round
      invariant equal.3 == forall j :: 1 <= j < i ==> first.flat == pieces[j].flat
    {
      var p := pieces[i];
      equal := (equal.0 && first.big == p.big, equal.1 && first.dark == p.dark,
                equal.2 && first.round == p.round, equal.3 && first.flat == p.flat);
    }
    AgreeWithFirst(pieces, Size);
    AgreeWithFirst(pieces, Color);
    AgreeWithFirst(pieces, Shape);
    AgreeWithFirst(pieces, Top);
  }

  /** `check_fields`: collects the first four cells, runs the `equal` fold over their pieces, then
      reports the first attribute still equal. */
  method CheckFields(fields: seq<Cell>) returns (r: Option<string>)
    requires |fields| > 0
    ensures r == SharedProperty(fields)
  {
    var first4 := CollectSome(First4(fields));
    if first4.None? {
      return None;
    }
    var equal := EqualFlags(first4.value);
    if equal.0 {
      r := Some("Size");
    } else if equal.1 {
      r := Some("Color");
    } else if equal.2 {
      r := Some("Shape");
    } else if equal.3 {
      r := Some("Top");
    } else {
      r := None;
    }
  }

  // The pieces of `test_check_fields`, named by their attributes (upper case: true).
  const P_bdrf := Piece(false, false, false, false)
  const P_BdRf := Piece(true, false, true, false)
  const P_bDrf := Piece(false, true, false, false)
  const P_BDrf := Piece(true, true, false, false)
  const P_BDrF := Piece(true, true, false, true)

  /** Four filled cells collect into their four pieces. */
  lemma CollectFour(fields: seq<Cell>, ps: seq<Piece>)
    requires |fields| == 4 && |ps| == 4 && forall i :: 0 <= i < 4 ==> fields[i] == Some(ps[i])
    ensures CollectSome(First4(fields)) == Some(ps)
  {
    assert First4(fields) == fields;
    var c := CollectSome(fields);
    assert c.value == ps;
  }

  /** `test_check_fields`, "all equal": four equal pieces agree first on Size. */
  lemma CheckFieldsAllEqual()
    ensures SharedProperty([Some(P_bdrf), Some(P_bdrf), Some(P_bdrf), Some(P_bdrf)]) == Some("Size")
  {
    var ps := [P_bdrf, P_bdrf, P_bdrf, P_bdrf];
    CollectFour([Some(P_bdrf), Some(P_bdrf), Some(P_bdrf), Some(P_bdrf)], ps);
    assert Agree(ps, Size);
  }

  /** `test_check_fields`, "all not flat": the pieces differ in size, colour and shape, so Top is reported. */
  lemma CheckFieldsAllNotFlat()
    ensures SharedProperty([Some(P_bdrf), Some(P_BdRf), Some(P_bDrf), Some(P_BDrf)]) == Some("Top")
  {
    var ps := [P_bdrf, P_BdRf, P_bDrf, P_BDrf];
    CollectFour([Some(P_bdrf), Some(P_BdRf), Some(P_bDrf), Some(P_BDrf)], ps);
    assert !Agree(ps, Size) by { assert Attr(ps[0], Size) != Attr(ps[1], Size); }
    assert !Agree(ps, Color) by { assert Attr(ps[0], Color) != Attr(ps[2], Color); }
    assert !Agree(ps, Shape) by { assert Attr(ps[0], Shape) != Attr(ps[1], Shape); }
    assert Agree(ps, Top);
  }

  /** `test_check_fields`, "1 none": an empty fourth cell gives no result. */
  lemma CheckFieldsOneNone()
    ensures SharedProperty([Some(P_bdrf), Some(P_bdrf), Some(P_bdrf), None]) == None
  {
    var f := [Some(P_bdrf), Some(P_bdrf), Some(P_bdrf), None];
    assert First4(f) == f;
    SharedPropertyMeaning(f);
    assert f[3].None?;
  }

  /** `test_check_fields`, "no equals": the pieces share no attribute. */
  lemma CheckFieldsNoEquals()
    ensures SharedProperty([Some(P_bdrf), Some(P_BdRf), Some(P_bDrf), Some(P_BDrF)]) == None
  {
    var ps := [P_bdrf, P_BdRf, P_bDrf, P_BDrF];
    CollectFour([Some(P_bdrf), Some(P_BdRf), Some(P_bDrf), Some(P_BDrF)], ps);
    assert !Agree(ps, Size) by { assert Attr(ps[0], Size) != Attr(ps[1], Size); }
    assert !Agree(ps, Color) by { assert Attr(ps[0], Color) != Attr(ps[2], Color); }
    assert !Agree(ps, Shape) by { assert Attr(ps[0], Shape) != Attr(ps[1], Shape); }
    assert !Agree(ps, Top) by { assert Attr(ps[0], Top) != Attr(ps[3], Top); }
  }

  // ------------------------------------------------------------------ check

  /** Details of a won game: the winning line and the attribute its pieces share. */
  datatype GameOverInfo = GameOverInfo(positions: seq<BPos>, property: string)

  function RowLine(y: int): seq<BPos>
    requires 0 <= y < 4
  {
    seq(4, x requires 0 <= x < 4 => BPos(x as u16, y as u16))
  }

  function ColumnLine(x: int): seq<BPos>
    requires 0 <= x < 4
  {
    seq(4, y requires 0 <= y < 4 => BPos(x as u16, y as u16))
  }

  function Diagonal(): seq<BPos>
  {
    seq(4, j requires 0 <= j < 4 => BPos(j as u16, j as u16))
  }

  function AntiDiagonal(): seq<BPos>
  {
    seq(4, j requires 0 <= j < 4 => BPos(j as u16, (3 - j) as u16))
  }

  /** Every line has at least one position and all its positions are on the board. */
  ghost predicate LinesOk(lines: seq<seq<BPos>>)
  {
    forall k :: 0 <= k < |lines| ==> |lines[k]| > 0 && forall i :: 0 <= i < |lines[k]| ==> lines[k][i].OnBoard()
  }

  /** The ten lines `check` examines, in its order: rows y = 0..3, columns x = 0..3, the main
      diagonal, the anti-diagonal. */
  function Lines(): (ls: seq<seq<BPos>>)
    ensures |ls| == 10 && LinesOk(ls)
    ensures forall k :: 0 <= k < 10 ==> |ls[k]| == 4
    ensures forall k, i, j :: 0 <= k < 10 && 0 <= i < j < 4 ==> ls[k][i] != ls[k][j]
  {
    [RowLine(0), RowLine(1), RowLine(2), RowLine(3),
     ColumnLine(0), ColumnLine(1), ColumnLine(2), ColumnLine(3),
     Diagonal(), AntiDiagonal()]
  }

  /** The loops of `check` that push the rows, the columns and the two diagonals. */
  method BuildLines() returns (all: seq<seq<BPos>>)
    ensures all == Lines()
  {
    var rows: seq<seq<BPos>> := [];
    for y := 0 to 4
      invariant rows == seq(y, k requires 0 <= k < y => RowLine(k))
    {
      var line := seq(4, x requires 0 <= x < 4 => NewPos(x as u16, y as u16));
      assert line == RowLine(y);
      rows := rows + [line];
    }
    var cols: seq<seq<BPos>> := [];
    for x := 0 to 4
      invariant cols == seq(x, k requires 0 <= k < x => ColumnLine(k))
    {
      var line := seq(4, y requires 0 <= y < 4 => NewPos(x as u16, y as u16));
      assert line == ColumnLine(x);
      cols := cols + [line];
    }
    var diag := seq(4, j requires 0 <= j < 4 => NewPos(j as u16, j as u16));
    var anti := seq(4, j requires 0 <= j < 4 => NewPos(j as u16, (3 - j) as u16));
    assert diag == Diagonal();
    assert anti == AntiDiagonal();
    all := rows + cols + [diag, anti];
  }

  /** The cells of a line: `positions.iter().map(|pos| self[*pos])`. */
  function Fields(b: Board, line: seq<BPos>): (fs: seq<Cell>)
    requires forall i :: 0 <= i < |line| ==> line[i].OnBoard()
    ensures |fs| == |line| && forall i :: 0 <= i < |line| ==> fs[i] == At(b, line[i])
  {
    seq(|line|, i requires 0 <= i < |line| => At(b, line[i]))
  }

  /** `check_fields` applied to the cells of a line. */
  function LineResult(b: Board, line: seq<BPos>): Option<string>
    requires |line| > 0 && forall i :: 0 <= i < |line| ==> line[i].OnBoard()
  {
    SharedProperty(Fields(b, line))
  }

  /** `try_for_each` over `lines`: the first line whose `check_fields` result is `Some`. */
  function FirstWinIn(b: Board, lines: seq<seq<BPos>>): Option<GameOverInfo>
    requires LinesOk(lines)
  {
    if lines == [] then None
    else match LineResult(b, lines[0])
      case Some(property) => Some(GameOverInfo(lines[0], property))
      case None => FirstWinIn(b, lines[1..])
  }

  /** The index of the line `FirstWinIn` reports, or `|lines|` when it reports none: every line
      before it gives `None`, and the reported info is that line with its `check_fields` result. */
  function FirstWinIndex(b: Board, lines: seq<seq<BPos>>): (k: nat)
    requires LinesOk(lines)
    ensures k <= |lines|
    ensures forall j :: 0 <= j < k ==> LineResult(b, lines[j]).None?
    ensures k < |lines| ==>
      (LineResult(b, lines[k]).Some? &&
       FirstWinIn(b, lines) == Some(GameOverInfo(lines[k], LineResult(b, lines[k]).value)))
    ensures k == |lines| <==> FirstWinIn(b, lines).None?
  {
    if lines == [] then 0
    else if LineResult(b, lines[0]).Some? then 0
    else
      var k := FirstWinIndex(b, lines[1..]);
      assert forall j :: 1 <= j < |lines| ==> lines[j] == lines[1..][j - 1];
      k + 1
  }

  /** What `check` returns. */
  function FirstWin(b: Board): Option<GameOverInfo>
  {
    FirstWinIn(b, Lines())
  }

  /** `Board::check`: builds the ten lines and stops at the first one `check_fields` accepts. */
  method Check(b: Board) returns (r: Option<GameOverInfo>)
    ensures r == FirstWin(b)
  {
    var all := BuildLines();
    var i := 0;
    while i < |all|
      invariant 0 <= i <= |all|
      invariant FirstWinIn(b, all[i..]) == FirstWin(b)
    {
      var positions := all[i];
      var fields := seq(|positions|, k requires 0 <= k < |positions| => At(b, positions[k]));
      var chk := CheckFields(fields);
      assert all[i..][0] == positions && all[i..][1..] == all[i + 1..];
      if chk.Some? {
        return Some(GameOverInfo(positions, chk.value));
      }
      i := i + 1;
    }
    return None;
  }

  /** All the cells of `line` hold pieces that share attribute `a`. */
  ghost predicate LineAgreesOn(b: Board, line: seq<BPos>, a: Attribute)
    requires forall i :: 0 <= i < |line| ==> line[i].OnBoard()
  {
    forall i, j :: 0 <= i < |line| && 0 <= j < |line| ==>
      At(b, line[i]).Some? && At(b, line[j]).Some? && Attr(At(b, line[i]).value, a) == Attr(At(b, line[j]).value, a)
  }

  /** A line wins: all its cells are occupied and their pieces share some attribute. */
  ghost predicate LineWins(b: Board, line: seq<BPos>)
    requires forall i :: 0 <= i < |line| ==> line[i].OnBoard()
  {
    exists a :: LineAgreesOn(b, line, a)
  }

  /** On a full line, agreement of the collected pieces is agreement of the line's cells. */
  lemma LineAgreesOnPieces(b: Board, line: seq<BPos>, ps: seq<Piece>, a: Attribute)
    requires |line| > 0 && forall i :: 0 <= i < |line| ==> line[i].OnBoard()
    requires |ps| == |line| && forall i :: 0 <= i < |line| ==> At(b, line[i]) == Some(ps[i])
    ensures LineAgreesOn(b, line, a) <==> Agree(ps, a)
  {
  }

  /** On a four-cell line, `check_fields` gives `Some` exactly when the line wins. */
  lemma LineResultWins(b: Board, line: seq<BPos>)
    requires |line| == 4 && forall i :: 0 <= i < |line| ==> line[i].OnBoard()
    ensures LineResult(b, line).Some? <==> LineWins(b, line)
  {
    var fs := Fields(b, line);
    assert First4(fs) == fs;
    SharedPropertyMeaning(fs);
    var cs := CollectSome(fs);
    if cs.None? {
      var i :| 0 <= i < 4 && fs[i].None?;
      assert !LineWins(b, line) by {
        forall a ensures !LineAgreesOn(b, line, a) {
          assert At(b, line[i]).None?;
        }
      }
    } else {
      var ps := cs.value;
      forall a ensures LineAgreesOn(b, line, a) <==> Agree(ps, a) {
        LineAgreesOnPieces(b, line, ps, a);
      }
    }
  }

  /** On four-cell lines: `FirstWinIn` is `Some` exactly when some line wins; the lines before the
      reported one do not win, and the reported one does. */
  lemma FirstWinInMeaning(b: Board, lines: seq<seq<BPos>>)
    requires LinesOk(lines) && forall k :: 0 <= k < |lines| ==> |lines[k]| == 4
    ensures FirstWinIn(b, lines).Some? <==> exists k :: 0 <= k < |lines| && LineWins(b, lines[k])
    ensures var k := FirstWinIndex(b, lines);
      && (forall j :: 0 <= j < k ==> !LineWins(b, lines[j]))
      && (k < |lines| ==> LineWins(b, lines[k]))
  {
    forall k | 0 <= k < |lines|
      ensures LineResult(b, lines[k]).Some? <==> LineWins(b, lines[k])
    {
      LineResultWins(b, lines[k]);
    }
    var k := FirstWinIndex(b, lines);
    if exists j :: 0 <= j < |lines| && LineWins(b, lines[j]) {
      var j :| 0 <= j < |lines| && LineWins(b, lines[j]);
      assert k <= j;
    }
  }

  /** The result of `check`: `Some` exactly when one of the ten lines wins. The reported line is the
      first winning one in the order of `Lines`, and its property is that line's `check_fields`
      result. */
  lemma FirstWinMeaning(b: Board)
    ensures FirstWin(b).Some? <==> exists k :: 0 <= k < 10 && LineWins(b, Lines()[k])
    ensures var k := FirstWinIndex(b, Lines());
      && (forall j :: 0 <= j < k ==> !LineWins(b, Lines()[j]))
      && (k < 10 ==>
            (LineWins(b, Lines()[k]) &&
             FirstWin(b) == Some(GameOverInfo(Lines()[k], LineResult(b, Lines()[k]).value))))
  {
    FirstWinInMeaning(b, Lines());
  }

  /** The line `check` reports is the first one whose `check_fields` is `Some`. */
  lemma {:induction false} FirstWinInAt(b: Board, lines: seq<seq<BPos>>, k: nat, property: string)
    requires LinesOk(lines) && k < |lines|
    requires forall j :: 0 <= j < k ==> LineResult(b, lines[j]).None?
    requires LineResult(b, lines[k]) == Some(property)
    ensures FirstWinIn(b, lines) == Some(GameOverInfo(lines[k], property))
  {
    if k > 0 {
      var rest := lines[1..];
      assert forall j :: 0 <= j < |rest| ==> rest[j] == lines[j + 1];
      FirstWinInAt(b, rest, k - 1, property);
    }
  }

  /** A line with an empty cell among its four gives `None`. */
  lemma EmptyCellNoResult(b: Board, line: seq<BPos>, i: int)
    requires |line| == 4 && forall j :: 0 <= j < 4 ==> line[j].OnBoard()
    requires 0 <= i < 4 && At(b, line[i]).None?
    ensures LineResult(b, line).None?
  {
    var fs := Fields(b, line);
    assert First4(fs) == fs;
    assert fs[i].None?;
  }

  /** A reported win names four occupied cells of one line whose pieces all agree on the reported
      attribute, and no attribute ranked before it is shared by all four. */
  lemma WinInfoAgrees(b: Board)
    requires FirstWin(b).Some?
    ensures var info := FirstWin(b).value;
      && |info.positions| == 4
      && (forall i :: 0 <= i < 4 ==> info.positions[i].OnBoard() && At(b, info.positions[i]).Some?)
      && exists a :: info.property == Name(a)
           && FirstAgreeing(seq(4, i requires 0 <= i < 4 => At(b, info.positions[i]).value), a)
  {
    var info := FirstWin(b).value;
    var ls := Lines();
    var k := FirstWinIndex(b, ls);
    var fs := Fields(b, ls[k]);
    assert First4(fs) == fs;
    SharedPropertyMeaning(fs);
    var ps := CollectSome(fs).value;
    assert forall i :: 0 <= i < 4 ==> At(b, info.positions[i]) == Some(ps[i]);
    var a := if Agree(ps, Size) then Size else if Agree(ps, Color) then Color
             else if Agree(ps, Shape) then Shape else Top;
    assert info.property == Name(a);
    assert seq(4, i requires 0 <= i < 4 => At(b, info.positions[i]).value) == ps;
  }

  /** A line of four distinct positions cannot win on a board whose pieces lie on at most two cells. */
  lemma NoLineWinsWithTwoPieces(b: Board, line: seq<BPos>, p: BPos, q: BPos)
    requires |line| == 4 && forall i :: 0 <= i < 4 ==> line[i].OnBoard()
    requires forall i, j :: 0 <= i < j < 4 ==> line[i] != line[j]
    requires forall c: BPos :: c.OnBoard() && At(b, c).Some? ==> c == p || c == q
    ensures !LineWins(b, line)
  {
    assert At(b, line[0]).Some? ==> line[0] == p || line[0] == q;
    assert At(b, line[1]).Some? ==> line[1] == p || line[1] == q;
    assert At(b, line[2]).Some? ==> line[2] == p || line[2] == q;
    var i :| 0 <= i < 3 && At(b, line[i]).None?;
    forall a
      ensures !LineAgreesOn(b, line, a)
    {
      assert At(b, line[i]).None?;
    }
  }

  /** No line wins while at most two cells are occupied. */
  lemma NoWinWithTwoPieces(b: Board, p: BPos, q: BPos)
    requires forall c: BPos :: c.OnBoard() && At(b, c).Some? ==> c == p || c == q
    ensures FirstWin(b).None?
  {
    FirstWinMeaning(b);
    var ls := Lines();
    forall k | 0 <= k < 10
      ensures !LineWins(b, ls[k])
    {
      NoLineWinsWithTwoPieces(b, ls[k], p, q);
    }
  }
}
