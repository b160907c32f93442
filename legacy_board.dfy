/** The two older boards of the terminal game (`src/board.rs` and `src/game/board.rs`). They share
    the piece, position and grid types of quart_lib and their `full` and indexing code, but build
    positions without wrapping, keep an `invalid()` sentinel and answer the game-over test with a
    `bool`. */
module LegacyBoard {
  import opened Prelude
  import opened QuartBoard

  /** `BPos::new` of the older boards: the coordinates are stored as given. */
  function NewPos(x: u16, y: u16): (p: BPos)
    ensures p.x == x && p.y == y
    ensures p.OnBoard() <==> x < 4 && y < 4
  {
    BPos(x, y)
  }

  /** On the board the older `BPos::new` agrees with quart_lib's wrapping one; off the board it
      names no cell at all, where quart_lib's would wrap onto one. */
  lemma NewPosAgrees(x: u16, y: u16)
    ensures x < 4 && y < 4 ==> NewPos(x, y) == QuartBoard.NewPos(x, y)
    ensures !(x < 4 && y < 4) ==> !NewPos(x, y).OnBoard() && QuartBoard.NewPos(x, y).OnBoard()
  {
  }

  /** `BPos::invalid()`: the sentinel (99, 99), which is not a cell of the board. */
  function Invalid(): (p: BPos)
    ensures p.x == 99 && p.y == 99
    ensures !p.OnBoard()
  {
    BPos(99, 99)
  }

  /** `_is_invalid`: the position is the sentinel. */
  function IsInvalid(p: BPos): (r: bool)
    ensures r <==> p == Invalid()
  {
    p.x == 99 && p.y == 99
  }

  /** A position that names a cell is never taken for the sentinel. */
  lemma OnBoardIsValid(p: BPos)
    requires p.OnBoard()
    ensures !IsInvalid(p)
  {
  }

  /** The boolean `check_fields`: the same collection and `equal` fold as quart_lib's, ending in
      the disjunction of the four flags. */
  method CheckFields(fields: seq<Cell>) returns (r: bool)
    requires |fields| > 0
    ensures r <==> SharedProperty(fields).Some?
  {
    var first4 := CollectSome(First4(fields));
    if first4.None? {
      return false;
    }
    var equal := EqualFlags(first4.value);
    r := equal.0 || equal.1 || equal.2 || equal.3;
  }

  /** The boolean `check_fields` holds exactly when the first four cells are filled and their
      pieces agree on some attribute. */
  lemma CheckFieldsMeaning(fields: seq<Cell>)
    requires |fields| > 0
    ensures SharedProperty(fields).Some? <==>
      CollectSome(First4(fields)).Some? && exists a :: Agree(CollectSome(First4(fields)).value, a)
  {
    SharedPropertyMeaning(fields);
  }

  /** The test cases of the boolean `check_fields`: "all equal" and "all not flat" hold, "1 none"
      and "no equals" do not. */
  lemma CheckFieldsExamples()
    ensures SharedProperty([Some(P_bdrf), Some(P_bdrf), Some(P_bdrf), Some(P_bdrf)]).Some?
    ensures SharedProperty([Some(P_bdrf), Some(P_BdRf), Some(P_bDrf), Some(P_BDrf)]).Some?
    ensures SharedProperty([Some(P_bdrf), Some(P_bdrf), Some(P_bdrf), None]).None?
    ensures SharedProperty([Some(P_bdrf), Some(P_BdRf), Some(P_bDrf), Some(P_BDrF)]).None?
  {
    CheckFieldsAllEqual();
    CheckFieldsAllNotFlat();
    CheckFieldsOneNone();
    CheckFieldsNoEquals();
  }

  /** The boolean `check`: `any` over the ten lines. The lines are built with quart_lib's loops;
      every coordinate there is below 4, where both versions of `BPos::new` agree (`NewPosAgrees`).
      It is true exactly when quart_lib's `check` reports a win, that is, exactly when some row,
      column or diagonal wins. */
  method Check(b: Board) returns (r: bool)
    ensures r <==> FirstWin(b).Some?
    ensures r <==> exists k :: 0 <= k < 10 && LineWins(b, Lines()[k])
  {
    FirstWinMeaning(b);
    ghost var k := FirstWinIndex(b, Lines());
    var all := BuildLines();
    var i := 0;
    while i < |all|
      invariant 0 <= i <= |all|
      invariant forall j :: 0 <= j < i ==> LineResult(b, all[j]).None?
    {
      var positions := all[i];
      var fields := seq(|positions|, k requires 0 <= k < |positions| => At(b, positions[k]));
      assert fields == Fields(b, positions);
      var chk := CheckFields(fields);
      if chk {
        return true;
      }
      i := i + 1;
    }
    return false;
  }
}
