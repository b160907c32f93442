# Quart in Dafny

Quart is a two-player board game on a 4x4 board with sixteen distinct pieces. Each piece is big or
small, dark or light, round or straight, and flat or with a hole on top. One player picks a piece,
and the other places it on an empty cell. The game is over as soon as the four cells of a row, a
column or a diagonal all hold pieces with one attribute in common.

This project models the game logic of the repository and proves properties of it:

- the library board (`quart_lib/src/board.rs`): positions, pieces, the grid, `full`, `contains`,
  `remove`, `piece_count`, `check_fields` and the game-over test `check`;
- the library game (`quart_lib/src/lib.rs`);
- the two computer opponents (`quart_ai_enemy/src/rand_agent.rs` and
  `quart_ai_enemy/src/decision_tree_agent.rs`);
- the older terminal client's boards and game (`src/board.rs`, `src/game/board.rs`,
  `src/game/mod.rs`).

Modules:

- `Prelude`: Rust's `u16`, `u32` and `i32` are newtypes, and `Option` is a datatype.
- `QuartBoard`: a board is a value, a 4x4 grid of `Option<Piece>`. `board.0[y][x]` is the cell of
  position `(x, y)`. The `&mut self` operations (`IndexMut`, `remove`) return the changed board.
  The loops of the source (`full`, `remove`, `check`, `check_fields`) are methods with loop
  invariants. Each is proved equal to a specification function, and the properties of the game
  are proved about those functions.
- `QuartGame` and `LegacyGame`: the two `Game` structs are classes whose methods update their
  fields.
- `Iterators`: `find`, `filter` and `partition` over sequences.
- `RandAgent` and `DecisionTreeAgent`: the two opponents.
- `LegacyBoard`: what the older boards do differently from quart_lib. Their `BPos::new` does not
  wrap, they have an `invalid()` sentinel, and their `check_fields` and `check` return a `bool`.
  Their piece, board, indexing and `full` code is the same as quart_lib's, so `QuartBoard.At`,
  `QuartBoard.Set` and `QuartBoard.Full` model those too.

The decision-tree agent receives the piece it was handed as a parameter. In the source it reads
`game.selected_piece` and asserts that it is set.

Randomness is an input. `valid_random_move` receives the sequences of values its generator would
hand out.

## Model

| member | source | states |
|---|---|---|
| QuartBoard.NewPos | quart_lib/src/board.rs:14-21 | the position is always on the board; each coordinate is congruent to the given one modulo 4; in-range coordinates are kept as given |
| QuartBoard.EmptyBoard | quart_lib/src/board.rs:69-71 | the default board has every cell empty and a piece count of 0 |
| QuartBoard.At | quart_lib/src/board.rs:72-88 | indexing by a `BPos` or by a coordinate pair reads cell `[y][x]`, and only on the board; with its partner `Set`, a cell that was written reads back the value written and every other cell reads as before |
| QuartBoard.Set | quart_lib/src/board.rs:78-82 | writing a cell changes that cell only, and the piece count changes by the occupancy difference of that one cell |
| QuartBoard.GridIndex | quart_lib/src/board.rs:98-110 | every possible piece is the one `full` writes at some row and column of the grid |
| QuartBoard.GridPieceInjective | quart_lib/src/board.rs:98-110 | `full` writes different pieces into different cells |
| QuartBoard.FullBoard | quart_lib/src/board.rs:96-114 | the board that `full` must build: row `a` and column `b` hold the piece whose size and colour come from `a` and whose shape and top come from `b`; `Full` is proved to build exactly this board, and `FullBoardProperties` gives its properties |
| QuartBoard.Full | quart_lib/src/board.rs:96-114 | the nested loops produce exactly the full board |
| QuartBoard.FullBoardProperties | quart_lib/src/board.rs:95-114 | the full board has every cell occupied, no piece twice, every piece present, and a piece count of 16 |
| QuartBoard.RowHas | quart_lib/src/board.rs:119 | `any` over a row holds exactly when some cell of the row holds the piece |
| QuartBoard.RowsHave | quart_lib/src/board.rs:118-123 | the scan over the rows holds exactly when some row holds the piece |
| QuartBoard.Contains | quart_lib/src/board.rs:116-124 | `contains` holds exactly when some cell `[y][x]` holds the piece |
| QuartBoard.ContainsIff | quart_lib/src/board.rs:116-124 | `contains` holds exactly when some on-board position holds the piece |
| QuartBoard.Remove | quart_lib/src/board.rs:126-135 | reports whether the piece was on the board; if so, empties exactly its first cell in row order and lowers the count by one; otherwise leaves the board unchanged |
| QuartBoard.CountRows | quart_lib/src/board.rs:193 | rows of four cells hold at most four pieces each |
| QuartBoard.PieceCount | quart_lib/src/board.rs:190-194 | the count never exceeds 16 |
| QuartBoard.PieceCountFull | quart_lib/src/board.rs:190-194 | the count is 16 exactly when every cell is occupied |
| QuartBoard.EmptyCellExists | quart_ai_enemy/src/rand_agent.rs:22-26 | below 16 pieces some position is empty, so the position loop of `valid_random_move` can stop |
| QuartBoard.AbsentPieceExists | quart_ai_enemy/src/rand_agent.rs:22-31 | below 16 pieces some piece is missing from the board, so the piece loop can stop |
| QuartBoard.CollectSome | quart_lib/src/board.rs:201-203 | collecting into `Option<Vec>` succeeds exactly when every cell is filled, and then yields their pieces in order |
| QuartBoard.SharedProperty | quart_lib/src/board.rs:200-229 | the result that `check_fields` must return; `CheckFields` is proved to return exactly this, and `SharedPropertyMeaning` states what it means |
| QuartBoard.SharedPropertyMeaning | quart_lib/src/board.rs:197-229 | an empty cell among the first four gives `None`; otherwise the result names an attribute exactly when all four pieces share it and no attribute earlier in the order Size, Color, Shape, Top is shared, and it is `None` exactly when they share none |
| QuartBoard.AgreeWithFirst | quart_lib/src/board.rs:205-212 | comparing every piece with the first is the same as comparing all pairs |
| QuartBoard.EqualFlags | quart_lib/src/board.rs:205-212 | after the loop each of the four flags says whether all pieces agree on its attribute |
| QuartBoard.CheckFields | quart_lib/src/board.rs:200-229 | the method returns the specified `check_fields` result |
| QuartBoard.CheckFieldsAllEqual | quart_lib/src/board.rs:249 | four equal pieces are reported as sharing "Size" |
| QuartBoard.CheckFieldsAllNotFlat | quart_lib/src/board.rs:250-253 | pieces that differ in size, colour and shape but all have a hole are reported as sharing "Top" |
| QuartBoard.CheckFieldsOneNone | quart_lib/src/board.rs:254 | an empty fourth cell gives no result |
| QuartBoard.CheckFieldsNoEquals | quart_lib/src/board.rs:255-258 | four pieces sharing no attribute give no result |
| QuartBoard.Lines | quart_lib/src/board.rs:141-166 | there are ten lines in the order rows, columns, diagonal, anti-diagonal; each has four distinct on-board positions |
| QuartBoard.BuildLines | quart_lib/src/board.rs:141-166 | the pushing loops build exactly those ten lines |
| QuartBoard.Fields | quart_lib/src/board.rs:171 | the fields of a line are its cells, in the line's order |
| QuartBoard.FirstWinIndex | quart_lib/src/board.rs:170-187 | `try_for_each` stops at the first line whose `check_fields` is `Some` and reports that line with that property; every earlier line gives `None`; the result is `None` exactly when every line gives `None` |
| QuartBoard.FirstWin | quart_lib/src/board.rs:140-188 | the result that `check` must return, the first line of `Lines` that `check_fields` accepts; `Check` is proved to return exactly this, and `FirstWinMeaning` and `WinInfoAgrees` state what it means |
| QuartBoard.Check | quart_lib/src/board.rs:140-188 | the loop returns the specified game-over result |
| QuartBoard.LineAgreesOnPieces | quart_lib/src/board.rs:171-172 | on a filled line, agreement of the collected pieces is agreement of the line's cells |
| QuartBoard.LineResultWins | quart_lib/src/board.rs:171-173 | on a four-cell line, `check_fields` gives `Some` exactly when all four cells are occupied and share some attribute |
| QuartBoard.FirstWinInMeaning | quart_lib/src/board.rs:170-187 | the scan of any list of four-cell lines reports a win exactly when some line wins; every line before the reported one does not win, and the reported one does |
| QuartBoard.FirstWinMeaning | quart_lib/src/board.rs:137-188 | `check` returns `Some` exactly when some row, column or diagonal wins, and then names the first winning line in the order rows, columns, diagonals |
| QuartBoard.FirstWinInAt | quart_lib/src/board.rs:170-187 | if line k gives `Some(property)` and every earlier line gives `None`, then the scan reports line k with that property |
| QuartBoard.EmptyCellNoResult | quart_lib/src/board.rs:225-227 | a line with an empty cell gives no result |
| QuartBoard.WinInfoAgrees | quart_lib/src/board.rs:231-238 | a reported `GameOverInfo` names four occupied on-board cells whose pieces all share the reported property, and no attribute earlier in the order is shared |
| QuartBoard.NoLineWinsWithTwoPieces | quart_lib/src/board.rs:137-138 | a line of four distinct cells cannot win while at most two cells are occupied |
| QuartBoard.NoWinWithTwoPieces | quart_lib/src/board.rs:137-139 | `check` reports nothing while at most two cells are occupied |
| QuartGame.Game.constructor | quart_lib/src/lib.rs:33-41 | a new game selects first, player 1 moves, the board is empty and no game-over info is stored |
| QuartGame.Game.IsOver | quart_lib/src/lib.rs:43-46 | the state is `GameOver`; in a valid game, exactly when game-over info is stored |
| QuartGame.Game.Check | quart_lib/src/lib.rs:48-58 | returns true exactly when the board has a winning line; then the game becomes `GameOver` with the board's info; otherwise nothing changes; the board never changes; the invariant is kept |
| QuartGame.CheckTwice | quart_lib/src/lib.rs:50-58 | checking twice gives the same answer and leaves the game as the first check left it |
| QuartGame.NewGameNotWon | quart_lib/src/lib.rs:34-41 | the board of a new game has no winning line |
| RandAgent.RandomBPos | quart_ai_enemy/src/rand_agent.rs:35-40 | a drawn position lies on the board and keeps the drawn coordinates |
| RandAgent.RandomPiece | quart_ai_enemy/src/rand_agent.rs:41-44 | the four drawn booleans become size, colour, shape and top, in that order |
| RandAgent.ValidRandomMove | quart_ai_enemy/src/rand_agent.rs:21-34 | returns the first drawn position that is empty and the first drawn piece that is not on the board |
| RandAgent.RandomMoveExists | quart_ai_enemy/src/rand_agent.rs:22 | below 16 pieces some value the generator can draw is an empty position, and some is an absent piece |
| RandAgent.Play | quart_ai_enemy/src/rand_agent.rs:14-17 | the random agent's move uses an empty cell and a piece that is not on the board |
| Iterators.Find | quart_ai_enemy/src/decision_tree_agent.rs:133 | `find` returns an element that satisfies the predicate; it returns nothing exactly when no element does |
| Iterators.FindNoneExcludes | quart_ai_enemy/src/decision_tree_agent.rs:133 | when `find` returns nothing, no member of the sequence satisfies the predicate |
| Iterators.FindIndex | quart_ai_enemy/src/decision_tree_agent.rs:133 | `find` returns the element at the first index that satisfies the predicate |
| Iterators.Partition | quart_ai_enemy/src/decision_tree_agent.rs:137 | the first part holds only elements that satisfy the predicate, and the second part only elements that do not |
| Iterators.PartitionPermutes | quart_ai_enemy/src/decision_tree_agent.rs:137 | the two parts together are a permutation of the input |
| Iterators.PartitionHeadIsFind | quart_ai_enemy/src/decision_tree_agent.rs:133-137 | `find` returns the head of the first part of `partition` |
| Iterators.PartitionIsFilter | quart_ai_enemy/src/decision_tree_agent.rs:137 | each part keeps the input order: the parts are the filters by the predicate and by its negation |
| Iterators.Filter | quart_ai_enemy/src/decision_tree_agent.rs:102 | `filter` keeps exactly the satisfying elements and never grows the sequence |
| DecisionTreeAgent.NewMove | quart_ai_enemy/src/decision_tree_agent.rs:74-80 | the move's position is on the board and keeps in-range coordinates; the piece is kept |
| DecisionTreeAgent.PieceIndex | quart_ai_enemy/src/decision_tree_agent.rs:84-97 | each piece has an index below 16 in `get_all_pieces` |
| DecisionTreeAgent.AllPieces | quart_ai_enemy/src/decision_tree_agent.rs:84-97 | `get_all_pieces` yields sixteen pieces; its partner `AllPiecesProperties` proves them pairwise distinct, every piece among them, and each present on `Board::full()` |
| DecisionTreeAgent.AllPiecesProperties | quart_ai_enemy/src/decision_tree_agent.rs:140-145 | `get_all_pieces` yields 16 pairwise distinct pieces, every piece among them, each on `Board::full()` |
| DecisionTreeAgent.PositionsProperties | quart_ai_enemy/src/decision_tree_agent.rs:115 | `iproduct!(0..4, 0..4)` visits every on-board position exactly once, column by column |
| DecisionTreeAgent.EmptyIn | quart_ai_enemy/src/decision_tree_agent.rs:116 | the filter keeps exactly the empty positions and never grows the sequence |
| DecisionTreeAgent.EmptyInIncreasing | quart_ai_enemy/src/decision_tree_agent.rs:116 | the filter keeps the visiting order |
| DecisionTreeAgent.EmptyPositions | quart_ai_enemy/src/decision_tree_agent.rs:102-116 | every position the empty-cell filter keeps is on the board and empty; its partners prove that every empty cell is kept (`EmptyPositionsComplete`, `EmptyPositionsExact`), in column order (`EmptyPositionsIncreasing`), and `16 - piece_count` of them (`EmptyPositionsCount`) |
| DecisionTreeAgent.EmptyPositionsCount | quart_ai_enemy/src/decision_tree_agent.rs:115-116 | there are `16 - piece_count` empty positions |
| DecisionTreeAgent.AgentMoves | quart_ai_enemy/src/decision_tree_agent.rs:112-119 | each agent move places the selected piece on an empty cell |
| DecisionTreeAgent.EmptyPositionsComplete | quart_ai_enemy/src/decision_tree_agent.rs:115-116 | every empty cell is among the empty positions |
| DecisionTreeAgent.EmptyPositionsExact | quart_ai_enemy/src/decision_tree_agent.rs:115-116 | the empty positions are exactly the empty on-board cells |
| DecisionTreeAgent.EmptyPositionsIncreasing | quart_ai_enemy/src/decision_tree_agent.rs:115-116 | the empty positions come column by column |
| DecisionTreeAgent.AgentMovesMeaning | quart_ai_enemy/src/decision_tree_agent.rs:112-119 | the agent moves are exactly the placements of the selected piece on empty cells, one per empty cell, column by column |
| DecisionTreeAgent.FreePieces | quart_ai_enemy/src/decision_tree_agent.rs:104-105 | the pieces kept are exactly those not on the board |
| DecisionTreeAgent.MovesAt | quart_ai_enemy/src/decision_tree_agent.rs:104-106 | for one position, one move per piece of the list, and no other moves |
| DecisionTreeAgent.Product | quart_ai_enemy/src/decision_tree_agent.rs:101-108 | the `flat_map` yields every position paired with every piece, and nothing else |
| DecisionTreeAgent.PlayerMoves | quart_ai_enemy/src/decision_tree_agent.rs:99-109 | the player's moves are exactly the placements of a piece not on the board onto an empty cell |
| DecisionTreeAgent.ApplyMove | quart_ai_enemy/src/decision_tree_agent.rs:121-127 | the move's cell receives its piece, no other cell changes, and the count grows by one; an occupied cell is excluded, because the source panics on it |
| DecisionTreeAgent.IsWinningMove | quart_ai_enemy/src/decision_tree_agent.rs:128-130 | a move wins when `check` reports a line on the board after the move; by `FirstWinMeaning`, exactly when some row, column or diagonal of that board wins |
| DecisionTreeAgent.FindWinningMove | quart_ai_enemy/src/decision_tree_agent.rs:131-134 | a returned move is from the list, applicable and winning |
| DecisionTreeAgent.FindWinningMoveMeaning | quart_ai_enemy/src/decision_tree_agent.rs:128-134 | `find_winning_move` returns the first winning move; every move before it is applicable and does not win; it returns nothing exactly when no move of the list wins |
| DecisionTreeAgent.PartitionMoves | quart_ai_enemy/src/decision_tree_agent.rs:135-138 | the first part holds only winning moves, and the second holds none |
| DecisionTreeAgent.PartitionMovesMeaning | quart_ai_enemy/src/decision_tree_agent.rs:135-138 | the parts together are a permutation of the moves, and the first winning move heads the winning part |
| DecisionTreeAgent.IsSafe | quart_ai_enemy/src/decision_tree_agent.rs:44-57 | the safety test of `play`: no player move after the agent's move wins; its partner `IsSafeMeaning` proves this is exactly "no placement of a free piece on an empty cell wins" |
| DecisionTreeAgent.IsSafeMeaning | quart_ai_enemy/src/decision_tree_agent.rs:44-57 | a move is kept as safe exactly when, after it, no placement of any free piece on any empty cell wins |
| DecisionTreeAgent.Decide | quart_ai_enemy/src/decision_tree_agent.rs:27-61 | a decided cell is an empty on-board cell |
| DecisionTreeAgent.DecideByIndex | quart_ai_enemy/src/decision_tree_agent.rs:36-61 | `play` takes the first winning agent move if there is one, else the first safe one, else it decides nothing |
| DecisionTreeAgent.AgentMoveIndex | quart_ai_enemy/src/decision_tree_agent.rs:113-119 | the selected piece on an empty cell `q` is one of the agent moves, and every move before it lies no later than `q`, column by column |
| DecisionTreeAgent.DecideWins | quart_ai_enemy/src/decision_tree_agent.rs:36-40 | if some empty cell wins, `play` takes a winning cell no later than it, column by column, and hands over `Piece::default()` |
| DecisionTreeAgent.DecideSafe | quart_ai_enemy/src/decision_tree_agent.rs:42-61 | if no cell wins but some cell is safe, `play` takes a cell no later than it and hands back the selected piece |
| DecisionTreeAgent.DecideSafeChoice | quart_ai_enemy/src/decision_tree_agent.rs:44-61 | if no cell wins, the cell `play` takes leaves the player no winning placement |
| DecisionTreeAgent.NoWinningAgentMove | quart_ai_enemy/src/decision_tree_agent.rs:36 | if no empty cell wins, the search for a winning agent move runs to the end of the list |
| DecisionTreeAgent.DecideNoneMeaning | quart_ai_enemy/src/decision_tree_agent.rs:63-65 | `play` falls back to a random move exactly when no empty cell is winning or safe |
| DecisionTreeAgent.SafeBranchHandsBackPlacedPiece | quart_ai_enemy/src/decision_tree_agent.rs:59-61 | as written, the safe branch hands over the selected piece, which is already on the board after the move |
| DecisionTreeAgent.NoWinAfterTwoMoves | quart_ai_enemy/src/decision_tree_agent.rs:128-130 | on an empty board, neither the first nor the second placement wins |
| DecisionTreeAgent.NothingPlacedYet | quart_ai_enemy/src/decision_tree_agent.rs:36-57 | on an empty board no agent move wins, and the move to (0, 0) is safe |
| DecisionTreeAgent.FirstCellDecision | quart_ai_enemy/src/decision_tree_agent.rs:44-61 | if nothing wins and the first cell in column order is safe, `play` returns that cell with the selected piece |
| DecisionTreeAgent.EmptyBoardDecision | quart_ai_enemy/src/decision_tree_agent.rs:59-61 | on the empty board `play` returns (0, 0) and the selected piece, which is then on the board |
| DecisionTreeAgent.HandOver | quart_ai_enemy/src/decision_tree_agent.rs:84-97 | below 16 pieces, the piece handed over is not on the board |
| DecisionTreeAgent.FreePiecesExist | quart_ai_enemy/src/decision_tree_agent.rs:104-105 | below 16 pieces, some piece is free |
| DecisionTreeAgent.DecideCorrected | quart_ai_enemy/src/decision_tree_agent.rs:32-61 | a decided cell is an empty on-board cell |
| DecisionTreeAgent.DecideCorrectedAgrees | quart_ai_enemy/src/decision_tree_agent.rs:36-61 | the correction picks the same cells, falls back in the same cases, and leaves the winning branch unchanged |
| DecisionTreeAgent.DecideCorrectedHandsFreePiece | quart_ai_enemy/src/decision_tree_agent.rs:42-61 | in the corrected safe branch, the piece handed over is free after the move, and no placement of it wins for the player |
| DecisionTreeAgent.Play | quart_ai_enemy/src/decision_tree_agent.rs:27-66 | as written: the move uses an empty cell; it is the as-written decision when there is one; otherwise it is the random move, whose piece is not on the board |
| DecisionTreeAgent.PlayCorrected | quart_ai_enemy/src/decision_tree_agent.rs:27-66 | with the corrected hand-over: the move uses an empty cell; it is the corrected decision when there is one; otherwise it is the random move, whose piece is not on the board |
| DecisionTreeAgent.ApplyMoveExample | quart_ai_enemy/src/decision_tree_agent.rs:146-163 | the move to (3, 1) on the empty board lands in row 1, column 3 |
| DecisionTreeAgent.ApplyInvalidMoveExample | quart_ai_enemy/src/decision_tree_agent.rs:164-176 | moving onto the occupied cell (3, 1) is not an applicable move |
| DecisionTreeAgent.AllBigShareSize | quart_lib/src/board.rs:213-214 | four filled cells with big pieces are reported as sharing "Size" |
| DecisionTreeAgent.ColumnOfBigPiecesWins | quart_lib/src/board.rs:140-188 | on the board of the winning-move test, the first winning line is column 3, won on size |
| DecisionTreeAgent.IsWinningMoveExample | quart_ai_enemy/src/decision_tree_agent.rs:177-189 | the fourth big piece at (3, 3) wins, and `check` then names column 3 and "Size" |
| LegacyBoard.NewPos | src/game/board.rs:9-12 | coordinates are stored as given; the position is on the board exactly when both are below 4 |
| LegacyBoard.NewPosAgrees | src/board.rs:47-50 | on the board this agrees with quart_lib's wrapping `BPos::new`; off the board it names no cell, while quart_lib's version wraps onto one |
| LegacyBoard.Invalid | src/game/board.rs:13-16 | the sentinel is (99, 99), which is not on the board |
| LegacyBoard.IsInvalid | src/game/board.rs:17-20 | holds exactly for the sentinel |
| LegacyBoard.OnBoardIsValid | src/board.rs:51-58 | no on-board position is taken for the sentinel |
| LegacyBoard.CheckFields | src/game/board.rs:121-141 | the boolean result holds exactly when quart_lib's `check_fields` returns `Some` |
| LegacyBoard.CheckFieldsMeaning | src/game/board.rs:121-141 | the boolean result holds exactly when the first four cells are filled and their pieces share some attribute |
| LegacyBoard.CheckFieldsExamples | src/game/board.rs:143-156 | "all equal" and "all not flat" hold; "1 none" and "no equals" do not |
| LegacyBoard.Check | src/game/board.rs:86-118 | `any` over the lines holds exactly when quart_lib's `check` reports a win, that is, exactly when some line wins |
| LegacyGame.CursorStep | src/game/mod.rs:51-55 | the coordinate lands in 0..4; if the shifted sum is not negative it is the wrap-around modulo 4; otherwise `abs` mirrors it |
| LegacyGame.CursorStepWraps | src/game/mod.rs:51-55 | from an on-board coordinate, a step of at most 4 either way wraps around the edge; +1 and -1 go to the neighbour cell, cyclically |
| LegacyGame.Game.constructor | src/game/mod.rs:35-46 | all sixteen pieces are in the pool and the main board is empty; the cursor is at (0, 0); player 1 selects; the invariant holds |
| LegacyGame.Game.IsOver | src/game/mod.rs:47-50 | the state is `GameOver`; in a valid game, exactly when game-over info is stored |
| LegacyGame.Game.MoveCursor | src/game/mod.rs:51-55 | both coordinates take one cursor step, so the cursor ends on the board; nothing else changes |
| LegacyGame.Game.SetCursorX | src/game/mod.rs:56-59 | only the cursor's column changes, even to an off-board value |
| LegacyGame.Game.SetCursorY | src/game/mod.rs:60-63 | only the cursor's row changes, even to an off-board value |
| LegacyGame.Game.Enter | src/game/mod.rs:64-83 | selecting takes the pool cell under the cursor into hand and, if it held a piece, passes the turn and moves to placing; placing on an empty main cell puts the piece down and goes back to selecting; an occupied cell or a finished game changes nothing; the sixteen pieces are conserved |
| LegacyGame.Game.Check | src/game/mod.rs:84-94 | returns true exactly when the main board has a winning line; then the game becomes `GameOver` with the board's info; otherwise nothing changes; no board changes; the invariant is kept |

## Left out

- Rendering, terminal input and output, the web server, the UI state, the error type, the AI
  trait's module and all `Debug` implementations. They are outside the game logic.
- The `log::trace!` calls in `check` and `play`. They only write to the log.
- The random generator itself. `valid_random_move` receives the values it would draw, and the
  model assumes that they contain an acceptable position and an acceptable piece. The distribution
  is not modelled, and neither is the chance that the loops go on forever.
- Boards are values. `IndexMut` and `remove` return the new board instead of changing one in
  place, and `apply_move` and `is_winning_move` receive copies, as in the source.
- Rust panics are preconditions:
  - for out-of-range indexing (`OnBoard`);
  - for `apply_move` on an occupied cell;
  - for `u32` underflow of `3 - player_turn`, which `enter` evaluates only when it takes a piece
    from the pool;
  - for `i32` overflow in `move_cursor`;
  - for `check_fields` on an empty slice;
  - for `valid_random_move` on a full board (the `piece_count() < 16` assertion). This is the
    `PieceCount < 16` requires of `RandAgent.ValidRandomMove` and `RandAgent.Play`, and the
    fallback case of the requires of `DecisionTreeAgent.Play` and `DecisionTreeAgent.PlayCorrected`.
- The decision-tree agent receives the handed piece as a `Piece`. In the source it reads
  `game.selected_piece` from a game (`assert!(game.selected_piece.is_some())`), but quart_lib's
  `Game` has no such field, so the source does not compile as written.
- `src/game/mod.rs`: `check` matches `self.main_board.check()` against `Some(info)`, yet the board
  of `src/game/board.rs` returns a `bool`. That combination does not compile. The model uses
  quart_lib's `check`, which returns the `Option<GameOverInfo>` the caller expects.
- LegacyBoard.Check: builds its lines with quart_lib's `BuildLines`, whose `BPos::new` wraps.
  The older boards' `BPos::new` does not wrap, but every coordinate there is below 4, where the
  two agree (`LegacyBoard.NewPosAgrees`).
- The tests of `check_fields` in quart_lib wrap an `Option<String>` in `assert!`. They are modelled
  with the evident meaning: `Some` for the positive cases and `None` for the negative ones.
- DecisionTreeAgent.PlayerMoves: states membership, not the length
  `(16 - piece_count) * free pieces`. That nonlinear count is not proved.
- DecisionTreeAgent.PartitionMoves: requires every move of the list to be applicable. In the
  source `partition` calls `apply_move` on each of them and panics otherwise.
- DecisionTreeAgent.PlayCorrected: uses the corrected hand-over, see Findings. The as-written
  `play` is `DecisionTreeAgent.Play`, built on `Decide`; the random fallback is the same in both.
- DecisionTreeAgent.FindWinningMove: requires only the moves that `find` actually reaches to be
  applicable. Past the first winning move the list is never looked at.
- LegacyGame.Game.Valid counts pieces: pool, main board and hand hold sixteen in all. It does not
  prove that they are sixteen different pieces.

## Findings

| source | as written | input that shows it | evidently intended | confidence | as-written member | corrected member |
|---|---|---|---|---|---|---|
| quart_ai_enemy/src/decision_tree_agent.rs:59-61 | the safe branch returns `(not_losing_move.pos, not_losing_move.piece)`; that piece is the selected piece the agent has just placed, so the player is "handed" a piece that is already on the board (the FIXME at lines 32-34 notes the mix-up) | the empty board with any selected piece `p`: `play` returns `((0, 0), p)`, and after the move `p` is on the board | a safe cell paired with a piece that is still free after the move | not executed | DecisionTreeAgent.SafeBranchHandsBackPlacedPiece, DecisionTreeAgent.EmptyBoardDecision | DecisionTreeAgent.DecideCorrected, DecisionTreeAgent.DecideCorrectedHandsFreePiece, DecisionTreeAgent.PlayCorrected |
