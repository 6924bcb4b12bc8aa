# A verified model of the Go game core

This project models the core of a small Go program written in Python. It covers:

- the game session (`src/game.py`, class `Game`):
  - the consecutive-pass counter and the end of the game;
  - placing a stone and rolling it back when the group manager rejects the move;
  - area scoring by flood fill over the empty cells;
- the move-reading helpers of the terminal front end (`src/game.py`, class `GameUI`):
  - coordinate labels `0`..`9`, `A`, `B`, ...;
  - `"y x"` and `"pass"` input;
  - the board-bounds test;
  - the Manhattan rings around a point and the search for the nearest empty cell;
  - switching turns;
- the stone constants and helpers of `src/utils.py`.

The program is modelled in Dafny in the form the source has:

- The scorer is a method that fills a two-dimensional `traversed` array in place. It uses a search stack, as the source does.
- The session is a class whose fields the methods update.
- The helpers are functions.

The scorer is proved against a reference definition of territory (module `Regions`):

- a region is a maximal 4-connected set of empty cells;
- its border colours are the stone colours adjacent to it;
- the region counts for a colour exactly when that colour is its only border colour.

`Game.GetScores` is proved to return, for each colour, that territory minus the colour's captured stones.

Files:

- `wrappers.dfy`: `Option`, `Result`.
- `stones.dfy`: module `Stones`, for `src/utils.py`.
- `board.dfy`: module `Board`. It holds the grid operations the game uses. The board class itself is not part of this model.
- `regions.dfy`: module `Regions`, the reference definition of regions and territory.
- `game.dfy`: module `GoGame`, for class `Game` of `src/game.py`.
- `game_ui.dfy`: module `GameUI`, for the helpers of class `GameUI` of `src/game.py`.

The group manager's capture, suicide and ko analysis (`src/group.py`) is not part of this model. The board class (`src/board.py`) is not part of this model either. The group manager's verdict on a move is an input of type `Resolution`:

- either the move stands, with the stones it removed, the captures it adds and the ko bookkeeping that `update_state` commits;
- or it raises `SelfDestructException`/`KoException`, having first removed the stones of `removed` and added its captures to the counts.

## Model

| member | source | states |
|---|---|---|
| Stones.Code | src/utils.py:1-4 | EMPTY is 0 and the only stone whose code is 0, so it is the only falsy stone; codes lie in 0..2 |
| Stones.CodeInjective | src/utils.py:1-4 | the three stone constants are pairwise distinct |
| Stones.FirstTruthy | src/game.py:131 | `stone or this_stone` keeps the remembered stone when it is a colour and otherwise takes the new stone; it is never EMPTY when the new stone is a colour |
| Stones.GetColor | src/utils.py:13-17 | BLACK is drawn (0,0,0), WHITE (255,255,255), and any other stone has no colour |
| Stones.GetOppositeStone | src/utils.py:20-24 | requires a non-EMPTY stone; the result is neither EMPTY nor the argument, so BLACK and WHITE swap |
| Stones.OppositeIsInvolution | src/utils.py:20-24 | taking the opposite twice gives the stone back |
| Stones.Make2DArray | src/utils.py:27-28 | `h` rows of `w` cells, every cell holding the default value |
| Board.EmptyBoard | src/game.py:22-23 | the board of a new game is `n` by `n` with every cell EMPTY |
| Board.Place | src/game.py:73 | writing a stone changes that cell and no other |
| Board.RemoveAll | src/game.py:76 | the group manager's removals empty exactly the removed cells |
| Board.LibertyCoords | src/game.py:128 | the neighbours visited are exactly the on-board cells at distance 1 |
| Board.NeighbourSymmetric | src/game.py:128 | adjacency is symmetric |
| Regions.EmptyCells | src/game.py:146 | the cells the scorer starts floods from: exactly the empty on-board cells |
| Regions.RegionShape | src/game.py:119-142 | a region contains its seed, holds only empty cells and is closed under empty neighbours |
| Regions.ClosedContainsRegion | src/game.py:126-138 | any set of empty cells closed under empty neighbours that holds the seed holds its whole region, so the flood cannot stop early |
| Regions.RegionOwnerUniform | src/game.py:119-142 | every cell of a region is credited to the same colour as the region |
| Regions.RegionCredit | src/game.py:146-149 | counting a new region adds its cell count to its owner's total and nothing to the other colour |
| Regions.TerritoryBound | src/game.py:115-149 | no cell is credited to both colours, so the two territories together are at most the number of empty cells |
| Regions.EmptyBoardNoTerritory | src/game.py:144-153 | on a board without stones neither colour has territory |
| Regions.ColoursAtMembers | src/game.py:128-133 | a colour is among those seen next to a cell exactly when a stone of that colour is one of its neighbours |
| GoGame.AfterPlacement | src/game.py:66-85 | the board after a placement, cell by cell: on an accepted move the placed cell holds the stone unless the group manager removed it; on a rejected move the placed cell is EMPTY; every other cell is EMPTY if removed and unchanged otherwise |
| GoGame.AcceptedMoveOnlyPlaces | src/game.py:73-85 | an accepted move that takes no stone off the board leaves the board with only the new stone written |
| GoGame.RejectedMoveClearsOnlyPlacedCell | src/game.py:74-82 | after a rejected move the placed cell is EMPTY and every other cell is as the group manager left it |
| GoGame.RejectedMoveRestoresBoard | src/game.py:74-82 | a rejected move on an empty cell that removed nothing leaves the board exactly as before |
| GoGame.RejectedMoveOnOccupiedCellLosesStone | src/game.py:66-82 | nothing in `_place_stone` checks that the cell was empty: a rejected move on an occupied cell leaves that cell EMPTY |
| GoGame.Game.constructor | src/game.py:20-34 | a new game has an empty board, no passes and no captures |
| GoGame.Game.PassTurn | src/game.py:48-52 | the pass counter goes up by exactly one and nothing else changes |
| GoGame.Game.IsOver | src/game.py:54-58 | the game is over exactly when there have been at least two consecutive passes |
| GoGame.Game.IsWithinBounds | src/game.py:60-64 | both coordinates lie in [0, size) |
| GoGame.Game.PlaceStone | src/game.py:66-85 | EMPTY changes nothing; otherwise the captured counts are as the group manager left them; a rejected move raises the same violation, empties the placed cell, and leaves the pass counter and the committed ko state alone; an accepted move resets the pass counter to 0 and commits the ko state |
| GoGame.Game.PlaceBlack | src/game.py:36-40 | places a black stone as `_place_stone` does: the board after placement, the captured counts as the group manager left them, and on acceptance the pass counter reset to 0 and the ko state committed, on rejection both unchanged |
| GoGame.Game.PlaceWhite | src/game.py:42-46 | the same for a white stone |
| GoGame.Game.GetScores | src/game.py:107-153 | each colour's score is its territory (empty cells of regions bordered by that colour alone) minus its captured stones |
| GoGame.ScoreBoard | src/game.py:115-149 | starting from a fresh `traversed` array, the two scanning loops give each colour exactly its territory |
| GoGame.ScoreRow | src/game.py:145-149 | after row `y` every empty cell of rows 0..y is in a flooded region, the marks match the flooded cells, and each score counts the flooded cells credited to its colour |
| GoGame.ScoreCell | src/game.py:146-149 | after visiting (y, x) that cell is flooded if it is empty, and the scores still count exactly the credited flooded cells |
| GoGame.ScoreRegion | src/game.py:146-149 | flooding from an unmarked empty cell adds exactly its region to the flooded cells, and each colour's score grows by the region's size when the region is credited to it and by nothing otherwise |
| GoGame.FloodGain | src/game.py:139-149 | the flood fill's (score, stone) credits a colour with the region's size exactly when the region is that colour's, so `scores[stone] += score` adds the region's gain |
| GoGame.Credit | src/game.py:148-149 | `scores[stone] += score` only for a colour; no change for `None` or a neutral region |
| GoGame.Traverse | src/game.py:119-142 | `traverse(y, x)` marks exactly the region of (y, x); it returns no stone iff the region borders none, otherwise the region's owner and its full size, or (0, EMPTY) when both colours border it |
| GoGame.Flood | src/game.py:120-138 | the search loop visits a set closed under empty neighbours (outside earlier regions), counts it, and tracks the colours bordering it |
| GoGame.FloodStep | src/game.py:126-138 | one turn of the search loop: the popped cell becomes processed, every empty neighbour of a processed cell is reached, and the reached cells are exactly the processed ones and those still on the stack |
| GoGame.VisitNeighbours | src/game.py:128-138 | after the neighbours of one cell: every empty unmarked neighbour is counted and pushed, and the colours met are added |
| GoGame.VisitLiberty | src/game.py:129-138 | one neighbour: its colour is remembered (a second colour makes the region neutral); an unmarked empty neighbour is counted and pushed; it is then marked |
| GoGame.TallyRegion | src/game.py:147-149 | the flood's reported score and stone add the region's size to its owner's territory and nothing otherwise |
| GoGame.AbsorbRegion | src/game.py:144-147 | the flooded cells remain a union of whole regions |
| GoGame.ColourStateOwner | src/game.py:140-142 | the flood's final (stone, is_neutral) names the region's owner: EMPTY when both colours met, else the one met |
| GoGame.ColourStateMeet | src/game.py:130-133 | meeting a stone keeps (stone, is_neutral) in step with the set of colours met |
| GameUI.IsNumeric | src/game.py:392 | `isnumeric()` on a label: a numeral is a single word and never also passes the letter test |
| GameUI.IsAlpha | src/game.py:397 | `isalpha()` on a label: a word of letters, which the `label >= "A"` test never rejects |
| GameUI.LexLess | src/game.py:397 | Python's string `<`: the greater string is non-empty and its first character is not below the smaller's |
| GameUI.LexLessStrict | src/game.py:397 | that order is strict: never both ways and never a string before itself |
| GameUI.DecimalValue | src/game.py:393 | `int` of a one-digit numeral is its digit |
| GameUI.DecimalValueBelowTen | src/game.py:392-396 | a numeral is below 10 exactly when all digits before the last are zeros |
| GameUI.LabelToCoord | src/game.py:383-402 | accepted exactly for a numeral below 10 (its value) or a single letter (10 + distance from 'A'); several letters fail in `ord`; a numeral of 10 or more and every other failure is InvalidInput |
| GameUI.LabelRoundTrip | src/game.py:383-402 | reading the label of coordinate k (0..35) gives k back |
| GameUI.Words | src/game.py:378 | `split()` yields non-empty words free of whitespace |
| GameUI.WordsContent | src/game.py:378 | the words of `split()`, run together, are exactly the text with its whitespace removed |
| GameUI.WordsSplitAt | src/game.py:378 | a whitespace character separates the words before it from the words after it: `split()` cuts at every whitespace run and nowhere else |
| GameUI.IsSpace | src/game.py:378 | the whitespace `split()` separates on is never a digit or a letter, so it is never part of a label |
| GameUI.WordsUnwords | src/game.py:378 | splitting words joined by spaces gives the words back |
| GameUI.ParseCoordinates | src/game.py:374-381 | not exactly two words is an unpacking error; success iff both words are labels, and then the position is (row label's value, column label's value); otherwise the row label's error, or the column label's when the row is valid |
| GameUI.ParseMove | src/game.py:404-410 | the move is a pass iff the text is exactly "pass"; any other text succeeds iff `_parse_coordinates` does, with its position or its error |
| GameUI.ParseMoveText | src/game.py:404-410 | reading back what is typed for a move gives the move |
| GameUI.IsValidInput | src/game.py:361-372 | valid iff some text was entered, it reads as a move, and a placement lies on the board |
| GameUI.OutOfBounds | src/game.py:253-257 | off the board iff not within [0, n) in both coordinates |
| GameUI.RingRow | src/game.py:263-269 | one row offset of the generator: the on-board cells at distance k in that row, right to left |
| GameUI.RingRows | src/game.py:262-269 | the rows from offset dy on, in row order |
| GameUI.SurroundingPositions | src/game.py:259-269 | exactly the on-board positions at Manhattan distance k, each once, by row then right to left |
| GameUI.FirstEmpty | src/game.py:248-250 | the first empty cell of a ring, or none when the ring has no empty cell |
| GameUI.SearchRings | src/game.py:247-251 | the loop over rings k..limit-1 finds an empty cell in the nearest ring that has one, and fails iff no empty cell lies in those rings |
| GameUI.DefaultCentre | src/game.py:242 | the centre `[size // 2, size // 2]` lies on the diagonal, on the board whenever the board has a cell, and twice its coordinate is the size or one less |
| GameUI.NextBestPosition | src/game.py:246-251 | an empty cell nearest to the centre, at distance below n; BoardFull iff no empty cell lies within distance n - 1 |
| GameUI.NextBestPositionFirstInRing | src/game.py:246-251 | among equally near empty cells the first one the ring generator yields is returned |
| GameUI.NextBestPositionMissesFarCell | src/game.py:241-251 | on any board of even size whose only empty cell is the corner (0, 0), searched from the default centre, BoardFull is reported although that cell is empty |
| GameUI.NextBestPositionMissesFarCellOnTwoByTwo | src/game.py:241-251 | the same on the 2 by 2 board with rows (EMPTY, BLACK) and (BLACK, WHITE) |
| GameUI.NearestEmpty | src/game.py:246-251 | the corrected search: a nearest empty cell, and BoardFull iff the board has no empty cell |
| GameUI.NearestEmptyExtendsNextBest | src/game.py:246-251 | whenever the written search finds a cell, the corrected one finds the same cell |
| GameUI.SearchRingsLimit | src/game.py:247-251 | a successful ring search is unchanged by any limit beyond the ring of its result |
| GameUI.NearestEmptyFindsFarCell | src/game.py:246-251 | on the same boards the corrected search finds the empty corner |
| GameUI.NearestEmptyFindsFarCellOnTwoByTwo | src/game.py:246-251 | the corrected search finds the empty corner of the 2 by 2 example |
| GameUI.NextTurn | src/game.py:337-341 | the next player is never EMPTY; it is the opposite of a player who has the turn, and WHITE when no one has |
| GameUI.GameUI.constructor | src/game.py:161-175 | a new front end drives a new game on an empty board, with no captures and no ko mark, and BLACK moves first |
| GameUI.GameUI.SwitchTurns | src/game.py:337-341 | the turn passes to the next player |
| GameUI.GameUI.PlaceMove | src/game.py:315-329 | the current player's stone is placed; the turn is over unless the move was rejected; the game's captured counts, pass counter and ko state change as `place_black`/`place_white` change them |

## Left out

- Rendering and interaction are not modelled: `src/ui.py` (pygame drawing), `Game.render_board`, `GameUI.play`, `handle_user_input`, `_display_result`, `_prompt_move` and `_get_player_name`. They are event polling, `input()` and `print()`.
- The hover cursor (`_move_hover` with `skip_stones`/`skip_edges`, `_default_hover`) is not modelled. Its centre point `[size // 2, size // 2]` is kept as `GameUI.DefaultCentre` for the nearest-cell search.
- The board class and the group manager are not part of this model: `Board.place_stone`, `remove_stone`, `get_liberty_coords`, `resolve_board` and `update_state`.
  - The board's operations are modelled as plain grid writes and reads.
  - A new `Board(config)` is taken to be `board_size` by `board_size` with every cell EMPTY (`Board.EmptyBoard`); the board class's constructor is not part of this model.
  - `get_liberty_coords` is taken to list the on-board neighbours up, down, left, right. The scores do not depend on this order, because they are proved against an order-free definition.
  - The outcome of `resolve_board` is an input. No capture, suicide or ko analysis is modelled.
- GoGame.Game.PlaceStone: requires the cell to be on the board. Off-board behaviour belongs to the board class, which is not part of this model. The same applies to PlaceBlack, PlaceWhite and GameUI.GameUI.PlaceMove.
- GoGame.Game.PlaceStone: on a rejected move the captured counts are whatever `resolve_board` added before raising (the `blackTaken`/`whiteTaken` of the input); `koGuard` models only the ko state that `update_state` commits, which a rejected move never reaches. Any ko bookkeeping that `resolve_board` changes inside the group manager before raising is not modelled.
- Exceptions become values:
  - a rejected move returns `Some(violation)`;
  - label and move errors return `Err(InvalidInput | UnpackError | OrdError)`;
  - a failed search returns `Err(BoardFull)`.
  - The `except Exception` of the front end's `_place_stone` is modelled only for the group manager's violations.
- Character classes are ASCII only:
  - `str.isnumeric()` and `int()` cover ASCII digits;
  - `str.isalpha()` covers ASCII letters;
  - `str.split()` separates on ASCII whitespace.
  - Non-ASCII numerals, letters and spaces, which Python also accepts, are not modelled. With ASCII letters the `diff < 0` branch of `_label_to_coord` cannot be taken.
- `strip()` before `split()` is not modelled separately: splitting with no separator already ignores leading and trailing whitespace.
- `_parse_coordinates` and `_parse_move` on `None` are not modelled; they take a string. `_is_valid_input` does model `None`, the prompt's initial value, and returns false for it.
- `make_2d_array` takes the default value instead of a thunk. Every thunk the program passes returns a constant.
- Python's unbounded integers need no wrap-around. Captured counts and the pass counter are naturals.

## Findings

| source | as written | input that shows it | evidently intended | confidence | as-written member | corrected member |
|---|---|---|---|---|---|---|
| src/game.py:246-251 | `next_best_position` searches rings 0 to `board_size - 1` only, but a cell of the board can lie at distance up to `2 * (board_size - 1)` from the centre. On even board sizes the corner (0, 0) is at distance `board_size` from `[size // 2, size // 2]` | a 2 by 2 board with rows (EMPTY, BLACK) and (BLACK, WHITE), searched from the default centre (1, 1): `BoardFullException` is raised although (0, 0) is empty | report a full board only when no cell of the board is empty | not executed | GameUI.NextBestPositionMissesFarCellOnTwoByTwo | GameUI.NearestEmpty |
