# 2048 rule engine in Dafny

This project models the rule engine of `Game` in `game.py`, a 4×4 clone of the
sliding-tile game 2048, and proves properties of it:

- the four moves `left`, `right`, `up` and `down`;
- the spawn of a new tile (`new_block`);
- the start of a game (the empty grid, `game_over` cleared, one spawn);
- one key press: a move, then a spawn only when the move reported a change.

The files are:

- `tiles.dfy` (module `Tiles`): measures of one line of cells. They are the sum, the number of cells holding a value, Rev (the line read backwards), the tile predicate (a power of two, at least 2) and the packing predicates.
- `line.dfy` (module `Line`): the walk of one front move as pure functions. Front means left on a row, up on a column. Each function follows one loop of the source: `ScanFront` is the innermost `k` loop, `Settle` is the write after it, `StepFront` is one pass of the `j` loop, `ProcessedFront` is the passes so far and `MovedFront` is the `changed` flag. The back walk (`ScanBack`, …, `SlideBack`) is the same for right and down. This module also holds the proofs about front moves.
- `mirror.dfy` (module `Mirror`): a back move is the front move of the reversed line, reversed, pass by pass. Every property of front moves carries over to back moves by this fact.
- `board.dfy` (module `Board`): the 4×4 board as `seq<seq<int>>`, the `Direction` datatype and the whole-board moves `Shift`. It also holds the row-major spawn `Spawn` and the key-press rule `Step`, and their lemmas.
- `game.dfy` (module `GameEngine`): class `Game`, with its `grid` field (an `array2<int>`) and its `gameOver` field. The moves and the spawn are methods that follow the source's nested loops. Each is proved against the functions of `Board`.

The model keeps the source's merge rule as written, with two departures from textbook 2048:

- The walk steps over a tile of a different value and keeps looking for an equal tile. `[2,4,2,0]` moving left gives `[4,4,0,0]` (hop-over).
- A tile that merged earlier in the same move can merge again when another tile reaches it. `[2,2,4,0]` moving left gives `[8,0,0,0]`.

In textbook 2048, `[2,2,4,0]` moving left gives `[4,4,0,0]`, and no tile merges twice in one move. This code gives `[8,0,0,0]`, and `Line.ExampleMergeTwice` proves it.

Each of the source's loops is a `for` loop in Dafny, with the same order and the same branches. A move is split into one method per loop level:

- `WalkLeft` is the `k` loop;
- `LeftRow` is the `j` loop over one row;
- `Left` is the `i` loop over the rows.

`new_block` is split the same way. `NewBlock` holds the full-board check, and `PlaceBlock` holds the choice of value and the nested scan.

The object invariant `Game.Valid()` holds from the constructor on. It says the grid has 4×4 cells, each empty or a power of two of at least 2. Every move, `NewBlock`, `KeyDown` and `Quit` keep it.

### When the game ends

A move that changes the board always leaves an empty cell (`Board.ShiftChangedLeavesEmpty`). So the spawn after a key press always finds a place. `new_block`'s full-board branch (game.py:68-73) never runs from a key press, and the constructor spawns on an empty grid. `GameEngine.Game.KeyDown` never sets `gameOver`, so in this code only the quit event ends the game. A full board on which no move changes anything does not end the game: every key press then does nothing.

## Model

| member | source | states |
|---|---|---|
| Line.WalkFront | game.py:98-105 | The walk of a nonzero tile at j merges exactly when some cell before j holds the same value. When it merges, it stops at the nearest such cell, and no cell between holds that value. When it does not merge, it stops at j or at an empty cell, and every cell before that one is occupied: tiles of other values are stepped over, so the tile reaches the lowest-indexed empty cell before it. |
| Line.SlideFrontSum | game.py:93-110 | A front move keeps the total of the line's values. |
| Line.SlideFrontZeros | game.py:107-110 | A front move never lowers the number of empty cells, so the number of tiles never grows. |
| Line.SlideFrontMovedLeavesEmpty | game.py:107-110 | A front move that wrote something leaves at least one empty cell. |
| Line.SlideFrontTiles | game.py:102-108 | If every occupied cell holds a power of two, it still does after a front move. |
| Line.SlideFrontPacked | game.py:93-110 | After a front move no empty cell lies before a tile. |
| Line.SlideFrontMovedIff | game.py:92-111 | The `changed` flag of a front move is true exactly when the line differs from the line before the move. |
| Line.SlideFrontFixpoint | game.py:93-110 | A front move leaves a line unchanged exactly when it is already packed toward index 0 and no two of its tiles are equal. |
| Line.SlideFrontKeepsDistinct | game.py:99-110 | On a line whose tiles are pairwise different, no walk merges; each tile only moves into an empty cell, so after a front move the tiles are still pairwise different. |
| Line.SlideFrontTwice | game.py:91-111 | On a line where no merge is possible, a second front move changes nothing and returns a false `changed` flag. |
| Line.ExampleTwiceMerges | game.py:91-111 | Without that condition a second move can change the line: `[2,4,2,0]` gives `[4,4,0,0]`, and moving left again gives `[8,0,0,0]`. |
| Line.ExampleFourTwos | game.py:91-111 | `[2,2,2,2]` moving left gives `[4,4,0,0]`. |
| Line.ExampleThreeTwos | game.py:91-111 | `[2,2,2,0]` moving left gives `[4,2,0,0]`. |
| Line.ExampleFourTwoTwo | game.py:91-111 | `[4,2,2,0]` moving left gives `[4,4,0,0]`. |
| Line.ExampleNothingMoves | game.py:91-111 | `[2,4,0,0]` moving left is unchanged, and `changed` stays false. |
| Line.ExampleMergeTwice | game.py:99-105 | `[2,2,4,0]` moving left gives `[8,0,0,0]`: the 4 made by the first merge merges again. |
| Line.ExampleHop | game.py:99-105 | `[2,4,2,0]` moving left gives `[4,4,0,0]`: the last 2 steps over the 4. |
| Mirror.SlideBackMirror | game.py:113-133 | A back move is the front move of the reversed line, reversed. Its `changed` flag is the front move's flag on the reversed line. |
| Mirror.SlideBackSum | game.py:115-132 | A back move keeps the total of the line. |
| Mirror.SlideBackZeros | game.py:129-132 | A back move never lowers the number of empty cells. |
| Mirror.SlideBackMovedLeavesEmpty | game.py:129-132 | A back move that wrote something leaves at least one empty cell. |
| Mirror.SlideBackTiles | game.py:124-130 | A back move keeps every occupied cell a power of two. |
| Mirror.SlideBackPacked | game.py:115-132 | After a back move no empty cell lies after a tile. |
| Mirror.SlideBackMovedIff | game.py:114-133 | The `changed` flag of a back move is true exactly when the line changed. |
| Mirror.SlideBackFixpoint | game.py:115-132 | A back move leaves a line unchanged exactly when it is packed toward the end and its tiles are pairwise different. |
| Mirror.SlideBackKeepsDistinct | game.py:121-132 | A back move keeps pairwise different tiles pairwise different. |
| Mirror.SlideBackTwice | game.py:113-133 | On a line where no merge is possible, a second back move changes nothing and returns a false `changed` flag. |
| Mirror.ExampleBackFourTwos | game.py:113-133 | `[2,2,2,2]` moving right gives `[0,0,4,4]`. |
| Mirror.ExampleBackHop | game.py:113-133 | `[0,2,4,2]` moving right gives `[0,0,4,4]`. |
| Board.ShiftUp | game.py:137-154 | Each cell of the result is the cell of the front move of its own column alone (column locality), although the move is defined through two transpositions of the board. |
| Board.ShiftDown | game.py:159-176 | Each cell of the result is the cell of the back move of its own column alone. |
| Board.ShiftSum | game.py:91-177 | Every move keeps the total of all cell values on the board. |
| Board.ShiftZeros | game.py:91-177 | No move lowers the number of empty cells on the board. |
| Board.ShiftTiles | game.py:91-177 | Every move keeps every occupied cell a power of two. |
| Board.ShiftPacked | game.py:91-177 | After a move every row (left, right) or column (up, down) is packed toward the edge moved to. |
| Board.ShiftChangedLine | game.py:91-177 | A move changes the board exactly when it changes at least one of its rows or columns. |
| Board.ShiftFixpoint | game.py:91-177 | A move leaves the board unchanged exactly when every row or column along it is packed toward that edge and has pairwise different tiles. |
| Board.ShiftTwice | game.py:91-177 | When no merge is possible along a direction, a move in that direction keeps it so, and a second move in the same direction leaves the board unchanged. So by `GameEngine.Game.Move` the second press returns false. |
| Board.ShiftChangedLeavesEmpty | game.py:42-44 | A move that changed the board leaves an empty cell. So the spawn after a successful move always finds a place, and its `ValueError` branch (game.py:69-73) cannot be reached from there. |
| Board.NthZero | game.py:82-89 | The position chosen for the n-th empty cell holds 0, and exactly n empty cells come before it in row-major order. |
| Board.NthZeroUnique | game.py:82-89 | That position is the only one with both properties. |
| Board.PlaceIsSpawn | game.py:82-89 | Writing into the empty cell (r, c) with `pick` empty cells before it in row-major order is the spawn. |
| Board.SpawnSpec | game.py:75-89 | A spawn writes into the `pick`-th empty cell only, writes 4 when the draw is above the threshold and 2 otherwise, and changes no other cell. Afterwards there is one empty cell fewer, the total grows by the value written, and tiles stay powers of two. |
| Board.FreshBoard | game.py:21-25 | The empty board has 16 empty cells. After one spawn with no 2 on the board, it holds exactly one tile, a 2 at row-major position `pick`, and 15 empty cells. |
| Board.StepSpec | game.py:42-44 | A key press that moves nothing leaves the board as it was. One that moves something is the moved board with exactly one more tile, a 2 or a 4, so the total grows by that value. Tile values stay powers of two. |
| GameEngine.Game.WalkLeft | game.py:98-105 | The `k` loop for cell (i, j) returns the walk `ScanFront` computes on the row as it was. It doubles cell (i, j) exactly when it merged and changes no other cell. |
| GameEngine.Game.LeftRow | game.py:94-110 | The `j` loop leaves row i as `SlideFront` of the old row and returns its `changed` flag, `MovedFront`. Other rows are unchanged (row locality). |
| GameEngine.Game.Left | game.py:91-111 | The grid becomes `ShiftLeft` of the old grid, and the result is true exactly when the grid changed. The object invariant is kept. |
| GameEngine.Game.WalkRight | game.py:120-127 | The `k` loop for cell (i, j) of a right move returns the walk `ScanBack` computes, and changes only cell (i, j). |
| GameEngine.Game.RightRow | game.py:116-132 | Row i becomes `SlideBack` of the old row and the flag is `MovedBack`. Other rows are unchanged. |
| GameEngine.Game.Right | game.py:113-133 | The grid becomes `ShiftRight` of the old grid, and the result is true exactly when the grid changed. The object invariant is kept. |
| GameEngine.Game.WalkUp | game.py:142-149 | The `k` loop for cell (j, i) of an up move returns the walk `ScanFront` computes on column i, and changes only cell (j, i). |
| GameEngine.Game.UpColumn | game.py:138-154 | Column i becomes `SlideFront` of the old column and the flag is `MovedFront`. Other columns are unchanged. |
| GameEngine.Game.Up | game.py:135-155 | The grid becomes `ShiftUp` of the old grid, and the result is true exactly when the grid changed. The object invariant is kept. |
| GameEngine.Game.WalkDown | game.py:164-171 | The `k` loop for cell (j, i) of a down move returns the walk `ScanBack` computes on column i, and changes only cell (j, i). |
| GameEngine.Game.DownColumn | game.py:160-176 | Column i becomes `SlideBack` of the old column and the flag is `MovedBack`. Other columns are unchanged. |
| GameEngine.Game.Down | game.py:157-177 | The grid becomes `ShiftDown` of the old grid, and the result is true exactly when the grid changed. The object invariant is kept. |
| GameEngine.Game.PlaceBlock | game.py:75-89 | With `pick` below the number of empty cells, the scan that counts `pick` down leaves the grid as `Spawn` of the old grid. |
| GameEngine.Game.NewBlock | game.py:67-89 | With no empty cell it sets `gameOver` and writes nothing. Otherwise the grid becomes `Spawn` of the old grid, and `gameOver` is unchanged. The object invariant is kept. |
| GameEngine.Game.constructor | game.py:21-25 | A new game has `gameOver` false and exactly one tile, a 2 at row-major position `pick`, with the other 15 cells empty. The object invariant holds. |
| GameEngine.Game.Move | game.py:22-23 | The direction's move is dispatched: the grid becomes `Shift` of the old grid, and the result is true exactly when it changed. |
| GameEngine.Game.KeyDown | game.py:41-44 | A key press reports whether the move changed the grid. The grid becomes `Step` of the old grid: it spawns only when the move returned true. `gameOver` is never set by it. |
| GameEngine.Game.Quit | game.py:45-46 | A quit event sets `gameOver` and leaves the grid as it was. |

## Left out

- pygame (the window, the font, `draw`, `run` and the clock) is presentation, not rule logic.
- The event loop over `pygame.event.get()` is left out. Each event is one call: `KeyDown` for a key press, `Quit` for the quit event.
- The key-code table is replaced by the `Direction` datatype. A key that is not an arrow does nothing in the source, and has no call in the model.
- `random.randrange` becomes the parameter `pick`. Every method requires it to be below the number of empty cells, the range `randrange` draws from.
- `random.random()` and its float comparison with `1 - 0.4 * r` become the boolean parameter `aboveThreshold`. The model keeps one consequence of the float arithmetic: with no 2 on the board the threshold is 1, so the draw is never above it. The requires of `NewBlock` and `KeyDown` state this.
- GameEngine.Game.NewBlock: the probability of a 4 (0.4 times the share of cells holding 2) is not modelled, because it needs floating point and a random source. Only the value chosen for a given draw is modelled.
- The display constants (`TILE_WIDTH`, `TILE_HEIGHT`, `SCREEN_WIDTH`, `SCREEN_HEIGHT`, `PADDING`) are left out. Only `WIDTH` and `HEIGHT` (game.py:5-6) are part of the model.
- Integers are unbounded. Python's integers do not wrap either, so no width is modelled.
