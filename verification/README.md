# Squares rules engine in Dafny

A model of the rules engine of the Squares game, a Blokus-style territory game
on a 20x20 board where up to four players, each with one colour, place
polyomino blocks. The model covers two source files:

- `src/utils/gameUtils.ts`:
  - the initial state (`createInitialGameState`);
  - the placement check (`isValidPlacement`), with its four rejection messages
    and their precedence;
  - the placement transition (`placeBlock`).
- `src/utils/statsUtils.ts`: the pure bookkeeping of `updateGameStats` and
  `getInitialStats`. This covers scores, high scores, games, wins, blocks
  placed and the ten-game history.

Modules, one per source file, plus one for shared shape geometry:

| module | file | models |
|---|---|---|
| `GameTypes` | `game_types.dfy` | `src/types/game.ts`: `Color`, `Point`, `Block`, `Player`, `GameState`, and the board as `seq<seq<Option<Color>>>` |
| `Shapes` | `shapes.dfy` | the true cells of a shape in row-major order, which is the order of the source's nested `for y … for x …` loops; translation by an anchor; the cell count of the score's nested `reduce` |
| `GameUtils` | `game_utils.dfy` | `BOARD_SIZE`, `INITIAL_BLOCKS`, `createInitialGameState`, `isValidPlacement`, `placeBlock` |
| `StatsTypes` | `stats_types.dfy` | `src/types/stats.ts`: `GameStats`, `GameHistory` and the per-colour records |
| `StatsUtils` | `stats_utils.dfy` | `getInitialStats` and `updateGameStats`, with loading and saving lifted out |

The placement check is written as two scans over the enumerated cells, one
per loop of the source:

- `FitScan` is the first loop. It reports bounds or occupancy for the first
  cell that fails.
- `AdjacencyScan` is the second loop. It rejects at once on edge contact. It
  carries the `hasCornerConnection` flag to the end.

Lemmas restate what the check decides in terms of the shape's true cells
and row-major order. `Legal` is a separate, declarative statement of the
rules, and the contract of `IsValidPlacement` ties it to the check. `placeBlock` requires what
its only caller guarantees: the state is well formed and every covered cell
is on the board. `src/App.tsx` calls it only after `isValidPlacement`
returned valid, and `ValidIsInsideBoard` shows that a valid result gives
this precondition.

Where the code departs from the usual Blokus rules, the model
follows the code:

- the first move has no board-corner requirement;
- there is no rotation;
- `gameOver` and `winner` are never changed;
- `placeBlock` paints `block.color`, not the mover's colour;
- it removes the first block of equal shape from the hand by content, not by
  identity.

## Model

| member | source | states |
|---|---|---|
| GameUtils.SliceEnd | src/utils/gameUtils.ts:18 | `slice(0, n)` keeps `n` seats for `n` in range, all four above it, and counts from the back for negative `n` |
| GameUtils.CreateInitialGameState | src/utils/gameUtils.ts:17-34 | the board is 20x20 and empty; there are `n` players for `n` in 1..4, coloured red, blue, green, yellow in seat order; each holds the nine catalog shapes in its colour and has placed nothing; the index is 0, not over, no winner; the state is well formed and its colours are distinct |
| GameUtils.StartingHand | src/utils/gameUtils.ts:4-15 | the hand is the nine `INITIAL_BLOCKS` shapes in catalog order, each in the player's colour |
| GameUtils.EmptyBoard | src/utils/gameUtils.ts:19 | the board has 20 rows of 20 cells and every cell is empty |
| Shapes.Cells | src/utils/gameUtils.ts:45-47 | the enumeration holds exactly the true cells of the shape, including ragged rows, and is strictly in row-major order, the order the loops visit them |
| Shapes.RowCells | src/utils/gameUtils.ts:46-47 | the enumeration of one row from a column on holds exactly that row's true cells from that column, in column order |
| Shapes.CellsFrom | src/utils/gameUtils.ts:45-47 | the enumeration from a row on holds exactly the true cells of those rows, in row-major order |
| GameUtils.FirstMisfit | src/utils/gameUtils.ts:45-58 | the index found is that of the first enumerated cell that is off the board or taken: every earlier cell is on the board and empty |
| GameUtils.FitScan | src/utils/gameUtils.ts:45-60 | the scan passes exactly when no cell misfits; otherwise the first misfitting cell decides: the bounds message when it is off the board, the occupancy message when it is on the board but taken |
| GameUtils.AdjacencyScan | src/utils/gameUtils.ts:62-107 | the scan gives the adjacency message exactly when some cell has an in-bounds edge-neighbour of the mover's colour; it gives the corner message exactly when there is no such cell, the mover has placed a block, and no cell has a diagonal neighbour of that colour |
| GameUtils.IsValidPlacement | src/utils/gameUtils.ts:36-110 | the check accepts exactly when every cell is on the board and empty, no cell edge-touches the mover's colour, and the mover has placed nothing or some cell corner-touches its colour; the bounds message is returned exactly when the earliest true cell in row-major order that is off the board or taken is off the board, and the occupancy message exactly when it is on the board but taken, so an earlier taken cell wins over a later off-board one; the adjacency message exactly when all cells fit and some true cell has an in-bounds edge-neighbour of the mover's colour; the corner message exactly when all cells fit, there is no edge contact, the mover has placed a block and no true cell has a diagonal neighbour of the mover's colour |
| GameUtils.FirstMoveNeedsOnlyFit | src/utils/gameUtils.ts:63-109 | with nothing placed and no cell of the mover's colour on the board, a placement is accepted exactly when every cell is on the board and empty; there is no board-corner rule |
| GameUtils.OpeningAwayFromCorner | src/utils/gameUtils.ts:105-109 | on a fresh board with any number of seats from one to four, red may open with a single cell at (1, 1), away from every corner |
| GameUtils.ValidIsInsideBoard | src/App.tsx:24-30 | a placement the check accepts has every covered cell on the board and empty, so the transition may apply it |
| GameUtils.SetCell | src/utils/gameUtils.ts:124 | one assignment colours exactly the given cell and keeps the board's shape |
| GameUtils.Paint | src/utils/gameUtils.ts:120-127 | after painting, a cell holds the block colour exactly when some enumerated cell lands on it, and every other cell is unchanged |
| GameUtils.PaintShape | src/utils/gameUtils.ts:120-127 | after painting a whole shape, exactly the board points the anchored shape covers hold the block colour, every other cell is unchanged, and the board keeps its shape |
| Shapes.CellsHitCovered | src/utils/gameUtils.ts:121-124 | the enumerated cells, translated, hit exactly the board points the anchored shape covers |
| GameUtils.FindIndex | src/utils/gameUtils.ts:131-133 | the result is -1 exactly when no block has the shape; otherwise it is the first index whose block has the shape |
| GameUtils.MoveBlock | src/utils/gameUtils.ts:129-138 | when the hand holds a block of the shape, the first such block is removed and the placed block is appended to `placedBlocks`; otherwise the player is unchanged; the colour never changes |
| GameUtils.PlaceBlock | src/utils/gameUtils.ts:112-144 | exactly the covered cells are set to the block's colour and all others are unchanged; the mover is updated as `MoveBlock` states and other seats are unchanged; the index becomes `(old + 1) % players`; `gameOver` and `winner` are unchanged; the state stays well formed |
| GameUtils.ValidPlacementNoOverwrite | src/utils/gameUtils.ts:55-57 | applying a placement the check accepted never changes a coloured cell; an empty cell becomes the block's colour exactly when it is covered |
| GameUtils.PlaceBlockKeepsColors | src/utils/gameUtils.ts:129-141 | no seat's colour changes, so distinct seat colours stay distinct |
| GameUtils.CornerCellState | src/utils/gameUtils.ts:120-141 | in a fresh one-seat game, red's single cell at (0, 0) leaves red to move, with one placed block and (0, 0) as the only coloured cell |
| GameUtils.EdgeContactForbidden | src/utils/gameUtils.ts:71-84 | whenever red is to move, holds (0, 0) and (1, 0) is empty, a single red cell at (1, 0) is refused for edge contact, whatever else the board holds |
| GameUtils.CornerContactAllowed | src/utils/gameUtils.ts:86-109 | when red's only cell is (0, 0) and red has placed a block, a single red cell at (1, 1) touches (0, 0) diagonally and is accepted |
| Shapes.CellCountIsCells | src/utils/statsUtils.ts:71-72 | a shape's counted true cells equal the number of cells the placement loops visit |
| StatsUtils.SumCells | src/utils/statsUtils.ts:70-72 | the nested `reduce` total over a list of blocks equals the number of board cells the blocks cover when placed, block by block |
| StatsUtils.Score | src/utils/statsUtils.ts:70-72 | a player's score equals the number of cells its placed blocks cover |
| StatsUtils.PlacingAddsArea | src/utils/statsUtils.ts:70-72 | placing a held block raises the mover's score by the block's cell count; a block not held leaves it unchanged; no other seat's score changes |
| StatsUtils.GetInitialStats | src/utils/statsUtils.ts:7-33 | no games are counted, and every per-colour win, high-score and blocks-placed counter is 0 |
| StatsUtils.TallyPlayer | src/utils/statsUtils.ts:68-85 | one pass of the loop body sets the player's colour's score to the player's score, raises its high score to the larger of the old one and that score, adds the player's placed-block count, changes no other colour, and leaves the game count and wins alone |
| StatsUtils.TallyPlayers | src/utils/statsUtils.ts:68-85 | the per-player loop leaves the game count and the wins unchanged |
| StatsUtils.TallyLeavesAbsent | src/utils/statsUtils.ts:68-85 | a colour with no seat keeps its score, high score and block count through the loop |
| StatsUtils.TallySeat | src/utils/statsUtils.ts:68-85 | with distinct colours, a seat's colour ends with the seat's score, the larger of its old high score and that score, and its old block count plus the seat's placed blocks |
| StatsUtils.UpdateGameStats | src/utils/statsUtils.ts:53-109 | the game count rises by exactly one; the winner's wins rise by one; every other colour's wins, and all wins when there is no winner, are unchanged |
| StatsUtils.UpdateHighScores | src/utils/statsUtils.ts:76-79 | each seat's colour gets the larger of its old high score and the seat's score; colours with no seat keep theirs |
| StatsUtils.UpdateBlocksPlaced | src/utils/statsUtils.ts:83 | each seat's colour adds exactly the seat's placed-block count; colours with no seat keep theirs |
| StatsUtils.UpdateHistory | src/utils/statsUtils.ts:61-103 | the new entry is last, with the winner and `playerCount = players.length`; its scores are each seat's score for its colour and 0 for colours with no seat; from at most ten entries the length becomes `min(old + 1, 10)`; when trimming happens only the oldest entry is dropped and the rest keep their order |
| StatsUtils.AppendBounded | src/utils/statsUtils.ts:100-103 | the new entry is last; below ten entries nothing is dropped; from ten entries on exactly the oldest one is dropped, so the length becomes `old + 1` below ten and stays `old` otherwise |

## Left out

- Loading and saving statistics and history through `localStorage` is browser I/O. `UpdateGameStats` takes the loaded values as parameters and returns the values that would be saved.
- `averageScore` is left out because its update is a floating-point division. The history `date` is left out because it is wall-clock time.
- `JSON.parse(JSON.stringify(state))` in `placeBlock` is the immutability of Dafny values. The `JSON.stringify` shape comparison is structural equality of `seq<seq<bool>>`.
- Point coordinates are integers; the non-integer or non-number values JavaScript would accept are not modelled.
- GameUtils.CreateInitialGameState: `numPlayers` is an integer; any integer is accepted, as `slice` accepts it, but fractional counts are not modelled.
- GameUtils.IsValidPlacement: requires a well-formed state: a 20x20 board and a valid `currentPlayerIndex`. The source reads `players[currentPlayerIndex]` and `board[y][x]` unchecked. Every state built by `createInitialGameState` with at least one player, and then by `placeBlock`, is well formed.
- StatsUtils.UpdateHistory: the per-colour score statement assumes distinct seat colours. With duplicate colours the later seat's score overwrites the earlier one. Every state the engine builds has distinct colours, as `CreateInitialGameState` and `PlaceBlockKeepsColors` show.
- StatsUtils.UpdateHighScores: assumes distinct seat colours, for the same reason. With duplicate colours both seats raise the same high score.
- StatsUtils.UpdateBlocksPlaced: assumes distinct seat colours, for the same reason. With duplicate colours both seats add to the same counter.
- GameUtils.PlaceBlock: requires every covered cell to be on the board. The source does not check this. An off-board row would throw. A column of 20 or more lengthens the board row, and a negative column adds a stray non-index property to the row array; neither throws. The only caller places a block only after the check accepted it, and `ValidIsInsideBoard` shows that acceptance meets this precondition.
- The history winner is an `Option<Color>`. The source's `winner!` is a type assertion only, so a null winner is recorded as it is.
- Sound effects in `src/utils/soundUtils.ts` are left out. The React components are rendering and input only. From `src/App.tsx` the model keeps one fact: validation comes before placement, which becomes `PlaceBlock`'s precondition.
- Rotation, a first-move corner rule, end-of-game detection and winner selection are not modelled, because the code has none of them.
