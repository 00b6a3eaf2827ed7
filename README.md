# Minesweeper, modelled in Dafny

A model of the browser minesweeper game in `game.js`, with its page elements stripped off.
Four parts are modelled:

- **The grid** (class `Grid`). It is a `rows` x `cols` table of cells. Each cell holds a mine or a number.
- **Mine placement.** `putMine` writes a mine into a cell and adds one to every neighbour on the board that is not a mine.
- **Mine scattering** (`Minesweeper.getRandomMines`). It draws random positions and redraws any position that already holds a mine.
- **The tiles** (class `Tiles`). They cover the grid:
  - `reveal` uncovers a cell. When the cell holds 0, it floods into every neighbour that is still covered.
  - `flag` paints a tile red, or paints it back to grey.

The model is imperative where the game is:

- `Grids.Grid`, `TileBoard.Tiles` and `Game.Minesweeper` are classes. Their tables are `seq<seq<_>>` fields, which the methods reassign.
- The flood fill is a recursive method over the `hidden` table.
- Each method is proved against pure specification functions:
  - `MineField.Placed` for `putMine`.
  - `Flood.Visit`, `Flood.Sweep` and `Flood.Step` for `reveal`, stated over the set of covered cells.
- The lemmas about those functions carry the game's guarantees:
  - mine placement has exactly its three effects;
  - every number counts the mines around its cell and lies in 0..8;
  - the flood never re-covers a cell, stops only at numbered cells, and never uncovers a mine other than the cell clicked;
  - the flood uncovers exactly the cells reached from the clicked cell through 0 cells;
  - revealing is idempotent;
  - flagging twice restores the tile.

Modules:

| module | file | contents |
|---|---|---|
| `Geometry` | Geometry.dfy | positions, the 8-neighbourhood in the game's visiting order, boolean tables as sets of cells, counting the cells of a board |
| `Errors` | Errors.dfy | the out-of-bounds error, `Result` and `Outcome` |
| `MineField` | MineField.dfy | cell contents, the adjacency invariant, the specification of `putMine` and its lemmas |
| `Grids` | Grid.dfy | class `Grid` |
| `Flood` | Flood.dfy | the specification of `reveal` and its lemmas |
| `TileBoard` | Tiles.dfy | class `Tiles` |
| `Game` | Game.dfy | the mine draw, `getRandomMines`, class `Minesweeper` |

## Model

| member | source | states |
|---|---|---|
| Grids.Grid.constructor | game.js:51-63 | the grid has the given `rows` and `cols`, every cell holds 0, it holds no mine and it satisfies the adjacency invariant |
| Grids.Grid.GetValue | game.js:96-101 | fails with the coordinates exactly when they lie outside [0, rows) x [0, cols); otherwise it gives the cell, and it is `Mine` or 0 exactly when the cell is a mine or a 0 |
| Grids.Grid.ContainsMine | game.js:103-108 | fails exactly outside the grid; otherwise it answers whether the cell is among the grid's mines |
| Grids.Grid.IncrementLocation | game.js:92-94 | fails exactly outside the grid and then changes nothing; otherwise a number goes up by one and a mine stays a mine (`Incremented`) |
| Grids.Grid.IncrementSides | game.js:78-79 | the left and right neighbours in a row are incremented, each only when on the grid |
| Grids.Grid.IncrementAcross | game.js:80-89 | a row block above or below the mine: the column of the mine, then its left and right neighbours |
| Grids.Grid.PutMine | game.js:65-90 | on a cell holding no mine: fails exactly outside the grid and leaves the grid unchanged; otherwise the new grid is `Placed(old grid, mine)` |
| MineField.PlacedEffect | game.js:75-89 | `Placed` has exactly three effects: the cell becomes a mine, each neighbour on the board that is not a mine goes up by exactly one, and every other cell is unchanged |
| MineField.MinesAfterPut | game.js:76 | after placing, the set of mines is the old set plus the new cell, and nothing else |
| MineField.MinesAroundAfterPut | game.js:78-89 | around a neighbour of the new mine the mine count rises by exactly one; around any other cell it is unchanged |
| MineField.PutMineKeepsConsistent | game.js:76-94 | placing a mine on a cell that holds none keeps the invariant that every number equals the mines among its neighbours on the board |
| MineField.PlacedKeepsInvariant | game.js:65-94 | `Placed` keeps the grid's shape, adds exactly the new cell to the mines, and keeps the adjacency invariant when the cell held no mine |
| MineField.BlankIsConsistent | game.js:56-62 | an all-zero grid has no mine and satisfies the invariant |
| MineField.CountsInRange | game.js:76-94 | under the invariant every number lies in 0..8 |
| Geometry.NeighboursAtMostEight | game.js:78-89 | a cell has at most eight neighbours on the board |
| MineField.ConsistentZeroSafe | game.js:157-172 | under the invariant no neighbour of a 0 cell is a mine |
| Geometry.CellsCard | game.js:56-62 | a `rows` x `cols` board has exactly `rows * cols` cells |
| MineField.FreeCellExists | game.js:26-30 | while fewer than `rows * cols` cells hold mines, some cell of the board is free, so the redraw loop can end |
| MineField.FullBoardHasNoFreeCell | game.js:28-30 | once `rows * cols` cells hold mines every cell is a mine, so the redraw loop never ends: the loop only finishes when `numMines <= rows * cols` |
| Grids.PutMineAsWritten | game.js:65-90 | `putMine` with its mine test as written: it fails only outside the grid, and it places a mine even on a cell that already holds one |
| Grids.RepeatedPlacementMiscounts | game.js:71-72 | on the grid [mine, 1], placing a mine at (0, 0) again gives [mine, 2], which breaks the invariant |
| Game.DrawPosition | game.js:38-47 | each coordinate is one that `Math.floor(Math.random() * n)` can give: in [0, n) for n > 0 and in [n, 0] otherwise |
| Game.DrawFreeCell | game.js:27-30 | the draw that ends the redraw loop is a cell of the board holding no mine |
| Game.PlaceMine | game.js:27-32 | one round of the drawing loop fails, changing nothing, exactly when the board has no cell; otherwise it places a mine on a new in-bounds cell, adds exactly that cell to the mines and keeps the invariant |
| Game.GetRandomMines | game.js:24-35 | fails exactly when mines are asked for on a board without cells; otherwise it returns `numMines` distinct in-bounds positions, none a mine before, and the grid's mines become exactly the old ones plus these; the invariant is kept |
| Game.ScatteredStep | game.js:31-32 | placing one more mine on a new in-bounds cell and recording it keeps the recorded positions distinct and equal to the new mines |
| Game.Minesweeper.constructor | game.js:9-22 | a new game has `Dim(numMines)` distinct in-bounds mines, the grid's mines are exactly these, the invariant holds, and every tile is covered and unflagged |
| Flood.Visit | game.js:150-181 | the covered cells after a reveal are a subset of those before, without the cell clicked: nothing is ever re-covered |
| Flood.Sweep | game.js:158-172 | after the neighbour tests no neighbour on the board stays covered, and nothing is re-covered |
| Flood.Step | game.js:160 | one neighbour test never re-covers a cell, and it leaves the neighbour uncovered when the neighbour is on the board |
| Flood.SweepAppend | game.js:158-172 | testing one list of neighbours and then another is the same as testing their concatenation |
| Flood.SweepOffGrid | game.js:163 | testing cells that are all off the board changes nothing, as when the row above or below does not exist |
| Flood.SweepNoop | game.js:159-172 | testing cells that are all uncovered or off the board changes nothing |
| Flood.VisitIdempotent | game.js:150-172 | revealing the same cell a second time changes nothing |
| Flood.VisitClosed | game.js:157-172 | every cell a reveal uncovered that holds 0 has all of its neighbours on the board uncovered |
| Flood.SweepClosed | game.js:158-172 | the cells uncovered by the neighbour tests that hold 0 have no covered neighbour left |
| Flood.StepClosed | game.js:160 | the cells uncovered by one neighbour test that hold 0 have no covered neighbour left |
| Flood.VisitSafe | game.js:157-172 | when no 0 cell has a mine around it, a reveal uncovers no mine other than the cell clicked |
| Flood.SweepSafe | game.js:158-172 | the neighbour tests of a 0 cell uncover no mine |
| Flood.StepSafe | game.js:160 | one neighbour test of a 0 cell uncovers no mine |
| Flood.VisitFromZero | game.js:157-172 | every cell a reveal uncovers, other than the cell clicked, is an on-board neighbour of a 0 cell uncovered by the same reveal: the flood spreads only from 0 cells |
| Flood.SweepFromZero | game.js:158-172 | every cell the neighbour tests of a 0 cell uncover is next to that cell or to a 0 cell they uncovered |
| Flood.StepFromZero | game.js:160 | every cell one neighbour test of a 0 cell uncovers is next to that cell or to a 0 cell it uncovered |
| Flood.VisitReach | game.js:157-172 | every cell a reveal uncovers is reached from the cell clicked by a path of uncovered cells that steps only out of 0 cells onto on-board neighbours |
| Flood.SweepReach | game.js:158-172 | every cell the neighbour tests of a 0 cell uncover is reached from that cell by such a path |
| Flood.StepReach | game.js:160 | every cell one neighbour test of a 0 cell uncovers is reached from that cell by such a path |
| Flood.VisitIsFlooded | game.js:150-172 | a set of covered cells is what a reveal leaves exactly when nothing new is covered, the clicked cell is uncovered, no uncovered 0 cell keeps a covered neighbour, and every uncovered cell is reached through 0 cells: the reveal uncovers the connected region of 0 cells and its numbered border, and nothing else |
| Flood.FloodedUnique | game.js:150-172 | at most one set of covered cells meets that description |
| Flood.RevealNeverUncoversOtherMine | game.js:157-179 | under the adjacency invariant the flood never reaches a mine: the only mine a reveal can uncover is the cell clicked |
| TileBoard.Tiles.constructor | game.js:112-148 | the tiles have the given dimensions and cover the given grid; every cell of the board is covered and none is flagged |
| TileBoard.Tiles.Reveal | game.js:150-181 | fails exactly outside the board and changes nothing; otherwise the covered cells become `Visit(grid, covered, cell)`, every uncovered cell loses its flag and no other flag changes, and on a non-zero cell (a mine included) only that cell changes |
| TileBoard.Tiles.RevealNeighbours | game.js:157-172 | the neighbour tests of a 0 cell follow `Sweep` over the eight neighbours in the game's order, and they clear the flags of the cells they uncover |
| TileBoard.Tiles.RevealSides | game.js:159-162 | the left and right tests follow `Sweep` over those two cells |
| TileBoard.Tiles.RevealAcross | game.js:163-172 | the tests for the row above or below follow `Sweep` over its three cells, and change nothing when that row does not exist |
| TileBoard.Tiles.RevealIfHidden | game.js:160 | a neighbour is revealed exactly when it is on the board and covered (`Step`) |
| TileBoard.Tiles.Flag | game.js:183-192 | fails exactly outside the board and changes nothing; otherwise it flips that tile's flag alone, and it never touches the covering or the grid |
| TileBoard.Toggle | game.js:186-191 | flipping one tile adds it to the flagged cells if it was unflagged and removes it otherwise |
| TileBoard.ToggleTwice | game.js:186-191 | flagging a tile twice restores the flags exactly |

## Left out

- Page elements are not modelled: tile `div`s, pixel positions, colours other than the flag's red, the numbers written into tiles, and the click and right-click handlers. These are presentation. A flag is modelled as a boolean per tile, and `reveal` clears it, as removing the background colour does.
- `window.alert("owned")` and `console.log` are not modelled. They are I/O.
- Game.DrawPosition: `Math.random()` and `Math.floor` are replaced by a nondeterministic choice of an integer in the range they can produce. Probabilities are not modelled.
- Game.DrawFreeCell: the redraw loop `while (containsMine(..)) refreshPosition(..)` is replaced by its last draw, some free cell of the board. The number of redraws is not modelled. The loop ends with probability one but has no bound. The model keeps the first draw and its bounds test.
- Grids.Grid.PutMine: requires that the cell holds no mine. The game's own test for this never fires; see "## Findings". The cell content as written is `Grids.PutMineAsWritten`.
- TileBoard.Tiles.Reveal: the game calls itself once per uncovered cell, so a large region of 0 cells can overflow the JavaScript call stack (`RangeError`). The model's recursion is unbounded, and an in-bounds reveal always passes.
- TileBoard.Tiles.Reveal and TileBoard.Tiles.Flag: outside the board, the game raises one of two errors, and the model reports both as `OutOfBounds` with no change.
  - If the row does not exist, indexing the tile table raises a `TypeError`.
  - Otherwise `getValue` raises its out-of-bounds error, or `flag` raises a `TypeError`.
- TileBoard.Tiles.constructor: requires a grid of the same dimensions as the tiles. The game always passes its own grid.
- Game.GetRandomMines: requires at least `numMines` free cells when the board has any cell. With fewer, the redraw loop never ends.
- Game.Minesweeper.constructor: requires `numMines` to be at most the number of cells, `Dim(rows) * Dim(cols)`. With more, the game never finishes constructing. On a board without cells it throws; `Game.GetRandomMines` models that error, but a Dafny constructor cannot fail.
- Game.Minesweeper.constructor: the grid stores a `Mine` object in a mine cell, and `minesArr` holds those objects. The model stores a `Mine` tag in the grid and positions in the list. The objects carry nothing else that the game reads.
- The game has no won/lost status, and it does not stop a flagged tile from being revealed, directly or by the flood. The model has no status either, and its flood ignores flags.

## Findings

| source | as written | input that shows it | evidently intended | confidence | as-written member | corrected member |
|---|---|---|---|---|---|---|
| game.js:71-72 | `typeof(this.arr[row][col]) === '[object Mine]'` is never true, because `typeof` gives `'object'` or `'number'`, so `putMine` places a mine on a cell that already holds one and increments its neighbours a second time | the one-row grid [mine, 1], `putMine` at (0, 0): the result is [mine, 2], yet the cell at (0, 1) has one mine around it | `putMine` refuses a cell that already holds a mine, so every number stays equal to the mines around its cell | not executed | Grids.RepeatedPlacementMiscounts | Grids.Grid.PutMine |
