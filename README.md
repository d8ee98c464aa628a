# Game of Life engine

A Dafny model of the simulation engine inside the `Game` component of a
Next.js Game of Life (`src/app/components/Game.tsx`). The component keeps a
`rows × cols` board of booleans (20 × 30, from a 600 × 400 pixel world with
20 pixel cells). It can toggle one cell, clear the board, fill it at random,
advance it one generation under the B3/S23 rule, list its live cells for
rendering, and start and stop a timer-driven run.

The model has two layers.

- **Values.** The board as a value (`Grids.Grid`, rows of cells indexed
  `[y][x]`) and pure functions for each operation:
  - `Grids.EmptyGrid`, `Grids.Toggle`, `Grids.Threshold`;
  - `Neighbourhood.Neighbours`, the count of live neighbours over the eight
    offsets, skipping any offset that lands off the board;
  - `Generation.Step`, one generation;
  - `Projection.LiveCells`, the row-major list of live cells.
- **The object.** `Engine.Game` is a class with the component's mutable
  state. The board is an `array2<bool>`, updated in place by the toggle and
  the random fill and replaced by a fresh array on each generation and on
  clear. The class also holds the run flag and the pending timeout handle.
  Each method runs the source's loops and is proved to leave exactly the
  board the matching function describes.

The lemmas state what those functions promise:
- the count is exactly the number of live cells in the bounded Moore
  neighbourhood, so it never wraps and never counts the cell itself;
- the step follows the usual statement of the rule;
- a dead board stays dead and a lone cell dies;
- a blinker has period two and a block is still;
- the live-cell list holds each live cell once, in row-major order;
- toggling twice restores the board.

Modules:
- `Wrappers`: `Option`.
- `Grids`: the board value, the empty board, the toggle (strict and as written), the random fill.
- `Neighbourhood`: the offsets and the neighbour count.
- `Generation`: the rule and one generation.
- `Projection`: the live-cell list.
- `Fixtures`: the blinker and the block.
- `Engine`: the `Game` class.

Where the explanatory text and the code disagree, the model follows the code.
The page text calls the grid infinite (`src/app/page.tsx:21`). The code uses
a bounded grid: a neighbour off the board is never live.

## Model

| member | source | states |
|---|---|---|
| `Grids.EmptyGrid` | src/app/components/Game.tsx:79-88 | the empty board has exactly `rows` rows of exactly `cols` cells, and every cell is dead |
| `Engine.Game.MakeEmptyBoard` | src/app/components/Game.tsx:79-88 | the nested loops return a fresh `rows × cols` array equal to the empty board |
| `Engine.Game.constructor` | src/app/components/Game.tsx:55-67 | the dimensions are 400/20 = 20 rows and 600/20 = 30 columns; the board starts empty; the game is not running and no timeout is pending |
| `Neighbourhood.CountLive` | src/app/components/Game.tsx:177-188 | counting over a list of offsets never returns more than the number of offsets |
| `Neighbourhood.Neighbours` | src/app/components/Game.tsx:176-189 | the neighbour count is between 0 and 8 |
| `Neighbourhood.NeighboursUnrolled` | src/app/components/Game.tsx:178-186 | the count is the sum of the eight tests, one per offset in the source's order; an off-board position counts 0 |
| `Neighbourhood.NeighboursIsMooreCount` | src/app/components/Game.tsx:176-189 | the count equals the number of on-board live cells at most one step away in each direction, excluding the cell itself; each such cell counts once |
| `Neighbourhood.CornerSeesAtMostThree` | src/app/components/Game.tsx:184 | cell (0, 0) sees at most three neighbours on any board, so nothing wraps around the edges |
| `Neighbourhood.NeighboursLocal` | src/app/components/Game.tsx:176-189 | two boards that agree on the eight cells around (x, y) give (x, y) the same count |
| `Neighbourhood.NeighboursIgnoreSelf` | src/app/components/Game.tsx:178 | flipping a cell does not change its own count, so a cell never counts itself |
| `Engine.Game.CalculateNeighbors` | src/app/components/Game.tsx:176-189 | the loop over the offsets returns exactly the neighbour count of (x, y) on the given array, for any integer x and y |
| `Generation.Rule` | src/app/components/Game.tsx:153-163 | the branches give a live cell iff the count is 3, or the cell is live and the count is 2; a count below 2 or above 3 always gives a dead cell |
| `Generation.Step` | src/app/components/Game.tsx:148-165 | a generation keeps the number of rows and the length of every row |
| `Generation.StepRule` | src/app/components/Game.tsx:153-163 | a cell is live next iff it has exactly three live Moore neighbours, or it is live and has exactly two |
| `Generation.StepUnderpopulation` | src/app/page.tsx:26 | a cell with fewer than two live neighbours is dead in the next generation |
| `Generation.StepOverpopulation` | src/app/page.tsx:28 | a cell with more than three live neighbours is dead in the next generation |
| `Generation.DeadStaysDead` | src/app/components/Game.tsx:159-163 | a board with no live cell gives a board with no live cell |
| `Generation.EmptyIsStill` | src/app/components/Game.tsx:148-165 | the empty board of any size is its own next generation |
| `Generation.LoneCellDies` | src/app/components/Game.tsx:148-165 | a board with one live cell, anywhere and of any size (a corner included), has no live cell after one generation |
| `Engine.Game.NextGeneration` | src/app/components/Game.tsx:147-167 | the loops fill a fresh array from the old board and the field then points to it; the new board is exactly the next generation of the old one |
| `Engine.Game.RunIteration` | src/app/components/Game.tsx:147-173 | one iteration advances the board one generation and records the new timeout handle; the run flag is unchanged |
| `Engine.Game.RunGame` | src/app/components/Game.tsx:132-135 | running raises the run flag and advances one generation at once, leaving a timeout pending |
| `Engine.Game.StopGame` | src/app/components/Game.tsx:138-144 | after stopping, the game is not running and no timeout is pending, whether one was pending or not; the board is unchanged |
| `Fixtures.BlinkerPeriodTwo` | src/app/components/Game.tsx:147-167 | on a 5 × 5 board a vertical blinker becomes horizontal and returns to vertical after two generations |
| `Fixtures.BlockIsStill` | src/app/components/Game.tsx:147-167 | a 2 × 2 block on a 4 × 4 board is unchanged by a generation |
| `Fixtures.BlockStillAnySize` | src/app/components/Game.tsx:147-167 | a 2 × 2 block with its corner at (1, 1) is unchanged by a generation on every board of at least 4 × 4 |
| `Projection.LiveCellsMembers` | src/app/components/Game.tsx:102-112 | a position is listed iff it is an on-board live cell |
| `Projection.LiveCellsRowMajor` | src/app/components/Game.tsx:104-108 | the list is strictly increasing, by row and then by column within a row, so no cell is listed twice |
| `Projection.LiveCellsOfDead` | src/app/components/Game.tsx:102-112 | a dead board lists nothing |
| `Engine.Game.MakeCells` | src/app/components/Game.tsx:102-112 | the nested loops return exactly the live-cell list of the board |
| `Grids.Toggle` | src/app/components/Game.tsx:124-125 | an on-board (x, y) flips that cell and no other; the row lengths are kept; an off-board coordinate leaves the board unchanged |
| `Grids.ToggleInvolution` | src/app/components/Game.tsx:124-125 | toggling the same coordinate twice restores the board |
| `Engine.Game.ToggleCell` | src/app/components/Game.tsx:124-125 | toggling a cell by its coordinates updates the array in place to the toggled board |
| `Grids.ToggleAsWritten` | src/app/components/Game.tsx:124-125 | the handler's own bounds test throws exactly when 0 <= x <= cols and y == rows; column `cols` of an existing row appends one live cell to that row; a coordinate that fails the test leaves the board unchanged |
| `Grids.ToggleAsWrittenInRange` | src/app/components/Game.tsx:124-125 | inside the grid the handler's own bounds test agrees with the strict toggle |
| `Grids.ToggleAsWrittenOffByOne` | src/app/components/Game.tsx:124 | with the handler's own bounds test, row `rows` throws, and column `cols` appends a live cell (`!undefined` is `true`) to the end of row 0, which is then one cell too long; the strict toggle leaves the board as it was in both cases |
| `Engine.Game.HandleClear` | src/app/components/Game.tsx:198-201 | clearing leaves an empty board of the same dimensions; the result does not depend on the old board, so clearing twice equals clearing once |
| `Grids.Threshold` | src/app/components/Game.tsx:207 | a cell is live iff its random draw is at least 0.5; the board has the draws' shape |
| `Engine.Game.HandleRandom` | src/app/components/Game.tsx:204-211 | every cell is overwritten in place from its draw; the dimensions are kept |

## Findings

| source | as written | input that shows it | evidently intended | confidence | as-written member | corrected member |
|---|---|---|---|---|---|---|
| src/app/components/Game.tsx:124 | the click bounds test is `x >= 0 && x <= this.cols && y >= 0 && y <= this.rows` | a click that maps to cell y == rows (20): `this.board[20]` is undefined, so the write throws a TypeError. A click that maps to x == cols (30) writes `true` past the end of its row | strict bounds `0 <= x < cols` and `0 <= y < rows`; an off-board click is ignored | medium, not executed (depends on whether the browser reports a click on the board's last pixel row or column) | `Grids.ToggleAsWritten`, exhibited by `Grids.ToggleAsWrittenOffByOne` | `Grids.Toggle`, with `Grids.ToggleInvolution`; used by `Engine.Game.ToggleCell` |

## Left out

- Rendering: the `Cell` component, `render`, the colour themes and `handleThemeChange`. They only draw the board.
- DOM geometry: `getElementOffset` and the pixel-to-cell `Math.floor` in `handleClick`. These are browser APIs over floating point. `Engine.Game.ToggleCell` takes integer cell coordinates.
- React `setState`: it only publishes the live-cell list and the run flag for rendering. The list is available through `Engine.Game.MakeCells`, and `isRunning` is a plain field.
- The timer: `window.setTimeout` returns the handle, which is a parameter (`next`) of `RunIteration` and `RunGame`. `window.clearTimeout` is modelled as dropping the pending handle. The callback that later re-enters `runIteration` is not modelled, and neither is the interval passed to the timer.
- `handleIntervalChange`: it only parses user input with `parseInt` and stores the result for the timer.
- `Math.random`: `Engine.Game.HandleRandom` takes one draw per cell, as a `rows × cols` sequence of reals.
- Engine.Game.RunGame: a second call while running overwrites the pending handle without cancelling it, as the source does. The model does not track the orphaned timer. The rendered page hides the run button while the game is running.
- Engine.Game.StopGame: the source tests the handle for truthiness. Browser timer handles are positive, so the model's handles are positive integers and "a handle is pending" is the same test.
- Engine.Game: the source's board is an array of row arrays (`boolean[][]`). The model uses one two-dimensional array, so it cannot express rows aliasing each other or rows of different lengths. The widened row produced by the as-written toggle exists only in `Grids.ToggleAsWritten`.
