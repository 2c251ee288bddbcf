# Conway's Game of Life on a bounded board, in Dafny

This project models the engine of a browser Game of Life (`scripts/life.js`). The game keeps a
column-major grid `gameGrid[x][y]` of cells, each with an `alive` flag and a `neighbours` counter. The
size of the grid is the number of whole cells that fit on the canvas. The three moving parts are:

- a generation step (`_tick`) in two passes. The first pass makes every live cell add 1 to the
  counter of each cell around it; the neighbour list is cut off at the edges, so nothing wraps round.
  The second pass applies "survive on 2 or 3, born on 3" to every cell and sets every counter back to 0;
- single-cell toggling by mouse click and clearing the whole board;
- a start/stop switch that keeps one interval timer, whose period is `floor(1000 / fps)` milliseconds.

Modules:

- `Geometry` (geometry.dfy): pixel and cell arithmetic, and the grid size. These are pure functions.
- `Rules` (rules.dfy): the board as a value, the bounded live-neighbour count, the next generation,
  toggling one cell and the empty board. It also holds lemmas about the column-by-column scan order
  that the count pass uses.
- `Patterns` (patterns.dfy): concrete boards whose next generations are proved. These are a lone cell,
  a blinker in both phases, a row of three on an edge, and a full 2 by 2 board. The last two show that
  the edges do not wrap.
- `Game` (life.dfy): the game object as a class. It holds two `array2`s (`alive`, `neighbours`) that
  the methods update in place, plus the `started` flag and the interval handle. It also has the
  neighbour enumeration as a loop with the source's `x && -1` bounds trick (`JsAnd`), and grid
  construction as nested loops. `Life.Valid()` is the invariant every public method keeps:
  - the arrays have the grid's size;
  - every counter is 0 between generations;
  - a timer exists exactly when the game is started, and there is only that one.

The browser's interval timers are modelled as a map from handle to period (`timers`) plus the next
handle the window will hand out. So "at most one timer" is a real invariant and is proved; it does not
hold merely because there is one `Option` field.

Two details of the program shape the model:
- An out-of-range click is not an error in the program. A negative pixel offset returns at once
  (scripts/life.js:86). A column past the grid fails at the cell lookup (scripts/life.js:89). A row
  past the grid gives an undefined cell, and the flip at scripts/life.js:92 fails. Either way nothing
  has changed yet; there `Click` returns `NoCell` and changes nothing.
- The program never checks the rate it reads from the speed slider, so the model takes a positive
  whole number of frames per second (see Left out).

## Model

| member | source | states |
|---|---|---|
| `Geometry.CellOf` | scripts/life.js:62-63 | the cell index `c` of pixel offset `p` satisfies `c * cellSize <= p < (c + 1) * cellSize` (the floor of the quotient), and is non-negative for a non-negative pixel |
| `Geometry.CellOfUnique` | scripts/life.js:60-65 | that cell is the only `c` with `c * cellSize <= p < (c + 1) * cellSize` |
| `Geometry.GridSize` | scripts/life.js:21-24 | the grid is the number of whole cells across and down: `w * cellSize <= canvasWidth < (w + 1) * cellSize`, and the same for the height |
| `Geometry.PixelsToCoords` | scripts/life.js:60-65 | each coordinate of the pixel lies in the cell returned; non-negative pixels give non-negative cells |
| `Geometry.CoordsToPixels` | scripts/life.js:67-73 | cell (x, y) starts at pixel `(cellSize * x, cellSize * y)`, and `PixelsToCoords` of that pixel gives back (x, y), for any cell and a positive cell size |
| `Rules.LiveNeighbourCount` | scripts/life.js:212-245 | the live-neighbour count of a cell over the eight surrounding positions, where positions off the board count as dead; it is at most 8 |
| `Rules.NeighbourhoodSizes` | scripts/life.js:215-226 | on a board at least 2 by 2, the neighbourhood has 3 cells at a corner, 5 on an edge and 8 inside |
| `Rules.Rule` | scripts/life.js:172-178 | a cell is alive in the next generation exactly when it has 3 live neighbours, or it is alive and has 2 |
| `Rules.Next` | scripts/life.js:168-180 | the next generation keeps the board's size. Each cell's new state is defined as `NextCell`: `Rule` applied to its old state and live-neighbour count. `Tick` and the `Patterns` lemmas connect this definition to the loops and to known boards |
| `Rules.Empty` | scripts/life.js:99-119 | a board of the given size with every cell dead |
| `Rules.Toggle` | scripts/life.js:88-92 | exactly cell (x, y) is flipped; every other cell and the size are unchanged |
| `Rules.ToggleTwice` | scripts/life.js:92 | flipping the same cell twice gives back the original board |
| `Rules.EmptyIsStill` | scripts/life.js:159-186 | the next generation of an empty board is the empty board |
| `Rules.ScannedNeighbourCount` | scripts/life.js:161-165 | the count over only the cells already visited in column-major order is at most the full count |
| `Rules.ScanStep` | scripts/life.js:161-165 | visiting cell (x, y) adds 1 to the partial count of (a, c) exactly when (x, y) is alive and adjacent to (a, c) |
| `Rules.ScanNextColumn` | scripts/life.js:161-162 | finishing column x leaves the partial counts as they are at the start of column x + 1 |
| `Rules.ScanEnds` | scripts/life.js:161-165 | before the scan every partial count is 0; after the last column it is the full live-neighbour count |
| `Patterns.NextOfPred` | scripts/life.js:168-180 | if the rule maps the cells of one predicate board exactly onto another, the second is the next generation of the first |
| `Patterns.LoneCellDies` | scripts/life.js:172-178 | a single live centre cell of a 3 by 3 board dies and nothing is born |
| `Patterns.BlinkerTurns` | scripts/life.js:159-186 | on a 5 by 5 board, the row (1,2),(2,2),(3,2) becomes the column (2,1),(2,2),(2,3) |
| `Patterns.BlinkerTurnsBack` | scripts/life.js:159-186 | that column becomes the row again, so the blinker has period 2 |
| `Patterns.EdgeRowDoesNotWrap` | scripts/life.js:221-222 | a row of three on the top edge becomes (2,0),(2,1); nothing is born on the bottom row |
| `Patterns.FullSquareIsStill` | scripts/life.js:221-222 | a full 2 by 2 board is still, since each cell sees only its three in-board neighbours |
| `Game.Period` | scripts/life.js:147-149 | the timer period `ms` for `fps > 0` is `floor(1000 / fps)`: `ms * fps <= 1000 < (ms + 1) * fps` |
| `Game.GetNeighbours` | scripts/life.js:212-229 | the list holds exactly the in-board cells adjacent to (x, y), never (x, y) itself, with no repeats; its length is `Span(width, x) * Span(height, y) - 1` |
| `Game.MakeGrid` | scripts/life.js:99-110 | fresh arrays of `width` columns by `height` rows, every cell dead with counter 0 |
| `Game.Life.constructor` | scripts/life.js:11-29 | the grid size is `GridSize` of the canvas; the board is empty; the game is stopped with no timer; `Valid()` holds |
| `Game.Life.Clear` | scripts/life.js:112-119 | from any alive flags and counters, every cell becomes dead and every counter 0, so `Valid()` holds afterwards; the size and the timer state are unchanged |
| `Game.Life.Click` | scripts/life.js:86-95 | a negative pixel offset changes nothing. Otherwise the board becomes `Toggle` of the old board at `PixelsToCoords`, and the paint is `Draw` exactly when the new state is alive. A cell position past the grid changes nothing |
| `Game.Life.CountNeighbours` | scripts/life.js:231-245 | if (x, y) is alive, every adjacent in-board counter goes up by 1; no other counter changes, and no alive flag changes |
| `Game.Life.CountAll` | scripts/life.js:160-165 | after the count pass every counter equals the cell's live-neighbour count in the unchanged board |
| `Game.Life.DecideColumn` | scripts/life.js:169-183 | in column x, each cell's new alive flag is `Rule` of its old flag and its old counter, and its counter is 0; the other columns do not change; the paints returned are `ColumnPaints` of the new board, which draws each live cell of the column and erases each dead one, top to bottom |
| `Game.Life.ApplyRule` | scripts/life.js:167-185 | each cell's new alive flag is `Rule` of its old flag and its old counter; every counter is 0; the paints are `Repaint` of the new board, one per cell in the visiting order |
| `Game.Life.Tick` | scripts/life.js:159-186 | the board becomes `Next` of the old board; every counter is 0; the timer state is untouched; the paints are `Repaint` of the new board over all columns |
| `Game.ScanIndexIsProduct` | scripts/life.js:168-169 | cell (x, y) is visited at position `x * height + y` of the column-major order |
| `Game.RepaintLength` | scripts/life.js:168-169 | the repaint of the first x columns has `x * height` paints, one per cell |
| `Game.RepaintAt` | scripts/life.js:168-184 | in the repaint of the first x columns, the paint at cell (a, c)'s visiting position `ScanIndex(height, a, c)` is `Draw(a, c)` when the cell is alive and `Erase(a, c)` when it is dead |
| `Game.RepaintFrame` | scripts/life.js:168-184 | the repaint of the first x columns depends only on those columns, so deciding a later column leaves it as it is |
| `Game.Life.StopTimer` | scripts/life.js:141-144 | the game's timer, if any, is removed from the window's timers, and the handle is forgotten |
| `Game.Life.StartTimer` | scripts/life.js:146-151 | a new timer with a fresh handle and period `Period(fps)` is added, and its handle is kept |
| `Game.Life.Start` | scripts/life.js:131-139 | when already started, nothing changes. Otherwise the game becomes started with exactly one timer at `Period(fps)`, under the next handle, which then advances by one. `Valid()` is kept |
| `Game.Life.Stop` | scripts/life.js:123-129 | when already stopped, nothing changes. Otherwise the timer is cancelled and the game is stopped with no timers |
| `Game.Life.UpdateFps` | scripts/life.js:153-157 | when stopped, nothing changes. When started, the game stays started and its one timer is replaced by a fresh one at `Period(fps)`, under the next handle, which then advances by one |

## Left out

- Control wiring (`_initControls`, `makeHandler`, lines 31-58): these are DOM event listeners, not part of the engine.
- Click offsets (lines 76-83): the page offset and the CSS border-width parsing are not modelled. `Game.Life.Click` takes the pixel offset after those subtractions, as whole pixels.
- Drawing (`drawCell`, `clearCell`, `ctx.clearRect`, lines 120 and 188-210): canvas rendering is not modelled. `Click` and `Tick` return the paints they ask for, in order. The canvas wipe in `clear` is not recorded.
- Real timers: `window.setInterval` and `window.clearInterval` become updates of the `timers` map. The periodic firing of `_tick` is not modelled, because there is no clock.
- Options: `util.extend`, the colour and border options, and the `define` wrapper are not modelled. `cellSize` is a positive whole number given to the constructor.
- `Game.Life.Start`, `Game.Life.UpdateFps`, `Game.Life.StartTimer`: these take `fps` as a whole number and require `fps > 0`. The source reads the speed slider, whose range is not part of this model. A fractional rate is not modelled; the source would floor `1000 / fps` to a whole period for it as well. A rate of 0 (or an empty slider value) would give the source an infinite period, which the model excludes.
- `Game.GetNeighbours`: it returns cell coordinates rather than references to cell objects, because the grid is two arrays, not an array of cell objects.
