# Conway's Game of Life engine, modelled in Dafny

This project models the simulation engine of a Java Game of Life: the
`GameOfLife` class in `src/GameOfLife.java`. The engine owns a `rows x cols`
grid of cells that are always 0 (dead) or 1 (alive). It also keeps a
tri-state `updated` signal:

- -1: the game has never been ticked;
- 0: the last tick changed nothing;
- 1: the last tick changed at least one cell.

The engine supports these operations:

- **Construction.** Negative dimensions are replaced by their absolute
  values, and every cell starts dead.
- **`toggle` and `currentState`.** Both are bounds-checked and return -1 off
  the grid.
- **Live-neighbour count.** It sums the live cells among the in-grid
  positions of the 3x3 block around a cell, leaving out the cell itself. The
  edges do not wrap.
- **`tick`.** It applies the birth/survival/death rule into a separate
  buffer and then copies the buffer back.
- **`reset`.** It kills every cell.

The project has three files:

- `life.dfy` (module `Life`) is the pure specification. A generation is a
  `seq<seq<int>>`. The module defines:
  - the neighbour count, both as the row-by-row scan the engine performs and
    as an explicit sum over the eight Moore neighbours (`MooreCount`);
  - the next-cell rule with the engine's own three branches (`NextCell`);
  - the next generation (`NextGen`);
  - the "some cell changes" predicate (`Changes`);
  - toggling (`Toggled`) and the all-dead grid (`Dead`);
  - the lemmas that tie these together.
- `game_of_life.dfy` (module `Engine`) is the engine itself. It is a class
  `GameOfLife` over an `array2<int>` plus an `updated` field. The mutating
  Java methods (`toggle`, `tick`, `reset`) are Dafny methods, and so are the
  bounds-checked read `currentState` and the counting loop
  `numberOfLiveNeighborsOf`; every loop carries invariants. The pure reads
  (`validIndex`, `getM`, `getN`, `updated`) are functions. The ghost function
  `Contents()` views the array as a generation, and every public method is
  proved against the functions of `Life` through that view. The two nested loops of
  `tick` are split into helper methods:
  - `FillNextGen` is the outer loop of the first pass;
  - `FillRow` is its inner loop;
  - `CopyBack` is the copy pass.

  The split keeps each proof small. The statements and their order are the
  source's.
- `patterns.dfy` (module `Patterns`) proves what the rules do to known patterns:
  - a block still life, on a 3x3 grid with the block in its top-left corner;
  - a blinker with period two, on a 3x3 grid whose edges do not wrap;
  - client scenarios that call the class's methods and observe `updated` and
    the dimensions.

## Model

| member | source | states |
|---|---|---|
| Engine.GameOfLife.constructor | src/GameOfLife.java:16-27 | stores the absolute values of both dimensions, allocates a fresh grid of that shape whose contents are the all-dead generation, and sets `updated` to -1 |
| Engine.GameOfLife.ValidIndex | src/GameOfLife.java:74-76 | (i, j) is valid exactly when it is a position of the current grid |
| Engine.GameOfLife.GetM | src/GameOfLife.java:60 | the result is the number of rows of the current grid |
| Engine.GameOfLife.GetN | src/GameOfLife.java:66 | the result is the column count of the grid array, also when the grid has no rows, and it is the length of every row of the current grid |
| Engine.GameOfLife.Updated | src/GameOfLife.java:127-133 | the result is one of -1 (never ticked), 0 (unchanged) and 1 (changed) |
| Engine.GameOfLife.Toggle | src/GameOfLife.java:35-41 | off the grid: returns -1 and the grid is unchanged; on the grid: the grid becomes `Toggled` of the old grid and the result is the new state 1 - old; `updated` is never touched and cells stay 0/1 |
| Engine.GameOfLife.CurrentState | src/GameOfLife.java:49-54 | returns -1 off the grid, otherwise the cell's value, which is 0 or 1; it modifies nothing |
| Engine.GameOfLife.NumberOfLiveNeighborsOf | src/GameOfLife.java:85-97 | the nested scan returns `NeighborCount` of the current grid, which equals the sum over the in-grid Moore neighbours (see `Life.NeighborCountIsMooreCount`) |
| Engine.GameOfLife.Tick | src/GameOfLife.java:102-125 | the new grid is `NextGen` of the old grid; the dimensions are unchanged and the cells stay 0/1; `updated` is 1 when the new grid differs from the old and 0 otherwise |
| Engine.GameOfLife.FillNextGen | src/GameOfLife.java:103-119 | every cell of the buffer holds `NextCell` of the unchanged grid; `updated` becomes 1 exactly when some cell changes and keeps its value otherwise |
| Engine.GameOfLife.FillRow | src/GameOfLife.java:106-118 | every cell of row i of the buffer holds `NextCell` and the other rows are untouched; `updated` becomes 1 exactly when some cell of the row changes |
| Engine.GameOfLife.CopyBack | src/GameOfLife.java:120-124 | after the copy, every cell of the grid equals the buffer's cell |
| Engine.GameOfLife.Reset | src/GameOfLife.java:138-144 | the grid becomes the all-dead generation of the same shape; `updated` keeps its value |
| Life.NeighborCountIsMooreCount | src/GameOfLife.java:85-97 | the row-by-row scan equals the sum over the eight Moore neighbours that lie in the grid, the centre excluded |
| Life.NeighborCountRange | src/GameOfLife.java:85-97 | on a 0/1 grid the neighbour count is between 0 and 8 |
| Life.CornerHasAtMostThree | src/GameOfLife.java:88-92 | at any of the four corners the count is at most 3, because positions off the grid are skipped and never wrapped |
| Life.NeighborCountIsLocal | src/GameOfLife.java:88-93 | two same-shaped grids that agree on the 3x3 block around (i, j) give the same count, so nothing outside the block is read |
| Life.NextCellIsB3S23 | src/GameOfLife.java:109-117 | the three branches of the rule amount to: the next state is 1 exactly when the count is 3, or the cell is alive and the count is 2 |
| Life.NextGenIsGeneration | src/GameOfLife.java:102-125 | the next generation of a rows x cols 0/1 grid is again a rows x cols 0/1 grid |
| Life.RowChangesIff | src/GameOfLife.java:106-118 | the left-to-right scan of a row reports a change exactly when some scanned cell changes |
| Life.RowsChangeIff | src/GameOfLife.java:105-119 | the row-by-row scan of the first i rows reports a change exactly when some cell in those rows changes |
| Life.ScanFindsChange | src/GameOfLife.java:104-119 | the scan of the whole grid reports a change exactly when some cell changes |
| Life.ChangesIffDiffers | src/GameOfLife.java:104-124 | some cell changes exactly when the next generation differs from the grid, in both directions |
| Life.DeadIsGeneration | src/GameOfLife.java:25 | the all-dead grid has the given shape and every cell is 0 |
| Life.DeadStaysDead | src/GameOfLife.java:102-125 | the next generation of an all-dead grid is all-dead, and no cell changes |
| Life.ToggledFlipsOneCell | src/GameOfLife.java:39-40 | toggling keeps the shape and the 0/1 cells, flips the chosen cell and leaves every other cell as it was |
| Life.ToggleTwiceRestores | src/GameOfLife.java:39-40 | toggling the same cell twice gives back the original grid |
| Patterns.BlockCell | src/GameOfLife.java:107-117 | every cell of the block's grid keeps its state under the rule |
| Patterns.BlockIsStill | src/GameOfLife.java:102-125 | the 3x3 grid with a 2x2 block in its top-left corner is a still life: a tick leaves it as it is and reports no change |
| Patterns.BlinkerHCell | src/GameOfLife.java:107-117 | every cell of the horizontal blinker takes the vertical blinker's state |
| Patterns.BlinkerVCell | src/GameOfLife.java:107-117 | every cell of the vertical blinker takes the horizontal blinker's state |
| Patterns.BlinkerTurnsVertical | src/GameOfLife.java:102-125 | a tick turns the horizontal blinker vertical |
| Patterns.BlinkerTurnsHorizontal | src/GameOfLife.java:102-125 | a tick turns the vertical blinker horizontal |
| Patterns.ToggledRowIsBlinker | src/GameOfLife.java:35-41 | toggling the three cells of the middle row of a new 3x3 grid gives the horizontal blinker |
| Patterns.BlinkerOscillates | src/GameOfLife.java:102-125 | the blinker has period two, its phases differ, and a tick of either phase changes some cell |
| Patterns.UpdatedLifecycle | src/GameOfLife.java:127-133 | `updated()` reads -1 on a new game and after a toggle and a reset; the first tick of the all-dead grid makes it 0 |
| Patterns.EmptyGridDimensions | src/GameOfLife.java:16-27 | a game created with 0 rows and -5 columns reports 0 rows and 5 columns through `getM` and `getN` (source lines 60 and 66) |
| Patterns.NewBlinkerGame | src/GameOfLife.java:16-41 | a new 3x3 game with its middle row toggled holds the horizontal blinker and has never been ticked |
| Patterns.BlinkerGame | src/GameOfLife.java:102-133 | ticking the blinker game twice reports a change both times |

## Left out

- `print` (src/GameOfLife.java:146-157) writes to the console. It has no effect on the engine's state.
- `src/Canvas.java` is not part of this model. It holds the Swing window, the timer that ticks the game automatically, the mouse-to-cell mapping and the parsing of user input. Its halt check only reads `updated()`.
- `src/main/java/com/mauro/gameoflife/GameTest.java` is not part of this model. It is a console driver without assertions. Its plus-shaped pattern, ticked four times on a 12x30 grid, is too large to evaluate cell by cell in the prover. The block and blinker scenarios in `patterns.dfy` stand in for it. No glider is modelled either, for the same reason.
- Engine.GameOfLife.constructor: requires that neither dimension is `Integer.MIN_VALUE`. Negating that value overflows in Java, and the allocation then throws `NegativeArraySizeException`. That exception path is not modelled. Running out of memory for a large grid is not modelled either.
- Engine.GameOfLife.NumberOfLiveNeighborsOf: takes unbounded integers. In Java, `i - 1` and `i + 3` wrap around near the ends of the `int` range. The engine only calls it with valid indices, so this only matters for a grid with about 2^31 rows or columns, and that case is not modelled.
- The block and the blinker are each proved on one 3x3 grid, where they touch the edges. The same patterns on larger grids or at other placements, such as a block away from every edge or a blinker in the middle of a 5x5 grid, are not covered. Evaluating every cell of a larger literal grid is beyond the prover's resource limit.
- Cells are `byte`s in Java and `int`s in the model. The `(byte)` cast in `toggle` has no effect, because a cell only ever holds 0 or 1.
- Reset: `updated` keeps its value, as the Java code does. The "never ticked" state is therefore not restored by a reset.
- The engine is single-threaded. No concurrent access is modelled.
