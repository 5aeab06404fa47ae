# CUICA two-state cellular automaton — Dafny model

CUICA is a console program that runs a two-state cellular automaton (Conway's
Life by default) on a toroidal grid of booleans. The user moves a cursor over
the grid, flips cells, and starts or cancels a background run that advances
the grid one generation at a time.

This project models:

- **The engine** (`cellular_automaton.dfy`, module `CellularAutomaton`). The
  class `TwoStateCellularAutomaton` keeps the grid in an `array2<bool>` whose
  dimensions and rule are `const`, as the C# fields are `readonly`. Its
  methods are proved against value-level specification functions over
  `Board`. `NeighbourCount` is the literal 3 x 3 lookup with wrapped
  coordinates. `Step` is the simultaneous generation step. `Changes` is the
  row-major list of cells that flip.
- The neighbour count skips a lookup when its coordinates equal the cell's
  own *as values*. On a grid one cell wide, the wrapped lookups land on the
  cell itself and are all skipped. So an all-live 1 x n grid with n >= 2
  counts 6 and a 1 x 1 grid counts 0 (`FullBoardCount`). On grids of at least 2 x 2 the
  count equals the usual Moore neighbourhood taken modulo the dimensions
  (`NeighbourCountIsOffsetCount`).
- **The front end's sequential logic** (`app.dfy`, module `App`):
  - the conversion between console cursor positions and grid indices, with
    C#'s truncating integer division written out;
  - the toroidal cursor move;
  - the flip of the cell under the cursor;
  - the key dispatch gated on the running flag;
  - the key loop, driven by a sequence of key presses. Each press carries the
    running flag as it stood when the key was read.

The C# `Next` both collects the change list and writes it. The model splits it:
`CollectChangeTargets` is the collecting loop, and `Next` calls it and then
runs the writing loop.

## Model

| member | source | states |
|---|---|---|
| CellularAutomaton.LifeGame | src/CellularAutomaton.cs:65-84 | the next state is live exactly when the count is 3, or when the cell is live and the count is 2; every other case is dead |
| CellularAutomaton.WrapBefore | src/CellularAutomaton.cs:113-116 | the coordinate before `k` on an axis of length `n` is in range, and `k` follows it cyclically (`n - 1` before `0`) |
| CellularAutomaton.WrapAfter | src/CellularAutomaton.cs:113-116 | the coordinate after `k` is in range and is `(k + 1) mod n`, so `0` follows the last index |
| CellularAutomaton.AroundIsModular | src/CellularAutomaton.cs:113-116 | the three coordinates looked up along an axis are `k - 1`, `k` and `k + 1` taken modulo the axis length |
| CellularAutomaton.CountInRowBound | src/CellularAutomaton.cs:119-127 | one row of the lookup adds at most one per column, and nothing for the lookups at the cell's own coordinates |
| CellularAutomaton.NeighbourCount | src/CellularAutomaton.cs:111-130 | the neighbour count is between 0 and 8 |
| CellularAutomaton.NeighbourCountIgnoresSelf | src/CellularAutomaton.cs:123 | the count does not depend on the cell's own state, on any grid size |
| CellularAutomaton.NeighbourCountIsOffsetCount | src/CellularAutomaton.cs:113-129 | on grids of at least 2 x 2 the literal lookup equals the independent sum over the eight wrapped neighbour offsets |
| CellularAutomaton.FullBoardCount | src/CellularAutomaton.cs:118-129 | on an all-live grid the count is 8, or 6 when exactly one dimension is 1, or 0 on a 1 x 1 grid |
| CellularAutomaton.DeadBoardCount | src/CellularAutomaton.cs:118-129 | on an all-dead grid every count is 0 |
| CellularAutomaton.ChangesBeforeListsFlips | src/CellularAutomaton.cs:89-99 | after the cells before `(i, j)` are visited, the list holds exactly their flipping cells, each with its next state, in row-major order |
| CellularAutomaton.ChangesListsFlips | src/CellularAutomaton.cs:88-100 | a target is in the list iff it names a grid cell whose rule result on the old grid differs from its state, with that result; the list is row-major and names only grid cells |
| CellularAutomaton.ChangesDistinct | src/CellularAutomaton.cs:88-100 | no cell is named twice in the list |
| CellularAutomaton.ChangesBeforeAll | src/CellularAutomaton.cs:88-100 | when every cell flips, the list holds one entry per visited cell |
| CellularAutomaton.Set | src/CellularAutomaton.cs:104 | writing one target changes that cell to its state and no other cell |
| CellularAutomaton.ApplyAt | src/CellularAutomaton.cs:102-105 | after writing a row-major list, a cell the list does not name keeps its value, and a named cell holds its target's state |
| CellularAutomaton.ApplyChangesIsStep | src/CellularAutomaton.cs:89-105 | writing the collected list into the old grid yields the simultaneous step, with every cell set to the rule applied to its old state and old count |
| CellularAutomaton.ListedIffChanged | src/CellularAutomaton.cs:88-105 | a cell changes in the step iff the list names it with its new state; a cell the list does not name is unchanged |
| CellularAutomaton.DeadBoardIsStill | src/CellularAutomaton.cs:86-108 | with the Life rule an all-dead grid reports an empty list and stays unchanged |
| CellularAutomaton.FullBoardDies | src/CellularAutomaton.cs:86-108 | with the Life rule an all-live grid dies completely: the list has rows x columns entries, all to dead |
| CellularAutomaton.TwoStateCellularAutomaton.constructor | src/CellularAutomaton.cs:52-58 | a fresh all-dead grid of exactly rowCount x columnCount, with the given rule |
| CellularAutomaton.TwoStateCellularAutomaton.Life | src/CellularAutomaton.cs:60-62 | the same, with the Life rule |
| CellularAutomaton.TwoStateCellularAutomaton.CountNeighbourTrueCell | src/CellularAutomaton.cs:111-130 | the nested loops return the literal wrapped neighbour count of the current grid |
| CellularAutomaton.TwoStateCellularAutomaton.CollectChangeTargets | src/CellularAutomaton.cs:88-100 | the row-major scan returns exactly the change list of the current grid |
| CellularAutomaton.TwoStateCellularAutomaton.Next | src/CellularAutomaton.cs:86-108 | returns the change list of the old grid; the new grid is the simultaneous step of the old one; cells the list does not name keep their old value; dimensions never change |
| App.TruncDiv | src/App.cs:165 | division rounding toward zero: the remainder has the sign of the dividend and is smaller than the divisor in magnitude |
| App.FromCursorPos | src/App.cs:162-167 | the row is the line offset from the grid's first line; a non-negative column offset falls inside the square of the returned column |
| App.FromToCursorPos | src/App.cs:162-175 | converting an index to a cursor position and back gives the index, for any row and column |
| App.ToFromCursorPos | src/App.cs:162-175 | a cursor position survives the reverse round trip iff it is on the left half of a square |
| App.WrapMove | src/App.cs:200-212 | for `k + delta` within one length of the range, the move lands in range at `(k + delta) mod n`; in range it adds the delta; up from 0 gives the last index and down from the last gives 0 |
| App.WrapMoveIsNeighbour | src/App.cs:200-212 | the cursor's wrap agrees with the engine's wrapped neighbour coordinates |
| App.WrapMoveBack | src/App.cs:200-212 | moving by the opposite delta returns to the start |
| App.MoveCursor | src/App.cs:192-216 | from a cursor on the grid and unit deltas, the new cursor is on the grid, on the cell `((row + dRow) mod rows, (col + dCol) mod columns)`, at the left half of its square |
| App.MoveCursorBack | src/App.cs:192-216 | the opposite move brings the cursor back to the square it started on |
| App.Flip | src/App.cs:224 | the named cell is inverted and no other cell changes |
| App.FlipTwice | src/App.cs:224 | flipping the same cell twice restores the grid |
| App.UpdateCurrentCell | src/App.cs:219-226 | the engine's grid becomes the old grid with the cell under the cursor inverted; the returned state is the cell's new state |
| App.Dispatch | src/App.cs:69-108 | R starts a run iff stopped; C cancels iff running; arrows move and U flips iff stopped, Up by (-1, 0), Down by (+1, 0), Left by (0, -1), Right by (0, +1); E always exits and cancels iff running; every other key does nothing |
| App.ArrowDirections | src/App.cs:80-95 | when stopped, Up moves by (-1, 0), Down by (+1, 0), Left by (0, -1) and Right by (0, +1) |
| App.RunningGate | src/App.cs:178-189 | while running no key starts a run, moves or flips; while stopped no key asks for a cancellation |
| App.Handle | src/App.cs:69-108 | a key press keeps the cursor on the grid and the grid's dimensions |
| App.Replay | src/App.cs:64-109 | a sequence of presses keeps the cursor on the grid and the grid's dimensions |
| App.ReplayWhileRunning | src/App.cs:80-100 | presses made while the automaton runs change neither the grid nor the cursor |
| App.HandleKey | src/App.cs:68-108 | one loop pass returns the dispatched command and changes the grid and cursor as `Handle` says |
| App.Run | src/App.cs:59-116 | the loop consumes the presses up to and including the first E, or all of them if there is none, and leaves the grid and cursor as replaying those presses does |

## Left out

- Console I/O is not modelled: drawing the grid and borders, colours, `WriteCell`, `Console.ReadKey` and `Console.SetCursorPosition`. The cursor position and the keys read are plain inputs, and the loop returns the final cursor instead of setting it.
- The background worker is not modelled: `DoWork_Worker`, `Completed_Worker`, the 500 ms sleep, cooperative cancellation, and the redraw of changed cells. `StartWorker` and `CancelWorker` are the requests the dispatch issues to it. The running flag, which the worker sets and clears, is an input recorded with every key press.
- Calling `RunWorkerAsync` on a worker that is still busy, in the window before the worker sets the flag, throws in C#. This is a race between threads and is not modelled.
- The Ctrl+C handler, and `Main.cs` with its start-up constants, are not modelled.
- Dimensions are `nat`. A negative dimension makes the C# array allocation throw, and that path is not modelled. The constructor does no other validation, and neither does the model.
- The rule is a total function `(bool, int) -> bool`. A C# delegate that throws or has side effects is not modelled.
- App.UpdateCurrentCell: requires the cursor to be over a grid cell. C# would throw an index-out-of-range exception otherwise. The application only ever places the cursor on cells, and `MoveCursor` keeps it there.
- App.Run: handles a finite sequence of key presses and returns when they run out, whereas the C# loop blocks for the next key. The `finally` block only restores the console.
- The grid is exposed to the front end as the class's `cells` array. `UpdateCurrentCell` writes it directly, as the C# does through the `Cells` property. The property getters themselves are the `const` fields.
- Integer overflow of C# `int` is not modelled. The cursor, index and count arithmetic stays far from 2^31 for any grid a console can show.
