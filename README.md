# Game of Life engine: a Dafny model

This project models the automaton engine of a small WebAssembly Game of Life
(`src/lib.rs`). The engine keeps a toroidal grid of cells and advances it by
Conway's rule B3/S23: a dead cell with three live neighbours is born, and a live
cell with two or three survives.

The `Universe` holds two fixed arrays of `SIZE*SIZE = 4096` cells, `cells` and
`double`, and a role flag `state` (`First` or `Second`) that says which array is
the visible generation. It also holds `width`, `height` and `tick_rate`.
`tick` sweeps the grid. Each sweep reads only the visible array and writes the
next generation into the other one. After the sweeps the flag flips once.

The model has four modules:

- `Cells` (`cells.dfy`): the `Cell` type with its byte value and `toggle`, the
  `BufferState` flag, and toggling one index of a buffer.
- `Torus` (`torus.dfy`): row-major indexing, the wrap of rows and columns, and the
  eight-neighbour count `live_neighbor_count`. The count is also given a reference
  definition: the live cells at the eight displacements, with coordinates taken
  modulo the grid size.
- `Generation` (`generation.dfy`): the transition rule, one sweep as a function
  `Sweep` of the source and target buffers, and `Repeat`, which is `k` sweeps.
- `Engine` (`universe.dfy`): the `Universe` class. Its two arrays are `array<Cell>`
  fields and its methods change them in place, as the source does. `Tick` runs
  the source's nested loops and is proved against `Repeat`. The reset methods, the
  setters, `ToggleCell` and `SetCellsAlive` state the whole new content of both
  buffers.

The model follows the code in these details, some of which differ from what one might expect of the engine:

- Only `width * height <= 4096` is an invariant. A zero width or height is harmless
  in the code: `tick`'s loops then run zero times, and `live_neighbor_count` is only
  called for a cell inside the grid. So `SetWidth(0)` is allowed. `SetWidth(w)`
  requires `w * height <= 4096` as a mathematical product. The code computes
  `width * height` in u32 arithmetic, which wraps modulo 2^32 in a release build. A
  product above 4096 that does not wrap makes `reset_dead` index past the end of
  `cells` and panic. A product that wraps makes it write only the wrapped number of
  cells: `set_width(1 << 26)` at height 64 wraps the product to 0, so nothing is
  written. The model excludes both kinds of input.
- `get_cells` returns the whole 4096-cell array, not only its first
  `width * height` cells.
- The resets write only the first `width * height` cells of `cells`, whichever array
  is visible. They then copy all of `cells` into `double`. Cells beyond the grid keep
  their old values in `cells`, and `double` receives those values.
- `toggle_cell` and `set_cells_alive` check no coordinate, so a column beyond the
  width lands on a later row. `get_index` computes `row * width + col` in u32
  arithmetic, which wraps modulo 2^32 in a release build, and the array access
  panics only when the wrapped index is 4096 or more. For example
  `toggle_cell(1 << 26, 5)` at width 64 wraps to index 5 and toggles that cell. The
  model requires the unwrapped index to be below 4096, which excludes every wrapping
  input.
- `tick_rate` sweeps all read the same source, because the flag flips only after
  the loop. So a tick advances one generation for every `tick_rate >= 1`, not
  `tick_rate` generations (`RepeatIsOneSweep`). With `tick_rate == 0` the flag still
  flips, and the old scratch buffer becomes visible.
- Take a 3 by 3 grid whose only live cell is `(0, 0)`. At `(1, 1)` the count is 1,
  not 0, since `(1, 1)` touches `(0, 0)` diagonally. On a 3 by 3 torus every other
  cell is a neighbour of `(0, 0)`. This follows from `LiveNeighboursIsTorusCount`;
  no concrete instance is proved.

`tick` picks the source and target array by matching on `self.state` for every
cell. The model picks both arrays once, before the loops (`Tick`, `SweepInto`).
The two are the same because the flag does not change during the loops.

## Model

| member | source | states |
|---|---|---|
| `Cells.Cell.Value` | src/lib.rs:70-76 | a cell's byte is 0 or 1, and it is 1 exactly for `Alive` |
| `Cells.Cell.Toggle` | src/lib.rs:78-85 | toggling always yields the other state |
| `Cells.ToggleInvolution` | src/lib.rs:79-84 | toggling twice gives back the original cell |
| `Cells.BufferState.Flip` | src/lib.rs:237-240 | the role swap always changes the flag |
| `Cells.ToggleAt` | src/lib.rs:283-289 | toggling index `i` of a buffer changes that index and no other, and keeps the length |
| `Cells.ToggleAtTwice` | src/lib.rs:283-289 | toggling the same index twice restores the buffer |
| `Torus.Index` | src/lib.rs:103-108 | for a column inside the width, division and remainder of the index by the width give back the row and the column |
| `Torus.RowMajorRoundTrip` | src/lib.rs:105 | the arithmetic behind `Index`: `(row * width + col) / width == row` and `% width == col` whenever `col < width` |
| `Torus.IndexInGrid` | src/lib.rs:103-108 | the index of a coordinate inside the grid is below `width * height` |
| `Torus.CoordinatesInGrid` | src/lib.rs:204-206 | every index below `width * height` is the index of the in-grid coordinate `(i / width, i % width)`, and of no other coordinate whose column is inside the width |
| `Torus.WrapBack` | src/lib.rs:115-117 | the row north of, or column west of, an in-grid coordinate is in range |
| `Torus.WrapForward` | src/lib.rs:116-118 | the row south of, or column east of, an in-grid coordinate is in range |
| `Torus.WrapIsModular` | src/lib.rs:115-118 | north/west is `(x - 1) mod n` and south/east is `(x + 1) mod n`, so row 0 wraps to `height - 1` and the last row to 0 |
| `Torus.NeighbourIndices` | src/lib.rs:120-147 | there are exactly eight neighbour indices |
| `Torus.NeighbourIndicesInGrid` | src/lib.rs:120-147 | all eight neighbour indices are below `width * height` |
| `Torus.LiveNeighbours` | src/lib.rs:109-150 | the count of a buffer's live neighbours is at most 8 |
| `Torus.LiveNeighboursIsTorusCount` | src/lib.rs:109-150 | the engine's count equals the live cells at the eight displacements taken modulo the grid size |
| `Torus.DeadNeighbourhood` | src/lib.rs:109-150 | in an all-dead grid every count is 0 |
| `Generation.Rule` | src/lib.rs:220-226 | the next state is `Alive` exactly when the count is 3, or the cell is alive and the count is 2 |
| `Generation.RuleCases` | src/lib.rs:220-226 | each arm: alive with fewer than 2 dies, with 2 or 3 lives, with more than 3 dies, dead with 3 is born, dead otherwise stays dead |
| `Generation.Next` | src/lib.rs:206-226 | the next state of in-grid index `i` is `Alive` exactly when the cell at row `i / width`, column `i % width` has three live neighbours in the source buffer, or is alive there and has two |
| `Generation.Sweep` | src/lib.rs:204-231 | a sweep keeps the buffer's length |
| `Generation.SweepAt` | src/lib.rs:206-231 | after a sweep, cell `row * width + col` is the rule applied to the old cell and its neighbour count in the source buffer |
| `Generation.SweepBeyondGrid` | src/lib.rs:204-205 | a sweep leaves every index at or past `width * height` unchanged |
| `Generation.SweepIgnoresTarget` | src/lib.rs:207-212 | inside the grid a sweep's result depends on the source buffer only, not on the target's old content |
| `Generation.SweepIdempotent` | src/lib.rs:203-235 | a second sweep from the same source changes nothing |
| `Generation.Repeat` | src/lib.rs:203 | repeated sweeps keep the buffer's length |
| `Generation.RepeatIsOneSweep` | src/lib.rs:203-240 | any number of sweeps from one on gives the same buffer as one sweep |
| `Generation.DeadGridStaysDead` | src/lib.rs:220-226 | a sweep of an all-dead grid leaves every in-grid cell dead |
| `Engine.SweepInto` | src/lib.rs:204-235 | the nested row and column loops leave the target equal to one sweep of the source, and the source is not written |
| `Engine.SweepRow` | src/lib.rs:205-233 | the inner column loop extends the swept prefix by one row: every index up to the end of row `row` holds its next state, and every later index keeps the target's old value |
| `Engine.Universe.constructor` | src/lib.rs:15-22 | the initial universe is 64 by 64 with tick rate 1, `First` visible, every cell of both buffers dead |
| `Engine.Universe.GetCells` | src/lib.rs:175-180 | the visible buffer is `cells` when the flag is `First` and `double` when it is `Second` |
| `Engine.Universe.Scratch` | src/lib.rs:228-231 | `tick` writes into the other of the two arrays |
| `Engine.Universe.Width` | src/lib.rs:260-262 | the width accessor returns the field, which fits the buffers with the height |
| `Engine.Universe.Height` | src/lib.rs:263-265 | the height accessor returns the field, which fits the buffers with the width |
| `Engine.Universe.Tick` | src/lib.rs:195-242 | the flag flips once; the new visible buffer is `tick_rate` sweeps of the old one, which is one sweep when `tick_rate >= 1` and the old scratch buffer when it is 0; the old visible buffer becomes the scratch buffer unchanged |
| `Engine.Universe.Fill` | src/lib.rs:152 | each in-grid index of `cells` gets the pattern's value, and the rest of `cells` is kept |
| `Engine.Universe.Mirror` | src/lib.rs:153 | `double` becomes equal to `cells` |
| `Engine.Universe.ResetDead` | src/lib.rs:151-154 | every in-grid cell is dead, cells beyond the grid are kept, and `double` equals `cells` |
| `Engine.Universe.ResetRandom` | src/lib.rs:155-164 | in-grid cell `i` is alive exactly when draw `i` came out true, and `double` equals `cells` |
| `Engine.Universe.ResetGrid` | src/lib.rs:165-174 | in-grid cell `i` is alive exactly when `i % 2 == 0` or `i % 7 == 0` (`Striped`), and `double` equals `cells` |
| `Engine.Universe.Reset` | src/lib.rs:280-282 | the same outcome as `ResetGrid` |
| `Engine.Universe.SetWidth` | src/lib.rs:272-275 | the width becomes the argument, every cell of the new grid is dead, and `double` equals `cells` |
| `Engine.Universe.SetHeight` | src/lib.rs:276-279 | the height becomes the argument, every cell of the new grid is dead, and `double` equals `cells` |
| `Engine.Universe.ToggleCell` | src/lib.rs:283-289 | only visible index `row * width + col` changes, and the scratch buffer is unchanged |
| `Engine.Universe.SetCellsAlive` | src/lib.rs:181-190 | each listed index of the visible buffer is alive, every other index keeps its value, and the scratch buffer is unchanged |

## Left out

- The process-wide `static_universe` and its free functions `static_tick`,
  `static_width`, `static_height`, `toggle_cell`, `cells_ptr` and `reset`
  (src/lib.rs:15-66) are wasm-bindgen glue around one unsafe global. The model has
  one `Universe` object instead, built by the constructor from the same
  initializer. Note that `static_width` and `static_height` return the constant 64,
  not the fields.
- `reset_random` draws from `js_sys::Math::random()` and compares a float with 0.5.
  The model takes the outcomes as an injected function `coin`, one boolean per index.
- `cells_ptr` exports a raw pointer. `GetCells` returns the same array.
- The `log!` macro, the `utils` panic hook, the commented-out `new` constructor and
  the commented-out `Display` impl are not modelled. They are diagnostics or dead
  code.
- `www/index.js` is not part of this model. It is the canvas UI: drawing, event
  handlers and the animation loop.
- The model does not capture u32 wrap-around: neither in `get_index`
  (src/lib.rs:103-108) nor in the loop bound `width * height` of `reset_dead`,
  `reset_random` and `reset_grid` (src/lib.rs:152, 156, 166). The preconditions keep
  `row * width + col` and `width * height` at most 4096, where no u32 operation
  wraps. Inputs that make the code wrap, and calls that make it panic with an index
  of 4096 or more, are excluded by a precondition rather than modelled.
- No end-to-end glider run and no concrete small-grid example is proved.
  Evaluating the neighbour count on concrete buffers costs the verifier too much.
  The general lemmas (`SweepAt`, `LiveNeighboursIsTorusCount`) state the behaviour
  for every grid.
