# Falling-sand engine: a verified model

This project models the simulation engine of a falling-sand cellular automaton in Dafny. A world is a flat, row-major grid of materials (`Air`, `Snow`, `Wall`, `Sand`, `Eraser`) of width `w` and height `h`. The model covers:

- **Cell type and coordinate gate** (`cells.dfy`, module `Cells`, from `simulation.hpp`). `Cell` is the closed five-way enum, with its underlying values 0 to 4. `Point` is a signed coordinate. `IndexFromCoordinates` is the bounds-checked gate: it gives the row-major index `y*w + x` of an in-bounds point and `None` otherwise. Its body is not part of the source, so it is written from its declaration, from the probes in the test suite and from the row-major arithmetic of the unchecked index. The gate and `PointOf` (index to coordinate) are proved to be inverse bijections between the in-bounds points and the indices `0 .. w*h-1`.
- **One tick** (`simulation.dfy`, module `Simulation`, from `simulation.cpp`).
  - `Step` is a per-cell reference definition of the next generation: what each output index holds, read off the input grid alone.
  - `SimulateStep` is the source's imperative scan, proved to produce exactly `Step`. It allocates an all-Air output (the value-initialised cell is the enumerator with value 0), visits rows top to bottom and columns left to right, and reads only the input. The switch on one input cell is the method `ScanCell`.
  - The rules: Wall is copied. Snow on the bottom row is copied. Snow whose input cell below is Air (`IsPermissive`) moves down one row and leaves Air behind. Any other Snow is copied. The switch has no case for Sand or Eraser, so nothing is written for them and their slots come out Air.
  - The unchecked `getIndexFromCoordinates(Point, width)` is modelled with `size_t` wrap-around (modulo 2^64). The world size is an unsigned 32-bit pair, so `w*h` always fits.
- **Application-loop parts of the engine** (`app.dfy`, module `App`, from `main.cpp`).
  - `RenderCell` is the colour table: Air (0,0,0,255), Snow (255,255,255,255), Wall (128,128,128,255), Sand (180,110,0,255). `renderCell` falls through to an unreachable marker for Eraser, so Eraser is excluded by a precondition.
  - `RenderWorld` writes four RGBA bytes per cell into the image's pixel buffer.
  - `ClearWorld` fills the world with Air.
  - `StampBrush` is the nested brush loop. It writes the current tool into every cell of the square `[cx-b, cx+b) x [cy-b, cy+b)` that passes the gate.

The properties proved:

- Bounds safety of every index the scan reads or writes.
- Wall stays in place.
- Snow behaves in each of its three cases as described above.
- Sand and Eraser are dropped.
- Snow is conserved: no two Snow cells land in one slot, and the count of Snow is the same before and after a tick. The count of Wall is also unchanged.
- A world with no Sand or Eraser in which no Snow can fall is a fixed point.
- A rendered world can be decoded back to the same cells.
- The brush paints its whole in-bounds square, changes nothing else, never wraps a point into another row, and is idempotent.

Behaviour that follows the code rather than the tests:

- The fall test reads the input grid and the scan runs top-down. So a column `[Snow, Snow, Air]` becomes `[Snow, Air, Snow]`: Snow opens a gap. The test "falling materials leave no gaps" (tests.cpp:38-45) expects `[Air, Snow, Snow]`.
- Sand disappears in one tick. The Sand cases of tests.cpp:29-36, tests.cpp:47-54, tests.cpp:56-63 and tests.cpp:85-126 expect Sand to fall, rest on the bottom row, stack and flow diagonally.
- `StepScenarios` states the result of the transition on every input of these tests and of the tests it passes. `StepDropsSandAndEraser` gives the result for every other Sand input.

## Model

| member | source | states |
|---|---|---|
| `Cells.Ordinal` | simulation.hpp:10-16 | every enumerator has an underlying value below 5, and that value names it back |
| `Cells.CellOf` | simulation.hpp:10-16 | an underlying value names an enumerator exactly when it is 0 to 4 |
| `Cells.CellOfInvertsOrdinal` | simulation.hpp:10-16 | the value-to-enumerator map is inverted by the enumerator's value, so the enum has exactly five kinds in the order Air, Snow, Wall, Sand, Eraser |
| `Cells.DefaultCell` | simulation.cpp:17 | a value-initialised cell is the enumerator with underlying value 0, so a freshly sized grid is all Air |
| `Cells.IndexFromCoordinates` | simulation.hpp:31 | returns an index exactly when 0 <= x < width and 0 <= y < height; that index is y*width + x and lies below width*height |
| `Cells.IndexFromCoordinatesInverse` | simulation.hpp:31 | the coordinate of the returned index is the point itself |
| `Cells.PointOfInBounds` | simulation.hpp:31 | every index below width*height is the gate's image of its own coordinate |
| `Cells.IndexFromCoordinatesInjective` | simulation.hpp:31 | distinct in-bounds points map to distinct indices: no row aliasing |
| `Cells.IndexFromCoordinatesProbes` | tests.cpp:128-137 | (0,0) in a 1x1 grid maps to 0; (-1,0), (1,0), (0,-1) and (0,1) map to nothing |
| `Simulation.RowMajorIndex` | simulation.cpp:3-6 | the unchecked index is below 2^64 and, for non-negative coordinates whose offset y*width + x fits size_t, equals that offset |
| `Simulation.RowMajorIndexAgreesWithGate` | simulation.cpp:3-6 | on in-bounds points the unchecked index equals the gate's index |
| `Simulation.RowMajorIndexAliasesRows` | simulation.cpp:3-6 | without the gate, column w of row 0 aliases column 0 of row 1 and column -1 of row 1 aliases column w-1 of row 0, while the gate rejects both |
| `Simulation.SimulateStep` | simulation.cpp:13-49 | the scan's output is exactly the next generation `Step` of the input, of length w*h |
| `Simulation.ScanCell` | simulation.cpp:20-45 | handling the cell at scan position k turns an output finished below k into one finished below k+1, every later slot holding Air or Snow already fallen into it |
| `Simulation.StepKeepsWalls` | simulation.cpp:42-44 | the output holds Wall at exactly the indices where the input does |
| `Simulation.StepKeepsBottomSnow` | simulation.cpp:27-30 | Snow on the bottom row stays put |
| `Simulation.StepDropsSnow` | simulation.cpp:31-35 | Snow whose input cell below is permissive (Air) leaves Air and appears one row down |
| `Simulation.StepBlocksSnow` | simulation.cpp:36-38 | Snow whose input cell below is not permissive stays in place |
| `Simulation.StepDropsSandAndEraser` | simulation.cpp:22-45 | input Sand and Eraser slots come out Air, and no output cell is Sand or Eraser |
| `Simulation.IsPermissive` | simulation.cpp:8-11 | holds exactly for Air, the material with underlying value 0 |
| `Simulation.DestinationInjective` | simulation.cpp:31-38 | no two Snow cells of the input are written to one output slot |
| `Simulation.StepSnowIsDestinations` | simulation.cpp:26-40 | the output's Snow cells are exactly the destinations of the input's Snow cells |
| `Simulation.StepConservesSnow` | simulation.cpp:18-45 | the number of Snow cells is the same before and after a tick |
| `Simulation.StepConservesWallsAndCountsAir` | simulation.cpp:17-45 | the number of Wall cells is unchanged and the Air count grows by exactly the Sand and Eraser dropped |
| `Simulation.StepFixedPoint` | simulation.cpp:18-45 | a world without Sand or Eraser in which no Snow can fall is its own next generation |
| `Simulation.StepScenarios` | tests.cpp:5-126 | the empty, single-Air, wall, falling-Snow, bottom, collision, Snow-on-Snow and Snow-stacking cases hold as the tests expect; `[Snow, Snow, Air]` becomes `[Snow, Air, Snow]`, and every Sand input of the tests (falling, on the bottom row, colliding with Wall, Snow or Sand, stacking, and the three diagonal-flow grids) comes out with Air in each Sand slot |
| `App.RenderCell` | main.cpp:17-30 | every drawable material is drawn opaque (alpha 255) in a colour that decodes back to that material |
| `App.RenderedPixelsAt` | main.cpp:40-48 | bytes 4i to 4i+3 of the buffer are the R, G, B and A of cell i |
| `App.DecodeRenderedPixels` | main.cpp:40-48 | reading a rendered buffer back four bytes at a time gives the world's cells |
| `App.RenderWorld` | main.cpp:32-49 | with the image the size of the world, the pixel buffer becomes the rendered world, four bytes per cell |
| `App.ClearWorld` | main.cpp:51-54 | every cell becomes Air and the world keeps its length |
| `App.ClearedWorldIsStill` | main.cpp:51-54 | a cleared world is a fixed point of the tick and renders all black |
| `App.StampBrush` | main.cpp:128-140 | the world becomes the stamped world: the tool on every cell whose coordinate lies in the brush square, every other cell unchanged |
| `App.PaintPoint` | main.cpp:131-137 | one inner iteration paints the point's cell if the point passes the gate and changes nothing otherwise |
| `App.StampPaintsSquare` | main.cpp:129-137 | every in-bounds point of the square ends up holding the tool |
| `App.StampTouchesOnlySquare` | main.cpp:131-136 | a cell changes only if some point of the square passes the gate onto exactly its index, so off-grid points are skipped rather than wrapped |
| `App.StampIdempotent` | main.cpp:136 | stamping twice with the same centre, size and tool gives the world that stamping once gives |
| `App.StampScenario` | main.cpp:129-137 | a brush of size 1 at the corner of a 2x2 Air world paints only the corner cell |

## Left out

- Window, event polling and the immediate-mode menus and toolbox (main.cpp:70-127, 160-220), including the tool combo that casts an index to `Cell`: these are UI and library calls.
- The step-timing loop (main.cpp:142-158): it is driven by wall-clock time, which is host scheduling, not engine logic.
- `saveWorldToFile` and `loadWorldFromFile` (main.cpp:56-66): raw memory dumps to a file, which is I/O.
- Texture, sprite and draw calls (main.cpp:211-220), and the allocation of the initial world and image (main.cpp:76-81).
- own_imgui.cpp (UI only), benchmarks.cpp (a benchmark harness calling a function that is not part of this model) and main.hpp (profiling durations and declarations only).
- The bodyless declarations of simulation.hpp (lines 24-29 and 32-33): the `World` constructors, `operator==`, `operator<<`, `simulateStep(const World&)` and `setRectangle`. The model works on a flat cell sequence and a size instead of a `World` value.
- The tests the shown transition does not satisfy (tests.cpp:38-45, 85-126 and the Sand cases of 29-36, 47-54 and 56-63): `StepScenarios` states what the transition does on those inputs instead.
- `Point` components are unbounded integers rather than `ptrdiff_t`. The brush only forms coordinates within a brush size of a 32-bit mouse position, far from overflow.
- The source reads the input through the address of its first cell. The model takes the input as a sequence of exactly w*h cells, so it cannot express reading past the end.
- `App.RenderCell`: Eraser is excluded by a precondition. The source reaches an unreachable marker (undefined behaviour) for it, and the toolbox never places Eraser in the world.
- `Simulation.ScanCell`: the switch is a separate method, where the source inlines it in the scan loop. It reads and writes the same cells in the same order.
