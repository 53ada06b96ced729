# Falling-sand grid, texture packing and buffer swaps of a Bevy fluid demo

This project models the sequential logic of a Rust/Bevy application that couples a
falling-sand cellular automaton to a GPU stable-fluids solver. The per-pixel fluid kernels
are shader programs and are not modelled here. Three pieces are modelled:

- **The automaton** (`CellGrid` in `src/main.rs`). The grid is a row-major vector of cells.
  Each cell has a species, from a closed `repr(u8)` enumeration, and three bytes `ra`, `rb`
  and `clock`. The grid has bounds-checked accessors and an in-place `swap_cells`. The rules
  are `update_sand`, `update_water` and `update_fire`. The sweep `update_simulation`
  visits every position, y ascending and then x ascending. It dispatches on the species the
  cell has at the moment it is visited:
  - Sand and Empty go to `update_sand`;
  - Water goes to `update_water`;
  - every other species, Fire included, goes to an empty arm.

  The model is a class over an `array<Cell>`, in `cell_grid.dfy`. Its methods are proved
  to compute rules stated as functions on `seq<Cell>`, in `automaton.dfy`. Lemmas then
  show the following:
  - a sweep only rearranges cells, so the multiset of cells and each species count stay the same;
  - cells of species other than Sand, Water and Empty never move;
  - a Sand cell resting on Empty or Water ends the sweep exactly one row lower, because rows
    are visited bottom-up, and Sand on the bottom row never moves;
  - an Empty cell visited above Water trades places with it;
  - water pushed to the right is visited again in the same sweep.
- **Texture packing** (`update_burns_and_cells_textures` in `src/advection.rs` and
  `update_texture_data` in `src/main.rs`). `update_burns_and_cells_textures` writes record
  `i` as the RGBA8 bytes `4*i .. 4*i+3` and leaves later bytes untouched.
  `update_texture_data` writes only byte `4*i`, the species discriminant of cell `i`, and
  leaves every other byte as it was. Species discriminants are pairwise distinct, so the
  cells image decodes back to the cells.
- **Double-buffer handle swaps** of the `FluidTextures` resource. The velocity, density and
  pressure textures are (front, back) handle pairs. The two `swap_velocity_buffer` systems
  and the render systems `update_fluid_simulation_1/2` exchange them with
  `std::mem::swap`. The lemmas prove the following:
  - each swap is an involution;
  - each swap leaves untouched every handle it does not swap;
  - the pressure pair's order depends only on the parity of the iteration count;
  - the two Update-schedule swaps commute.

Files: `cells.dfy` (module `Cells`), `automaton.dfy` (`Automaton`), `cell_grid.dfy`
(`Grid`), `texture_packing.dfy` (`TexturePacking`), `fluid_textures.dfy` (`Buffers`).

Three points about the code that the model follows:
- `update_fire` bumps the clock and then resets the cell to `Cell::default()`
  unconditionally, because its burn-time threshold test is commented out. `update_simulation`
  never calls it, because Fire falls into the empty arm of the dispatch.
- Empty cells are not inert: the dispatch routes them to `update_sand`.
- There is no paint operation. The only painting is `handle_input`, which is disabled in the
  schedule.

## Model

| member | source | states |
|---|---|---|
| `Cells.Discriminant` | src/main.rs:89-112 | `species as u8` with the enumeration's explicit values; every discriminant is at most 19 and none is 10 |
| `Cells.DiscriminantRoundTrip` | src/main.rs:89-112 | decoding `species as u8` gives back the species |
| `Cells.DiscriminantInjective` | src/main.rs:89-112 | two species have the same discriminant iff they are equal |
| `Cells.FromByte` | src/main.rs:89-112 | a decoded byte is the discriminant of the species returned; exactly 10 and values above 19 decode to nothing |
| `Cells.AllActive` | src/main.rs:121-141 | `all_active` lists 17 pairwise distinct species, neither Empty nor Wall among them |
| `Cells.AllActiveComplete` | src/main.rs:121-141 | a species is in `all_active` iff it is neither Empty nor Wall |
| `Automaton.SwapAt` | src/main.rs:802-806 | the two slots trade contents, all other slots keep theirs, and the multiset of cells is unchanged |
| `Automaton.SwapAtInvolution` | src/main.rs:802-806 | swapping the same two slots twice restores the cells; equal indices are a no-op |
| `Automaton.SandStep` | src/main.rs:832-845 | defines the cells after `update_sand(x, y)`: one swap with the cell below when `SandFalls`, otherwise unchanged; same length (effect in `SandStepEffect`) |
| `Automaton.SandStepEffect` | src/main.rs:832-845 | no-op on row 0; otherwise the cell trades places with the one below iff that one is Empty or Water, and no other cell changes |
| `Automaton.FirstOpenFrom` | src/main.rs:850-870 | the direction found is on the grid and Empty, and no earlier direction in the order down, down-left, down-right, left, right is; none found means none is |
| `Automaton.WaterTargetUnique` | src/main.rs:858-870 | the first open direction is the one `update_water` takes |
| `Automaton.WaterStep` | src/main.rs:847-871 | defines the cells after `update_water(x, y)`: one swap with the neighbour `WaterTarget` picks, or unchanged; same length (effect in `WaterStepEffect`) |
| `Automaton.WaterStepEffect` | src/main.rs:847-871 | the cell trades places with the first on-grid Empty neighbour in priority order and nothing else changes; with no such neighbour nothing changes |
| `Automaton.CellStep` | src/main.rs:818-826 | defines one visit: Sand and Empty to the sand rule, Water to the water rule, other species unchanged; same length (conservation in `CellStepConserves`) |
| `Automaton.RowSweep` | src/main.rs:817-827 | defines the cells after visiting (0, y) .. (x - 1, y) in ascending x; same length (conservation in `RowSweepConserves`) |
| `Automaton.Sweep` | src/main.rs:816-828 | defines the cells after rows 0 .. y - 1 in ascending y; same length (conservation in `SweepConserves`) |
| `Automaton.Tick` | src/main.rs:809-830 | defines one `update_simulation` as the sweep of all rows; same length (conservation and counts in `TickConserves`) |
| `Automaton.CellStepConserves` | src/main.rs:818-826 | one visit of the sweep keeps the multiset of cells and leaves every cell that is not Sand, Water or Empty in place (that it is at most one swap is `SandStepEffect` and `WaterStepEffect`) |
| `Automaton.RowSweepConserves` | src/main.rs:817-827 | the visits of one row keep the multiset of cells and never move a cell of another species |
| `Automaton.SweepConserves` | src/main.rs:816-828 | the same for the first `y` rows of the sweep |
| `Automaton.KindsPermutation` | src/main.rs:802-806 | cells that are only swapped around keep the multiset of their species, so every species count is unchanged |
| `Automaton.TickConserves` | src/main.rs:809-830 | `update_simulation` permutes the cells, preserves the count of each species and never moves a cell whose species is not Sand, Water or Empty |
| `Automaton.VisitKeepsSand` | src/main.rs:818-871 | a visit leaves a Sand cell where it is unless it visits that cell off row 0: a swap partner is always Empty or Water |
| `Automaton.VisitKeepsPassable` | src/main.rs:818-871 | a visit keeps an Empty or Water cell Empty or Water unless it visits the cell directly above it |
| `Automaton.RowKeepsSand` | src/main.rs:817-827 | a stretch of visits along one row leaves a Sand cell in place unless it visits that cell off row 0 |
| `Automaton.RowKeepsPassable` | src/main.rs:817-827 | a stretch of visits along one row keeps an Empty or Water cell so unless it visits the cell above it |
| `Automaton.SweepKeepsSand` | src/main.rs:816-828 | a range of swept rows leaves a Sand cell in place when the cell is on row 0 or outside the range |
| `Automaton.SweepKeepsPassable` | src/main.rs:816-828 | a range of swept rows keeps an Empty or Water cell so when the row above it is outside the range |
| `Automaton.TickSandFallsOneRow` | src/main.rs:809-845 | after one `update_simulation`, a Sand cell that rested on Empty or Water sits exactly one row lower |
| `Automaton.TickBottomSandStays` | src/main.rs:809-845 | after one `update_simulation`, a Sand cell on the bottom row is still where it was |
| `Automaton.EmptyAboveWaterRises` | src/main.rs:818-845 | an Empty cell visited directly above Water trades places with it, so the water moves up |
| `Automaton.WaterMovedRightIsRevisited` | src/main.rs:816-871 | water whose only exit is to the right lands on the next position the sweep visits, and that visit runs `update_water` on it again |
| `Grid.InitialCells` | src/main.rs:162-193 | the fill of `CellGrid::new`: `n` cells, cell `i` Water iff `i > n/2`, otherwise Empty, all bytes zero |
| `Grid.InitialCounts` | src/main.rs:162-193 | a new grid of `n > 0` cells has `n - 1 - n/2` Water cells, `n/2 + 1` Empty cells and no other species |
| `Grid.AppGridCounts` | src/main.rs:909 | the grid the application creates, `CellGrid::new(WIDTH, HEIGHT)` with 600 x 400 cells, starts with 119999 Water cells and 120001 Empty cells |
| `Grid.CellGrid.constructor` | src/main.rs:162-193 | the grid has `width*height` cells; cell `i` is Water iff `i > width*height/2`, otherwise Empty, with `ra = rb = clock = 0` |
| `Grid.CellGrid.Get` | src/main.rs:195-201 | `get` is None iff `x >= width` or `y >= height`, otherwise the cell at `y*width + x` |
| `Grid.CellGrid.GetMut` | src/main.rs:203-209 | `get_mut` is None iff `x >= width` or `y >= height`, otherwise slot `y*width + x`, which is in range |
| `Grid.CellGrid.SwapCells` | src/main.rs:802-806 | the array afterwards is the old one with slots `y1*width+x1` and `y2*width+x2` exchanged; both must be in range |
| `Grid.CellGrid.UpdateSand` | src/main.rs:832-845 | the array afterwards is the sand rule applied to the old cells |
| `Grid.CellGrid.UpdateWater` | src/main.rs:847-871 | the array afterwards is the water rule applied to the old cells: at most one swap, with the first open neighbour |
| `Grid.CellGrid.UpdateFire` | src/main.rs:873-880 | an on-grid cell becomes `Cell::default()` whatever its clock was; off the grid nothing changes |
| `Grid.CellGrid.Visit` | src/main.rs:818-826 | one position of the sweep: the dispatch on the species found there now |
| `Grid.CellGrid.UpdateSimulation` | src/main.rs:809-830 | the array afterwards is the y-then-x sweep of the old cells, and it conserves cells and species counts and never moves other species |
| `TexturePacking.WindPixel` | src/advection.rs:379-385 | defines a wind's pixel as `(dx, dy, pressure, density)` (packing stated by `UpdateBurnsAndCellsTextures`) |
| `TexturePacking.CellPixel` | src/advection.rs:392-398 | defines a cell's pixel as `(species as u8, ra, rb, clock)` (decoding stated by `CellsRoundTrip`) |
| `TexturePacking.Flatten` | src/advection.rs:379-398 | the byte image of a pixel sequence holds exactly four bytes per pixel (layout in `FlattenAt`) |
| `TexturePacking.FlattenAt` | src/advection.rs:379-385 | pixel `i` occupies bytes `4*i .. 4*i+3` of the image, in channel order |
| `TexturePacking.DecodeCell` | src/advection.rs:392-398 | a decoded pixel re-encodes to the same four bytes |
| `TexturePacking.CellsRoundTrip` | src/advection.rs:392-398 | decoding the cells image recovers exactly the packed cells |
| `TexturePacking.CellsPackingInjective` | src/advection.rs:392-398 | two cell sequences with the same image are equal |
| `TexturePacking.WriteRgba` | src/advection.rs:379-385 | bytes `4*i .. 4*i+3` hold record `i`'s four channels and every later byte is unchanged; the image must hold `4*len` bytes |
| `TexturePacking.UpdateBurnsAndCellsTextures` | src/advection.rs:371-400 | wind `i` is written as `(dx, dy, pressure, density)` and cell `i` as `(species as u8, ra, rb, clock)`; a missing image is skipped and the other is still written |
| `TexturePacking.WriteSpeciesChannel` | src/main.rs:694-700 | byte `4*i` holds cell `i`'s discriminant and decodes back to cell `i`'s species; the other channels and all later bytes keep their values |
| `Buffers.SwapVelocityAndDensity` | src/advection.rs:319-330 | defines the advection swap of the velocity and density pairs (effect in `SwapVelocityAndDensityEffect`) |
| `Buffers.SwapVelocity` | src/gradient_subtract.rs:201-205 | defines the gradient-subtract swap of the velocity pair (effect in `SwapVelocityEffect`) |
| `Buffers.PressureLoop` | src/main.rs:580-599 | `n` pressure iterations, one pressure swap each, change no handle outside the pressure pair |
| `Buffers.Simulation1` | src/main.rs:554-599 | `update_fluid_simulation_1` changes no handle outside the pressure pair: its two velocity swaps cancel |
| `Buffers.Simulation2` | src/main.rs:647-648 | defines `update_fluid_simulation_2`'s single velocity swap (effect in `RenderSwapsEffect`) |
| `Buffers.RenderSwaps` | src/main.rs:935-937 | defines the two render systems run in chained order (effect in `RenderSwapsEffect`) |
| `Buffers.UpdateSwaps` | src/advection.rs:18-23 | either order of the two Update-schedule swaps leaves the velocity pair, the burns handle and the cells handle as they were |
| `Buffers.PairSwapInvolution` | src/gradient_subtract.rs:203 | swapping a pair exchanges front and back, and swapping twice restores it |
| `Buffers.SwapVelocityAndDensityEffect` | src/advection.rs:319-330 | the advection swap exchanges the velocity and density pairs, leaves pressure, curl, divergence, burns, cells, velocity_out and output unchanged, and is its own inverse |
| `Buffers.SwapVelocityEffect` | src/gradient_subtract.rs:201-205 | the gradient-subtract swap exchanges the velocity pair only and is its own inverse |
| `Buffers.PressureLoopParity` | src/main.rs:580-599 | after `n` iterations the pressure pair is in its original order iff `n` is even, and nothing else changed |
| `Buffers.Simulation1Effect` | src/main.rs:554-599 | the two velocity swaps cancel; with 20 pressure iterations the whole system leaves every handle where it was |
| `Buffers.RenderSwapsEffect` | src/main.rs:554-648 | with the 20 pressure iterations set at src/main.rs:383, the two chained render systems leave the velocity pair swapped and every other handle as it was |
| `Buffers.UpdateSwapsEffect` | src/advection.rs:18-23 | the advection and gradient-subtract swaps commute; together they restore the velocity pair, swap the density pair once, and leave the burns and cells handles alone |
| `Buffers.FluidTextures.AdvectionSwapVelocityBuffer` | src/advection.rs:319-330 | the resource afterwards has the velocity and density pairs exchanged |
| `Buffers.FluidTextures.GradientSubtractSwapVelocityBuffer` | src/gradient_subtract.rs:201-205 | the resource afterwards has the velocity pair exchanged |
| `Buffers.FluidTextures.UpdateFluidSimulation1` | src/main.rs:554-599 | velocity and density pairs unchanged, pressure pair swapped iff the iteration count is odd |
| `Buffers.FluidTextures.UpdateFluidSimulation2` | src/main.rs:647-648 | the resource afterwards has the velocity pair exchanged |

## Left out

- The GPU passes are not modelled: advection, curl, vorticity, divergence, pressure relaxation, gradient subtraction and the velocity remap. They run as shader programs that are not part of this model. Pipeline and bind-group creation, render-graph nodes and dispatch are engine glue.
- Floating point is not modelled: uniforms, the `dt` clamp, dissipation, the initial velocity field, and the window-to-grid mapping.
- `handle_input` painting is left out. It is disabled in the schedule, and it relies on float coordinates and an external Bresenham line iterator.
- `Species::random_active` is left out because it draws from a random number generator.
- `crate::universe::CellGrid` is not part of this model. Its wind list reaches the packing as an input sequence of four-byte records. The cells it packs are assumed to be the `Cell` of src/main.rs, with the species discriminants of src/main.rs:89-112; `TexturePacking.UpdateBurnsAndCellsTextures` and `TexturePacking.CellsRoundTrip` rest on that assumption.
- Bevy scheduling and resource extraction are not modelled. `update_fluid_simulation_1/2` are added, chained, to a `Render` schedule of the main app (src/main.rs:935-937); which world runs them, if any, is engine behaviour left out here, so `Buffers.RenderSwapsEffect` is stated about one `FluidTextures` value. The relative order of `update_texture_data` and `update_simulation` is not modelled.
- Grid.CellGrid.UpdateFire: models a release build, where `clock += 1` wraps at 255. A debug build panics there instead. The value is overwritten either way.
- Grid.CellGrid.UpdateSand, Grid.CellGrid.UpdateWater, Grid.CellGrid.SwapCells, TexturePacking.WriteRgba, TexturePacking.WriteSpeciesChannel: a source panic on an out-of-range index is modelled as a precondition that excludes exactly the panicking inputs.
- TexturePacking.UpdateBurnsAndCellsTextures: requires the burns and cells images to be distinct arrays. The two handles always name different images, so aliasing is not modelled.
- TexturePacking.WriteSpeciesChannel: models the loop for one material's image. The iteration over materials, and the skips when a material or its image is missing, are left out.
- The `if let Some(pipeline)` readiness tests only guard dispatches. The handle swaps happen whether or not they pass, so readiness is not a parameter of the model.
- The debug systems `check_density_texture`, `debug_curl_texture` and `debug_velocity_texture` are left out, as are the material, mesh and camera setup.
