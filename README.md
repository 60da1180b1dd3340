# Game of Life core, in Dafny

A model of the `lifeless` library: Conway's Game of Life (birth on 3,
survival on 2 or 3, "B3/S23") on a fixed W x H grid whose edges do not wrap
around. It has three parts, one module each:

- `Cells` (`cell.dfy`, src/cell.rs): the two-valued `Cell`, `is_alive`,
  `is_dead`, negation (`!`), the default and the `u8` discriminants.
- `Math` (`math.dfy`, src/math.rs): the 1-based vector `SVec2` with `svec2`,
  `new`, `up`/`down`/`left`/`right` and `default`; `SVec2::neighbors`, which
  fills the eight slots of a `Neighbors` record and leaves out the slots that
  would cross an edge; and `NeighborsIter`, a class whose `Next` walks the
  slots in the order top-left, top, top-right, right, bottom-right, bottom,
  bottom-left, left. The module also holds the 0-based `Coord` that the grid
  indexes with (a pair `(x, y)`) and its neighbourhood `CoordNeighbors`.
- `Grids` (`grid.dfy`, src/grid.rs): the class `Grid`, with a `W x H`
  `array2<Cell>` (row `y`, column `x`) and a `generation` counter. `Set` and
  `Toggle` change one cell in place. `StateNext` applies the rule to one
  cell. `Step` builds a new grid from the old one; every cell of the new grid
  is computed from the old grid.
- `Wrappers` (`wrappers.dfy`): the `Option` type.

`Coord` is imported by src/grid.rs but not defined in src/math.rs, which
defines only the 1-based `SVec2`. The library's own description calls its
coordinates 0-based. The model keeps `SVec2::neighbors` 1-based, as written
(edge tests `x == 1`, `x == extents.x`). For the grid it defines the 0-based
analogue: the same eight directions in the same order, kept when they stay
inside [0, W) x [0, H). `CoordNeighborsShifted` proves that, for a position
inside the grid, this is exactly `SVec2::neighbors` of the position moved by
(+1, +1), shifted back.

## Model

| member | source | states |
|---|---|---|
| `Cells.Cell.IsAlive` | src/cell.rs:16 | `is_alive` holds exactly for `Alive` |
| `Cells.Cell.IsDead` | src/cell.rs:17 | `is_dead` holds exactly for `Dead`, so it is the negation of `is_alive` |
| `Cells.Cell.Not` | src/cell.rs:23-28 | `!c` is the other state; it is alive exactly when `c` is dead |
| `Cells.NotInvolution` | src/cell.rs:23-28 | `!!c == c` |
| `Cells.Cell.Discriminant` | src/cell.rs:7-12 | the discriminant is 1 for `Alive` and 0 for `Dead` |
| `Cells.Default` | src/cell.rs:6-11 | the default cell is `Dead` (discriminant 0) |
| `Math.Svec2` | src/math.rs:41-47 | `svec2(x, y)` gives `new(x, y)` when both are non-zero; `None` (the panic) when either is zero |
| `Math.New` | src/math.rs:56-61 | `new` keeps both non-zero components, so the vector is a valid 1-based position |
| `Math.Default` | src/math.rs:109-113 | the default vector is `svec2(1, 1)`, i.e. (1, 1) |
| `Math.SVec2.Up` | src/math.rs:103 | `up` lowers `y` by exactly 1 and keeps `x`; `y` must be at least 1 (no underflow) |
| `Math.SVec2.Down` | src/math.rs:104 | `down` raises `y` by exactly 1 and keeps `x` |
| `Math.SVec2.Left` | src/math.rs:105 | `left` lowers `x` by exactly 1 and keeps `y`; `x` must be at least 1 (no underflow) |
| `Math.SVec2.Right` | src/math.rs:106 | `right` raises `x` by exactly 1 and keeps `y` |
| `Math.SVec2.Neighbors` | src/math.rs:67-95 | every present slot `i` holds the position moved by direction `i` (top-left, top, top-right, right, bottom-right, bottom, bottom-left, left); a position off all four edges has all eight slots present |
| `Math.SlotClipping` | src/math.rs:67-95 | for a position in [1, w] x [1, h], slot `i` of `neighbors` is present exactly when the position moved in direction `i` stays in [1, w] x [1, h], and then it holds that moved position (so no subtraction underflows and nothing leaves the extents) |
| `Math.NeighborCount` | src/math.rs:67-95 | the number of neighbours yielded is (open columns) x (open rows) - 1, where a column or row is closed exactly by the edge test of the source |
| `Math.CornerEdgeInterior` | src/math.rs:170-234 | with both extents at least 2: a corner yields 3 neighbours, another edge position 5, an interior position all 8 |
| `Math.MiddleOrder` | src/math.rs:250-264 | (2, 2) in (3, 3) yields (1,1), (2,1), (3,1), (3,2), (3,3), (2,3), (1,3), (1,2) in that order |
| `Math.CornerOrders` | src/math.rs:236-247 | the four corners of (3, 3) yield exactly the three neighbours the tests list, in that order |
| `Math.Neighbors.Slot` | src/math.rs:128-140 | `get_current` gives slot `index` of the fixed order and `None` for an index of 8 or more |
| `Math.RestCountsPresentSlots` | src/math.rs:146-156 | the iteration yields exactly as many items as there are `Some` slots |
| `Math.NeighborsIter.constructor` | src/math.rs:119-124 | `into_iter` starts at slot 0 |
| `Math.NeighborsIter.Next` | src/math.rs:146-156 | `next` returns the first present slot from `index` on and moves `index` just past it (the returned item is slot `index - 1`, and every slot it skipped was absent); what the iteration still yields is fixed through `Rest`; `index` only grows and never passes 8; `None` only at index 8, so `None` is followed by `None` |
| `Math.CoordNeighbors` | src/grid.rs:35-37 | the 0-based neighbours: at most 8, no repeats, each inside [0, W) x [0, H) and adjacent to the position |
| `Math.CoordNeighborsExactly` | src/grid.rs:35-37 | a position is among the neighbours exactly when it is inside the grid and adjacent to (and different from) the position |
| `Math.CoordNeighborsShifted` | src/math.rs:67-95 | the 0-based neighbours are the 1-based `neighbors` of the shifted position, in the same order |
| `Math.CornerNeighbors` | src/grid.rs:35-37 | a position of the grid on a column edge and a row edge (a corner) has at most 3 neighbours |
| `Grids.Grid.Index` | src/grid.rs:71-83 | `grid[pos]` is the cell in row `pos.1`, column `pos.0`, with `pos` inside the grid; on an all-dead grid it is `Dead` |
| `Grids.Grid.constructor` | src/grid.rs:21-26 | `new` gives a W x H grid of dead cells at generation 0 |
| `Grids.Default` | src/grid.rs:65-69 | `default` gives the same grid as `new` |
| `Grids.Grid.Assemble` | src/grid.rs:50-53 | the grid literal built by `step` holds the given table and generation |
| `Grids.Grid.CountAlive` | src/grid.rs:37-39 | the count of live cells among some positions is at most their number, and 0 on an all-dead grid |
| `Grids.Grid.CountAliveIsSetSize` | src/grid.rs:37-39 | counting distinct positions gives the number of live positions among them |
| `Grids.Grid.LiveNeighbors` | src/grid.rs:35-39 | the live-neighbour count is at most 8, at most 3 at a corner, and 0 on an all-dead grid |
| `Grids.Grid.LiveNeighborsCountsAliveAround` | src/grid.rs:35-39 | the live-neighbour count is the number of live cells of the grid adjacent to the position; cells outside the grid never count |
| `Grids.Grid.StateNext` | src/grid.rs:34-45 | the next state is alive exactly when a dead cell has 3 live neighbours or a live cell has 2 or 3 (B3/S23); otherwise dead |
| `Grids.DeadStaysDead` | src/grid.rs:41 | on an all-dead grid every cell's next state is dead |
| `Grids.Grid.Step` | src/grid.rs:49-54 | `step` returns a fresh grid of the same size, one generation later, whose every cell `(x, y)` is `state_next((x, y))` of the unchanged receiver; an all-dead grid steps to an all-dead grid |
| `Grids.Grid.Set` | src/grid.rs:61 | `set` makes the cell at `pos` equal `state` and leaves every other cell and the generation unchanged |
| `Grids.Grid.Toggle` | src/grid.rs:62 | `toggle` negates exactly the cell at `pos` and nothing else |
| `Grids.ToggleTwice` | src/grid.rs:62 | toggling the same cell twice restores every cell and the generation |

## Left out

- The terminal demo `tui.rs` is left out. It is terminal I/O, key handling and drawing.
- src/lib.rs only declares and re-exports modules.
- The derived `Add`/`Sub` on `SVec2` are macro-generated and unused by the core, so they are not modelled. The same goes for `Clone`, `Copy` and `Debug`.
- `x()`, `y()`, `Grid::cells()` and `Grid::generation()` are plain getters. The model reads the fields (`x`, `y`, `cells`, `generation`) directly. The `&u64` reference shape is not modelled.
- `usize` and `u64` widths are not modelled. Components and the generation counter are unbounded naturals. `down`/`right` overflow only at `usize::MAX`, and the generation counter overflows only after 2^64 - 1 steps; neither happens here.
- `Math.SVec2.Up`, `Math.SVec2.Left`, `Math.SVec2.Neighbors`: the source's `usize` underflow (a panic in debug builds) is a precondition here, component at least 1. So the model does not show the wrap-around a release build would produce.
- `Grids.Grid.Index`, `Grids.Grid.Set`, `Grids.Grid.Toggle`: an index outside [0, W) x [0, H) is an array-bounds panic in the source. Here it is a precondition, so it is rejected statically and never clamped.
- `Grids.Grid.StateNext`, `Grids.Grid.LiveNeighbors`: the source's public `state_next` accepts any `Coord`; here the position must be inside the grid, which is all `step` ever passes. What `state_next` does for a position outside the grid depends on `Coord::neighbors`, whose definition is not part of this model.
- `Math.SlotClipping` and `Math.CoordNeighborsShifted` are stated for positions inside the extents. For a position outside them, `SVec2::neighbors` still runs but can yield positions outside the extents. The model computes that behaviour but proves nothing about it.
- `Coord` beyond what src/grid.rs uses is not modelled. src/grid.rs uses construction `(x, y)`, the fields `.0`/`.1` and `neighbors`. Its definition is not part of this model.
- W and H are compile-time parameters in the source. Here they are constants fixed when a `Grid` is constructed.
- Running `step` n times from a new grid gives generation n. This follows from `Grids.Grid.Step` adding one per call, but there is no separate member for it, because the library has no loop over steps.
