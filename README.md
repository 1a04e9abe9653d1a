# Grid world of an A* path-finding demo

This project models the grid "world" of a browser A* path-finding demo (`index.js`).
It covers two pieces of logic and proves properties of them:

- **Building the grid.** The `World` constructor stores the size and calls
  `fillWorld`. `fillWorld` fills `blocks` with `sizeY` rows of `sizeX` blocks.
  The block at `blocks[y][x]` records its own column `x` and row `y`.
- **Hit-testing.** `raycastBlock` turns a cursor position into the block under it.
  It subtracts half the 3 px gap, divides by the 33 px outline (30 px square plus
  3 px gap) and rounds down. It returns `undefined` when the resulting column or
  row lies outside the world.

The drawing geometry is also modelled: where `render` paints each square and how
`setupCanvas` sizes the canvas. This lets the model relate hit-testing to what is
drawn. A cursor on a block's painted square gets that block. A cursor on the
3 px gap between squares is on no square, yet it still gets a block: the one
whose band `[33i + 1.5, 33i + 34.5)` holds it (see `CellIndex` and
`GapHitsNeighbour`). So the doc comment's "the block over which the mouse is
located" holds on the squares, and on the gaps the code picks the nearer
neighbour.

Modules:

- `Layout` (`layout.dfy`): the constants `BlockSize` (30), `BlockGap` (3) and
  `BlockOutline` (33), plus `CanvasExtent`, `SquareStart` and `InSquare` for the
  drawing geometry. `CellIndex` is the cursor-to-index conversion. `HalfGap`
  (1.5) is the offset it subtracts, and `HitStart(i)` (`33i + 1.5`) is where the
  band of cursor positions hitting index `i` begins. The lemmas about them live
  here too. Both axes use the same formulas, so every function
  takes one coordinate.
- `Grid` (`grid.dfy`): `Block`, a class with constant `x` and `y`, and `World`,
  a class with `sizeX`, `sizeY` and `blocks`. `blocks` is a sequence of rows.
  A JavaScript array that grows by index assignment becomes a `seq`, and
  `FillWorld` reassigns it. `Store` models one JavaScript array store: it
  replaces an existing element or appends one past the end. `Row` and `Cells`
  are the specification of what the filling loops build, as coordinate pairs.
  `Coords` reads those pairs back from the blocks.

Modelling choices:

- Cursor coordinates are exact `real` numbers, and `CellIndex` uses `.Floor`.
  `IntCursorIndex` shows that for a whole-pixel cursor the index is
  `(2c - 3) / 66` under floor division.
- World sizes are `int`. A loop `for (i = 0; i < n; i++)` runs `LoopCount(n)`
  times, which is 0 for a negative `n`.
- The doc comment on `raycastBlock` says the cursor is measured from the
  top-right corner of the canvas. The arithmetic and the drawing code both put
  column 0 at the left edge, so the model follows the code: coordinates are
  measured from the top-left corner.

## Model

| member | source | states |
|---|---|---|
| `Layout.CellIndex` | index.js:76-80 | The index `i` computed for cursor coordinate `c` is the one whose band holds `c`: `33i + 1.5 <= c < 33(i+1) + 1.5`. This is floor((c - 1.5) / 33). |
| `Layout.CellIndexIff` | index.js:79-80 | The bands partition the axis. `CellIndex(c) == i` holds exactly when `c` lies in i's band (both directions). |
| `Layout.IntCursorIndex` | index.js:76-80 | For a whole-pixel cursor `c`, the index equals `(2c - 3) / 66` with floor division. |
| `Layout.SquareHitsItsIndex` | index.js:69-85 | A cursor on the painted square of index `i` (pixels `[33i + 3, 33i + 33)`) hits index `i`. This is the doc comment's promise, on one axis. |
| `Layout.GapHitsNeighbour` | index.js:76-80 | A cursor on the gap after square `i` (pixels `[33i + 33, 33i + 36)`) lies on no square, yet its index is `i` below `33i + 34.5` and `i + 1` from there on. |
| `Layout.GapPixelHitsFirstIndex` | index.js:76-84 | The pixel `(2, 2)` lies on no square, yet its index is 0 on both axes: `raycastBlock` there returns block (0, 0) of any non-empty world, although no square is under the cursor. |
| `Layout.SquaresDisjoint` | index.js:58-66 | No pixel lies on the painted squares of two different indices. |
| `Layout.CellIndexInRange` | index.js:82-84 | The index lies in `[0, n)` exactly when the cursor lies in `[1.5, 33n + 1.5)`. The first and last 1.5 px of the canvas hit nothing. |
| `Layout.SquareInsideCanvas` | index.js:30-31 | For `0 <= i < n`, square `i` starts after a full gap, ends at or before `33n`, and leaves a full gap before the edge of a canvas `33n + 3` wide. |
| `Layout.OriginHitsNothing` | index.js:82-83 | The canvas origin `(0, 0)` gives index -1, so no block is found there. |
| `Grid.Store` | index.js:42-44 | Assigning index `i` of an array of length at least `i` stores the value at `i`. Every other element is kept. The length grows by one exactly when `i` was one past the end. |
| `Grid.Block.constructor` | index.js:6-9 | A new block records the column and row it is given. |
| `Grid.RowShape` | index.js:43-45 | The row the inner loop builds has `sizeX` entries, and entry `x` is `(x, y)`. |
| `Grid.CellsShape` | index.js:41-46 | The grid the loops build has `sizeY` rows of `sizeX` entries each, and entry `[y][x]` is `(x, y)`. Rows are indexed by y and columns by x. |
| `Grid.CoordsMatchCells` | index.js:41-46 | If the blocks' recorded coordinates equal the specified grid, then there are `sizeY` rows of `sizeX` blocks, and `blocks[y][x]` records `x` and `y`. |
| `Grid.World.FillWorld` | index.js:40-47 | After filling, the first `sizeY` rows carry exactly the coordinates `Cells(sizeX, sizeY)`. Every block in them is newly allocated. Rows at index `sizeY` and beyond are kept, and the world invariant `Valid` holds. |
| `Grid.World.constructor` | index.js:15-22 | A new world keeps the sizes it is given and has exactly `sizeY` rows satisfying `Valid`: each row has `sizeX` blocks, and `blocks[y][x]` records `x` and `y`. Every block is newly allocated. |
| `Grid.World.RaycastBlock` | index.js:75-86 | Returns `None` exactly when the computed column is outside `[0, sizeX)` or the computed row is outside `[0, sizeY)`. Otherwise it returns the stored block `blocks[row][column]`, whose `x` and `y` are the computed column and row. A cursor on the painted square of any block returns that block. The method has no `modifies` clause, so it changes nothing. |
| `Grid.PageWorld` | index.js:89 | In the 30 by 30 world the page creates, `(0, 0)` hits nothing, `(50, 83)` hits the block in column 1, row 2, and the canvas's last pixel column, `CanvasExtent(30) - 1 = 992`, hits nothing. |

The following have no contract of their own; the lemmas above state their
properties: `Layout.CanvasExtent` (index.js:30-31), `Layout.SquareStart` and
`Layout.InSquare` (index.js:60-65), `Layout.HalfGap` and `Layout.HitStart`
(index.js:76-79), `Grid.LoopCount`, `Grid.Row`, `Grid.Cells`,
`Grid.RowCoords` and `Grid.Coords`. The helper lemmas `Grid.RowCoordsAppend` and
`Grid.CoordsAppend` carry one loop step each.

## Left out

- Browser I/O is not modelled. That covers the DOM work in `setupCanvas`
  (creating the canvas, appending it, getting the context) and all of `render`.
  Only the canvas width and height arithmetic and the square positions are kept.
- Floating point is not modelled. Cursor coordinates are exact reals, so rounding
  in `(c - 1.5) / 33` for fractional coordinates near a band edge is not captured.
  The constants 1.5 and 33 are exact in binary floating point.
- Non-integer, infinite and NaN sizes or cursor coordinates are not modelled.
  Sizes are whole numbers, and a negative size behaves like zero.
- A block's `x` and `y` are constants in the model. The source
  never reassigns them, but JavaScript would allow it.
- The path search itself (open and closed sets, costs, neighbours, path
  reconstruction) is not part of `index.js` and is not part of this model.
- Only `index.js` is part of this model. No other file of the program is.
