# Maze grid of labyrinth.js, modelled in Dafny

This project models the maze lattice of labyrinth.js (`src/environments/Grid.js`).
The model has three modules.

- **`Cells`** (`cells.dfy`) holds the `Cell` class. A cell has a fixed `row`
  and `column` and four adjacency references, `north`, `south`, `east` and
  `west`, each possibly null. It also has a set of passages to other cells,
  its links. The JavaScript `Set` behind the links becomes a sequence kept in
  insertion order:
  - `Added` models `Set.prototype.add`;
  - `Deleted` models `Set.prototype.delete`.

  `Link` and `Unlink` are methods that update `links` in place, on the
  receiver and (by default) on the other cell. Their frames name only the
  `links` fields of those two cells.
- **`Grids`** (`grids.dfy`) holds the `Grid` class and its text rendering.
  - **Construction.** The constructor builds the rows of fresh cells
    (`GenerateGrid`), then wires every cell's four references through `Get`
    (`ConfigureCells`).
  - **Invariant.** `Valid()` states that each cell sits at its own position
    and that its references are exactly the cells one step away, with null
    beyond the boundary. Its frame holds the adjacency fields only, so
    linking and unlinking keep it: the frames alone prove this.
  - **Enumeration.** `Cells()` is the row-major concatenation of the rows. It
    is modelled as the `reduce`-with-`concat` of the source, which needs at
    least one row. `RandomCell` picks from it.
  - **Rendering.** `ToString` is the `toString` loop. It is proved equal to
    `Text()`, a line-by-line specification: a border line, then a top line and
    a bottom line per row. The lemmas about `Lines()` say which character
    sits where.
- **`TextLines`** (`text.dfy`) models `join("\n")` on lines, and splitting
  text back into lines. This is used to show that the rendered text has
  exactly `1 + 2 * height` lines.

## Model

| member | source | states |
|---|---|---|
| Cells.Cell.constructor | src/environments/Grid.js:4-9 | A new cell has the given row and column, no adjacency (all four references null) and no links; its (empty) link set holds no duplicate. |
| Cells.Cell.Links | src/environments/Grid.js:11-13 | The `links` getter lists every member of the link set and only cells the cell reports as linked; it lists none twice when the link set holds no duplicate. |
| Cells.Cell.LinksListsLinked | src/environments/Grid.js:11-13 | A cell is listed by `links` exactly when `isLinked` accepts it. |
| Cells.Cell.Toward | src/environments/Grid.js:18-19 | `this[direction]` is the reference of that direction: `north` for north, `south` for south, `east` for east, `west` for west. |
| Cells.Cell.PresentAlong | src/environments/Grid.js:16-22 | The `forEach` over a direction list pushes at most one cell per direction. |
| Cells.Cell.PresentAlongExactly | src/environments/Grid.js:16-22 | The `forEach` keeps exactly the present neighbours: every pushed cell is the neighbour in some listed direction, and every non-null neighbour in a listed direction is pushed. |
| Cells.Cell.Neighbors | src/environments/Grid.js:15-23 | The neighbours are the non-null references among north, south, east and west, in that order. Each neighbour is one of those four references. The reads frame excludes `links`, so linking never changes the neighbours. |
| Cells.Cell.DirectionsInOrder | src/environments/Grid.js:1-23 | Filtering the direction list `[north, south, east, west]` visits the four references in exactly that order. |
| Cells.Cell.Link | src/environments/Grid.js:25-31 | The receiver's links become `Added(old links, cell)`. When bidirectional, the other cell's links become `Added(its old links, receiver)`; with `bidirectional` false they are unchanged. Afterwards `isLinked` holds in each linked direction. Neither link set gains a duplicate. Only those two `links` fields may change. |
| Cells.Cell.Unlink | src/environments/Grid.js:33-39 | The receiver's links become `Deleted(old links, cell)`. When bidirectional, the other cell's links become `Deleted(its old links, receiver)`. Afterwards neither cell is linked to the other. Neither link set gains a duplicate. Only those two `links` fields may change. |
| Cells.Cell.IsLinked | src/environments/Grid.js:41-43 | A cell is linked exactly when it is present (non-null) and a member of the link set; an absent cell never is. |
| Cells.Added | src/environments/Grid.js:26 | `Set.add` keeps the earlier members in order and contains `x` afterwards. It grows by one exactly when `x` was absent, so adding a present member changes nothing. It preserves the absence of duplicates. |
| Cells.Deleted | src/environments/Grid.js:34 | `Set.delete` removes `x`, keeps every other member, adds nothing, and changes nothing when `x` is absent. |
| Cells.DeletedDistinct | src/environments/Grid.js:34 | Deleting preserves the absence of duplicates that a `Set` guarantees. |
| Cells.DeletedUndoesAdded | src/environments/Grid.js:25-39 | Linking a cell that was not linked and then unlinking it restores the link set exactly, order included. |
| Cells.AddDeleteIdempotent | src/environments/Grid.js:25-39 | Linking twice is linking once, and unlinking twice is unlinking once. |
| Grids.Grid.constructor | src/environments/Grid.js:47-52 | A new grid of the given width and height is valid (shaped and wired). Its cells are fresh and are exactly the cells of `grid`. No cell has links, so link state is symmetric and no link set holds a duplicate. |
| Grids.Grid.GenerateGrid | src/environments/Grid.js:80-89 | `height` rows of `width` fresh cells; the cell at `[r][c]` has row `r`, column `c` and no links. |
| Grids.Grid.ConfigureCells | src/environments/Grid.js:91-99 | After wiring every cell in `cells` order, every cell's four references are `get` of the four adjacent positions, which makes the grid valid. |
| Grids.Grid.Wire | src/environments/Grid.js:93-97 | The body of the `forEach` callback: one cell's references become `get` of its four adjacent positions. |
| Grids.Grid.CellsDistinct | src/environments/Grid.js:92 | `cells` lists no cell twice, so wiring one cell leaves the already-wired ones intact. |
| Grids.Grid.AllWired | src/environments/Grid.js:91-99 | Once every cell of `cells` is wired, every grid position is wired. |
| Grids.Grid.Get | src/environments/Grid.js:70-78 | `get` returns null exactly when the row or the column is out of range. Otherwise it returns the grid cell whose row and column are the arguments. |
| Grids.Grid.Rows | src/environments/Grid.js:54-56 | The rows are `height` sequences of `width` cells that agree with `get`. |
| Grids.Grid.Cells | src/environments/Grid.js:58-60 | The flattened cells number `width * height`. Each is a grid cell, and the one at index `k` has `row * width + column == k`, which is row-major order. |
| Grids.Concat | src/environments/Grid.js:59 | The `reduce` with `concat` contains every element of every row. |
| Grids.ConcatAt | src/environments/Grid.js:59 | For rows of equal width `w`, the concatenation has `rows * w` elements, and element `(r, c)` lands at index `r * w + c`. |
| Grids.ConcatPositions | src/environments/Grid.js:59 | When each cell records its own position, the cell at index `k` of the concatenation is the grid cell at its recorded row and column, and `row * w + column == k`. |
| Grids.Grid.CellsNumbered | src/environments/Grid.js:58-60 | Each flattened cell is a grid cell whose position gives its index. |
| Grids.Grid.CellsAt | src/environments/Grid.js:58-60 | The cell at `(r, c)` is element `r * width + c` of `cells`. |
| Grids.Grid.Length | src/environments/Grid.js:62-64 | `length` equals the number of cells that `cells` lists. |
| Grids.Grid.RandomCell | src/environments/Grid.js:66-68 | For a drawn index `k < length`, the result is a grid cell, namely the one numbered `k` in row-major order. |
| Grids.Grid.RandomCellCovers | src/environments/Grid.js:66-68 | Every grid cell can be drawn, and by exactly one index. |
| Grids.Grid.Adjacency | src/environments/Grid.js:91-99 | In a valid grid, a boundary cell has a null reference on exactly its outward sides. Every present reference is the adjacent grid cell. Adjacency is mutual: north of south is the cell itself, east of west likewise. |
| Grids.Grid.NeighborsGeometry | src/environments/Grid.js:15-23 | In a valid grid, the neighbours of `(r, c)` are exactly the grid cells at Manhattan distance 1. Their number is the number of in-range positions around `(r, c)`. |
| Grids.Grid.LinkKeepsSymmetry | src/environments/Grid.js:25-31 | Link state among the grid's cells stays symmetric (`a` linked to `b` iff `b` linked to `a`) and free of duplicates after a bidirectional link, given the state change that `Link` promises. |
| Grids.Grid.UnlinkKeepsSymmetry | src/environments/Grid.js:33-39 | Link state stays symmetric and free of duplicates after a bidirectional unlink, given the state change that `Unlink` promises. |
| Grids.Grid.LinkCells | src/environments/Grid.js:25-31 | A real `a.link(b)` on two grid cells: the links change as `Link` promises, and the grid stays valid (by the frames alone), symmetric and free of duplicate links. |
| Grids.Grid.UnlinkCells | src/environments/Grid.js:33-39 | A real `a.unlink(b)` on two grid cells: the links change as `Unlink` promises, and the grid stays valid, symmetric and free of duplicate links. |
| Grids.Grid.LinkEastOpensOneWall | src/environments/Grid.js:117-127 | Linking a cell with its east neighbour opens exactly that cell's east glyph. No other east glyph and no south glyph of any grid cell changes. |
| Grids.EastGlyph | src/environments/Grid.js:117-121 | The glyph right of a cell is a space exactly when the cell is linked to its east neighbour, and a wall otherwise. |
| Grids.SouthGlyph | src/environments/Grid.js:123-127 | The glyph under a cell is a space exactly when the cell is linked to its south neighbour, and a wall otherwise. |
| Grids.BorderLine | src/environments/Grid.js:105-111 | The border line has `1 + 4 * width` characters, all walls. |
| Grids.TopLine | src/environments/Grid.js:113-129 | A row's top line has `1 + 4 * cells` characters, starts with a wall, and holds only walls and spaces. |
| Grids.BottomLine | src/environments/Grid.js:114-129 | A row's bottom line has `1 + 4 * cells` characters, starts with a wall, and holds only walls and spaces. |
| Grids.TopLineAt | src/environments/Grid.js:115-121 | In the top line, cell `c` has three spaces at `4c+1..4c+3`, then its east glyph at `4c+4`. |
| Grids.BottomLineAt | src/environments/Grid.js:123-128 | In the bottom line, cell `c` has its south glyph three times at `4c+1..4c+3`, then a wall at `4c+4`. |
| Grids.RenderRow | src/environments/Grid.js:102-133 | The `map` callback's piece for row `i` is the border line (for row 0 only), then the top line and the bottom line, joined by newlines. |
| Grids.RenderBorder | src/environments/Grid.js:105-111 | The border loop builds `BorderLine(width)`. |
| Grids.RenderWalls | src/environments/Grid.js:113-129 | The `forEach` over a row builds that row's top line and bottom line together. |
| Grids.Grid.RowLines | src/environments/Grid.js:102-133 | The first `n` rows contribute `2n` lines. |
| Grids.Grid.RowLinesAt | src/environments/Grid.js:102-133 | Row `r` contributes lines `2r` (its top line) and `2r+1` (its bottom line). |
| Grids.Grid.RenderShape | src/environments/Grid.js:101-134 | The rendering has `1 + 2 * height` lines. Each line has `1 + 4 * width` characters, starts with a wall and holds only walls and spaces. The first line is all walls. |
| Grids.Grid.RenderCell | src/environments/Grid.js:115-129 | For the cell at `(r, c)`: the interior of its top line is open. The top line's position `4c+4` is open iff the cell is linked to its east neighbour. The three bottom-line positions under it are open iff it is linked to its south neighbour. The bottom-line corner `4c+4` is always a wall. |
| Grids.Grid.BoundaryWalled | src/environments/Grid.js:101-134 | In a valid grid, the first and last lines are all walls, and every line starts and ends with a wall, whatever the links. |
| Grids.Grid.TextHasLines | src/environments/Grid.js:131-133 | Splitting the text at newlines gives back the rendered lines, so the text has exactly `1 + 2 * height` lines. |
| Grids.Grid.ToString | src/environments/Grid.js:101-134 | `toString` returns `Text()`: the border line, then the top and bottom line of every row, separated by single newlines. |
| Grids.Grid.PiecesStep | src/environments/Grid.js:102-133 | Joining the pieces of rows `0..i` gives the border line followed by the lines of those rows. |
| TextLines.JoinLinesEnds | src/environments/Grid.js:131-133 | `JoinLines`, the model of `join("\n")`: no lines join to the empty text, the joined text starts with the first line and ends with the last, and it holds a newline once there are two lines. |
| TextLines.JoinLinesConcat | src/environments/Grid.js:131-133 | `join("\n")` distributes over concatenation of two non-empty groups of lines, with one newline between the groups. |
| TextLines.JoinPiece | src/environments/Grid.js:131-133 | Appending a piece that is itself a join of a group of lines extends the joined text by that group. |
| TextLines.SplitJoin | src/environments/Grid.js:131-133 | Splitting joined newline-free lines gives back the lines, so `split` inverts `join("\n")`. |

## Left out

- Grids.Grid.RandomCell: `Math.random` and `Math.floor` are not modelled. The drawn index `k` is a parameter with `k < length`.
- Cells.Cell.Link and Cells.Cell.Unlink: `return this` (call chaining) is not modelled; the methods return nothing.
- Cells.Cell.Link and Cells.Cell.Unlink: the argument is a non-null `Cell`. In the source, `link(null)` adds `null` to the set and then throws on `null.link`; `unlink(null)` likewise throws after its delete. The one-way calls `link(null, false)` and `unlink(null, false)` do not throw: the first leaves `null` listed by `links` (and never reported by `isLinked`), the second changes nothing. None of these null calls is modelled.
- Cells.Cell.IsLinked: the result is a boolean. The source's `cell && …` returns the falsy argument itself (`null` or `undefined`) when there is no cell.
- Cells.Cell.Links: the source's copy of the set (`[...this._links]`) is a fresh array; here it is the sequence value itself, since sequences cannot be aliased. That it lists no cell twice holds when the link set holds no duplicate; `Link` and `Unlink` preserve that, and `Grids.Grid.LinksDistinct` states it for every cell of a grid.
- Grids.Grid.constructor: requires `width > 0` and `height > 0`. The source does not check these. With zero rows, `reduce` without an initial value throws inside `configureCells`, and that error is not modelled. With zero columns and at least one row the source does not throw: `cells` is empty and `toString` draws a column of single walls. The `width > 0` requirement excludes that input, which the source accepts. Non-integer or negative sizes are excluded by the `nat` type.
- Grids.Grid.GenerateGrid: a static method that takes the sizes as parameters instead of reading `this.width` and `this.height`. Sparse `new Array(n)` slots are not modelled, because every slot is filled before use.
- Grids.Grid.Get: row and column are integers. Non-integer arguments (which would index `undefined` in the source) are not modelled.
- Grids.Grid.LinkKeepsSymmetry, Grids.Grid.UnlinkKeepsSymmetry and Grids.Grid.LinkEastOpensOneWall: a lemma cannot call a method, so these take the before/after states that `Link` and `Unlink` promise as preconditions. `LinkCells` and `UnlinkCells` apply the first two to real calls. The two symmetry lemmas take the two cells as one pair (a passage). Symmetry is stated for cells of one grid only. Linking cells of different grids is allowed by the source but not covered.
- Rendering: the wall glyph is one `char` (U+2588). Strings are sequences of characters, and no byte encoding is modelled.
- Cells.Cell.Neighbors: the source tests truthiness (`if (this[direction])`). The model tests for null, the only falsy value a reference field holds.
