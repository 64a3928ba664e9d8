# Press Your Luck board — a Dafny model

This project models the bookkeeping of `PressYourLuckBoard`. That is the
game-show "big board" display: a 4-column by 5-row grid of image tiles with
an empty 2x3 block in the middle, and a highlight cursor that jumps around
the outer ring of tiles.

The model covers:

- choosing the tile images. Keep the directory entries whose lower-cased
  name ends in `.webp`, join each to the directory, and fail with
  "No WEBP images found!" when none is left (`loader.dfy`, module `Loader`);
- the cell grid, the hole, and the clockwise ring of border cells that the
  cursor uses (`grid.dfy`, module `Grid`);
- the pixel arithmetic (`geometry.dfy`, module `Geometry`). This is where
  each tile is anchored on the canvas, the rectangle the cursor outlines,
  and how `make_tile` centres a fitted image over its gradient and adds a
  black frame;
- the board object (`board.dfy`, module `Board`). It is a class with the
  ring `positions`, the dictionary `tileWidgets` from cell to displayed
  tile, and the cursor. Its methods build the ring, draw the board, refresh
  every tile and move the highlight, each with loop invariants. Beside it,
  module `Tiles` states as values what one step of the drawing and
  refreshing loops does to the dictionary, and module `DrawOrder` states
  the row-major order in which new keys are appended;
- `util.dfy`: `Option`/`Result` and the fact that a sequence without
  repetitions has as many elements as entries.

Modelling choices:

- The outcomes of `random.choice` inside `make_tile` come in as functions
  `Cell -> Photo`: the tile made for each cell on a draw or a refresh. The
  outcome of `random.randrange` is an index `k` with `0 <= k < 14`.
- `Photo` is an abstract type, because the bitmap's pixels are not
  modelled. `ImageOps.contain` is not visible, so its promise that the
  fitted image is at most `TILE_SIZE - 20` on each side is a precondition
  of `MakeTile`.
- A Python dict iterates in insertion order. So beside the map
  `tileWidgets`, the class keeps `order`, the keys in insertion order, and
  `RefreshTiles` walks that order as the source does.
- The Tk canvas is reduced to what the board sees of it. Every created
  item gets a fresh id, counted by `nextItem`. The single item tagged
  "cursor" is the field `cursor`, so deleting and redrawing it replaces
  the field. Each entry of `tileWidgets` also records the point its image
  item was created at (`anchor`). A ghost map `itemCell` records the cell
  each tile item was created for; it shows that distinct cells hold
  distinct items.
- Python's `__init__` raises when no image is found, and a Dafny
  constructor cannot fail. So `Open` runs the filter and returns the
  error, and only on success calls the constructor, which does the rest of
  `__init__`.
- The source writes the ring as four loops over `range(4)`,
  `range(1, 5)`, `range(2, -1, -1)` and `range(3, 0, -1)`.
  `BuildRing` keeps those literal bounds. Its postcondition ties the result to
  the general ring `Ring(COLS, ROWS)`, whose properties are proved for
  every grid of at least 2x2.
- `//` and `%` are applied only to non-negative numerators and positive
  divisors. There Python's floor semantics and Dafny's Euclidean semantics
  agree.
- The nested loop of `draw_board` is split into three parts, so that each
  part can be proved on its own: `DrawBoard` (rows), `DrawRow` (columns)
  and `DrawCell` (one cell).
- In the code, `highlight_cursor` stores `(k + 1) % 14` in `cursor_index`,
  but the next tick overwrites it before it is ever read. The model keeps
  the store, and `HighlightCursor`'s contract shows that the highlighted
  cell depends on `k` alone.

## Model

| member | source | states |
|---|---|---|
| `Loader.WebpNames` | main.py:54-58 | a name is kept exactly when it is in the listing and its lower-cased form ends in ".webp"; never more entries than the listing |
| `Loader.WebpNamesAppend` | main.py:54-58 | filtering distributes over concatenation of listings, so kept names stay in listing order |
| `Loader.WebpNamesIdempotent` | main.py:54-58 | filtering an already filtered list changes nothing |
| `Loader.WebpNamesCount` | main.py:54-58 | for a listing without repeats, the kept names are distinct and there is one per matching name |
| `Loader.CaseInsensitive` | main.py:57 | the test ignores letter case: lower-casing a name first gives the same verdict |
| `Loader.JoinKeepsWebp` | main.py:55-57 | joining an entry to the directory never changes whether the path ends in ".webp" |
| `Loader.LoadImages` | main.py:54-60 | fails with "No WEBP images found!" exactly when no entry matches; otherwise one joined path per kept entry, in order |
| `Loader.LoadedPathsAreWebp` | main.py:54-58 | every loaded path names a ".webp" file |
| `Grid.RingShape` | main.py:73-85 | the ring has 2*ROWS + 2*COLS - 4 entries and starts at the top-left cell (0, 0) |
| `Grid.RingOnEdge` | main.py:73-85 | every ring entry lies on the outer edge of the grid |
| `Grid.RingDistinct` | main.py:73-85 | no cell occurs twice on the ring |
| `Grid.RingClockwise` | main.py:74-85 | consecutive entries, including the wrap from the last back to the first, are orthogonal neighbours moving clockwise |
| `Grid.RingCoversEdge` | main.py:73-85 | every border cell of the grid occurs on the ring |
| `Grid.EdgeCellsAreRing` | main.py:73-85 | the ring's cells are exactly the border cells, and there are 2*rows + 2*cols - 4 of them |
| `Grid.OccupiedIsRing` | main.py:115-122 | the cells outside the hole are exactly the ring cells, 20 - 6 = 14 of them |
| `Geometry.HighlightOutlinesTile` | main.py:147-151 | the highlight rectangle of a cell covers a pixel exactly when the pixel lies in the bordered tile `make_tile` returns, placed at that cell's anchor, and exactly when the pixel belongs to that cell |
| `Geometry.CellAtInverse` | main.py:117-118 | every pixel of a cell's tile maps back to that cell, so the placement is invertible |
| `Geometry.TilesDisjoint` | main.py:117-118 | tiles of distinct cells share no pixel |
| `Geometry.NeighboursAbut` | main.py:117-118 | neighbouring tiles abut: one ends where the next begins |
| `Geometry.BoardOnScreen` | main.py:7-8 | every tile of the grid lies inside the 1170 x 2532 screen |
| `Geometry.Centre` | main.py:103-104 | the centring offset keeps the image inside the space, and the two margins differ by at most one pixel |
| `Geometry.CentreUnique` | main.py:103-104 | no other offset splits the leftover space that evenly |
| `Geometry.MakeTile` | main.py:100-109 | for images fitted into 180 x 180, the image sits at least 10 px from each gradient edge with balanced margins; the gradient sits at (2, 2) in a 204 x 204 black square, leaving a uniform 2 px frame |
| `Geometry.ImageInsideFrame` | main.py:100-109 | the pasted image stays strictly inside the black frame |
| `Board.PressYourLuckBoard.constructor` | main.py:49-91 | after start-up, the ring is built; exactly the 14 ring cells have tiles, inserted in row-major order and showing the first update's tiles; the highlight is around ring entry k; the stored index is (k+1) % 14 |
| `Board.PressYourLuckBoard.BuildRing` | main.py:73-85 | the four literal-bound loops produce exactly the clockwise ring of the 4 x 5 grid |
| `Board.PressYourLuckBoard.DrawBoard` | main.py:113-126 | adds an entry for exactly the non-hole cells; each entry holds that cell's new tile, a fresh canvas id and the cell's origin; new keys are appended in row-major order; other entries are untouched |
| `Board.PressYourLuckBoard.DrawRow` | main.py:116-126 | one row of the draw: adds the non-hole cells of row r, left to right |
| `Board.PressYourLuckBoard.DrawCell` | main.py:117-126 | a hole cell changes nothing, not even the item counter; any other cell gets a new canvas item and the new tile, and is appended to the key order only if it is a new key |
| `Board.PressYourLuckBoard.Retile` | main.py:131-133 | one entry gets a new tile; its key, its canvas id and its anchor stay |
| `Board.PressYourLuckBoard.RefreshTiles` | main.py:130-133 | same key set, and every entry keeps its canvas id and anchor and shows the new tile for its cell |
| `Board.PressYourLuckBoard.HighlightCursor` | main.py:141-155 | the single highlight becomes the box of ring entry k, which is the box of that cell's tile; the stored index becomes (k+1) % 14 and stays in range |
| `Board.PressYourLuckBoard.UpdateBoard` | main.py:128-136 | one tick: all tiles are refreshed without adding or removing entries, then the cursor moves to ring entry k |
| `Board.Open` | main.py:49-91 | construction fails with "No WEBP images found!" exactly when no listed name matches; otherwise it returns a board built from the loaded paths whose 14 ring cells hold the first update's tiles in row-major insertion order, with the highlight around ring entry k and the stored index (k+1) % 14 |

## Left out

- The pixel values of `make_rect_gradient` (main.py:26-45) and the gradient cache built from it (main.py:70). They use float arithmetic whose result depends on rounding.
- Opening, converting, resizing and pasting images with PIL, and building `ImageTk.PhotoImage` (main.py:67, 96, 100, 105, 108-111). These are foreign library calls. Only their sizes and offsets are modelled (`MakeTile`), and tile bitmaps are the abstract type `Photo`.
- The Tk window and canvas: creating and packing them, `create_image`, `itemconfig`, `create_rectangle`, `delete`, and the highlight's colour and width (main.py:62-64, 125, 132, 143, 150-153, 158-164). Only the item ids and the cursor rectangle's corners are kept.
- The timer `root.after(UPDATE_INTERVAL, ...)` and `mainloop` (main.py:139, 164). They form an unbounded loop; one tick is `UpdateBoard`.
- `os.listdir` (main.py:56). The listing is given as a sequence of names.
- The random sources `random.choice` and `random.randrange` (main.py:95, 99, 144). Their outcomes are parameters.
- Lower-casing folds only the letters A-Z. Python's `str.lower` works on all of Unicode, but no other character lowers to one of `.`, `w`, `e`, `b`, `p`, so the `.webp` test decides the same names.
- `Board.PressYourLuckBoard.DrawBoard` and `RefreshTiles` take the tile made for each cell as a function of the cell. They do not model the order in which a single random stream would be consumed.
