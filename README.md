# Collage grid packing and path sanitising, in Dafny

This project models the two computational cores of the farrago collage
generator:

- **Grid packing** (`collage.py`). A `Grid` is built for a canvas of
  `width × height` pixels and a number of squares along the canvas's
  shorter axis. The square edge comes from the short axis. Squares are
  packed along the long axis, and one more square is added for any part of
  the long axis left uncovered. The long-axis edge is then recomputed. The
  counts and edges are swapped onto the X/Y axes when the canvas is wider
  than tall, and the pixels left over on each axis are recorded as spare
  pixels. `find_max` searches short-side counts 1, 2, 3, … for the last grid
  before the first one with more than `n` tiles. The layout block of `main`
  then creates one `GridCell` per release image and arranges the cells
  row-major into rows. Finally it pads cells in place: one extra pixel of
  width in the first `spare_x` columns, one extra pixel of height in the
  first `spare_y` rows.
- **Path sanitising** (`functions.py`). `normalize_path_chars` replaces the
  eight characters `: / ? < > " | *` with look-alike characters, one
  `str.replace` pass per table entry.

Layout of the Dafny:

- `grid_plan.dfy`, module `GridPlanning`. `Plan(width, height, k)` is the
  grid as a value, defined in closed form: the square edge is
  `min(width, height) / k` and the long-axis count is the long axis over the
  edge, rounded up. The lemmas prove what the constructor promises about it.
- `collage.dfy`, module `Collage`. It holds the `Grid` class with the
  source's six fields, and a constructor that runs the packing loop and the
  axis swap. The constructor is proved to build exactly `Plan`,
  recorded as `Valid()`. The loop of
  lines 133-139 sits in its own method, `PackLongAxis`. The module also
  holds `FindMax`, a corrected `FindMaxWithinBound`, the `GridCell` class,
  and the layout methods: cell creation, row arrangement and in-place
  padding.
- `path_chars.dfy`, module `PathChars`. The replacement loop is proved equal
  to a per-character map, `NormalizeChar`.

Behaviour of the code that the model keeps as written:

- The search in `find_max` has no guard against a degenerate (zero) square
  edge. It terminates only under the condition of `SearchStopsIff`.
- The first grid is never compared with `n`; see Findings.
- There is no error result for invalid dimensions or tile counts. The
  source diverges or divides by zero on those inputs, so the model excludes
  them with preconditions.
- The remainder step at `collage.py:138` adds a square for any nonzero
  remainder, not only for "over half a square". The model does the same.

## Model

| member | source | states |
|---|---|---|
| `GridPlanning.SquareSideFits` | collage.py:125-131 | The square edge is the largest edge for which `short_side_length` squares fit on the short axis. |
| `GridPlanning.LongSidePacking` | collage.py:126-139 | The long-axis count covers the long axis (`count * edge >= long_axis`) with less than one square to spare (`(count - 1) * edge < long_axis`). It is at least the short-axis count and at most the long axis in pixels. |
| `GridPlanning.PackedCountCovers` | collage.py:134-139 | Where the packing loop stops, the remainder step yields a count that covers the long axis with less than one square to spare. |
| `GridPlanning.CoverIsLongSideSquares` | collage.py:134-142 | Only one count covers the long axis with less than one square to spare, so the count the loop computes is the closed-form ceiling. |
| `GridPlanning.ShortSquaresFitLongAxis` | collage.py:125-131 | The short-axis squares never reach past the long axis, so the packing loop starts inside it. |
| `GridPlanning.PlanInvariants` | collage.py:141-158 | All counts and edges are at least 1, and the long-axis edge never exceeds the square edge. After the swap the wider axis has at least as many tiles as the other. Spare pixels satisfy `0 <= spare_x < squares_x` and `0 <= spare_y < squares_y`. Tiles plus spare pixels give exactly `width` and `height`. |
| `GridPlanning.SquaresAtMostPixels` | collage.py:157-158 | No grid has more tiles than the canvas has pixels. |
| `GridPlanning.FullResolutionPlan` | collage.py:124-158 | With `min(width, height)` squares on the short side, the grid has `width * height` tiles, each one pixel wide and one pixel tall. |
| `GridPlanning.SearchStopsIff` | collage.py:174-186 | Some valid grid with at least 2 squares on the short side exceeds `n` exactly when `min(width, height) >= 2` and `n < width * height`. This is exactly when `find_max` terminates. |
| `GridPlanning.PlanSquares` | collage.py:141-155 | Swapped or not, a grid has the short-side count times the long-side count tiles. |
| `GridPlanning.SquaresIncrease` | collage.py:124-142 | One more square on the short side gives strictly more tiles. The square edge can only shrink, so the long axis needs at least as many squares. |
| `GridPlanning.SquaresStrictlyMonotone` | collage.py:124-142 | The tile count grows strictly with the short-side count, so the last grid before the first one over `n` is the largest grid with at most `n` tiles. |
| `GridPlanning.SearchResultMonotone` | collage.py:174-186 | The search is monotone in its bound. With `n + 1` allowed tiles it stops at no fewer squares on the short side than with `n`, and its grid has no fewer tiles. |
| `Collage.PackLongAxis` | collage.py:128-139 | The packing loop and remainder step give a count at least the short-axis count that covers the long axis with less than one square to spare. |
| `Collage.Grid.constructor` | collage.py:124-158 | The fields of the new grid are exactly `Plan(width, height, short_side_length)`, so the grid is valid for that canvas and count. |
| `Collage.Grid.Squares` | collage.py:170-171 | A valid grid has at least one tile and never more tiles than its canvas has pixels. |
| `Collage.FindMax` | collage.py:174-186 | The search returns `Grid(w, h, k)` with `SearchResult(w, h, n, k)`: every grid accepted for `2 <= j <= k` has at most `n` tiles, and every grid with more than `k` squares on the short side has more than `n` tiles. The result therefore has at most `n` tiles unless it is the unchecked first grid. |
| `Collage.FindMaxFirstGridUnchecked` | collage.py:174-186 | `find_max(1920, 1080, 1)` returns a grid of 2 tiles, more than the bound of 1. |
| `Collage.FindMaxWithinBound` | collage.py:174-186 | The corrected search returns no grid exactly when `Grid(w, h, 1)` already has more than `n` tiles, and then no grid for the canvas fits within `n`. Otherwise it returns the same grid as `find_max`: the largest grid with at most `n` tiles. |
| `Collage.GridCell.constructor` | collage.py:115-119 | A cell holds the given width, height and path. |
| `Collage.MakeCells` | collage.py:60 | Makes one fresh, distinct cell per release path, in order, each of the grid's base tile size. |
| `Collage.ArrangeRows` | collage.py:62-67 | `grid_2d` has `squares_y` rows of `squares_x` cells, and row `i`, column `j` is `cells[i * squares_x + j]`. |
| `Collage.ArrangedCellsDistinct` | collage.py:60-67 | Arranged from distinct cells, no cell object appears at two grid positions, so padding one cell never pads another. |
| `Collage.PadSparePixels` | collage.py:69-75 | In place, each cell gains one pixel of width exactly when its column is below `spare_x`. It gains one pixel of height exactly when its row is below `spare_y`. |
| `Collage.PaddedSum` | collage.py:69-75 | Sizes that are `base + 1` on the first `spare` positions and `base` elsewhere add up to `count * base + spare`. |
| `Collage.PaddedRectangleSums` | collage.py:69-75 | After padding, every row's widths add up to `squares_x * base_x + spare_x`. Every column's heights add up to `squares_y * base_y + spare_y`. |
| `Collage.Layout` | collage.py:60-75 | For a valid grid, every row's cell widths add up to the canvas width and every column's cell heights to its height. Each cell is its base size, plus one pixel exactly in the leading spare columns and rows. Each cell carries the release path at its row-major position. |
| `PathChars.ReservedIsTableKey` | functions.py:5-14 | The eight reserved characters are exactly the keys of the replacement table. |
| `PathChars.NormalizeChar` | functions.py:5-14 | A normalised character is never one of the eight reserved characters. It differs from its input exactly when the input is reserved. |
| `PathChars.Replace` | functions.py:16-17 | `str.replace` with a one-character pattern keeps the length and replaces exactly the occurrences of the pattern. |
| `PathChars.ReplaceFirstMatchesTable` | functions.py:5-17 | After the first `k` passes a character is its look-alike if one of those passes replaces it, and unchanged otherwise. This holds because no look-alike is itself a key. |
| `PathChars.AllPassesNormalize` | functions.py:5-17 | The full sequence of replace passes equals the per-character map. |
| `PathChars.NormalizePathChars` | functions.py:2-19 | The result equals the per-character map of the path. It has the same length and no reserved character. Each reserved character becomes its look-alike at the same position, and every other character is kept. |
| `PathChars.NormalizedIdempotent` | functions.py:2-19 | Normalising an already normalised path changes nothing. |

## Left out

- The rest of `main` (`collage.py:25-58`, `77-93`) is argument parsing, console output, image resizing and concatenation with OpenCV, and writing the output file. All of it is I/O or library calls.
- `fetch_bandcamp`, `fetch_lastfm`, `fetch_and_add_image`, `get_release_image` and `load_image_file` (`collage.py:189-332`) are network, HTML/JSON, file-system, hashing and image decoding. The layout takes the release image paths as a parameter instead.
- `Release` (`collage.py:96-112`) and `Grid.__repr__` (`collage.py:160-168`) only format strings and compare fields. The module-level API keys (`collage.py:21-22`) configure the network code.
- `int(a / b)` and the truthiness test at `collage.py:138` go through floating point in the source. The model uses exact integer division and `remainder != 0`. These agree for pixel sizes far below 2^53.
- Grid.constructor: requires `1 <= short_side_length <= min(width, height)`. Outside that range the source's square edge is 0 or negative, and the packing loop never ends or the division fails.
- FindMax: requires `min(width, height) >= 2` and `n < width * height`. Otherwise the source's search reaches a degenerate grid and never returns (`SearchStopsIff`).
- ArrangeRows: requires at least `squares_x * squares_y` cells. With fewer, the source raises an index error.
- `Grid` carries the canvas `width`, `height` and short-side count it was built from as ghost fields. The source does not store them; they only state what the six stored fields mean.
- `cells` and `grid_2d` share the same cell objects in the source. The model keeps that sharing: the rows hold references to the cells of `MakeCells`.

## Findings

| source | as written | input that shows it | evidently intended | confidence | as-written member | corrected member |
|---|---|---|---|---|---|---|
| collage.py:174-186 | `find_max` builds the first grid and never compares its tile count with `n`. | `find_max(1920, 1080, 1)` returns the 2 × 1 grid of 960 × 1080 tiles, which has 2 > 1 tiles. Called again from `main` with one release, the grid then has more tiles than cells, and the layout indexes past the end of `cells`. | The returned grid has at most `n` tiles, or there is no grid when none fits. | high; not executed | `Collage.FindMaxFirstGridUnchecked` | `Collage.FindMaxWithinBound` |
