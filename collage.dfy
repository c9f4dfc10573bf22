/**
 * The grid search and cell layout of collage.py: the `Grid` object, built
 * by a packing loop and an axis swap, the `find_max` search over
 * short-side counts, and the block of `main` that arranges one `GridCell`
 * per release into rows and pads the leading columns and rows with the
 * spare pixels.
 */
module Collage {
  import opened GridPlanning

  /** A grid of square(ish) tiles over a `width × height` canvas; its fields are set once, by the constructor. */
  class Grid {
    var squaresX: int
    var squaresY: int
    var squareXPixels: int
    var squareYPixels: int
    var spareX: int
    var spareY: int

    /** The canvas and short-side count the grid was built for; they only state what the fields mean. */
    ghost const width: int
    ghost const height: int
    ghost const shortSideLength: int

    /** The fields of this grid as a value. */
    function View(): GridPlan
      reads this
    {
      GridPlan(squaresX, squaresY, squareXPixels, squareYPixels, spareX, spareY)
    }

    /** The fields are the grid that `Grid(width, height, shortSideLength)` describes. */
    ghost predicate Valid()
      reads this
    {
      ValidShortSide(width, height, shortSideLength) && View() == Plan(width, height, shortSideLength)
    }

    /** `get_squares`: the number of tiles, at least one and never more than the canvas has pixels. */
    function Squares(): (r: int)
      requires Valid()
      reads this
      ensures 1 <= r <= width * height
    {
      PlanInvariants(width, height, shortSideLength);
      SquaresAtMostPixels(width, height, shortSideLength);
      AtLeastOneFactor(squaresX, squaresY);
      squaresX * squaresY
    }

    /**
     * Derives the square edge from the short axis, packs squares along the
     * long axis while one more still leaves part of the axis uncovered, adds
     * one square for any remainder, recomputes the long-axis edge, swaps to
     * canvas axes when the canvas is wider than tall, and records the spare
     * pixels.
     */
    constructor (width: int, height: int, shortSideLength: int)
      requires ValidShortSide(width, height, shortSideLength)
      ensures this.width == width && this.height == height && this.shortSideLength == shortSideLength
      ensures Valid() && View() == Plan(width, height, shortSideLength)
    {
      this.width := width;
      this.height := height;
      this.shortSideLength := shortSideLength;
      var shortAxis := Min(width, height);
      var longAxis := Max(width, height);
      var shortSideSquares := shortSideLength;
      var squareSideLength := shortAxis / shortSideSquares;
      ShortSquaresFitLongAxis(width, height, shortSideLength);

      var longSideSquares := PackLongAxis(longAxis, squareSideLength, shortSideSquares);
      CoverIsLongSideSquares(width, height, shortSideLength, longSideSquares);
      PlanFromCounts(width, height, shortSideLength, squareSideLength, longSideSquares);

      var squareSideShort := squareSideLength;
      var squareSideLong := longAxis / longSideSquares;

      squaresX := shortSideSquares;
      squaresY := longSideSquares;
      squareXPixels := squareSideShort;
      squareYPixels := squareSideLong;
      new;

      if height < width {
        var temp := squaresX;
        squaresX := squaresY;
        squaresY := temp;
        temp := squareXPixels;
        squareXPixels := squareYPixels;
        squareYPixels := temp;
      }

      spareX := width - squaresX * squareXPixels;
      spareY := height - squaresY * squareYPixels;
    }
  }

  /**
   * The long-axis packing of `Grid.__init__`: starting from the short-axis
   * count, add squares while one more still leaves part of the long axis
   * uncovered, then add one square for any part left uncovered (the
   * division in the source is only tested for being nonzero). The count
   * reached covers the long axis with less than one square to spare.
   */
  method PackLongAxis(longAxis: int, squareSideLength: int, shortSideSquares: int) returns (longSideSquares: int)
    requires 1 <= squareSideLength && 1 <= shortSideSquares && shortSideSquares * squareSideLength <= longAxis
    ensures shortSideSquares <= longSideSquares
    ensures longSideSquares * squareSideLength >= longAxis
    ensures (longSideSquares - 1) * squareSideLength < longAxis
  {
    longSideSquares := shortSideSquares;

    // add squares while one more still leaves part of the long axis uncovered
    while (longSideSquares + 1) * squareSideLength < longAxis
      invariant shortSideSquares <= longSideSquares
      invariant longSideSquares == shortSideSquares || longSideSquares * squareSideLength < longAxis
      decreases longAxis - longSideSquares
    {
      longSideSquares := longSideSquares + 1;
    }
    ghost var packed := longSideSquares;

    // any part of a square left uncovered gets one more square
    if longAxis - squareSideLength * longSideSquares != 0 {
      longSideSquares := longSideSquares + 1;
    }
    PackedCountCovers(longAxis, squareSideLength, shortSideSquares, longSideSquares, packed);
  }

  /**
   * `Grid.find_max`: tries short-side counts 1, 2, 3, … and returns the last
   * grid before the first one with more than `n` tiles. Since the tile count
   * grows with the count, that is the largest grid with at most `n` tiles,
   * except that the first grid is never compared with `n`. The search ends
   * exactly when the requires holds (lemma `SearchStopsIff`); otherwise the
   * source loops until `Grid` itself diverges.
   */
  method FindMax(width: int, height: int, n: int) returns (grid: Grid)
    requires 2 <= Min(width, height) && n < width * height
    ensures grid.Valid() && grid.width == width && grid.height == height
    ensures SearchResult(width, height, n, grid.shortSideLength)
    ensures grid.Squares() <= n || grid.View() == Plan(width, height, 1)
  {
    var shortSide := 1;
    grid := new Grid(width, height, shortSide);
    FullResolutionPlan(width, height);

    while true
      invariant 1 <= shortSide < Min(width, height)
      invariant grid.Valid() && grid.width == width && grid.height == height && grid.shortSideLength == shortSide
      invariant forall j :: 2 <= j <= shortSide ==> Plan(width, height, j).Squares() <= n
      decreases Min(width, height) - shortSide
    {
      var grid2 := new Grid(width, height, shortSide + 1);

      if grid2.Squares() > n {
        forall j | shortSide + 1 < j <= Min(width, height)
          ensures Plan(width, height, j).Squares() > n
        {
          SquaresStrictlyMonotone(width, height, shortSide + 1, j);
        }
        return;
      }

      grid := grid2;
      shortSide := shortSide + 1;
    }
  }

  /**
   * `find_max(1920, 1080, 1)` as written: the one-square-high grid is
   * 2 × 1 tiles of 960 × 1080 pixels, and it is returned although it
   * holds more tiles than the bound of 1.
   */
  method FindMaxFirstGridUnchecked() returns (squares: int)
    ensures squares == 2
  {
    assert Plan(1920, 1080, 1) == GridPlan(2, 1, 960, 1080, 0, 0);
    assert Plan(1920, 1080, 2).Squares() == 8;
    var grid := FindMax(1920, 1080, 1);
    squares := grid.Squares();
  }

  /**
   * `find_max` with the first grid compared with `n` as well: no grid is
   * returned (null) exactly when even the one-square-high grid has more
   * than `n` tiles, and then no grid fits; otherwise the same grid as
   * `FindMax`, which is then the largest grid with at most `n` tiles.
   */
  method FindMaxWithinBound(width: int, height: int, n: int) returns (grid: Grid?)
    requires 2 <= Min(width, height) && n < width * height
    ensures grid == null <==> Plan(width, height, 1).Squares() > n
    ensures grid == null ==> forall j :: 1 <= j <= Min(width, height) ==> Plan(width, height, j).Squares() > n
    ensures grid != null ==>
      grid.Valid() && grid.width == width && grid.height == height &&
      SearchResult(width, height, n, grid.shortSideLength) && grid.Squares() <= n
  {
    var first := new Grid(width, height, 1);
    if first.Squares() > n {
      forall j | 1 < j <= Min(width, height)
        ensures Plan(width, height, j).Squares() > n
      {
        SquaresStrictlyMonotone(width, height, 1, j);
      }
      return null;
    }
    grid := FindMax(width, height, n);
  }

  /** One tile of the collage: its pixel size and the image drawn into it. */
  class GridCell {
    var width: int
    var height: int
    const path: string

    constructor (width: int, height: int, path: string)
      ensures this.width == width && this.height == height && this.path == path
    {
      this.width := width;
      this.height := height;
      this.path := path;
    }
  }

  /** No cell object appears twice in the sequence. */
  predicate Distinct(cells: seq<GridCell>) {
    forall i, j :: 0 <= i < j < |cells| ==> cells[i] != cells[j]
  }

  /** `rows` is a `rowCount × columnCount` rectangle. */
  predicate Rectangle(rows: seq<seq<GridCell>>, rowCount: int, columnCount: int) {
    |rows| == rowCount && forall r :: 0 <= r < |rows| ==> |rows[r]| == columnCount
  }

  /** No cell object appears at two positions of the rectangle. */
  predicate DistinctCells(rows: seq<seq<GridCell>>) {
    forall r1, c1, r2, c2 ::
      0 <= r1 < |rows| && 0 <= c1 < |rows[r1]| && 0 <= r2 < |rows| && 0 <= c2 < |rows[r2]| &&
      (r1 != r2 || c1 != c2)
      ==> rows[r1][c1] != rows[r2][c2]
  }

  /** The cell objects of the rectangle. */
  ghost function Cells(rows: seq<seq<GridCell>>): set<GridCell> {
    set r, c | 0 <= r < |rows| && 0 <= c < |rows[r]| :: rows[r][c]
  }

  /** The cells of column `c`, top to bottom. */
  function Column(rows: seq<seq<GridCell>>, c: int): (column: seq<GridCell>)
    requires 0 <= c && forall r :: 0 <= r < |rows| ==> c < |rows[r]|
    ensures |column| == |rows| && forall r :: 0 <= r < |rows| ==> column[r] == rows[r][c]
  {
    seq(|rows|, r requires 0 <= r < |rows| => rows[r][c])
  }

  /** The widths of a row of cells, left to right. */
  function Widths(row: seq<GridCell>): (ws: seq<int>)
    reads set c | c in row
    ensures |ws| == |row| && forall i :: 0 <= i < |row| ==> ws[i] == row[i].width
  {
    seq(|row|, i requires 0 <= i < |row| reads set c | c in row => row[i].width)
  }

  /** The heights of a column of cells, top to bottom. */
  function Heights(column: seq<GridCell>): (hs: seq<int>)
    reads set c | c in column
    ensures |hs| == |column| && forall i :: 0 <= i < |column| ==> hs[i] == column[i].height
  {
    seq(|column|, i requires 0 <= i < |column| reads set c | c in column => column[i].height)
  }

  function Sum(xs: seq<int>): int {
    if xs == [] then 0 else Sum(xs[..|xs| - 1]) + xs[|xs| - 1]
  }

  /**
   * Sizes that are `base + 1` on the first `spare` positions and `base`
   * elsewhere add up to `|xs| * base + spare`.
   */
  lemma {:induction false} PaddedSum(xs: seq<int>, base: int, spare: int)
    requires 0 <= spare <= |xs|
    requires forall i :: 0 <= i < |xs| ==> xs[i] == base + (if i < spare then 1 else 0)
    ensures Sum(xs) == |xs| * base + spare
  {
    if xs != [] {
      var init := xs[..|xs| - 1];
      if spare == |xs| {
        PaddedSum(init, base, spare - 1);
      } else {
        PaddedSum(init, base, spare);
      }
    }
  }

  /**
   * The list comprehension at the head of the layout block: one fresh cell
   * of the grid's base tile size per release image, in order.
   */
  method MakeCells(grid: Grid, paths: seq<string>) returns (cells: seq<GridCell>)
    ensures |cells| == |paths| && Distinct(cells)
    ensures forall i :: 0 <= i < |cells| ==> fresh(cells[i])
    ensures forall i :: 0 <= i < |cells| ==>
      cells[i].width == grid.squareXPixels && cells[i].height == grid.squareYPixels && cells[i].path == paths[i]
  {
    cells := [];
    for i := 0 to |paths|
      invariant |cells| == i && Distinct(cells)
      invariant forall j :: 0 <= j < i ==> fresh(cells[j])
      invariant forall j :: 0 <= j < i ==>
        cells[j].width == grid.squareXPixels && cells[j].height == grid.squareYPixels && cells[j].path == paths[j]
    {
      var cell := new GridCell(grid.squareXPixels, grid.squareYPixels, paths[i]);
      cells := cells + [cell];
    }
  }

  /** Row `r`, column `c` of a `squaresY × squaresX` rectangle is entry `r * squaresX + c` of a row-major list. */
  lemma RowMajorIndex(r: int, c: int, squaresX: int, squaresY: int)
    requires 0 <= r < squaresY && 0 <= c < squaresX
    ensures 0 <= r * squaresX + c < squaresY * squaresX
  {
    ProductMonotone(r + 1, squaresY, squaresX, squaresX);
  }

  /** The entry at row `r`, column `c` when `xs` is read row-major as `squaresY` rows of `squaresX`. */
  function RowMajor<T>(xs: seq<T>, squaresX: int, squaresY: int, r: int, c: int): T
    requires 0 <= r < squaresY && 0 <= c < squaresX && squaresY * squaresX <= |xs|
  {
    RowMajorIndex(r, c, squaresX, squaresY);
    xs[r * squaresX + c]
  }

  /** Distinct row-major positions have distinct list indices. */
  lemma RowMajorInjective(r1: int, c1: int, r2: int, c2: int, squaresX: int)
    requires 0 <= c1 < squaresX && 0 <= c2 < squaresX && 0 <= r1 && 0 <= r2
    requires r1 * squaresX + c1 == r2 * squaresX + c2
    ensures r1 == r2 && c1 == c2
  {
    if r1 < r2 {
      ProductMonotone(r1 + 1, r2, squaresX, squaresX);
    } else if r2 < r1 {
      ProductMonotone(r2 + 1, r1, squaresX, squaresX);
    }
  }

  /**
   * Builds `grid_2d`: `squaresY` rows of `squaresX` cells taken from `cells`
   * in row-major order. The source raises an index error when there are
   * fewer cells than tiles; the requires excludes that.
   */
  method ArrangeRows(cells: seq<GridCell>, squaresX: int, squaresY: int) returns (rows: seq<seq<GridCell>>)
    requires 0 <= squaresX && 0 <= squaresY && squaresY * squaresX <= |cells|
    ensures Rectangle(rows, squaresY, squaresX)
    ensures forall r, c :: 0 <= r < squaresY && 0 <= c < squaresX ==> rows[r][c] == RowMajor(cells, squaresX, squaresY, r, c)
  {
    rows := [];
    for i := 0 to squaresY
      invariant Rectangle(rows, i, squaresX)
      invariant forall r, c :: 0 <= r < i && 0 <= c < squaresX ==> rows[r][c] == RowMajor(cells, squaresX, squaresY, r, c)
    {
      var row := [];
      for j := 0 to squaresX
        invariant |row| == j
        invariant forall c :: 0 <= c < j ==> row[c] == RowMajor(cells, squaresX, squaresY, i, c)
      {
        RowMajorIndex(i, j, squaresX, squaresY);
        row := row + [cells[i * squaresX + j]];
      }
      rows := rows + [row];
    }
  }

  /** A rectangle arranged row-major from distinct cells has no cell twice. */
  lemma ArrangedCellsDistinct(cells: seq<GridCell>, rows: seq<seq<GridCell>>, squaresX: int, squaresY: int)
    requires 0 <= squaresX && 0 <= squaresY && squaresY * squaresX <= |cells| && Distinct(cells)
    requires Rectangle(rows, squaresY, squaresX)
    requires forall r, c :: 0 <= r < squaresY && 0 <= c < squaresX ==> rows[r][c] == RowMajor(cells, squaresX, squaresY, r, c)
    ensures DistinctCells(rows)
    ensures Cells(rows) <= set c | c in cells
  {
    forall r1, c1, r2, c2 |
      0 <= r1 < |rows| && 0 <= c1 < |rows[r1]| && 0 <= r2 < |rows| && 0 <= c2 < |rows[r2]| &&
      (r1 != r2 || c1 != c2)
      ensures rows[r1][c1] != rows[r2][c2]
    {
      RowMajorIndex(r1, c1, squaresX, squaresY);
      RowMajorIndex(r2, c2, squaresX, squaresY);
      if r1 * squaresX + c1 == r2 * squaresX + c2 {
        RowMajorInjective(r1, c1, r2, c2, squaresX);
      }
    }
    forall x | x in Cells(rows) ensures x in cells {
      var r, c :| 0 <= r < |rows| && 0 <= c < |rows[r]| && x == rows[r][c];
      RowMajorIndex(r, c, squaresX, squaresY);
    }
  }

  /**
   * The padding loops of the layout block: one extra pixel of width for
   * every cell of the first `spareX` columns, then one extra pixel of
   * height for every cell of the first `spareY` rows, updated in place.
   */
  method PadSparePixels(grid: Grid, rows: seq<seq<GridCell>>)
    requires Rectangle(rows, grid.squaresY, grid.squaresX) && DistinctCells(rows)
    requires 0 <= grid.spareX <= grid.squaresX && 0 <= grid.spareY <= grid.squaresY
    modifies Cells(rows)
    ensures forall r, c :: 0 <= r < |rows| && 0 <= c < |rows[r]| ==>
      rows[r][c].width == old(rows[r][c].width) + (if c < grid.spareX then 1 else 0) &&
      rows[r][c].height == old(rows[r][c].height) + (if r < grid.spareY then 1 else 0)
  {
    for i := 0 to grid.spareX
      invariant forall r, c :: 0 <= r < |rows| && 0 <= c < |rows[r]| ==>
        rows[r][c].width == old(rows[r][c].width) + (if c < i then 1 else 0) &&
        rows[r][c].height == old(rows[r][c].height)
    {
      for j := 0 to grid.squaresY
        invariant forall r, c :: 0 <= r < |rows| && 0 <= c < |rows[r]| ==>
          rows[r][c].width == old(rows[r][c].width) + (if c < i || (c == i && r < j) then 1 else 0) &&
          rows[r][c].height == old(rows[r][c].height)
      {
        rows[j][i].width := rows[j][i].width + 1;
      }
    }
    for i := 0 to grid.spareY
      invariant forall r, c :: 0 <= r < |rows| && 0 <= c < |rows[r]| ==>
        rows[r][c].width == old(rows[r][c].width) + (if c < grid.spareX then 1 else 0) &&
        rows[r][c].height == old(rows[r][c].height) + (if r < i then 1 else 0)
    {
      for j := 0 to grid.squaresX
        invariant forall r, c :: 0 <= r < |rows| && 0 <= c < |rows[r]| ==>
          rows[r][c].width == old(rows[r][c].width) + (if c < grid.spareX then 1 else 0) &&
          rows[r][c].height == old(rows[r][c].height) + (if r < i || (r == i && c < j) then 1 else 0)
      {
        rows[i][j].height := rows[i][j].height + 1;
      }
    }
  }

  /**
   * Padded cells fill their rectangle exactly: when the first `spareX`
   * columns are one pixel wider than `baseX` and the first `spareY` rows one
   * pixel taller than `baseY`, every row is `squaresX * baseX + spareX`
   * pixels wide and every column `squaresY * baseY + spareY` pixels tall.
   */
  lemma PaddedRectangleSums(rows: seq<seq<GridCell>>, squaresX: int, squaresY: int,
                            baseX: int, baseY: int, spareX: int, spareY: int)
    requires Rectangle(rows, squaresY, squaresX)
    requires 0 <= spareX <= squaresX && 0 <= spareY <= squaresY
    requires forall r, c :: 0 <= r < squaresY && 0 <= c < squaresX ==>
      rows[r][c].width == baseX + (if c < spareX then 1 else 0) &&
      rows[r][c].height == baseY + (if r < spareY then 1 else 0)
    ensures forall r :: 0 <= r < squaresY ==> Sum(Widths(rows[r])) == squaresX * baseX + spareX
    ensures forall c :: 0 <= c < squaresX ==> Sum(Heights(Column(rows, c))) == squaresY * baseY + spareY
  {
    forall r | 0 <= r < squaresY ensures Sum(Widths(rows[r])) == squaresX * baseX + spareX {
      PaddedSum(Widths(rows[r]), baseX, spareX);
    }
    forall c | 0 <= c < squaresX ensures Sum(Heights(Column(rows, c))) == squaresY * baseY + spareY {
      PaddedSum(Heights(Column(rows, c)), baseY, spareY);
    }
  }

  /**
   * What `PlanInvariants` gives for a valid grid, in terms of its fields:
   * positive counts, spare pixels fewer than tiles on each axis, and tiles
   * plus spare pixels making up the canvas.
   */
  lemma ValidGridFills(grid: Grid)
    requires grid.Valid()
    ensures 1 <= grid.squaresX && 1 <= grid.squaresY
    ensures 0 <= grid.spareX < grid.squaresX && 0 <= grid.spareY < grid.squaresY
    ensures grid.squaresX * grid.squareXPixels + grid.spareX == grid.width
    ensures grid.squaresY * grid.squareYPixels + grid.spareY == grid.height
  {
    PlanInvariants(grid.width, grid.height, grid.shortSideLength);
  }

  /**
   * The layout block of `main`: cells for the release images, arranged
   * into the grid's rows and padded, for at least as many images as tiles.
   * Every row then spans exactly the canvas width and every column exactly
   * its height; each cell is its base size plus one pixel in exactly the
   * leading spare columns and rows.
   */
  method Layout(grid: Grid, paths: seq<string>) returns (rows: seq<seq<GridCell>>)
    requires grid.Valid() && grid.Squares() <= |paths|
    ensures Rectangle(rows, grid.squaresY, grid.squaresX)
    ensures forall r, c :: 0 <= r < grid.squaresY && 0 <= c < grid.squaresX ==>
      rows[r][c].path == RowMajor(paths, grid.squaresX, grid.squaresY, r, c) &&
      rows[r][c].width == grid.squareXPixels + (if c < grid.spareX then 1 else 0) &&
      rows[r][c].height == grid.squareYPixels + (if r < grid.spareY then 1 else 0)
    ensures forall r :: 0 <= r < |rows| ==> Sum(Widths(rows[r])) == grid.width
    ensures forall c :: 0 <= c < grid.squaresX ==> Sum(Heights(Column(rows, c))) == grid.height
  {
    ValidGridFills(grid);
    var cells := MakeCells(grid, paths);
    rows := ArrangeRows(cells, grid.squaresX, grid.squaresY);
    ArrangedCellsDistinct(cells, rows, grid.squaresX, grid.squaresY);
    forall r, c | 0 <= r < grid.squaresY && 0 <= c < grid.squaresX
      ensures rows[r][c].width == grid.squareXPixels && rows[r][c].height == grid.squareYPixels
      ensures rows[r][c].path == RowMajor(paths, grid.squaresX, grid.squaresY, r, c)
    {
      RowMajorIndex(r, c, grid.squaresX, grid.squaresY);
    }
    PadSparePixels(grid, rows);
    PaddedRectangleSums(rows, grid.squaresX, grid.squaresY, grid.squareXPixels, grid.squareYPixels, grid.spareX, grid.spareY);
  }
}
