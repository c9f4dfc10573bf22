/**
 * The arithmetic behind `Grid.__init__` in collage.py, stated as pure
 * functions: the square edge taken from the short axis, the number of
 * squares packed along the long axis, and the resulting grid of tile
 * counts, tile sizes and spare pixels on each canvas axis.
 *
 * `Plan` is the reference definition that the imperative constructor of
 * `Collage.Grid` is proved against; the lemmas below are what the rest of
 * the model needs about it.
 */
module GridPlanning {

  function Min(a: int, b: int): int { if a < b then a else b }
  function Max(a: int, b: int): int { if a < b then b else a }

  /** The grid a constructor call produces, in canvas (X, Y) terms. */
  datatype GridPlan = GridPlan(
    squaresX: int, squaresY: int,
    squareXPixels: int, squareYPixels: int,
    spareX: int, spareY: int)
  {
    /** `Grid.get_squares`: the number of tiles in the grid. */
    function Squares(): int { squaresX * squaresY }
  }

  /**
   * The inputs on which `Grid(width, height, short_side_length)` terminates:
   * with more squares than pixels on the short axis the square edge is 0 and
   * the packing loop never exits.
   */
  predicate ValidShortSide(width: int, height: int, shortSideLength: int) {
    1 <= shortSideLength <= Min(width, height)
  }

  /** The square edge, from the short axis. */
  function SquareSide(width: int, height: int, shortSideLength: int): (s: int)
    requires ValidShortSide(width, height, shortSideLength)
    ensures 1 <= s
  {
    Min(width, height) / shortSideLength
  }

  /** The number of squares along the long axis: the long axis over the square edge, rounded up. */
  function LongSideSquares(width: int, height: int, shortSideLength: int): (l: int)
    requires ValidShortSide(width, height, shortSideLength)
    ensures 1 <= l
  {
    var s := SquareSide(width, height, shortSideLength);
    (Max(width, height) + s - 1) / s
  }

  /** The grid `Grid(width, height, shortSideLength)` describes, axes swapped when the canvas is wider than tall. */
  function Plan(width: int, height: int, shortSideLength: int): GridPlan
    requires ValidShortSide(width, height, shortSideLength)
  {
    var k := shortSideLength;
    var s := SquareSide(width, height, k);
    var l := LongSideSquares(width, height, k);
    var longEdge := Max(width, height) / l;
    if height < width then
      GridPlan(l, k, longEdge, s, width - l * longEdge, height - k * s)
    else
      GridPlan(k, l, s, longEdge, width - k * s, height - l * longEdge)
  }

  /** `Plan` spelled out from the square edge `s` and the long-axis count `l`. */
  lemma PlanFromCounts(width: int, height: int, shortSideLength: int, s: int, l: int)
    requires ValidShortSide(width, height, shortSideLength)
    requires s == SquareSide(width, height, shortSideLength) && l == LongSideSquares(width, height, shortSideLength)
    ensures var longEdge := Max(width, height) / l;
      Plan(width, height, shortSideLength) ==
        if height < width then
          GridPlan(l, shortSideLength, longEdge, s, width - l * longEdge, height - shortSideLength * s)
        else
          GridPlan(shortSideLength, l, s, longEdge, width - shortSideLength * s, height - l * longEdge)
  {
  }

  /** The square edge is the largest edge for which `shortSideLength` squares fit on the short axis. */
  lemma SquareSideFits(width: int, height: int, shortSideLength: int)
    requires ValidShortSide(width, height, shortSideLength)
    ensures var s := SquareSide(width, height, shortSideLength);
      shortSideLength * s <= Min(width, height) < shortSideLength * (s + 1)
  {
    DivBounds(Min(width, height), shortSideLength);
  }

  /**
   * The long-axis count is the fewest squares of the square edge that cover
   * the long axis, and never fewer than on the short axis.
   */
  lemma LongSidePacking(width: int, height: int, shortSideLength: int)
    requires ValidShortSide(width, height, shortSideLength)
    ensures var s := SquareSide(width, height, shortSideLength);
      var l := LongSideSquares(width, height, shortSideLength);
      shortSideLength <= l <= Max(width, height) &&
      l * s >= Max(width, height) && (l - 1) * s < Max(width, height)
  {
    var k := shortSideLength;
    var s := SquareSide(width, height, k);
    var l := LongSideSquares(width, height, k);
    var long := Max(width, height);
    assert l == (long + s - 1) / s;
    CeilBounds(long, s);
    SquareSideFits(width, height, k);
    assert (l + 1) * s == l * s + s;
    LessProductLessFactor(k, l + 1, s);
    AtLeastOneFactor(l - 1, s);
  }

  /**
   * What `Grid.__init__` promises about the grid: every count and edge is
   * positive, the long-axis edge never exceeds the square edge, the axis
   * with more pixels gets at least as many tiles, the spare pixels on each
   * axis are fewer than the tiles on it, and tiles plus spare pixels make
   * up the canvas exactly.
   */
  lemma PlanInvariants(width: int, height: int, shortSideLength: int)
    requires ValidShortSide(width, height, shortSideLength)
    ensures var p := Plan(width, height, shortSideLength);
      1 <= p.squaresX && 1 <= p.squaresY &&
      1 <= p.squareXPixels && 1 <= p.squareYPixels &&
      p.squaresX * p.squareXPixels + p.spareX == width &&
      p.squaresY * p.squareYPixels + p.spareY == height &&
      0 <= p.spareX < p.squaresX && 0 <= p.spareY < p.squaresY
    ensures var p := Plan(width, height, shortSideLength);
      var s := SquareSide(width, height, shortSideLength);
      if height < width then
        p.squaresY == shortSideLength && p.squaresX >= p.squaresY &&
        p.squareYPixels == s && p.squareXPixels <= s
      else
        p.squaresX == shortSideLength && p.squaresY >= p.squaresX &&
        p.squareXPixels == s && p.squareYPixels <= s
  {
    var k := shortSideLength;
    var s := SquareSide(width, height, k);
    var l := LongSideSquares(width, height, k);
    var long := Max(width, height);
    LongSidePacking(width, height, k);
    LongEdgeBounds(long, l, s);
    DivBounds(long, l);
    SquareSideFits(width, height, k);
    DivBounds(Min(width, height), k);
  }

  /** Floor division by a positive divisor leaves a remainder below the divisor. */
  lemma DivBounds(a: int, d: int)
    requires 0 <= a && 1 <= d
    ensures 0 <= a / d
    ensures 0 <= a - d * (a / d) < d
    ensures d * (a / d) <= a < d * (a / d + 1)
  {
  }

  /** Ceiling division: `(a + d - 1) / d` is the fewest multiples of `d` covering `a`. */
  lemma CeilBounds(a: int, d: int)
    requires 0 <= a && 1 <= d
    ensures ((a + d - 1) / d) * d >= a
    ensures ((a + d - 1) / d - 1) * d < a
  {
    DivBounds(a + d - 1, d);
    var q := (a + d - 1) / d;
    assert (q - 1) * d == q * d - d;
  }

  /** For a positive factor, `a * c < b * c` forces `a < b`. */
  lemma LessProductLessFactor(a: int, b: int, c: int)
    requires c >= 1 && a * c < b * c
    ensures a < b
  {
  }

  /** A product with a positive factor is at least the other factor, when that one is non-negative. */
  lemma AtLeastOneFactor(a: int, c: int)
    requires c >= 1 && a >= 0
    ensures a <= a * c
  {
  }

  /** Products of non-negative numbers grow with their factors. */
  lemma ProductMonotone(a: int, b: int, c: int, d: int)
    requires 0 <= a <= b && 0 <= c <= d
    ensures a * c <= b * d
  {
    assert a * c <= b * c;
  }

  /** The recomputed long-axis edge is at least 1 and at most the square edge. */
  lemma LongEdgeBounds(long: int, l: int, s: int)
    requires 1 <= s && 1 <= l <= long
    requires l * s >= long
    ensures 1 <= long / l <= s
  {
    DivBounds(long, l);
    LessProductLessFactor(long / l, s + 1, l);
  }

  /**
   * The covering count is unique: only one `l` has `l * s >= long` and
   * `(l - 1) * s < long`. The packing loop in the constructor is proved to
   * compute `LongSideSquares` through this.
   */
  lemma CoveringCountUnique(long: int, s: int, l: int, m: int)
    requires s >= 1
    requires l * s >= long && (l - 1) * s < long
    requires m * s >= long && (m - 1) * s < long
    ensures l == m
  {
    LessProductLessFactor(l - 1, m, s);
    LessProductLessFactor(m - 1, l, s);
  }

  /**
   * The packing loop stops at `packed`, the first count from `k` on for which
   * one more square would reach the end of the axis; adding one square for a
   * nonzero remainder then gives a count that covers the axis with less than
   * one square to spare.
   */
  lemma PackedCountCovers(long: int, s: int, k: int, l: int, packed: int)
    requires s >= 1 && 1 <= k <= packed && k * s <= long
    requires packed == k || packed * s < long
    requires (packed + 1) * s >= long
    requires l == if long - s * packed != 0 then packed + 1 else packed
    ensures l * s >= long && (l - 1) * s < long
  {
    if packed == k {
      ProductMonotone(k, packed, s, s);
    }
  }

  /**
   * The long-axis count is the only count whose squares cover the long axis
   * with less than one square to spare.
   */
  lemma CoverIsLongSideSquares(width: int, height: int, shortSideLength: int, l: int)
    requires ValidShortSide(width, height, shortSideLength)
    requires l * SquareSide(width, height, shortSideLength) >= Max(width, height)
    requires (l - 1) * SquareSide(width, height, shortSideLength) < Max(width, height)
    ensures l == LongSideSquares(width, height, shortSideLength)
  {
    LongSidePacking(width, height, shortSideLength);
    CoveringCountUnique(Max(width, height), SquareSide(width, height, shortSideLength), l, LongSideSquares(width, height, shortSideLength));
  }

  /** The short-axis squares never reach past the long axis. */
  lemma ShortSquaresFitLongAxis(width: int, height: int, shortSideLength: int)
    requires ValidShortSide(width, height, shortSideLength)
    ensures shortSideLength * SquareSide(width, height, shortSideLength) <= Max(width, height)
  {
    SquareSideFits(width, height, shortSideLength);
  }

  /** No grid has more tiles than the canvas has pixels: every tile is at least one pixel. */
  lemma SquaresAtMostPixels(width: int, height: int, shortSideLength: int)
    requires ValidShortSide(width, height, shortSideLength)
    ensures Plan(width, height, shortSideLength).Squares() <= width * height
  {
    var p := Plan(width, height, shortSideLength);
    PlanInvariants(width, height, shortSideLength);
    AtLeastOneFactor(p.squaresX, p.squareXPixels);
    AtLeastOneFactor(p.squaresY, p.squareYPixels);
    ProductMonotone(p.squaresX, width, p.squaresY, height);
  }

  /** With one square per pixel of the short axis, the grid is one tile per pixel. */
  lemma FullResolutionPlan(width: int, height: int)
    requires 1 <= width && 1 <= height
    ensures var p := Plan(width, height, Min(width, height));
      p.Squares() == width * height && p.squareXPixels == 1 && p.squareYPixels == 1
  {
    var k := Min(width, height);
    assert SquareSide(width, height, k) == 1;
    LongSidePacking(width, height, k);
    assert LongSideSquares(width, height, k) == Max(width, height);
  }

  /** Whatever the orientation, a grid has the short-side count times the long-side count tiles. */
  lemma PlanSquares(width: int, height: int, shortSideLength: int)
    requires ValidShortSide(width, height, shortSideLength)
    ensures Plan(width, height, shortSideLength).Squares() == shortSideLength * LongSideSquares(width, height, shortSideLength)
  {
    PlanFromCounts(width, height, shortSideLength, SquareSide(width, height, shortSideLength), LongSideSquares(width, height, shortSideLength));
  }

  /**
   * One more square on the short side gives strictly more tiles: the square
   * edge can only shrink, so the long axis needs at least as many squares.
   */
  lemma SquaresIncrease(width: int, height: int, k: int)
    requires 1 <= k && ValidShortSide(width, height, k + 1)
    ensures Plan(width, height, k).Squares() < Plan(width, height, k + 1).Squares()
  {
    SquareSideFits(width, height, k);
    SquareSideFits(width, height, k + 1);
    LongSidePacking(width, height, k);
    LongSidePacking(width, height, k + 1);
    FinerEdgeMoreTiles(k, Min(width, height), Max(width, height),
      SquareSide(width, height, k), SquareSide(width, height, k + 1),
      LongSideSquares(width, height, k), LongSideSquares(width, height, k + 1));
    PlanSquares(width, height, k);
    PlanSquares(width, height, k + 1);
  }

  /**
   * The arithmetic of `SquaresIncrease`: with `k` and `k + 1` squares on the
   * short axis, edges `s1` and `s2`, and long-axis counts `l1` and `l2`
   * covering the long axis with less than one square to spare, `k * l1 < (k + 1) * l2`.
   */
  lemma FinerEdgeMoreTiles(k: int, short: int, long: int, s1: int, s2: int, l1: int, l2: int)
    requires 1 <= k && 1 <= s1 && 1 <= s2 && 1 <= l1 && 1 <= l2
    requires (k + 1) * s2 <= short < k * (s1 + 1)
    requires (l1 - 1) * s1 < long && l2 * s2 >= long
    ensures k * l1 < (k + 1) * l2
  {
    ProductMonotone(k, k + 1, s2, s2);
    LessProductLessFactor(s2, s1 + 1, k);
    ProductMonotone(l2, l2, s2, s1);
    LessProductLessFactor(l1 - 1, l2, s1);
    ProductMonotone(k, k, l1, l2);
    assert (k + 1) * l2 == k * l2 + l2;
  }

  /** The tile count grows strictly with the number of squares on the short side. */
  lemma {:induction false} SquaresStrictlyMonotone(width: int, height: int, i: int, j: int)
    requires 1 <= i < j && ValidShortSide(width, height, j)
    ensures Plan(width, height, i).Squares() < Plan(width, height, j).Squares()
    decreases j - i
  {
    SquaresIncrease(width, height, j - 1);
    if i < j - 1 {
      SquaresStrictlyMonotone(width, height, i, j - 1);
    }
  }

  /**
   * `k` is where the search in `Grid.find_max` ends for bound `n`: every
   * grid it accepted after the first (2 <= j <= k) has at most `n` tiles,
   * and every grid with more squares on the short side has more than `n`.
   */
  predicate SearchResult(width: int, height: int, n: int, k: int) {
    1 <= k < Min(width, height) &&
    (forall j :: 2 <= j <= k ==> Plan(width, height, j).Squares() <= n) &&
    (forall j :: k < j <= Min(width, height) ==> Plan(width, height, j).Squares() > n)
  }

  /**
   * The search is monotone in its bound: allowing one more tile never gives
   * fewer squares on the short side, nor fewer tiles.
   */
  lemma SearchResultMonotone(width: int, height: int, n: int, k1: int, k2: int)
    requires 2 <= Min(width, height)
    requires SearchResult(width, height, n, k1) && SearchResult(width, height, n + 1, k2)
    ensures k1 <= k2 && Plan(width, height, k1).Squares() <= Plan(width, height, k2).Squares()
  {
    if 2 <= k1 {
      // grid k1 fits within n, so the search with n + 1 cannot have stopped before it
      assert Plan(width, height, k1).Squares() <= n;
    }
    if k1 < k2 {
      SquaresStrictlyMonotone(width, height, k1, k2);
    }
  }

  /**
   * The search in `Grid.find_max` stops exactly when some grid with
   * 2 <= j <= min(width, height) squares on the short side has more than `n`
   * tiles (beyond that bound `Grid` itself diverges), and that happens
   * exactly when the short axis is at least 2 pixels and `n` is below the
   * pixel count.
   */
  lemma SearchStopsIff(width: int, height: int, n: int)
    requires 1 <= width && 1 <= height
    ensures (exists j :: 2 <= j <= Min(width, height) && Plan(width, height, j).Squares() > n)
        <==> (2 <= Min(width, height) && n < width * height)
  {
    if exists j :: 2 <= j <= Min(width, height) && Plan(width, height, j).Squares() > n {
      var j :| 2 <= j <= Min(width, height) && Plan(width, height, j).Squares() > n;
      SquaresAtMostPixels(width, height, j);
    }
    if 2 <= Min(width, height) && n < width * height {
      FullResolutionPlan(width, height);
      assert Plan(width, height, Min(width, height)).Squares() > n;
    }
  }
}
