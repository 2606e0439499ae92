/**
 * The tile layout computed by simple_tiling::setup (SimpleTiling.cpp:302-338):
 * the grid shape chosen from the requested tile count, and the pixel
 * rectangle of every tile, numbered column-major.
 */
module Layout {
  import opened TilingTypes
  import opened Arith

  /** The integer square root; setup's sqrt/floor test asks whether it is exact. */
  function FloorSqrt(n: nat): nat
  {
    if n == 0 then 0
    else
      var s := FloorSqrt(n - 1);
      if (s + 1) * (s + 1) <= n then s + 1 else s
  }

  /** FloorSqrt(n) is the largest r with r * r <= n. */
  lemma {:induction false} FloorSqrtBounds(n: nat)
    ensures FloorSqrt(n) * FloorSqrt(n) <= n < (FloorSqrt(n) + 1) * (FloorSqrt(n) + 1)
  {
    if n > 0 {
      FloorSqrtBounds(n - 1);
    }
  }

  predicate IsRoot(k: nat, n: nat) {
    k * k == n
  }

  /** The perfect-square test of setup: sqrt(n) has no fractional part. */
  predicate IsSquare(n: nat) {
    IsRoot(FloorSqrt(n), n)
  }

  lemma RootIsFloorSqrt(n: nat, k: nat)
    requires IsRoot(k, n)
    ensures FloorSqrt(n) == k
  {
    FloorSqrtBounds(n);
    UniqueRoot(FloorSqrt(n), k, n);
  }

  /** The integer test agrees with "n has a natural square root". */
  lemma SquareTestExact(n: nat)
    ensures IsSquare(n) <==> exists k: nat :: IsRoot(k, n)
  {
    if exists k: nat :: IsRoot(k, n) {
      var k: nat :| IsRoot(k, n);
      RootIsFloorSqrt(n, k);
    }
  }

  /** numTiles (after the odd bump), numTilesX (columns) and numTilesY (rows). */
  datatype Grid = Grid(numTiles: nat, numTilesX: nat, numTilesY: nat)

  /**
   * The grid-shape choice of setup (SimpleTiling.cpp:302-322): at most one
   * tile is added, and a non-empty request gets a grid with one tile per cell.
   */
  function GridShape(n: nat): (g: Grid)
    ensures n <= g.numTiles <= n + 1
    ensures 1 <= n ==> WellShaped(g)
  {
    if IsSquare(n) then
      Grid(n, FloorSqrt(n), FloorSqrt(n))
    else if n % 2 == 0 then
      Grid(n, 2, n / 2)
    else
      Grid(n + 1, 2, (n + 1) / 2)
  }

  /** A grid every later step can divide by, with one tile per cell. */
  predicate WellShaped(g: Grid) {
    g.numTilesX > 0 && g.numTilesY > 0 && g.numTilesX * g.numTilesY == g.numTiles
  }

  /**
   * The layout rule: a k-by-k grid for a perfect square, otherwise two
   * columns, with an odd count bumped by one first.
   */
  lemma GridShapeRule(n: nat)
    ensures forall k: nat :: IsRoot(k, n) ==> GridShape(n) == Grid(n, k, k)
    ensures !IsSquare(n) && n % 2 == 0 ==> GridShape(n) == Grid(n, 2, n / 2)
    ensures !IsSquare(n) && n % 2 == 1 ==> GridShape(n) == Grid(n + 1, 2, (n + 1) / 2)
  {
    forall k: nat | IsRoot(k, n) ensures GridShape(n) == Grid(n, k, k) {
      RootIsFloorSqrt(n, k);
    }
  }

  /**
   * The grid always has exactly numTiles cells (numTilesX * numTilesY ==
   * numTiles), and every supported request 1..MaxTiles yields a grid of at
   * most MaxTiles tiles with no empty axis.
   */
  lemma GridShapeSupported(n: nat)
    requires 1 <= n <= MaxTiles
    ensures WellShaped(GridShape(n)) && n <= GridShape(n).numTiles <= MaxTiles
  {
    var r := FloorSqrt(n);
    FloorSqrtBounds(n);
    if IsSquare(n) {
      assert r >= 1;
    } else if n % 2 == 1 {
      assert n < MaxTiles;
    }
  }

  datatype Rect = Rect(minX: nat, maxX: nat, minY: nat, maxY: nat)

  /** Pixel (px, py) lies in r; bounds are half-open as in the draw and copy loops. */
  predicate Contains(r: Rect, px: nat, py: nat) {
    r.minX <= px < r.maxX && r.minY <= py < r.maxY
  }

  /** The grid setup chooses for a supported tile count, with its shape facts. */
  function SetupGrid(n: nat): (g: Grid)
    requires 1 <= n <= MaxTiles
    ensures g == GridShape(n) && WellShaped(g) && n <= g.numTiles <= MaxTiles
  {
    GridShapeSupported(n);
    GridShape(n)
  }

  /** tile_width_px: the canvas width divided by the number of columns, rounded down. */
  function TileWidth(g: Grid, cw: nat): (w: nat)
    requires WellShaped(g)
    ensures w <= cw
  {
    DivLe(cw, g.numTilesX);
    cw / g.numTilesX
  }

  /** tile_height_px: the canvas height divided by the number of rows, rounded down. */
  function TileHeight(g: Grid, ch: nat): (h: nat)
    requires WellShaped(g)
    ensures h <= ch
  {
    DivLe(ch, g.numTilesY);
    ch / g.numTilesY
  }

  /**
   * The tile sizes are the largest that fit the grid into the canvas: one
   * more pixel per tile would overflow it (SimpleTiling.cpp:324-325).
   */
  lemma TileSizeRoundsDown(g: Grid, cw: nat, ch: nat)
    requires WellShaped(g)
    ensures TileWidth(g, cw) * g.numTilesX <= cw < (TileWidth(g, cw) + 1) * g.numTilesX
    ensures TileHeight(g, ch) * g.numTilesY <= ch < (TileHeight(g, ch) + 1) * g.numTilesY
  {
    FloorDiv(cw, g.numTilesX);
    FloorDiv(ch, g.numTilesY);
  }

  /** Column x = c / numTilesY and row y = c % numTilesY of tile c, as setup's counter runs. */
  function Column(g: Grid, c: nat): nat
    requires WellShaped(g)
  {
    c / g.numTilesY
  }

  function Row(g: Grid, c: nat): nat
    requires WellShaped(g)
  {
    c % g.numTilesY
  }

  /** The slot index of column x, row y: tiles are numbered column by column. */
  function Slot(g: Grid, x: nat, y: nat): nat
  {
    x * g.numTilesY + y
  }

  /**
   * The rectangle setup gives tile c = x*numTilesY + y (SimpleTiling.cpp:324-338):
   * every tile is tile_width_px by tile_height_px, and its corner, divided by
   * those sizes, gives back the tile's column and row.
   */
  function TileRect(g: Grid, cw: nat, ch: nat, c: nat): (r: Rect)
    requires WellShaped(g)
    ensures r.maxX - r.minX == TileWidth(g, cw) && r.maxY - r.minY == TileHeight(g, ch)
  {
    var minX: nat := TileWidth(g, cw) * Column(g, c);
    var minY: nat := TileHeight(g, ch) * Row(g, c);
    Rect(minX, minX + TileWidth(g, cw), minY, minY + TileHeight(g, ch))
  }

  /** The tile whose rectangle holds pixel (px, py), if any. */
  function TileAt(g: Grid, cw: nat, ch: nat, px: nat, py: nat): (r: Option<nat>)
    requires WellShaped(g)
    ensures r.Some? ==> r.value < g.numTiles
  {
    var tw := TileWidth(g, cw);
    var th := TileHeight(g, ch);
    if tw == 0 || th == 0 then None
    else
      var x, y := px / tw, py / th;
      if x < g.numTilesX && y < g.numTilesY then
        RowMajorBound(x, g.numTilesX, y, g.numTilesY);
        Some(x * g.numTilesY + y)
      else None
  }

  /** The column of every tile is below numTilesX. */
  lemma ColumnInGrid(g: Grid, c: nat)
    requires WellShaped(g) && c < g.numTiles
    ensures Column(g, c) < g.numTilesX && Row(g, c) < g.numTilesY
    ensures c == Column(g, c) * g.numTilesY + Row(g, c)
  {
    DivBelow(c, g.numTilesY, g.numTilesX);
  }

  /** The slot setup's counter reaches at column x, row y holds the rectangle of that column and row. */
  lemma SlotRect(g: Grid, cw: nat, ch: nat, x: nat, y: nat)
    requires WellShaped(g) && x < g.numTilesX && y < g.numTilesY
    ensures Slot(g, x, y) < g.numTiles
    ensures TileRect(g, cw, ch, Slot(g, x, y)).minX == TileWidth(g, cw) * x
    ensures TileRect(g, cw, ch, Slot(g, x, y)).minY == TileHeight(g, ch) * y
  {
    var c := x * g.numTilesY + y;
    MixedRadix(x, y, g.numTilesY);
    RowMajorBound(x, g.numTilesX, y, g.numTilesY);
    assert Column(g, c) == x && Row(g, c) == y;
  }

  /** Every tile lies inside the canvas, whether or not the canvas divides evenly. */
  lemma TileInsideCanvas(g: Grid, cw: nat, ch: nat, c: nat)
    requires WellShaped(g) && c < g.numTiles
    ensures TileRect(g, cw, ch, c).maxX <= cw && TileRect(g, cw, ch, c).maxY <= ch
  {
    ColumnInGrid(g, c);
    SliceInside(cw, g.numTilesX, Column(g, c));
    SliceInside(ch, g.numTilesY, Row(g, c));
  }

  lemma TileAtOfContains(g: Grid, cw: nat, ch: nat, c: nat, px: nat, py: nat)
    requires WellShaped(g) && c < g.numTiles
    requires Contains(TileRect(g, cw, ch, c), px, py)
    ensures TileAt(g, cw, ch, px, py) == Some(c)
  {
    var x, y := Column(g, c), Row(g, c);
    var tw, th := TileWidth(g, cw), TileHeight(g, ch);
    ColumnInGrid(g, c);
    DivUnique(px, tw, x);
    DivUnique(py, th, y);
  }

  lemma ContainsOfTileAt(g: Grid, cw: nat, ch: nat, c: nat, px: nat, py: nat)
    requires WellShaped(g) && TileAt(g, cw, ch, px, py) == Some(c)
    ensures Contains(TileRect(g, cw, ch, c), px, py)
  {
    var tw, th := TileWidth(g, cw), TileHeight(g, ch);
    var x, y := px / tw, py / th;
    assert c == x * g.numTilesY + y;
    MixedRadix(x, y, g.numTilesY);
    assert Column(g, c) == x && Row(g, c) == y;
    FloorDiv(px, tw);
    FloorDiv(py, th);
  }

  /** TileAt inverts the layout: a pixel is in tile c exactly when TileAt names c. */
  lemma TileAtCorrect(g: Grid, cw: nat, ch: nat, c: nat, px: nat, py: nat)
    requires WellShaped(g) && c < g.numTiles
    ensures Contains(TileRect(g, cw, ch, c), px, py) <==> TileAt(g, cw, ch, px, py) == Some(c)
  {
    if Contains(TileRect(g, cw, ch, c), px, py) {
      TileAtOfContains(g, cw, ch, c, px, py);
    }
    if TileAt(g, cw, ch, px, py) == Some(c) {
      ContainsOfTileAt(g, cw, ch, c, px, py);
    }
  }

  /** No pixel belongs to two different tiles. */
  lemma TilesDisjoint(g: Grid, cw: nat, ch: nat, c1: nat, c2: nat, px: nat, py: nat)
    requires WellShaped(g) && c1 < g.numTiles && c2 < g.numTiles && c1 != c2
    ensures !(Contains(TileRect(g, cw, ch, c1), px, py) && Contains(TileRect(g, cw, ch, c2), px, py))
  {
    TileAtCorrect(g, cw, ch, c1, px, py);
    TileAtCorrect(g, cw, ch, c2, px, py);
  }

  /** When both canvas dimensions divide evenly, every canvas pixel is in some tile. */
  lemma TilesCoverCanvas(g: Grid, cw: nat, ch: nat, px: nat, py: nat)
    requires WellShaped(g) && cw % g.numTilesX == 0 && ch % g.numTilesY == 0
    requires px < cw && py < ch
    ensures TileAt(g, cw, ch, px, py).Some?
    ensures Contains(TileRect(g, cw, ch, TileAt(g, cw, ch, px, py).value), px, py)
  {
    var tw, th := TileWidth(g, cw), TileHeight(g, ch);
    assert cw == g.numTilesX * tw;
    assert ch == g.numTilesY * th;
    if px / tw >= g.numTilesX {
      MulMono(g.numTilesX, px / tw, tw);
    }
    if py / th >= g.numTilesY {
      MulMono(g.numTilesY, py / th, th);
    }
    TileAtCorrect(g, cw, ch, TileAt(g, cw, ch, px, py).value, px, py);
  }

  /**
   * Pixel (col, row) of tile c sits at canvas index (minY + row)*cw + minX + col,
   * inside the canvas, and that canvas pixel belongs to tile c.
   */
  lemma CanvasPixelOfTile(g: Grid, cw: nat, ch: nat, c: nat, row: nat, col: nat)
    requires WellShaped(g) && c < g.numTiles
    requires row < TileHeight(g, ch) && col < TileWidth(g, cw)
    ensures var r := TileRect(g, cw, ch, c);
            var p := (r.minY + row) * cw + r.minX + col;
            p < cw * ch && p / cw == r.minY + row && p % cw == r.minX + col &&
            TileAt(g, cw, ch, p % cw, p / cw) == Some(c)
  {
    var r := TileRect(g, cw, ch, c);
    TileInsideCanvas(g, cw, ch, c);
    MixedRadix(r.minY + row, r.minX + col, cw);
    RowMajorBound(r.minY + row, ch, r.minX + col, cw);
    TileAtCorrect(g, cw, ch, c, r.minX + col, r.minY + row);
  }
}
