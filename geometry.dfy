/**
 * Tile geometry of the image distributor: the tile size is fixed by integer
 * division of the image size by the grid shape, tile `i` (row-major) sits at
 * column `i % cols` and row `i / cols`, and the pixels past
 * `cols * tileWidth` or `rows * tileHeight` belong to no tile.
 */
module Geometry {

  type Pixel = int

  /** A raster as rows of pixels: `px[y][x]` is the pixel at column x of row y. */
  datatype Pixels = Pixels(width: nat, height: nat, px: seq<seq<Pixel>>) {
    predicate WellFormed() {
      |px| == height && forall y :: 0 <= y < |px| ==> |px[y]| == width
    }
  }

  /** Every image in the system (source, tile, processed tile) is rectangular. */
  type Image = p: Pixels | p.WellFormed() witness Pixels(0, 0, [])

  /** Grid shape together with the tile size computed from the image size. */
  datatype Grid = Grid(rows: nat, cols: nat, tileWidth: nat, tileHeight: nat)

  /** Tile size by integer division, as at the start of the split. */
  function Layout(width: nat, height: nat, rows: nat, cols: nat): (g: Grid)
    requires rows > 0 && cols > 0
    ensures g.rows == rows && g.cols == cols
    ensures g.tileWidth * cols <= width < (g.tileWidth + 1) * cols
    ensures g.tileHeight * rows <= height < (g.tileHeight + 1) * rows
  {
    Grid(rows, cols, width / cols, height / rows)
  }

  function TileCount(g: Grid): nat {
    g.rows * g.cols
  }

  /** Left edge of tile `i`. */
  function OriginX(g: Grid, i: nat): (o: nat)
    requires g.cols > 0
    ensures o + g.tileWidth <= g.cols * g.tileWidth
  {
    MulLeft(i % g.cols + 1, g.cols, g.tileWidth);
    (i % g.cols) * g.tileWidth
  }

  /** Top edge of tile `i`. */
  function OriginY(g: Grid, i: nat): (o: nat)
    requires g.cols > 0
    ensures i < TileCount(g) ==> o + g.tileHeight <= g.rows * g.tileHeight
  {
    RowInGrid(g, i);
    (i / g.cols) * g.tileHeight
  }

  /** A tile index inside the grid lies in one of its rows, so its row ends within the whole tiles. */
  lemma RowInGrid(g: Grid, i: nat)
    requires g.cols > 0
    ensures i < TileCount(g) ==> (i / g.cols) * g.tileHeight + g.tileHeight <= g.rows * g.tileHeight
  {
    if i < TileCount(g) {
      assert i / g.cols < g.rows by {
        if i / g.cols >= g.rows {
          MulLeft(g.rows, i / g.cols, g.cols);
        }
      }
      MulLeft(i / g.cols + 1, g.rows, g.tileHeight);
    }
  }

  /** The rectangle with corner (ox, oy) and size w x h contains the pixel (x, y). */
  predicate Covers(ox: int, oy: int, w: nat, h: nat, x: int, y: int) {
    ox <= x < ox + w && oy <= y < oy + h
  }

  /** Tile `i` of the grid contains the pixel (x, y). */
  predicate InTile(g: Grid, i: nat, x: int, y: int)
    requires g.cols > 0
  {
    Covers(OriginX(g, i), OriginY(g, i), g.tileWidth, g.tileHeight, x, y)
  }

  lemma MulLeft(a: int, b: int, c: nat)
    requires a <= b
    ensures a * c <= b * c
  {
  }

  /** The row-major index `y * cols + x` of grid cell (x, y) decodes back to (x, y). */
  lemma {:induction false} RowMajor(y: nat, x: nat, cols: nat)
    requires x < cols
    ensures (y * cols + x) / cols == y && (y * cols + x) % cols == x
  {
    var i := y * cols + x;
    var q, r := i / cols, i % cols;
    assert i == q * cols + r;
    if q < y {
      MulLeft(q + 1, y, cols);
      assert false;
    } else if q > y {
      MulLeft(y + 1, q, cols);
      assert false;
    }
  }

  /** A grid cell inside the grid has a row-major index inside the grid. */
  lemma CellIndexInGrid(y: nat, x: nat, rows: nat, cols: nat)
    requires y < rows && x < cols
    ensures y * cols + x < rows * cols
  {
    MulLeft(y + 1, rows, cols);
  }

  /** The row-major index just past row `y` is still inside the grid. */
  lemma RowEnd(y: nat, rows: nat, cols: nat)
    requires y < rows
    ensures y * cols + cols == (y + 1) * cols <= rows * cols
  {
  }

  /** The whole tiles of the grid fit inside a width x height image. */
  predicate Fits(g: Grid, width: nat, height: nat) {
    g.cols > 0 && g.cols * g.tileWidth <= width && g.rows * g.tileHeight <= height
  }

  /** The layout computed from an image size fits inside that image. */
  lemma LayoutFits(width: nat, height: nat, rows: nat, cols: nat)
    requires rows > 0 && cols > 0
    ensures Fits(Layout(width, height, rows, cols), width, height)
  {
  }

  /** Every tile rectangle lies inside the image it was cut from. */
  lemma TileInside(width: nat, height: nat, g: Grid, i: nat)
    requires Fits(g, width, height) && i < TileCount(g)
    ensures OriginX(g, i) + g.tileWidth <= width
    ensures OriginY(g, i) + g.tileHeight <= height
  {
  }

  /** The blocks `[a*w, a*w + w)` and `[b*w, b*w + w)` of different slots do not meet. */
  lemma SlotsDisjoint(a: nat, b: nat, w: nat, x: int)
    requires a != b
    ensures !(a * w <= x < a * w + w && b * w <= x < b * w + w)
  {
    if a < b {
      MulLeft(a + 1, b, w);
    } else {
      MulLeft(b + 1, a, w);
    }
  }

  /** Two different tiles share no pixel. */
  lemma TilesDisjoint(g: Grid, i: nat, j: nat, x: int, y: int)
    requires g.cols > 0 && i != j
    ensures !(InTile(g, i, x, y) && InTile(g, j, x, y))
  {
    if i % g.cols != j % g.cols {
      SlotsDisjoint(i % g.cols, j % g.cols, g.tileWidth, x);
    } else {
      assert i / g.cols != j / g.cols;
      SlotsDisjoint(i / g.cols, j / g.cols, g.tileHeight, y);
    }
  }

  /**
   * The tile that contains a pixel of the covered part of the grid: together
   * with TilesDisjoint, the tiles partition `[0, cols*tw) x [0, rows*th)`.
   */
  function Owner(g: Grid, x: nat, y: nat): (i: nat)
    requires g.cols > 0 && x < g.cols * g.tileWidth && y < g.rows * g.tileHeight
    ensures i < TileCount(g) && InTile(g, i, x, y)
  {
    var cx, cy := x / g.tileWidth, y / g.tileHeight;
    assert cx < g.cols by {
      if cx >= g.cols {
        MulLeft(g.cols, cx, g.tileWidth);
      }
    }
    assert cy < g.rows by {
      if cy >= g.rows {
        MulLeft(g.rows, cy, g.tileHeight);
      }
    }
    RowMajor(cy, cx, g.cols);
    CellIndexInGrid(cy, cx, g.rows, g.cols);
    cy * g.cols + cx
  }

  /** The w x h block of `img` whose top-left corner is (ox, oy) (getSubimage). */
  function Crop(img: Image, ox: nat, oy: nat, w: nat, h: nat): (t: Image)
    requires ox + w <= img.width && oy + h <= img.height
    ensures t.width == w && t.height == h
    ensures forall y, x :: 0 <= y < h && 0 <= x < w ==> t.px[y][x] == img.px[oy + y][ox + x]
  {
    Pixels(w, h, seq(h, y requires 0 <= y < h => img.px[oy + y][ox .. ox + w]))
  }

  /** Tile `i` of `img` cut along the grid laid over it. */
  function TileOf(img: Image, g: Grid, i: nat): (t: Image)
    requires Fits(g, img.width, img.height) && i < TileCount(g)
    ensures t.width == g.tileWidth && t.height == g.tileHeight
  {
    TileInside(img.width, img.height, g, i);
    Crop(img, OriginX(g, i), OriginY(g, i), g.tileWidth, g.tileHeight)
  }

  /** Pixel (x, y) of tile `i` is the image pixel at the same offset from the tile's origin. */
  lemma TilePixel(img: Image, g: Grid, i: nat, x: nat, y: nat)
    requires Fits(g, img.width, img.height) && i < TileCount(g)
    requires x < g.tileWidth && y < g.tileHeight
    ensures OriginX(g, i) + x < img.width && OriginY(g, i) + y < img.height
    ensures TileOf(img, g, i).px[y][x] == img.px[OriginY(g, i) + y][OriginX(g, i) + x]
  {
    TileInside(img.width, img.height, g, i);
  }
}
