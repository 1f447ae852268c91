/**
 * Reassembly: a fresh raster of the source size, all black (0), into which
 * every processed tile is drawn at the origin of the tile it came from, in
 * row-major order. A tile whose transfer failed, or whose response decoded to
 * no image, draws nothing. Drawing is a block copy clipped to the raster.
 */
module Compose {
  import opened Wrappers
  import opened Geometry
  import opened Transfer

  /** The image a task's result lets the compose loop draw, if any. */
  function Drawable(r: Outcome): (d: Option<Image>)
    ensures d.Some? <==> r.Ok? && r.value.Some?
    ensures d.Some? ==> d.value == r.value.value
  {
    if r.Ok? then r.value else None
  }

  /**
   * The pixel at (x, y) after the results `0 .. n-1` have been drawn onto a
   * black raster: the last drawn image that covers (x, y) decides it.
   */
  function ComposedPixel(g: Grid, results: seq<Outcome>, n: nat, x: int, y: int): Pixel
    requires g.cols > 0 && n <= |results|
  {
    if n == 0 then 0
    else
      var i := n - 1;
      var d := Drawable(results[i]);
      if d.Some? && Covers(OriginX(g, i), OriginY(g, i), d.value.width, d.value.height, x, y) then
        d.value.px[y - OriginY(g, i)][x - OriginX(g, i)]
      else
        ComposedPixel(g, results, i, x, y)
  }

  /**
   * Graphics2D.drawImage(img, ox, oy, null): every pixel of `img` lands at its
   * offset from (ox, oy); pixels that fall outside the canvas are dropped and
   * the rest of the canvas is left as it was.
   */
  method DrawImage(canvas: array2<Pixel>, img: Image, ox: int, oy: int)
    modifies canvas
    ensures forall y, x :: 0 <= y < canvas.Length0 && 0 <= x < canvas.Length1 ==>
      canvas[y, x] == if Covers(ox, oy, img.width, img.height, x, y) then img.px[y - oy][x - ox] else old(canvas[y, x])
  {
    var ty := 0;
    while ty < img.height
      invariant 0 <= ty <= img.height
      invariant forall y, x :: 0 <= y < canvas.Length0 && 0 <= x < canvas.Length1 ==>
        canvas[y, x] == if Covers(ox, oy, img.width, ty, x, y) then img.px[y - oy][x - ox] else old(canvas[y, x])
    {
      var tx := 0;
      while tx < img.width
        invariant 0 <= tx <= img.width
        invariant forall y, x :: 0 <= y < canvas.Length0 && 0 <= x < canvas.Length1 ==>
          canvas[y, x] == if Covers(ox, oy, img.width, ty, x, y) || (y == oy + ty && ox <= x < ox + tx)
                          then img.px[y - oy][x - ox] else old(canvas[y, x])
      {
        var x, y := ox + tx, oy + ty;
        if 0 <= y < canvas.Length0 && 0 <= x < canvas.Length1 {
          canvas[y, x] := img.px[ty][tx];
        }
        tx := tx + 1;
      }
      ty := ty + 1;
    }
  }

  /** One step of the compose loop: draw result `i`, if it is drawable, at the origin of tile `i`. */
  method DrawResult(canvas: array2<Pixel>, g: Grid, results: seq<Outcome>, i: nat, ox: int, oy: int)
    requires g.cols > 0 && i < |results|
    requires ox == OriginX(g, i) && oy == OriginY(g, i)
    requires forall y, x :: 0 <= y < canvas.Length0 && 0 <= x < canvas.Length1 ==>
      canvas[y, x] == ComposedPixel(g, results, i, x, y)
    modifies canvas
    ensures forall y, x :: 0 <= y < canvas.Length0 && 0 <= x < canvas.Length1 ==>
      canvas[y, x] == ComposedPixel(g, results, i + 1, x, y)
  {
    var r := results[i];
    if r.Ok? && r.value.Some? {
      DrawImage(canvas, r.value.value, ox, oy);
    }
  }

  /**
   * The compose loop of the distributor: a width x height black raster, then
   * result `i` drawn at the origin of grid cell (i % cols, i / cols), for `i`
   * in row-major order.
   */
  method Compose(width: nat, height: nat, g: Grid, results: seq<Outcome>) returns (canvas: array2<Pixel>)
    requires g.cols > 0 && |results| == TileCount(g)
    ensures fresh(canvas) && canvas.Length0 == height && canvas.Length1 == width
    ensures forall y, x :: 0 <= y < height && 0 <= x < width ==>
      canvas[y, x] == ComposedPixel(g, results, |results|, x, y)
  {
    canvas := new Pixel[height, width]((_, _) => 0);
    var i := 0;
    var ty := 0;
    while ty < g.rows
      invariant 0 <= ty <= g.rows && i == ty * g.cols && i <= |results|
      invariant forall y, x :: 0 <= y < height && 0 <= x < width ==>
        canvas[y, x] == ComposedPixel(g, results, i, x, y)
    {
      RowEnd(ty, g.rows, g.cols);
      var tx := 0;
      while tx < g.cols
        invariant 0 <= tx <= g.cols && i == ty * g.cols + tx && i + (g.cols - tx) <= |results|
        invariant forall y, x :: 0 <= y < height && 0 <= x < width ==>
          canvas[y, x] == ComposedPixel(g, results, i, x, y)
      {
        RowMajor(ty, tx, g.cols);
        DrawResult(canvas, g, results, i, tx * g.tileWidth, ty * g.tileHeight);
        i := i + 1;
        tx := tx + 1;
      }
      ty := ty + 1;
    }
  }
}

/** What the composed raster holds, pixel by pixel. */
module ComposeProperties {
  import opened Wrappers
  import opened Geometry
  import opened Transfer
  import opened Compose

  /** Drawable result `i` covers the pixel (x, y) when drawn at the origin of tile `i`. */
  predicate DrawnOver(g: Grid, results: seq<Outcome>, i: nat, x: int, y: int)
    requires g.cols > 0 && i < |results|
  {
    var d := Drawable(results[i]);
    d.Some? && Covers(OriginX(g, i), OriginY(g, i), d.value.width, d.value.height, x, y)
  }

  /** Every image the workers sent back has the size of the tile it replaces. */
  predicate KeepsTileSize(g: Grid, results: seq<Outcome>) {
    forall i :: 0 <= i < |results| && Drawable(results[i]).Some? ==>
      Drawable(results[i]).value.width == g.tileWidth && Drawable(results[i]).value.height == g.tileHeight
  }

  /** A pixel that none of the first `n` drawn results covers is still black. */
  lemma {:induction false} NeverDrawnIsBlack(g: Grid, results: seq<Outcome>, n: nat, x: int, y: int)
    requires g.cols > 0 && n <= |results|
    requires forall i :: 0 <= i < n ==> !DrawnOver(g, results, i, x, y)
    ensures ComposedPixel(g, results, n, x, y) == 0
  {
    if n > 0 {
      assert !DrawnOver(g, results, n - 1, x, y);
      NeverDrawnIsBlack(g, results, n - 1, x, y);
    }
  }

  /** Results drawn after `m` that do not cover a pixel leave it as it was after `m`. */
  lemma {:induction false} LaterDrawsMiss(g: Grid, results: seq<Outcome>, m: nat, n: nat, x: int, y: int)
    requires g.cols > 0 && m <= n <= |results|
    requires forall i :: m <= i < n ==> !DrawnOver(g, results, i, x, y)
    ensures ComposedPixel(g, results, n, x, y) == ComposedPixel(g, results, m, x, y)
    decreases n
  {
    if m < n {
      assert !DrawnOver(g, results, n - 1, x, y);
      LaterDrawsMiss(g, results, m, n - 1, x, y);
    }
  }

  /** With size-keeping workers, a drawn result covers exactly its own tile. */
  lemma DrawnOverIsInTile(g: Grid, results: seq<Outcome>, i: nat, x: int, y: int)
    requires g.cols > 0 && i < |results| && KeepsTileSize(g, results)
    ensures DrawnOver(g, results, i, x, y) <==> Drawable(results[i]).Some? && InTile(g, i, x, y)
  {
  }

  /**
   * Inside the whole tiles, the composed pixel comes from the one tile that
   * contains it: the processed image of that tile at the same offset, or black
   * when that tile's transfer failed or decoded to nothing. No other tile
   * touches it, whatever order the transfers finished in.
   */
  lemma PixelFromOwner(g: Grid, results: seq<Outcome>, x: nat, y: nat)
    requires g.cols > 0 && |results| == TileCount(g) && KeepsTileSize(g, results)
    requires x < g.cols * g.tileWidth && y < g.rows * g.tileHeight
    ensures var i := Owner(g, x, y);
      var d := Drawable(results[i]);
      ComposedPixel(g, results, |results|, x, y) ==
        if d.Some? then d.value.px[y - OriginY(g, i)][x - OriginX(g, i)] else 0
  {
    var i := Owner(g, x, y);
    forall j | 0 <= j < |results| && j != i
      ensures !DrawnOver(g, results, j, x, y)
    {
      DrawnOverIsInTile(g, results, j, x, y);
      TilesDisjoint(g, i, j, x, y);
    }
    LaterDrawsMiss(g, results, i + 1, |results|, x, y);
    NeverDrawnIsBlack(g, results, i, x, y);
  }

  /** Pixels right of column cols*tw or below row rows*th are never written: they stay black. */
  lemma RemainderStaysBlack(g: Grid, results: seq<Outcome>, x: nat, y: nat)
    requires g.cols > 0 && |results| == TileCount(g) && KeepsTileSize(g, results)
    requires x >= g.cols * g.tileWidth || y >= g.rows * g.tileHeight
    ensures ComposedPixel(g, results, |results|, x, y) == 0
  {
    forall j | 0 <= j < |results|
      ensures !DrawnOver(g, results, j, x, y)
    {
      DrawnOverIsInTile(g, results, j, x, y);
    }
    NeverDrawnIsBlack(g, results, |results|, x, y);
  }

  /**
   * Split then compose with unprocessed tiles is the identity on the whole
   * tiles, and leaves the remainder strips black.
   */
  lemma SplitComposeRoundTrip(img: Image, g: Grid, results: seq<Outcome>)
    requires Fits(g, img.width, img.height) && |results| == TileCount(g)
    requires forall i :: 0 <= i < |results| ==> results[i] == Ok(Some(TileOf(img, g, i)))
    ensures forall y, x :: 0 <= y < img.height && 0 <= x < img.width ==>
      ComposedPixel(g, results, |results|, x, y) ==
        if x < g.cols * g.tileWidth && y < g.rows * g.tileHeight then img.px[y][x] else 0
  {
    assert KeepsTileSize(g, results);
    forall y, x | 0 <= y < img.height && 0 <= x < img.width
      ensures ComposedPixel(g, results, |results|, x, y) ==
        if x < g.cols * g.tileWidth && y < g.rows * g.tileHeight then img.px[y][x] else 0
    {
      if x < g.cols * g.tileWidth && y < g.rows * g.tileHeight {
        PixelFromOwner(g, results, x, y);
        var i := Owner(g, x, y);
        TilePixel(img, g, i, x - OriginX(g, i), y - OriginY(g, i));
      } else {
        RemainderStaysBlack(g, results, x, y);
      }
    }
  }
}
