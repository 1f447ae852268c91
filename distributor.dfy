/**
 * The distributor's main flow without its I/O: lay a 2 x 2 grid over the
 * image, give tile `i` (row-major) to worker `i mod 3`, transfer every tile
 * with up to 3 attempts, and compose the results into a raster of the source
 * size. The network is a parameter; the transfers run one after another
 * here, with each result kept at its tile's index.
 */
module Distributor {
  import opened Wrappers
  import opened Geometry
  import opened Transfer
  import opened TransferProperties
  import opened Compose
  import opened ComposeProperties

  const Workers: seq<string> := [
    "http://localhost:5000/process",
    "http://localhost:5001/process",
    "http://localhost:5002/process"
  ]
  const NumRows: nat := 2
  const NumCols: nat := 2
  const MaxRetries: int := 3

  /** A tile and the worker it is sent to. */
  datatype Task = Task(worker: string, chunk: Image)

  /** `network(i, task, k)`: what the k-th call of sendChunk for tile `i`, carrying `task`, runs into. */
  type Network = (nat, Task, nat) -> Exchange

  /** Round robin: the endpoint index for tile `i` among `count` endpoints. */
  function WorkerFor(i: nat, count: nat): (w: nat)
    requires count > 0
    ensures w < count
    ensures i < count ==> w == i
  {
    i % count
  }

  /** The assignment repeats with the period of the endpoint count. */
  lemma RoundRobinPeriodic(i: nat, count: nat)
    requires count > 0
    ensures WorkerFor(i + count, count) == WorkerFor(i, count)
  {
    RowMajor(i / count + 1, i % count, count);
  }

  /** How many of the tiles `0 .. m-1` go to endpoint `w`. */
  function TilesOf(m: nat, count: nat, w: nat): nat
    requires count > 0
  {
    if m == 0 then 0 else TilesOf(m - 1, count, w) + (if WorkerFor(m - 1, count) == w then 1 else 0)
  }

  /** Stepping from tile m - 1 to tile m moves to the next endpoint, wrapping to the first. */
  lemma NextIndex(m: nat, count: nat)
    requires m > 0 && count > 0
    ensures (m - 1) % count + 1 < count ==> m / count == (m - 1) / count && m % count == (m - 1) % count + 1
    ensures (m - 1) % count + 1 == count ==> m / count == (m - 1) / count + 1 && m % count == 0
  {
    var q, r := (m - 1) / count, (m - 1) % count;
    assert m == q * count + r + 1;
    if r + 1 < count {
      RowMajor(q, r + 1, count);
    } else {
      RowEnd(q, q + 1, count);
      RowMajor(q + 1, 0, count);
    }
  }

  /**
   * Round robin spreads the tiles evenly: each endpoint gets m / count tiles,
   * and the first m % count endpoints get one more.
   */
  lemma {:induction false} RoundRobinBalanced(m: nat, count: nat, w: nat)
    requires count > 0 && w < count
    ensures TilesOf(m, count, w) == m / count + (if w < m % count then 1 else 0)
  {
    if m > 0 {
      var q, r := (m - 1) / count, (m - 1) % count;
      RoundRobinBalanced(m - 1, count, w);
      NextIndex(m, count);
      var step := if WorkerFor(m - 1, count) == w then 1 else 0;
      assert TilesOf(m, count, w) == q + (if w < r then 1 else 0) + step;
      assert step == (if w == r then 1 else 0);
      if r + 1 < count {
        assert m / count == q && m % count == r + 1;
      } else {
        assert m / count == q + 1 && m % count == 0;
      }
    }
  }

  /** The task that tile `i` of `img` becomes. */
  function TaskOf(img: Image, g: Grid, i: nat): (t: Task)
    requires Fits(g, img.width, img.height) && i < TileCount(g)
    ensures t.worker == Workers[WorkerFor(i, |Workers|)]
    ensures t.chunk.width == g.tileWidth && t.chunk.height == g.tileHeight
    ensures forall y, x :: 0 <= y < g.tileHeight && 0 <= x < g.tileWidth ==>
      t.chunk.px[y][x] == img.px[OriginY(g, i) + y][OriginX(g, i) + x]
  {
    var chunk := TileOf(img, g, i);
    forall y, x | 0 <= y < g.tileHeight && 0 <= x < g.tileWidth
      ensures OriginX(g, i) + x < img.width && OriginY(g, i) + y < img.height
      ensures chunk.px[y][x] == img.px[OriginY(g, i) + y][OriginX(g, i) + x]
    {
      TilePixel(img, g, i, x, y);
    }
    Task(Workers[WorkerFor(i, |Workers|)], chunk)
  }

  /**
   * The split loop: rows top to bottom, columns left to right, a running
   * `workerIndex` choosing the endpoint, each tile appended to the list of tasks.
   */
  method Split(image: Image, workers: seq<string>, rows: nat, cols: nat) returns (g: Grid, tasks: seq<Task>)
    requires rows > 0 && cols > 0 && |workers| > 0
    ensures g == Layout(image.width, image.height, rows, cols) && Fits(g, image.width, image.height)
    ensures |tasks| == TileCount(g)
    ensures forall i :: 0 <= i < |tasks| ==>
      tasks[i] == Task(workers[WorkerFor(i, |workers|)], TileOf(image, g, i))
  {
    g := Layout(image.width, image.height, rows, cols);
    LayoutFits(image.width, image.height, rows, cols);
    tasks := [];
    var workerIndex := 0;
    var y := 0;
    while y < rows
      invariant 0 <= y <= rows && |tasks| == y * cols && |tasks| <= TileCount(g)
      invariant workerIndex == |tasks|
      invariant forall i :: 0 <= i < |tasks| ==>
        tasks[i] == Task(workers[WorkerFor(i, |workers|)], TileOf(image, g, i))
    {
      RowEnd(y, rows, cols);
      var x := 0;
      while x < cols
        invariant 0 <= x <= cols && |tasks| == y * cols + x && |tasks| + (cols - x) <= TileCount(g)
        invariant workerIndex == |tasks|
        invariant forall i :: 0 <= i < |tasks| ==>
          tasks[i] == Task(workers[WorkerFor(i, |workers|)], TileOf(image, g, i))
      {
        var workerUrl := workers[workerIndex % |workers|];
        RowMajor(y, x, cols);
        TileInside(image.width, image.height, g, workerIndex);
        var chunk := Crop(image, x * g.tileWidth, y * g.tileHeight, g.tileWidth, g.tileHeight);
        assert OriginX(g, workerIndex) == x * g.tileWidth && OriginY(g, workerIndex) == y * g.tileHeight;
        assert chunk == TileOf(image, g, workerIndex);
        workerIndex := workerIndex + 1;
        tasks := tasks + [Task(workerUrl, chunk)];
        x := x + 1;
      }
      y := y + 1;
    }
  }

  /** The grid the distributor lays over `img`. */
  function GridOf(img: Image): (g: Grid)
    ensures g.rows == NumRows && g.cols == NumCols && Fits(g, img.width, img.height)
    ensures g.tileWidth == img.width / NumCols && g.tileHeight == img.height / NumRows
  {
    LayoutFits(img.width, img.height, NumRows, NumCols);
    Layout(img.width, img.height, NumRows, NumCols)
  }

  /** The per-attempt network seen by the transfer of tile `i`. */
  function TileNet(network: Network, i: nat, t: Task): nat -> Exchange {
    (k: nat) => network(i, t, k)
  }

  /** The results of all transfers, at their tile's index. */
  function Outcomes(img: Image, network: Network): (rs: seq<Outcome>)
    ensures |rs| == TileCount(GridOf(img))
    ensures forall i :: 0 <= i < |rs| ==>
      rs[i] == RetryResult(TileNet(network, i, TaskOf(img, GridOf(img), i)), MaxRetries)
  {
    var g := GridOf(img);
    seq(TileCount(g), i requires 0 <= i < TileCount(g) =>
      RetryResult(TileNet(network, i, TaskOf(img, g, i)), MaxRetries))
  }

  /**
   * main without its I/O: split, transfer every tile, and compose. Pixel (x, y)
   * of the output is what drawing the results in row-major order leaves there.
   */
  method Distribute(image: Image, network: Network) returns (canvas: array2<Pixel>)
    ensures fresh(canvas) && canvas.Length0 == image.height && canvas.Length1 == image.width
    ensures forall y, x :: 0 <= y < image.height && 0 <= x < image.width ==>
      canvas[y, x] == ComposedPixel(GridOf(image), Outcomes(image, network), TileCount(GridOf(image)), x, y)
  {
    var g, tasks := Split(image, Workers, NumRows, NumCols);
    var results: seq<Outcome> := [];
    var i := 0;
    while i < |tasks|
      invariant 0 <= i <= |tasks| && |results| == i
      invariant forall j :: 0 <= j < i ==> results[j] == Outcomes(image, network)[j]
    {
      var r: Outcome;
      ghost var calls, sleeps;
      r, calls, sleeps := SendChunkWithRetry(TileNet(network, i, tasks[i]), MaxRetries);
      results := results + [r];
      i := i + 1;
    }
    assert results == Outcomes(image, network);
    canvas := Compose.Compose(image.width, image.height, g, results);
  }

  /** With 3 endpoints and a 2 x 2 grid the tiles of any image go to endpoints 0, 1, 2, 0. */
  lemma DefaultAssignment(img: Image)
    ensures TileCount(GridOf(img)) == 4
    ensures seq(4, i requires 0 <= i < 4 => TaskOf(img, GridOf(img), i).worker)
      == [Workers[0], Workers[1], Workers[2], Workers[0]]
  {
  }

  /** A 4 x 4 image gives four 2 x 2 tiles at (0,0), (2,0), (0,2) and (2,2). */
  lemma FourByFourTiles(img: Image)
    requires img.width == 4 && img.height == 4
    ensures GridOf(img).tileWidth == 2 && GridOf(img).tileHeight == 2
    ensures seq(4, i requires 0 <= i < 4 => (OriginX(GridOf(img), i), OriginY(GridOf(img), i)))
      == [(0, 0), (2, 0), (0, 2), (2, 2)]
  {
  }

  /** Every processed image a worker returns has the size of the tile it was sent. */
  ghost predicate KeepsSize(network: Network) {
    forall i, t, k :: network(i, t, k).Replied? && network(i, t, k).body.Some? ==>
      network(i, t, k).body.value.width == t.chunk.width && network(i, t, k).body.value.height == t.chunk.height
  }

  /** Size-keeping workers give results that each fit their tile. */
  lemma OutcomesKeepTileSize(img: Image, network: Network)
    requires KeepsSize(network)
    ensures KeepsTileSize(GridOf(img), Outcomes(img, network))
  {
  }

  /**
   * With workers that send every tile straight back, the output equals the
   * source on the whole tiles and is black on the remainder strips.
   */
  lemma IdentityWorkersReproduceSource(img: Image, network: Network)
    requires forall i, t :: network(i, t, 0) == Replied(200, Some(t.chunk))
    ensures forall y, x :: 0 <= y < img.height && 0 <= x < img.width ==>
      ComposedPixel(GridOf(img), Outcomes(img, network), TileCount(GridOf(img)), x, y) ==
        if x < NumCols * GridOf(img).tileWidth && y < NumRows * GridOf(img).tileHeight then img.px[y][x] else 0
  {
    var g, rs := GridOf(img), Outcomes(img, network);
    forall i | 0 <= i < |rs|
      ensures rs[i] == Ok(Some(TileOf(img, g, i)))
    {
      var t := TaskOf(img, g, i);
      assert TileNet(network, i, t)(0) == Replied(200, Some(t.chunk));
      RetryReturnsFirstSuccess(TileNet(network, i, t), MaxRetries, 0);
    }
    SplitComposeRoundTrip(img, g, rs);
  }

  /** Three IOExceptions in a row: three calls, sleeps of 1000 and 2000 ms, then the IOException. */
  lemma ThreeFailures(net: nat -> Exchange)
    requires IsIOFailure(net(0)) && IsIOFailure(net(1)) && IsIOFailure(net(2))
    ensures RetryResult(net, MaxRetries) == Err(Exhausted(MaxRetries, Some(SendChunk(net(2)).failure)))
    ensures RetryCalls(net, MaxRetries) == 3
    ensures RetrySleeps(net, MaxRetries) == [1000, 2000]
  {
  }

  /**
   * A tile whose every attempt fails with an IOException ends in the
   * exhausted-retries IOException and stays black in the output, while every
   * other pixel of the whole tiles comes from its own tile's result.
   */
  lemma FailedTileStaysBlack(img: Image, network: Network, failed: nat)
    requires KeepsSize(network) && failed < NumRows * NumCols
    requires forall t, k :: IsIOFailure(network(failed, t, k))
    ensures Outcomes(img, network)[failed].Err? && Outcomes(img, network)[failed].error.Exhausted?
    ensures forall y: nat, x: nat :: InTile(GridOf(img), failed, x, y) ==>
      ComposedPixel(GridOf(img), Outcomes(img, network), TileCount(GridOf(img)), x, y) == 0
    ensures forall y: nat, x: nat :: x < NumCols * GridOf(img).tileWidth && y < NumRows * GridOf(img).tileHeight ==>
      var o := Owner(GridOf(img), x, y);
      var d := Drawable(Outcomes(img, network)[o]);
      ComposedPixel(GridOf(img), Outcomes(img, network), TileCount(GridOf(img)), x, y) ==
        if d.Some? then d.value.px[y - OriginY(GridOf(img), o)][x - OriginX(GridOf(img), o)] else 0
  {
    var g, rs := GridOf(img), Outcomes(img, network);
    var t := TaskOf(img, g, failed);
    var net := TileNet(network, failed, t);
    assert IsIOFailure(net(0)) && IsIOFailure(net(1)) && IsIOFailure(net(2));
    ThreeFailures(net);
    OutcomesKeepTileSize(img, network);
    forall y: nat, x: nat | InTile(g, failed, x, y)
      ensures ComposedPixel(g, rs, |rs|, x, y) == 0
    {
      PixelFromOwner(g, rs, x, y);
      var o := Owner(g, x, y);
      if o != failed {
        TilesDisjoint(g, failed, o, x, y);
      }
    }
    forall y: nat, x: nat | x < NumCols * g.tileWidth && y < NumRows * g.tileHeight
      ensures var o := Owner(g, x, y);
        var d := Drawable(rs[o]);
        ComposedPixel(g, rs, |rs|, x, y) == if d.Some? then d.value.px[y - OriginY(g, o)][x - OriginX(g, o)] else 0
    {
      PixelFromOwner(g, rs, x, y);
    }
  }
}
