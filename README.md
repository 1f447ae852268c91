# Image distributor — verified model of its core

The image distributor cuts one image into a 2 × 2 grid of tiles. It sends each
tile over HTTP to one of three Python workers, chosen round robin. Each tile
gets up to three attempts, with exponential backoff between them. The
processed tiles are then drawn back into a fresh raster of the original size.
This project models the deterministic core of that program in Dafny:

- **Tile geometry** (`geometry.dfy`, module `Geometry`). The tile size is
  `width / cols` by `height / rows` under integer division. Tile `i` in
  row-major order sits at `((i % cols)·tw, (i / cols)·th)`. Pixels past
  `cols·tw` or `rows·th` belong to no tile: the program truncates. The tiles
  lie inside the image and are pairwise disjoint. Together they cover exactly
  `[0, cols·tw) × [0, rows·th)`.
- **One transfer** (`transfer.dfy`, modules `Transfer` and
  `TransferProperties`). `sendChunk` treats HTTP status 200 as success; any
  other status becomes an IOException. `sendChunkWithRetry` is a `while` loop
  over `attempt`, `delay` and `lastException`. The network is a parameter:
  `net(k)` is what the k-th call runs into. `Thread.sleep` appends its argument
  to a ghost log. The loop is proved against a closed-form description of the
  result, the number of calls and the delays slept. Lemmas then state:
  - the first returned image is the result;
  - an exception that is not an IOException escapes at once;
  - all-IOException runs make `maxRetries` calls and `maxRetries − 1` sleeps,
    with the last failure as the cause;
  - with `maxRetries ≤ 0` there are no calls and no cause;
  - the sleeps are 1000, 2000, 4000, … ms.

  `delay` is a Java `long`, so the model wraps it explicitly. It turns negative
  at the 55th sleep, where `Thread.sleep` throws an IllegalArgumentException
  that is not retried. This needs `maxRetries ≥ 56`; the program passes 3.
- **Reassembly** (`compose.dfy`, modules `Compose` and `ComposeProperties`).
  The output is an `array2` of the source size, starting black (0). Each
  result is drawn at its tile's origin in row-major order, as a block copy
  clipped to the raster. A result that is an exception, or a response that
  decoded to no image, draws nothing. Every output pixel is proved equal to
  `ComposedPixel`: the last drawn image covering that pixel decides it. If the
  workers keep the tile size, each pixel inside the whole tiles comes from its
  own tile's result, or is black if that tile failed. The remainder strips
  stay black. Split followed by compose, with unprocessed tiles, reproduces
  the source on the whole tiles.
- **The main flow** (`distributor.dfy`, module `Distributor`). This module
  holds the constants (three worker URLs, 2 × 2 grid, 3 attempts). It also
  has:
  - the round-robin rule and a proof that it spreads tiles evenly;
  - the split loop with its running `workerIndex`;
  - `Distribute`, which splits, transfers every tile and composes;
  - the scenarios: endpoints 0, 1, 2, 0; a 4 × 4 image giving tiles at
    (0,0), (2,0), (0,2), (2,2); identity workers reproducing the source; a
    tile that always fails staying black after three calls and sleeps of
    1000 and 2000 ms.

The code makes these choices, and the model follows them:
- The code truncates the remainder pixels instead of giving them to the last
  row and column.
- It does not validate the image dimensions.
- It has a fixed initial delay of 1000 ms rather than a configurable base.
- It retries every IOException, including 4xx statuses.
- It fills a failed tile with nothing (black) and produces no status report.

## Model

| member | source | states |
|---|---|---|
| `Geometry.Layout` | src/com/example/distributed/ImageDistributor.java:40-41 | tile width and height are the floor of image size over grid shape: `tw·cols ≤ W < (tw+1)·cols`, likewise for height |
| `Geometry.RowMajor` | src/com/example/distributed/ImageDistributor.java:52-53 | the row-major index `y·cols + x` of cell (x, y) decodes back to column `x` and row `y` |
| `Geometry.OriginX` | src/com/example/distributed/ImageDistributor.java:63 | the left edge `(i mod cols)·tw` of tile `i` (also its draw offset at line 91) leaves room for a whole tile before `cols·tw` |
| `Geometry.OriginY` | src/com/example/distributed/ImageDistributor.java:64 | the top edge `(i div cols)·th` of a tile index inside the grid (also its draw offset at line 91) leaves room for a whole tile before `rows·th` |
| `Geometry.TileInside` | src/com/example/distributed/ImageDistributor.java:62-67 | every tile rectangle `(x·tw, y·th, tw, th)` lies inside the W × H image |
| `Geometry.TilesDisjoint` | src/com/example/distributed/ImageDistributor.java:62-67 | two different tiles share no pixel |
| `Geometry.Owner` | src/com/example/distributed/ImageDistributor.java:62-67 | every pixel of `[0, cols·tw) × [0, rows·th)` lies in some tile of the grid (with TilesDisjoint: in exactly one) |
| `Geometry.Crop` | src/com/example/distributed/ImageDistributor.java:62-67 | getSubimage: the w × h block whose pixel (x, y) is the image pixel at (ox + x, oy + y) |
| `Geometry.TileOf` | src/com/example/distributed/ImageDistributor.java:62-67 | tile `i` of the image has size tw × th |
| `Geometry.TilePixel` | src/com/example/distributed/ImageDistributor.java:62-67 | pixel (x, y) of tile `i` is the source pixel at the same offset from the tile's origin, which is inside the image |
| `Transfer.SendChunk` | src/com/example/distributed/ImageDistributor.java:161-166 | a call returns exactly when the status is 200, returning the decoded body; any other status is an IOException carrying that status; transport failures are IOExceptions, anything else is another exception |
| `Transfer.JavaLong` | src/com/example/distributed/ImageDistributor.java:127 | `delay *= 2` on a `long`: the result is in the 64-bit range and equals the exact value when that fits |
| `Transfer.JavaLongWraps` | src/com/example/distributed/ImageDistributor.java:127 | the wrapped result always differs from the exact value by a whole multiple of 2^64: two's-complement wrap-around |
| `Transfer.Delay` | src/com/example/distributed/ImageDistributor.java:114-127 | the value of `delay` before the j-th sleep: 1000 doubled j times as a `long`, always within the 64-bit range |
| `Transfer.FirstStop` | src/com/example/distributed/ImageDistributor.java:117-122 | the first attempt that does not end in an IOException: every earlier attempt did, and it did not (or all `n` did) |
| `Transfer.SendChunkWithRetry` | src/com/example/distributed/ImageDistributor.java:112-132 | the loop returns `RetryResult`, calls sendChunk `RetryCalls ≤ max(maxRetries, 0)` times and sleeps the delays `RetrySleeps` |
| `Transfer.DelayDoubles` | src/com/example/distributed/ImageDistributor.java:114-127 | for the first 54 doublings the delay is exactly `1000·2^j`, with no wrap-around |
| `Transfer.DelaySign` | src/com/example/distributed/ImageDistributor.java:126-127 | the first 54 delays are positive; the 55th has wrapped below zero |
| `TransferProperties.RetryReturnsFirstSuccess` | src/com/example/distributed/ImageDistributor.java:117-119 | after k IOExceptions, a 200 response on attempt k is returned, with k + 1 calls and the k sleeps `Delay(0..k-1)` |
| `TransferProperties.RetryOtherExceptionEscapes` | src/com/example/distributed/ImageDistributor.java:118-120 | a non-IOException on attempt k is thrown at once: k + 1 calls, no further sleep, no retry |
| `TransferProperties.RetryExhausted` | src/com/example/distributed/ImageDistributor.java:121-131 | when all `maxRetries` attempts throw IOExceptions: exactly `maxRetries` calls, `maxRetries − 1` sleeps, and an IOException whose cause is the last failure |
| `TransferProperties.RetryNoAttempt` | src/com/example/distributed/ImageDistributor.java:113-131 | with `maxRetries ≤ 0`, sendChunk is never called, nothing is slept and the thrown IOException has a null cause |
| `TransferProperties.RetryResultIsReply` | src/com/example/distributed/ImageDistributor.java:117-119 | a returned image is the body of a 200 response to the first attempt that did not throw an IOException |
| `TransferProperties.BackoffSchedule` | src/com/example/distributed/ImageDistributor.java:114-127 | the j-th sleep (from 0) lasts `1000·2^j` ms, and at most 54 sleeps happen |
| `TransferProperties.SleepsFollowFailures` | src/com/example/distributed/ImageDistributor.java:121-128 | sleeps follow only IOExceptions: for every network and every `maxRetries`, one fewer sleep than calls in every ending except exhaustion at `maxRetries ≤ 0` |
| `TransferProperties.NegativeSleepNeedsManyAttempts` | src/com/example/distributed/ImageDistributor.java:126-127 | the transfer ends with the refused negative sleep exactly when 55 sleeps would be reached, which needs `maxRetries ≥ 56` |
| `Compose.Drawable` | src/com/example/distributed/ImageDistributor.java:89-95 | a result yields an image to draw exactly when the transfer returned a non-null image, and the image drawn is that returned image |
| `Compose.DrawImage` | src/com/example/distributed/ImageDistributor.java:91 | drawImage: each pixel of the image lands at its offset from the origin, clipped to the canvas; every other canvas pixel is unchanged |
| `Compose.DrawResult` | src/com/example/distributed/ImageDistributor.java:89-95 | one iteration of the compose loop advances the canvas from the first `i` drawn results to the first `i + 1` |
| `Compose.Compose` | src/com/example/distributed/ImageDistributor.java:82-97 | the output is a fresh W × H raster whose every pixel is `ComposedPixel` over all results, drawn in row-major order at their tiles' origins |
| `ComposeProperties.NeverDrawnIsBlack` | src/com/example/distributed/ImageDistributor.java:82 | a pixel no drawn result covers keeps the initial black value |
| `ComposeProperties.PixelFromOwner` | src/com/example/distributed/ImageDistributor.java:85-95 | with size-keeping workers, a pixel inside the whole tiles is its own tile's processed pixel, or black if that tile's retrieval failed; no other tile touches it |
| `ComposeProperties.RemainderStaysBlack` | src/com/example/distributed/ImageDistributor.java:82-97 | with size-keeping workers, pixels right of `cols·tw` or below `rows·th` are never written |
| `ComposeProperties.SplitComposeRoundTrip` | src/com/example/distributed/ImageDistributor.java:82-91 | composing the unprocessed split tiles gives back the source on `[0, cols·tw) × [0, rows·th)` and black elsewhere |
| `Distributor.WorkerFor` | src/com/example/distributed/ImageDistributor.java:58 | the endpoint index of tile `i` is below the endpoint count, and is `i` itself while `i` is below it |
| `Distributor.RoundRobinPeriodic` | src/com/example/distributed/ImageDistributor.java:58 | the assignment repeats with the period of the endpoint count |
| `Distributor.RoundRobinBalanced` | src/com/example/distributed/ImageDistributor.java:49-59 | among the first m tiles, endpoint w gets `m / count` tiles, plus one if `w < m % count` |
| `Distributor.TaskOf` | src/com/example/distributed/ImageDistributor.java:58-67 | tile `i` goes to `WORKERS[i mod 3]` carrying a tw × th chunk whose pixel (x, y) is the source pixel at the tile's origin plus (x, y) |
| `Distributor.Split` | src/com/example/distributed/ImageDistributor.java:40-79 | the split loop yields `rows·cols` tasks in row-major order; task `i` carries tile `i` and goes to `workers[i mod |workers|]` |
| `Distributor.GridOf` | src/com/example/distributed/ImageDistributor.java:29-41 | the program's grid is 2 × 2 with tiles of `W / 2` by `H / 2`, and fits inside the image |
| `Distributor.Outcomes` | src/com/example/distributed/ImageDistributor.java:70-77 | one transfer result per tile, kept at the tile's index: result `i` is the retry loop with 3 attempts run on tile `i`'s task against that tile's network |
| `Distributor.Distribute` | src/com/example/distributed/ImageDistributor.java:32-105 | main: the output has the source's size, and its pixels are the row-major composition of the per-tile transfer results |
| `Distributor.DefaultAssignment` | src/com/example/distributed/ImageDistributor.java:22-59 | three workers and the program's 2 × 2 grid: any image has 4 tiles, whose tasks go to workers 0, 1, 2, 0 |
| `Distributor.FourByFourTiles` | src/com/example/distributed/ImageDistributor.java:40-67 | a 4 × 4 image gives 2 × 2 tiles at origins (0,0), (2,0), (0,2), (2,2) |
| `Distributor.OutcomesKeepTileSize` | src/com/example/distributed/ImageDistributor.java:90-91 | if workers return images of the size they were sent, every drawn result has the tile size |
| `Distributor.IdentityWorkersReproduceSource` | src/com/example/distributed/ImageDistributor.java:52-97 | with workers that echo their tile, the output equals the source on the whole tiles and is black on the remainder strips |
| `Distributor.ThreeFailures` | src/com/example/distributed/ImageDistributor.java:72 | with 3 attempts all failing with IOExceptions: 3 calls, sleeps `[1000, 2000]`, then the IOException with the third failure as cause |
| `Distributor.FailedTileStaysBlack` | src/com/example/distributed/ImageDistributor.java:85-97 | a tile whose every attempt throws an IOException ends in the exhausted-retries IOException, its rectangle in the output stays black, and every other pixel of the whole tiles is its own tile's processed pixel (or black if that tile failed too) |

## Left out

- HTTP transport (`HttpClient`, its 5 s and 10 s timeouts, the POST itself) is left out. Only what a call ends in is modelled: a response status with a decoded body, an IOException or another exception.
- The JPEG codec (`ImageIO.read`/`write`) and the hard-coded input and output paths are left out. The decoded body of a response is part of the network parameter. JPEG is lossy, so no round trip holds across it.
- The thread pool and futures are left out. The transfers run one after another, and each result is kept at its tile's index. The network is an arbitrary function of tile, task and attempt, so any order in which they finish gives the same results.
- `Thread.sleep` does not pass time; it appends to a ghost log. An interrupt during the sleep is not modelled.
- The logger setup and all logging calls are left out.
- `Graphics2D.drawImage` is modelled as a clipped block copy. The colour conversion into `TYPE_INT_RGB` is not modelled: a pixel is an opaque integer.
- `getSubimage` returns a view sharing the source pixels. The model copies them instead, which makes no difference because nothing writes to the source.
- `Distributor.Split`: for an image narrower than 2 columns or shorter than 2 rows, a tile has zero width or height. The Java library's `getSubimage` then throws and the run ends. The model yields empty tiles instead.
- `ComposeProperties.PixelFromOwner`, `ComposeProperties.RemainderStaysBlack` and `Distributor.FailedTileStaysBlack` assume that the workers return images of the size they were sent. A larger image would spill into the neighbouring tiles or the remainder strips. `Compose.Compose` itself places no such restriction.
- The Python worker (grayscale, Gaussian blur, thresholding) is not part of this model. What it returns is the network parameter.
