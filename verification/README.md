# Path tracer core: texture sampling, environment lookup, image partition

A model of the deterministic core of the assignment-4 path tracer
(`assignment04/src/apps/04_pathtrace.cpp`):

- **`lookup_scaled_texture`**: the texture sampler shared by the material and
  environment lookups. An absent texture returns the value unchanged. Tiling
  folds a coordinate by subtracting its truncation toward zero. Clamping
  pushes it into `[0, 1]`. A bilinear filter reads a 2×2 footprint and blends
  it with weights `(1-s)(1-t)`, `(1-s)t`, `s(1-t)`, `st`. A nearest filter
  reads the texel `(trunc(u·(w-1)), trunc(v·(h-1)))`. Every read is tinted
  (multiplied per channel) by the value.
- **`eval_env`**: with no texture, the environment is the constant `ke`; with
  one, the latitude-longitude coordinate of the direction is sampled with
  tiling.
- **The rendering driver `pathtrace(...)`**:
  - Rows are split between workers by stride: worker `t` of `T` renders rows
    `t, t+T, t+2T, …`, and the single-threaded path is worker 0 of 1.
  - Each pixel has its own random generator. A pixel is cleared, then
    accumulates `S×S` jittered sub-samples drawn with that generator.
  - The sum is divided by `S²`.

Modules:

- `Numeric` (numeric.dfy): the C++ float-to-int conversion, `clamp`, and
  scalar facts.
- `Colour` (colour.dfy): three-channel colours and their sums.
- `Optional` (optional.dfy): the nullable texture pointer.
- `Texture` (texture.dfy): the sampler.
- `Environment` (environment.dfy): `eval_env`.
- `Render` (render.dfy): the row partition, the image assembly with the
  per-pixel generators, sub-pixel coordinates and pixel averaging.

The arithmetic is on mathematical reals and integers. The renderer's `(int)`
conversion is modelled explicitly as truncation toward zero (`Numeric.Trunc`).
The image is a map from cells to colours. Beside it, a second map holds each
pixel's generator state (`Render.Canvas`). Each worker is the sequence of
cells it paints. Painting a pixel runs the pixel's work on its generator's
current state, which gives the colour and the advanced state.

Three behaviours of the code deserve a note:

- **Tiling does not wrap negative coordinates.** Tiling subtracts the
  truncation toward zero, so a negative coordinate folds into `(-1, 0]`. The
  clamp that follows then sends it to 0. `Texture.TileFoldNegativeClampsToZero`,
  `Texture.TiledLookupNegativeClamps` and
  `Environment.EnvNegativeAzimuthReadsFirstColumn` state this. It matters in
  practice: `eval_env` produces a negative `u` for half of all directions.
- **Bilinear and nearest filtering address different texels.** Nearest
  scales by `w - 1` and bilinear by `w`. At the grid point `u = i/w` with
  `0 < i < w`, bilinear filtering reads texel `i` and nearest filtering reads
  texel `i - 1` (`Texture.NearestIndexAtGridPoint`,
  `Texture.BilinearAndNearestDisagreeAtGridPoint`).
- **The bilinear base index is unguarded.** See Findings.

## Model

| member | source | states |
|---|---|---|
| Numeric.Trunc | assignment04/src/apps/04_pathtrace.cpp:22-23 | the `(int)` conversion rounds toward zero: it is the floor of a non-negative value and the ceiling of a negative one |
| Numeric.ClampReal | assignment04/src/apps/04_pathtrace.cpp:28-29 | a clamped coordinate lies in `[lo, hi]`; it is unchanged inside the range and equals the nearer bound outside it |
| Numeric.ClampInt | assignment04/src/apps/04_pathtrace.cpp:38-40 | a clamped neighbour index lies in `[lo, hi]`; it is unchanged inside the range and equals the nearer bound outside it |
| Texture.TileFold | assignment04/src/apps/04_pathtrace.cpp:21-24 | the tiled coordinate differs from the input by a whole number; it lies in `[0, 1)` for a non-negative input and in `(-1, 0]` for a negative one |
| Texture.TileFoldPeriodic | assignment04/src/apps/04_pathtrace.cpp:22-23 | on non-negative coordinates, tiling has period one |
| Texture.TileFoldNegativeClampsToZero | assignment04/src/apps/04_pathtrace.cpp:22-29 | a negative coordinate folded and then clamped becomes 0, so it is not wrapped to the far side |
| Texture.FootprintAsWritten | assignment04/src/apps/04_pathtrace.cpp:32-40 | as written, the `+1` neighbour indices are clamped into the image; the base index `trunc(u·w)` is non-negative for a non-negative coordinate but has no upper guard |
| Texture.FootprintAsWrittenInBoundsBelowOne | assignment04/src/apps/04_pathtrace.cpp:32-40 | for coordinates in `[0, 1)`, all four reads of the footprint as written are inside the image |
| Texture.FootprintAsWrittenPastEdge | assignment04/src/apps/04_pathtrace.cpp:32-37 | at coordinate 1, the base index as written equals the image width (or height): one past the last texel |
| Texture.BaseIndex | assignment04/src/apps/04_pathtrace.cpp:32-35 | corrected base index: for a coordinate in `[0, 1]` it is a texel of the axis and its offset lies in `[0, 1]`; below 1 it is the code's `trunc(u·w)`, with offset below 1 |
| Texture.BilinearFootprint | assignment04/src/apps/04_pathtrace.cpp:32-40 | corrected footprint: on `[0, 1]` every read is inside the image, the offsets lie in `[0, 1]` and index plus offset recovers `u·w`; below 1 it is the footprint as written, with offset below 1 |
| Texture.BilinearWeights | assignment04/src/apps/04_pathtrace.cpp:41-44 | the four bilinear weights sum to one; they are non-negative for offsets in `[0, 1]`; at offset `(0, 0)` they select the base texel alone |
| Texture.BlendOfEqual | assignment04/src/apps/04_pathtrace.cpp:41-44 | blending four equal colours with weights summing to one returns that colour |
| Texture.BlendWithin | assignment04/src/apps/04_pathtrace.cpp:41-44 | a convex blend of four colours in a per-channel range stays in that range |
| Texture.BilinearSample | assignment04/src/apps/04_pathtrace.cpp:32-44 | for coordinates below 1 on both axes, the four texels read are those of the code as written, all inside the image, and the blend uses the same weights |
| Texture.NearestIndex | assignment04/src/apps/04_pathtrace.cpp:47 | for a coordinate in `[0, 1]`, the nearest-filter index lies in `[0, n-1]`; it is 0 at coordinate 0 and `n-1` at coordinate 1 |
| Texture.NearestSample | assignment04/src/apps/04_pathtrace.cpp:47 | nearest filtering returns one tinted texel of the image: the first texel at `(0, 0)` and the last texel at `(1, 1)` |
| Texture.NearestIndexAtGridPoint | assignment04/src/apps/04_pathtrace.cpp:47 | at the bilinear grid point `k/n` with `0 < k < n`, the nearest-filter index is `k - 1` |
| Texture.Lookup | assignment04/src/apps/04_pathtrace.cpp:18-50 | with no texture, the sampler returns the value unchanged |
| Texture.LookupAsWritten | assignment04/src/apps/04_pathtrace.cpp:18-50 | the sampler as written, with out-of-image reads made explicit: with no texture it returns the value; a nearest lookup never reads outside the image |
| Texture.UntiledLookupReadsPastEdge | assignment04/src/apps/04_pathtrace.cpp:28-37 | an untiled bilinear lookup at `u = 1` reads outside the image |
| Texture.TiledLookupMatchesAsWritten | assignment04/src/apps/04_pathtrace.cpp:18-50 | a tiled lookup, which is how every caller in the file uses the sampler, never reads outside the image, and it agrees with the corrected sampler for every coordinate |
| Texture.LookupConstantTexture | assignment04/src/apps/04_pathtrace.cpp:37-47 | on a single-colour texture `c`, every lookup (tiled or not, either filter) returns `value * c` |
| Texture.LookupWithinTintedRange | assignment04/src/apps/04_pathtrace.cpp:37-47 | if every tinted texel lies in a per-channel range, so does every lookup |
| Texture.TiledLookupPeriodic | assignment04/src/apps/04_pathtrace.cpp:21-24 | for non-negative coordinates, a tiled lookup repeats with period one in `u` and in `v` |
| Texture.TiledLookupNegativeClamps | assignment04/src/apps/04_pathtrace.cpp:21-29 | a tiled lookup at a negative `u` equals the lookup at `u = 0` |
| Texture.BilinearAtGridPoint | assignment04/src/apps/04_pathtrace.cpp:32-44 | at the grid point `(i/w, j/h)`, bilinear filtering returns exactly the tinted texel `(i, j)` |
| Texture.BilinearAndNearestDisagreeAtGridPoint | assignment04/src/apps/04_pathtrace.cpp:32-47 | at the grid point `u = i/w` of the first row, with `0 < i < w`, bilinear filtering returns tinted texel `i` and nearest filtering tinted texel `i - 1`, so the two differ whenever those tinted texels differ |
| Environment.EvalEnv | assignment04/src/apps/04_pathtrace.cpp:70-71 | with no environment texture, the environment radiance is `ke` |
| Environment.EnvWithoutTextureIsConstant | assignment04/src/apps/04_pathtrace.cpp:70-71 | with no texture, the environment is the same constant `ke` in every direction |
| Environment.EnvLookupInBounds | assignment04/src/apps/04_pathtrace.cpp:70-74 | a textured environment never reads outside the texture, for any direction and any mapping |
| Environment.EnvNegativeAzimuthReadsFirstColumn | assignment04/src/apps/04_pathtrace.cpp:72-74 | every direction with negative azimuth coordinate samples as if `u = 0` |
| Environment.EnvConstantTexture | assignment04/src/apps/04_pathtrace.cpp:70-74 | a single-colour environment texture `c` gives the constant `ke * c` |
| Render.StrideRows | assignment04/src/apps/04_pathtrace.cpp:320 | the `k`-th row a worker visits is `offset + k·stride`; every visited row is below the height; the loop stops at the first row at or past the height |
| Render.StrideRowsMembership | assignment04/src/apps/04_pathtrace.cpp:320 | a row is visited exactly when it lies in `[offset, height)` and its distance from `offset` is a multiple of the stride |
| Render.RowOwnedByOneWorker | assignment04/src/apps/04_pathtrace.cpp:366-368 | with `T` workers, row `j` of the image is visited by worker `t` exactly when `t = j mod T` |
| Render.WorkerRowsInImage | assignment04/src/apps/04_pathtrace.cpp:320 | a worker visits only rows in `[0, height)` with its own remainder, in strictly increasing order |
| Render.WorkersShareNoRow | assignment04/src/apps/04_pathtrace.cpp:366-368 | two distinct workers visit no common row |
| Render.SingleWorkerVisitsEveryRow | assignment04/src/apps/04_pathtrace.cpp:372 | the single-threaded call (offset 0, stride 1) visits rows `0 .. height-1` in order |
| Render.CellsOfRows | assignment04/src/apps/04_pathtrace.cpp:320-322 | the pixels a worker visits are exactly the columns `[0, width)` of its rows, and no pixel is visited twice |
| Render.CellHasOneWriter | assignment04/src/apps/04_pathtrace.cpp:320-324 | a pixel of the image is in the cells of worker `t < T` exactly when `t` is its row modulo `T`; that worker is one of the `T` started, and its cell list has no repeats, so it visits the pixel once |
| Render.WorkerStaysInImage | assignment04/src/apps/04_pathtrace.cpp:320-322 | a worker only writes pixels inside the image |
| Render.Paint | assignment04/src/apps/04_pathtrace.cpp:322-344 | a worker adds exactly its own pixels to the image, keeps every pixel's generator, and leaves the colour and generator of every pixel it does not visit unchanged |
| Render.PaintOnce | assignment04/src/apps/04_pathtrace.cpp:322-344 | a worker that lists no pixel twice leaves each of its pixels with the pixel work of the state its generator had before the worker ran, and that generator advanced by the work |
| Render.PaintTwiceDiffers | assignment04/src/apps/04_pathtrace.cpp:324-344 | a pixel visited twice is rendered the second time from its advanced generator, so unless the pixel work repeats its colour there, two visits leave a different colour from one |
| Render.StrideAssignmentCovers | assignment04/src/apps/04_pathtrace.cpp:366-368 | the workers started with offsets `0 .. T-1` and stride `T` write only inside the image and list no pixel twice; a pixel of the image is listed by worker `t < T` exactly when `t` is its row modulo `T`, which is below `T` |
| Render.RunWorkers | assignment04/src/apps/04_pathtrace.cpp:367-368 | running workers one after another never adds or drops a pixel's generator |
| Render.RunWorkersKeeps | assignment04/src/apps/04_pathtrace.cpp:367-368 | a pixel that none of the workers lists keeps its colour and its generator |
| Render.RunWorkersWrites | assignment04/src/apps/04_pathtrace.cpp:367-369 | after the first `k` workers ran, a pixel whose only writer is among them, visiting it once, holds the pixel work of its initial generator state, and the generator has advanced once |
| Render.RunWorkersKeys | assignment04/src/apps/04_pathtrace.cpp:367-369 | workers that write only pixels of the image leave an image with exactly the image's pixels |
| Render.TwoWorkers | assignment04/src/apps/04_pathtrace.cpp:367-369 | two workers with disjoint cell lists, neither listing a pixel twice, run one after the other: each listed pixel holds the pixel work of its initial generator state, and every other pixel and generator is unchanged |
| Render.PaintOrderIrrelevant | assignment04/src/apps/04_pathtrace.cpp:367-369 | two workers with disjoint cell lists, neither listing a pixel twice, leave the same image and the same generators in either order |
| Render.Pathtrace | assignment04/src/apps/04_pathtrace.cpp:352-377 | with zero hardware threads reported, the multithreaded driver starts no worker and returns the image as allocated; with at least one worker, the image has exactly the image's pixels |
| Render.PathtracePixel | assignment04/src/apps/04_pathtrace.cpp:317-377 | with at least one worker, each pixel of the image holds the pixel work of its own generator's initial state |
| Render.PathtraceRendersEveryPixel | assignment04/src/apps/04_pathtrace.cpp:352-377 | with at least one worker, the returned image is the reference image: exactly the image's pixels, each the pixel work of its own generator's initial state |
| Render.PathtraceIndependentOfThreads | assignment04/src/apps/04_pathtrace.cpp:359-373 | the image is the same for any positive thread count and for the single-threaded path |
| Render.SampleCoord | assignment04/src/apps/04_pathtrace.cpp:331-334 | sub-sample `ii` of `S` lies in the `ii`-th of `S` equal strata of its pixel, hence inside the pixel `[i/W, (i+1)/W)` |
| Render.SampleGridWithin | assignment04/src/apps/04_pathtrace.cpp:328-340 | if every sample's radiance lies in a per-channel range, so does every entry of the sample grid |
| Render.AccumulatePixel | assignment04/src/apps/04_pathtrace.cpp:324-344 | clearing, accumulating all `S×S` samples and dividing by `S²` yields the mean of the sample grid |
| Render.PixelMeanOfConstant | assignment04/src/apps/04_pathtrace.cpp:328-344 | if every sample returns the same radiance `c`, the pixel is `c` |
| Render.PixelMeanWithin | assignment04/src/apps/04_pathtrace.cpp:328-344 | if every sample's radiance lies in a per-channel range, so does the pixel |

## Findings

| source | as written | input that shows it | evidently intended | confidence | as-written member | corrected member |
|---|---|---|---|---|---|---|
| assignment04/src/apps/04_pathtrace.cpp:32-37 | after clamping into `[0, 1]`, the bilinear base index is `int(u * width)`, and `at(i, j)` reads it without a clamp, while the `+1` neighbours are clamped | an untiled bilinear lookup (`tile = false`) at `uv.x = 1` gives `i = width`, one column past the image; `uv.y = 1` likewise gives `j = height` | clamp the base index into `[0, width-1]` (and `[0, height-1]`), as the neighbours are | not executed; every call in the file tiles first, and tiling keeps coordinates below 1, so the reachable renders never hit it | Texture.LookupAsWritten, Texture.UntiledLookupReadsPastEdge | Texture.BilinearFootprint |

The corrected `Texture.Lookup` uses `Texture.BilinearFootprint`, whose base
index `Texture.BaseIndex` is clamped like the neighbours.
`Texture.TiledLookupMatchesAsWritten` proves that the corrected sampler and
the sampler as written agree on every tiled lookup.

## Left out

- `eval_brdf` (lines 54-67): floating-point `pow` and `normalize`, with divisions by dot products. It has no discrete structure to state.
- The trigonometric direction-to-coordinate mapping in `eval_env` (lines 72-73): `Environment.EvalEnv` takes it as the parameter `latLong`.
- `pathtrace_ray` (lines 79-262): recursive shading, light sampling and scene intersection. Intersection is in the scene library, which is not part of this model. The Russian-roulette style gate at line 226 compares a sampling density against 0.1; it is not modelled.
- The other calls of `lookup_scaled_texture` (lines 94-96, 167): they sit inside `pathtrace_ray`. Like `eval_env`, they tile.
- Thread creation and `join` (lines 359-369): the workers are modelled as running one after another. `Render.PaintOrderIrrelevant` shows that two workers with disjoint cell lists and no repeats commute, and `Render.StrideAssignmentCovers` shows the stride workers are such. Finer interleavings are not modelled. A worker reads and writes only its own pixels and their generators, so it shares no state with the others.
- The random number generators (line 326): a generator's state is an integer whose meaning is not modelled (`Render.Rng`), and the initial states are the parameter `seed`. What a pixel's samples contribute and how far they advance the generator is the parameter `work`. In the sampling lemmas, the jitter is the parameter `r` and a sample's radiance is `radiance`.
- Camera ray construction (lines 336-338): vector normalisation on floats.
- `main`, image saving, and the verbose progress messages.
- Floating-point rounding: all arithmetic is on reals.
- Render.SampleCoord: the sample stays strictly below `(i+1)/W` only in real arithmetic. In binary32, `ii + rng->next_float()` (line 331) rounds to `ii + 1` for `ii ≥ 1` when the draw is `1 - 2⁻²⁴`. The sample then lands exactly on `(i+1)/W`, which the contract excludes.
- Numeric.Trunc: is defined for every real. In C++, `(int)` of a float outside the range of `int` (line 22) is undefined behaviour.
- Render.AccumulatePixel: requires at least one sample per axis. With zero samples the code divides zero by zero.
- Render.StrideRows: requires a positive stride. With stride 0 the row loop would not end. Every caller passes the thread count (checked positive) or 1.
- Texture.Lookup: requires a valid texture of at least 1×1 texels. The code does not guard an empty image.
- Render.Pathtrace: assumes that a freshly allocated image is zero in every pixel (`Render.Blank`), and that the generator image has one generator per pixel (`Render.Start`).
- `clamp` comes from the common library, which is not part of this model. `Numeric.ClampReal` and `Numeric.ClampInt` model it as the usual min/max.
