# Pharosa core, modelled in Dafny

Pharosa is a small Monte Carlo ray tracer. This project models the core of its renderer:

- the film, a row-major buffer of spectra;
- the three-channel `Spectrum` and its arithmetic;
- the sphere intersection;
- the scene's nearest-hit scan;
- the sample integrator, which renders every pixel as a running mean of camera samples;
- the SmallPT path tracer with Russian roulette;
- the three debugging delegates (albedo, normal, position);
- the conversion of a film into bytes and packed colours.

The model works over `real` where the program computes in `f32`. The square root in the sphere test and `powf` are parameters. Casts from float to integer are written out with their truncation and saturation.

These collaborators are parameters or oracles, not code:

- the intersection routine of a primitive (`Intersector`);
- the BSDF sampler (`BsdfSampler`);
- the camera's `generate_ray` (`Camera`);
- the random numbers, modelled as a fixed stream `draws: nat -> real` read through a cursor.

A run is then a deterministic function of these. Every imperative operation is proved equal to a functional specification:

- `Trace`, for a path;
- `RenderPrefix`, for a whole render.

What the source promises is proved as lemmas about these specifications.

One file per source file:

| file | module | models |
|---|---|---|
| `core.dfy` | `Core` | vectors, rays, `Ray::transport`/`forward`, `Real::epsilon` |
| `spectrum.dfy` | `Spectra` | `src/core/spectrum.rs` |
| `film.dfy` | `Films` | `src/core/film.rs` |
| `sphere.dfy` | `Spheres` | `src/primitive/geometries/sphere.rs` |
| `scene.dfy` | `Scenes` | `src/scene/mod.rs` |
| `sampler.dfy` | `Samplers` | the `Sampler` trait of `src/sampler/mod.rs` over a fixed stream |
| `simple.dfy` | `Delegates` | `src/integrator/simple.rs` |
| `smallpt.dfy` | `SmallPt` | `src/integrator/smallpt.rs` |
| `integrator.dfy` | `Integrators` | `src/integrator/mod.rs` |
| `utils.dfy` | `Utils` | `src/utils/mod.rs` |
| `wrappers.dfy` | `Wrappers` | `Option` |

Two facts of the code that the model keeps as written:

- The Russian-roulette threshold is `1e-3` (`src/integrator/smallpt.rs:27`).
- The film's checked index admits `x == width` and `y == height` (`src/core/film.rs:41-45`, see Findings). `Film.At` and `Film.AtMut` keep that guard; the renderer writes through the corrected index.

## Model

| member | source | states |
|---|---|---|
| Films.IndexInBounds | src/core/film.rs:47-49 | for `x < width` and `y < height`, the row-major index `x + y*width` is below `width*height` |
| Films.IndexUnchecked | src/core/film.rs:47-49 | pixel `(x, y)` lies at or after the start `y*width` of row `y`, and for `x < width` before the start of row `y+1` |
| Films.IndexInjective | src/core/film.rs:47-49 | two in-bounds pairs with the same index are the same pair |
| Films.RowMajorSplit | src/core/film.rs:47-49 | for `x < width`, dividing the index by `width` gives back `y`, and the remainder gives back `x` |
| Films.IndexAsWritten | src/core/film.rs:41-45 | the checked index as written: defined exactly when `x <= width && y <= height`, and then equal to `x + y*width` |
| Films.IndexAsWrittenOnePastEnd | src/core/film.rs:41-45 | the written guard accepts `(width, height-1)`, which maps to `width*height`, one past the buffer, and `(width, height)`, which maps beyond it |
| Films.Index | src/core/film.rs:41-45 | the corrected index: defined exactly when `x < width && y < height`, and then in the buffer and equal to `x + y*width` |
| Films.Film.New | src/core/film.rs:14 | a fresh film of the given size with `width*height` cells, all black |
| Films.Film.NewWithColor | src/core/film.rs:15-21 | a fresh film of the given size with `width*height` cells, all equal to the colour |
| Films.Film.Size | src/core/film.rs:24 | the buffer length is `width*height` |
| Films.Film.At | src/core/film.rs:25-27 | through the written guard: defined exactly when `x <= width`, `y <= height` and `x + y*width` lies in the buffer, and then that cell's value; inside the film, the value of pixel `(x, y)` |
| Films.Film.AtMut | src/core/film.rs:28-31 | through the written guard: when `x <= width`, `y <= height` and `x + y*width` lies in the buffer, exactly that cell becomes `v`; otherwise it reports failure and nothing changes |
| Films.AtWrapsToNextRow | src/core/film.rs:25-45 | `at(width, y)` passes the guard: inside the film's height it reads pixel `(0, y+1)`, and on the last row it reads past the buffer |
| Films.AtMutFrame | src/core/film.rs:28-31 | after a write, the written pixel reads back the new value and every other in-bounds pixel reads as before |
| Spectra.Uniform | src/core/spectrum.rs:10 | all three channels equal the argument |
| Spectra.Black | src/core/spectrum.rs:11 | black is the uniform spectrum 0 |
| Spectra.White | src/core/spectrum.rs:12 | white has every channel 1 |
| Spectra.Default | src/core/spectrum.rs:18-22 | the default spectrum has every channel 0 |
| Spectra.New | src/core/spectrum.rs:9 | the three arguments become the red, green and blue channels, in that order |
| Spectra.Add | src/core/spectrum.rs:33-36 | subtracting either operand from the sum, channel by channel, gives back the other |
| Spectra.Sub | src/core/spectrum.rs:44-47 | adding `b` back to the difference gives `a`; the difference is black exactly when `a == b` |
| Spectra.Mul | src/core/spectrum.rs:55-58 | a black factor gives black; non-negative factors give a non-negative product |
| Spectra.Div | src/core/spectrum.rs:72-75 | multiplying the quotient back by `b` gives `a`; it is white exactly when `a == b` |
| Spectra.MulScalar | src/core/spectrum.rs:89-92 | scaling by 1 changes nothing; the result is black exactly when `a` is black or `k` is 0 |
| Spectra.DivScalar | src/core/spectrum.rs:94-97 | dividing by 1 changes nothing; the result is black exactly when `a` is |
| Spectra.Max | src/core/spectrum.rs:13 | the result is one of the channels and no channel exceeds it |
| Spectra.Min | src/core/spectrum.rs:14 | the result is one of the channels and no channel is below it |
| Spectra.Sum | src/core/spectrum.rs:15 | the channel sum lies between three times `Min` and three times `Max` |
| Spectra.FromVec | src/core/spectrum.rs:99-109 | the coordinates x, y and z become the channels r, g and b |
| Spectra.AddSubCancel | src/core/spectrum.rs:33-47 | `(a + b) - b == a` |
| Spectra.SubAddCancel | src/core/spectrum.rs:33-47 | `(a - b) + b == a` |
| Spectra.MulDivCancel | src/core/spectrum.rs:55-75 | `(a * b) / b == a` when no channel of `b` is zero |
| Spectra.DivMulCancel | src/core/spectrum.rs:55-75 | `(a / b) * b == a` when no channel of `b` is zero |
| Spectra.MulScalarDivCancel | src/core/spectrum.rs:89-97 | `(a * k) / k == a` for a nonzero scalar |
| Spectra.DivScalarMulCancel | src/core/spectrum.rs:89-97 | `(a / k) * k == a` for a nonzero scalar |
| Spectra.BlackWhiteLaws | src/core/spectrum.rs:33-58 | black is the identity of `+` and absorbs `*`; white is the identity of `*` |
| Spectra.OpsExampleProducts | src/core/spectrum.rs:115-121 | the unit test's quotient and products hold |
| Spectra.OpsExampleSums | src/core/spectrum.rs:122-123 | the unit test's sum and difference hold |
| Spectra.SpectrumVar.AddAssign | src/core/spectrum.rs:38-42 | the variable becomes its old value plus the operand |
| Spectra.SpectrumVar.SubAssign | src/core/spectrum.rs:49-53 | the variable becomes its old value minus the operand |
| Spectra.SpectrumVar.MulAssign | src/core/spectrum.rs:60-64 | the variable becomes the channel-wise product of its old value and the operand |
| Spectra.SpectrumVar.MulAssignScalar | src/core/spectrum.rs:66-70 | the variable becomes its old value scaled by `k` |
| Spectra.SpectrumVar.DivAssign | src/core/spectrum.rs:77-81 | the variable becomes the channel-wise quotient of its old value and the operand |
| Spectra.SpectrumVar.DivAssignScalar | src/core/spectrum.rs:83-87 | the variable becomes its old value divided by `k` |
| Spheres.New | src/primitive/geometries/sphere.rs:10-12 | the sphere keeps its radius and caches the squared radius |
| Spheres.HitAt | src/primitive/geometries/sphere.rs:28-33 | a hit at distance `t` lies at `org + t*dir`, with the position as its normal |
| Spheres.Intersect | src/primitive/geometries/sphere.rs:17-48 | a negative discriminant misses; a hit is beyond `EPSILON`, lies on the ray at its `t`, and has its position as its normal |
| Spheres.Norm2Transport | src/primitive/geometries/sphere.rs:16-21 | for a unit direction, the squared norm of `org + t*dir` is `norm2(org) + 2tb + t^2` |
| Spheres.OnSphereIffRoot | src/primitive/geometries/sphere.rs:16-21 | the point at `t` is on the sphere iff `(t + b)^2` equals the discriminant |
| Spheres.IntersectOnSphere | src/primitive/geometries/sphere.rs:17-48 | every hit returned lies on the sphere |
| Spheres.ChosenRootIsLeast | src/primitive/geometries/sphere.rs:26-46 | the near root is taken when beyond `EPSILON`, else the far root; so any root beyond `EPSILON` bounds the chosen one |
| Spheres.IntersectChoosesRoot | src/primitive/geometries/sphere.rs:22-47 | with a non-negative discriminant, the result is the hit at the chosen root, or none |
| Spheres.IntersectIsNearest | src/primitive/geometries/sphere.rs:17-48 | if any point beyond `EPSILON` on the ray lies on the sphere, a hit is returned no farther than it |
| Spheres.HitExample | src/primitive/geometries/sphere.rs:66-74 | a ray from (10,0,0) along -x hits the unit sphere at (1,0,0) with `t = 9` |
| Spheres.InsideHitExample | src/primitive/geometries/sphere.rs:75-82 | a ray from the centre takes the far root `t = 1` |
| Spheres.MissBehindExample | src/primitive/geometries/sphere.rs:62-63 | a ray pointing away from a sphere behind it misses |
| Spheres.MissDiscriminantExample | src/primitive/geometries/sphere.rs:58-61 | a ray passing beside the sphere misses |
| Core.Transport | src/core/ray.rs:15 | travelling 0 along the ray stays at its origin |
| Core.Forward | src/integrator/smallpt.rs:36-37 | the direction is kept, and travelling `t` along the moved ray reaches the point `d + t` along the original one |
| Scenes.TextureAt | src/primitive/materials/texture/uniform.rs:13 | a uniform texture gives its albedo at every surface coordinate |
| Scenes.Consider | src/scene/mod.rs:18-25 | the kept record after one primitive is the old record or the new hit with that primitive, and no farther than either |
| Scenes.Nearest | src/scene/mod.rs:14-29 | a hit the scan reports is the own hit of one of the scene's primitives |
| Scenes.EnvironMap | src/scene/mod.rs:31-33 | the environment is black in every direction |
| Scenes.NearestNoneIff | src/scene/mod.rs:14-29 | the scan finds nothing iff no primitive is hit |
| Scenes.NearestIsClosest | src/scene/mod.rs:14-29 | when any primitive is hit, the scan finds a hit, and it is no farther than that primitive's |
| Scenes.NearestIsFirst | src/scene/mod.rs:19-24 | the hit found is primitive `k`'s own hit, and every earlier primitive misses or is hit strictly farther, so ties keep the first |
| Scenes.EmptySceneMisses | src/scene/mod.rs:12-16 | a new, empty scene is missed by every ray |
| Scenes.Scene.New | src/scene/mod.rs:12 | a new scene has no primitives |
| Scenes.Scene.Push | src/scene/mod.rs:43-47 | pushing appends exactly one primitive at the end |
| Scenes.Scene.NearestHit | src/scene/mod.rs:14-29 | the loop returns the nearest-hit specification `Nearest` of the scene's primitives |
| Samplers.Sampler.Next | src/sampler/mod.rs:10 | returns the draw under the cursor and advances the cursor by one |
| Samplers.Sampler.Next2D | src/sampler/mod.rs:11 | returns the next two draws as a point and advances the cursor by two |
| Delegates.AlbedoLi | src/integrator/simple.rs:9-14 | black on a miss; on a hit, the albedo of the primitive the scan picked |
| Delegates.NormalLi | src/integrator/simple.rs:22-27 | black on a miss; on a hit, `2c - 1` gives the normal back, and normals in [-1,1] give channels in [0,1] |
| Delegates.PositionLi | src/integrator/simple.rs:36-41 | black on a miss; on a hit, the coordinates of the picked primitive's own hit point |
| Delegates.AlbedoIsNearestAlbedo | src/integrator/simple.rs:9-14 | on a hit, the albedo shown is that of primitive `k`, which is hit, with no earlier primitive hit as near |
| SmallPt.Default | src/integrator/smallpt.rs:46-50 | the default path tracer plays roulette from depth 4 on, and before that only below the threshold |
| SmallPt.Start | src/integrator/smallpt.rs:11-13 | a path starts at the camera ray with depth 0, throughput white (largest channel 1) and radiance black, both non-negative |
| SmallPt.RouletteApplies | src/integrator/smallpt.rs:26-27 | roulette is played at every hit from depth `rr_depth` on, before that when every channel of the throughput is below `1e-3`, and not otherwise |
| SmallPt.Bounce | src/integrator/smallpt.rs:15-39 | a miss ends the path with the radiance unchanged (the sky is black) and no draw; a turn that ends without a draw is a miss |
| SmallPt.Scatter | src/integrator/smallpt.rs:20-38 | the radiance gains the emission weighted by the throughput; a path that ends here has used three draws, one that goes on is one deeper and has used two or three |
| SmallPt.ScatterRoulette | src/integrator/smallpt.rs:23-38 | the throughput is weighted by `weight / pdf`; without roulette the path always goes on with it, using two draws; with roulette it goes on exactly when the third draw is below `P`, and then its throughput times `P` is the weighted one; the next ray leaves the hit point along `wo`, moved forward by `EPSILON` |
| SmallPt.Trace | src/integrator/smallpt.rs:14-41 | a path with budget `n` consumes at most three draws per turn |
| SmallPt.BounceSteps | src/integrator/smallpt.rs:20-38 | a turn that goes on is one deeper. It uses two draws, or three with roulette. From `rr_depth` on, every hit plays roulette. A path that survives roulette has throughput max 1 |
| SmallPt.NormalisedMax | src/integrator/smallpt.rs:26-30 | dividing the throughput by its positive largest channel makes that channel 1 |
| SmallPt.DarkBounce | src/integrator/smallpt.rs:15-24 | in a scene that emits nothing, one turn leaves the radiance unchanged |
| SmallPt.DarkSceneAddsNothing | src/integrator/smallpt.rs:10-43 | in a scene that emits nothing, the whole path ends with the radiance it started with |
| SmallPt.BounceKeepsNonNegative | src/integrator/smallpt.rs:20-38 | with non-negative emissions and BSDF weights, one turn keeps throughput and radiance non-negative |
| SmallPt.RadianceNonNegative | src/integrator/smallpt.rs:10-43 | with non-negative emissions and BSDF weights, a path's radiance is non-negative |
| SmallPt.TraceContinues | src/integrator/smallpt.rs:14-41 | a turn that goes on leaves the rest of the path to the remaining budget |
| SmallPt.TraceStops | src/integrator/smallpt.rs:14-41 | a turn that breaks (on a miss or on roulette) ends the trace with the radiance of that turn |
| SmallPt.TraceSpent | src/integrator/smallpt.rs:14 | with no budget left the path stops with the radiance gathered so far |
| SmallPt.Turn | src/integrator/smallpt.rs:15-39 | the loop body computes exactly the turn `Bounce`, and the sampler's cursor ends where that turn says |
| SmallPt.Advance | src/integrator/smallpt.rs:14-40 | one pass of the loop either ends the trace or hands the rest of it on to the next state |
| SmallPt.Follow | src/integrator/smallpt.rs:14-41 | the loop returns the radiance and draw count of `Trace` from its start state |
| SmallPt.Li | src/integrator/smallpt.rs:10-43 | starting from white throughput, black radiance and depth 0, returns `Trace` of the camera ray |
| Integrators.SampleIntegrator.Default | src/integrator/mod.rs:51-58 | one sample per pixel; the delegate is the type's default: the field-less debug delegates as they are, and SmallPT with roulette from depth 4 |
| Integrators.DelegateLi | src/integrator/mod.rs:45-49 | the debug delegates draw no random numbers; the path tracer never moves the cursor back |
| Integrators.Li | src/integrator/mod.rs:36 | the delegate call returns `DelegateLi`'s radiance and leaves the sampler where it says |
| Integrators.ComputesAdvances | src/integrator/mod.rs:36 | the radiance function of every delegate never moves the sampler's cursor back |
| Integrators.Estimate | src/integrator/mod.rs:35-38 | the estimate times the camera pdf is the delegate's radiance for the camera ray; the camera's two draws come first |
| Integrators.Estimates | src/integrator/mod.rs:34-38 | `n` samples give `n` estimates; with a delegate that draws forward only, they use at least `2n` draws |
| Integrators.Lerp | src/integrator/mod.rs:38 | `lerp` gives `a` at `t = 0` and `b` at `t = 1` |
| Integrators.LerpMeanSpectrum | src/integrator/mod.rs:38 | blending the mean of `n` values with a new one at weight `1/(n+1)` gives the mean of `n+1` values |
| Integrators.Blend | src/integrator/mod.rs:34-39 | with no sample the pixel keeps its value; the first sample, at weight 1, replaces it whatever it held |
| Integrators.BlendIsMean | src/integrator/mod.rs:34-39 | blending `n >= 1` estimates with weights `1/(spp+1)` gives their arithmetic mean, whatever the starting value |
| Integrators.RenderPrefix | src/integrator/mod.rs:29-42 | rendering keeps the film's size; with a delegate that draws forward only, `n` pixels use at least `2*n_spp*n` draws |
| Integrators.RenderPixels | src/integrator/mod.rs:31-41 | after the first `n` pixels in row-major order, each of them is its old value blended with the estimates drawn at its turn, and later pixels are untouched |
| Integrators.RenderedPixelIsMean | src/integrator/mod.rs:31-41 | after a full render, each pixel is the mean of its `n_spp` estimates; with `n_spp = 0` the film is unchanged |
| Integrators.SampleOnce | src/integrator/mod.rs:35-36 | one sample is the delegate's radiance for the camera ray from `next2d`, divided by the pdf |
| Integrators.AccumulateSample | src/integrator/mod.rs:35-38 | after sample `spp`, the cell is the blend of the first `spp+1` estimates and no other cell changed |
| Integrators.RenderPixel | src/integrator/mod.rs:33-39 | the spp loop replaces exactly the pixel's cell with its blend of `n_spp` estimates |
| Integrators.RenderNext | src/integrator/mod.rs:32-39 | rendering the next pixel extends the rendered row-major prefix by one |
| Integrators.RenderRow | src/integrator/mod.rs:32-40 | the x loop extends the rendered prefix by one full row |
| Integrators.Render | src/integrator/mod.rs:29-42 | the three nested loops leave the film and sampler as `RenderPrefix` over all pixels |
| Utils.GammaCorrection | src/utils/mod.rs:11-21 | channel-wise `pow(c, 1/2.2)`; keeps [0,1] spectra in [0,1] when `pow` does, and black stays black when `pow(0, e) = 0` |
| Utils.CastU8 | src/utils/mod.rs:25 | `as u8`: at most 255; truncation inside [0,256); 0 below 0; 255 at or above 256 |
| Utils.CastU32 | src/utils/mod.rs:46 | `as u32`: the same truncating, saturating cast onto [0, 2^32-1] |
| Utils.CastsAgree | src/utils/mod.rs:25-46 | the two casts agree on values at most 255 |
| Utils.Quantise | src/utils/mod.rs:25 | a channel in [0,1] becomes the byte `floor(c*255)`; at most 0 gives 0, at least 1 gives 255 |
| Utils.QuantiseMonotone | src/utils/mod.rs:25 | a brighter channel never gives a smaller byte |
| Utils.ToBytes | src/utils/mod.rs:23-27 | three bytes, each at most 255, the quantised r, g and b |
| Utils.BytesOfBlackWhite | src/utils/mod.rs:23-27 | black gives 0,0,0 and white gives 255,255,255 |
| Utils.ToImageBuffer | src/utils/mod.rs:33-38 | the image has the film's width and height and one three-byte pixel per cell |
| Utils.ImagePixel | src/utils/mod.rs:33-38 | image pixel `(x, y)` is the bytes of the gamma-corrected `film.at(x, y)` |
| Utils.Shl32 | src/utils/mod.rs:46 | a `u32` left shift stays below `2^32`, and is multiplication by `2^k` when no bit is shifted out |
| Utils.Or | src/utils/mod.rs:46 | the bitwise or is at least each operand and at most their sum |
| Utils.OrDisjoint | src/utils/mod.rs:46 | or-ing a value below `2^k` into a multiple of `2^k` is addition |
| Utils.Pack | src/utils/mod.rs:46 | three packed bytes give `r*2^16 + g*2^8 + b`, which is below `2^24`; shift and mask give each byte back |
| Utils.ToHexColor | src/utils/mod.rs:44-47 | the corrected packing: below `2^24`, and it unpacks to exactly the bytes of the `[u8; 3]` conversion |
| Utils.ToHexColorAsWritten | src/utils/mod.rs:44-47 | on channels in [0,1], the written packing equals the corrected one: below `2^24`, unpacking to `ToBytes` |
| Utils.HexOfBlackWhite | src/utils/mod.rs:44-47 | black packs to 0 and white to 0xFFFFFF |
| Utils.HexAsWrittenSpillsOver | src/utils/mod.rs:44-47 | the written packing of green 2.0 is 0x01FE00, which unpacks to red 1 and green 254, not to the byte conversion |
| Utils.HexSaturates | src/utils/mod.rs:44-47 | the corrected packing gives that spectrum 0x00FF00, its `[u8; 3]` bytes |

## Left out

- Floating point. The model computes over `real`, so it has no rounding, NaN or infinity. `Real::epsilon` is the exact constant 2^-23.
- Spectra.Div, Spectra.DivScalar, Spectra.SpectrumVar.DivAssign, Spectra.SpectrumVar.DivAssignScalar: require nonzero divisors. In `f32`, a zero divisor gives an infinity or NaN, which a real has no value for.
- `Films.Film`: `width*height` and `x + y*width` are `u32` in the source and can overflow. The model uses unbounded naturals.
- `at_unchecked` and `at_unchecked_mut` (the release-build path of `render`) are not modelled separately. `Integrators.RenderPixel` writes through the corrected index `Films.Index`. For the pixels `render` visits, the checked, unchecked and corrected indices all agree.
- `Film::to_raw` and `Debug for Film` are not modelled.
- Films.Film.At, Films.Film.AtMut: where the written guard lets through an index past the buffer, the source reads or writes out of bounds without a check. The model returns `None` or reports failure, and changes nothing.
- Core.Forward: the definition of `Ray::forward` is not part of this model. It is modelled from its use in `smallpt.rs` as moving the origin `d` along the direction.
- The square root in `Sphere::intersect` is a parameter. The lemmas assume it is the square root only at the discriminant they use.
- `powf` is a parameter, with no property beyond the hypotheses the gamma lemmas name.
- The intersection routine of each primitive is an oracle. This covers its world/local transforms, `Intersection::emission`, `sample_bsdf` and the textures. Emission is read from the material. The albedo texture is uniform.
- `Camera::generate_ray` is an oracle returning a ray and a nonzero pdf.
- The random samplers (`Independent` draws from the `rand` crate; `Fake` is a constant 0.5) are not modelled. Both are represented by the fixed stream of draws. Draws are assumed to lie in [0, 1).
- `lerp` comes from `cgmath`, which is not part of this model. It is modelled as `a + (b - a) * t`.
- SmallPt.Li: the source loop has no bound. The model takes a bounce budget and, once it is spent, returns the radiance gathered so far. For a path that ends within the budget, it is the source's loop.
- SmallPt.Trace: its contract bounds only the number of draws. Its other properties are the lemmas beside it.
- Progress reporting, the GUI, the kernel thread and its shared context, image file I/O and `main` are out of scope: they are I/O and concurrency.
- Utils.ToImageBuffer: the image crate's flat `Vec<u8>` layout is represented as one three-byte pixel per cell, in row-major order.

## Findings

| source | as written | input that shows it | evidently intended | confidence | as-written member | corrected member |
|---|---|---|---|---|---|---|
| src/core/film.rs:41-45 | `index` checks `x <= width` and `y <= height` | `x = width, y = height - 1` passes the check and gives index `width*height`, one past the buffer; `at` then reads out of bounds without a check. For `y < height - 1`, `at(width, y)` reads pixel `(0, y+1)` | `x < width` and `y < height`, the bounds stated for the film | high, not executed | Films.IndexAsWrittenOnePastEnd | Films.Index |
| src/utils/mod.rs:44-47 | each channel is cast with `as u32` before the shifts, so values above 255 are not clamped | `Spectrum(0, 2, 0)` (an over-exposed pixel) packs to 0x01FE00: red 1, green 254 | saturate each channel to a byte first, as `[u8; 3]` does, giving 0x00FF00 | medium, not executed | Utils.HexAsWrittenSpillsOver | Utils.ToHexColor |
