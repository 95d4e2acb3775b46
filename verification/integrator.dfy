/**
 * The sample integrator: for every pixel of the film, row by row, it draws
 * `nSpp` camera rays, asks its delegate for the radiance along each and
 * blends each estimate `radiance / pdf` into the pixel with weight
 * `1 / (spp + 1)`, which keeps the running mean of the estimates.
 *
 * The camera, the primitives' intersection routine and the BSDF sampler are
 * oracles (`Oracles`); the sampler's stream is the `draws` of a `Sampler`.
 * The functions `Estimate`, `Estimates` and `RenderPrefix` specify what the
 * methods `SampleOnce`, `RenderPixel` and `Render` do.
 */
module Integrators {
  import opened Wrappers
  import opened Core
  import opened Spectra
  import opened Films
  import opened Scenes
  import opened Samplers
  import opened Delegates
  import SmallPt

  /** What the camera hands back for a pixel and a 2D sample: a ray and its pdf. */
  datatype CameraSample = CameraSample(ray: Ray, pdf: real)

  /** `generate_ray(x, y, aperture_sample)`. */
  type Camera = (nat, nat, Point2) -> CameraSample

  /** The estimate is divided by the pdf, so the camera never reports a zero pdf. */
  ghost predicate ValidCamera(camera: Camera)
  {
    forall x, y, u :: camera(x, y, u).pdf != 0.0
  }

  /**
   * The code the renderer calls but that is not modelled: the primitives'
   * intersection, the BSDF sampling, the camera, and the bounce budget that
   * stands in for the path tracer's unbounded loop.
   */
  datatype Oracles = Oracles(intersect: Intersector, sample: SmallPt.BsdfSampler, camera: Camera, budget: nat)

  ghost predicate ValidOracles(o: Oracles, draws: nat -> real)
  {
    SmallPt.ValidBsdf(o.sample) && ValidDraws(draws) && ValidCamera(o.camera)
  }

  /** The delegates a `SampleIntegrator` can be built with. */
  datatype Delegate = Albedo | Normal | Position | PathTracer(pt: SmallPt.SmallPT)

  datatype SampleIntegrator = SampleIntegrator(nSpp: nat, delegate: Delegate)
  {
    /**
     * `Default` for `SampleIntegrator<D>`: one sample per pixel and the
     * delegate `D::default()`. Only the constructor of `kind` matters: it
     * names the delegate type `D`. The diagnostic delegates have no fields,
     * and the default `SmallPT` plays roulette from depth 4 on.
     */
    static function Default(kind: Delegate): (i: SampleIntegrator)
      ensures i.nSpp == 1
      ensures kind.PathTracer? ==> i.delegate == PathTracer(SmallPt.Default()) && i.delegate.pt.rrDepth == 4
      ensures !kind.PathTracer? ==> i.delegate == kind
    {
      SampleIntegrator(1, if kind.PathTracer? then PathTracer(SmallPt.Default()) else kind)
    }
  }

  /**
   * The radiance a delegate returns for `ray` and where it leaves the
   * sampler's cursor. The three diagnostic delegates draw nothing.
   */
  function DelegateLi(d: Delegate, prims: seq<Primitive>, o: Oracles, draws: nat -> real,
                      ray: Ray, cursor: nat): (r: (Spectrum, nat))
    requires SmallPt.ValidBsdf(o.sample) && ValidDraws(draws)
    ensures !d.PathTracer? ==> r.1 == cursor
    ensures cursor <= r.1
  {
    match d
    case Albedo => (AlbedoLi(prims, o.intersect, ray), cursor)
    case Normal => (NormalLi(prims, o.intersect, ray), cursor)
    case Position => (PositionLi(prims, o.intersect, ray), cursor)
    case PathTracer(pt) => SmallPt.Trace(pt, prims, o.intersect, o.sample, draws, o.budget, SmallPt.Start(ray, cursor))
  }

  /** `delegate.Li(ray, scene, sampler)`. */
  method Li(d: Delegate, ray: Ray, scene: Scene, o: Oracles, sampler: Sampler) returns (radiance: Spectrum)
    requires ValidOracles(o, sampler.draws)
    modifies sampler
    ensures (radiance, sampler.cursor) == DelegateLi(d, scene.primitives, o, sampler.draws, ray, old(sampler.cursor))
  {
    match d
    case Albedo => radiance := AlbedoLi(scene.primitives, o.intersect, ray);
    case Normal => radiance := NormalLi(scene.primitives, o.intersect, ray);
    case Position => radiance := PositionLi(scene.primitives, o.intersect, ray);
    case PathTracer(pt) => radiance := SmallPt.Li(pt, ray, scene, o.intersect, o.sample, sampler, o.budget);
  }

  /**
   * A delegate's `Li` seen as a function of the ray and of the sampler's
   * cursor: the radiance, and the cursor after the draws it made.
   */
  type Radiance = (Ray, nat) -> (Spectrum, nat)

  /** `li` is the radiance function of delegate `d` on the scene `prims`. */
  ghost predicate Computes(li: Radiance, d: Delegate, prims: seq<Primitive>, o: Oracles, draws: nat -> real)
    requires SmallPt.ValidBsdf(o.sample) && ValidDraws(draws)
  {
    forall ray, c {:trigger DelegateLi(d, prims, o, draws, ray, c)} :: li(ray, c) == DelegateLi(d, prims, o, draws, ray, c)
  }

  /** A radiance function never moves the sampler's cursor back. */
  ghost predicate Advances(li: Radiance)
  {
    forall ray, c :: li(ray, c).1 >= c
  }

  /** The radiance function of a delegate draws forward only. */
  lemma ComputesAdvances(li: Radiance, d: Delegate, prims: seq<Primitive>, o: Oracles, draws: nat -> real)
    requires SmallPt.ValidBsdf(o.sample) && ValidDraws(draws)
    requires Computes(li, d, prims, o, draws)
    ensures Advances(li)
  {
    forall ray, c
      ensures li(ray, c).1 >= c
    {
      assert li(ray, c) == DelegateLi(d, prims, o, draws, ray, c);
    }
  }

  /** Every delegate has its radiance function, so the `Computes` requirement of `Render` can always be met. */
  ghost function LiOf(d: Delegate, prims: seq<Primitive>, o: Oracles, draws: nat -> real): (li: Radiance)
    requires SmallPt.ValidBsdf(o.sample) && ValidDraws(draws)
    ensures Computes(li, d, prims, o, draws)
  {
    (ray, c) => DelegateLi(d, prims, o, draws, ray, c)
  }

  /**
   * One estimate for pixel `(x, y)` with the sampler at `cursor`: the camera
   * ray for the next two draws, and the radiance along it divided by the
   * ray's pdf. The second component is the cursor afterwards. Scaled back
   * by the pdf the estimate is the delegate's radiance; the camera's two
   * draws come before the delegate's own.
   */
  function Estimate(li: Radiance, camera: Camera, draws: nat -> real, x: nat, y: nat, cursor: nat): (r: (Spectrum, nat))
    requires ValidCamera(camera)
    ensures var cs := camera(x, y, Draw2D(draws, cursor));
            MulScalar(r.0, cs.pdf) == li(cs.ray, cursor + 2).0 && r.1 == li(cs.ray, cursor + 2).1
    ensures Advances(li) ==> r.1 >= cursor + 2
  {
    var cs := camera(x, y, Draw2D(draws, cursor));
    var l := li(cs.ray, cursor + 2);
    DivScalarMulCancel(l.0, cs.pdf);
    (DivScalar(l.0, cs.pdf), l.1)
  }

  /**
   * The first `n` estimates for pixel `(x, y)`, drawn one after the other
   * from `cursor`; with a delegate that draws forward only they use at
   * least two draws each.
   */
  function Estimates(li: Radiance, camera: Camera, draws: nat -> real, x: nat, y: nat, cursor: nat, n: nat)
    : (r: (seq<Spectrum>, nat))
    requires ValidCamera(camera)
    ensures |r.0| == n
    ensures Advances(li) ==> r.1 >= cursor + 2 * n
  {
    if n == 0 then ([], cursor)
    else
      var prev := Estimates(li, camera, draws, x, y, cursor, n - 1);
      var e := Estimate(li, camera, draws, x, y, prev.1);
      (prev.0 + [e.0], e.1)
  }

  /** cgmath's `lerp(a, b, t) = a + (b - a) * t`, channel by channel. */
  function Lerp(a: Spectrum, b: Spectrum, t: real): (s: Spectrum)
    ensures t == 0.0 ==> s == a
    ensures t == 1.0 ==> s == b
  {
    Add(a, MulScalar(Sub(b, a), t))
  }

  /**
   * The pixel after the estimates `vs` were blended into `acc`, the `k`-th
   * with weight `1 / k`: with no estimate the pixel keeps its value, and
   * the first estimate (weight 1) replaces it whatever it held.
   */
  function Blend(acc: Spectrum, vs: seq<Spectrum>): (r: Spectrum)
    ensures |vs| == 0 ==> r == acc
    ensures |vs| == 1 ==> r == vs[0]
  {
    if |vs| == 0 then acc
    else
      assert |vs| == 1 ==> 1.0 / (|vs| as real) == 1.0;
      Lerp(Blend(acc, vs[..|vs| - 1]), vs[|vs| - 1], 1.0 / (|vs| as real))
  }

  /**
   * Blending keeps the running mean: after one or more estimates the pixel
   * is their arithmetic mean, whatever it held before.
   */
  lemma {:induction false} BlendIsMean(acc: Spectrum, vs: seq<Spectrum>)
    requires |vs| > 0
    ensures Blend(acc, vs) == Mean(vs)
  {
    var n := |vs|;
    var pre := vs[..n - 1];
    if n > 1 {
      BlendIsMean(acc, pre);
    }
    LerpMean(Blend(acc, pre), pre, vs[n - 1]);
    assert pre + [vs[n - 1]] == vs;
    assert (|pre| + 1) as real == n as real;
  }

  /** The channel-wise sum of `vs`. */
  function Total(vs: seq<Spectrum>): Spectrum
  {
    if |vs| == 0 then Black()
    else Add(Total(vs[..|vs| - 1]), vs[|vs| - 1])
  }

  /** The arithmetic mean of a non-empty sequence of spectra. */
  function Mean(vs: seq<Spectrum>): Spectrum
    requires |vs| > 0
  {
    DivScalar(Total(vs), |vs| as real)
  }

  /** One blending step turns the mean of `n` values into the mean of `n + 1`. */
  lemma LerpMeanStep(s: real, v: real, n: real)
    requires n >= 1.0
    ensures s / n + (v - s / n) * (1.0 / (n + 1.0)) == (s + v) / (n + 1.0)
  {
    var m := s / n;
    var k := 1.0 / (n + 1.0);
    assert m * n == s;
    assert k * (n + 1.0) == 1.0;
    calc {
      (m + (v - m) * k) * (n + 1.0);
      m * (n + 1.0) + (v - m) * (k * (n + 1.0));
      m * n + v;
      s + v;
    }
  }

  /** The same step for spectra: blending `v` into the mean of `n` values with weight `1 / (n + 1)`. */
  lemma LerpMeanSpectrum(t: Spectrum, v: Spectrum, n: nat)
    requires n >= 1
    ensures Lerp(DivScalar(t, n as real), v, 1.0 / ((n + 1) as real)) == DivScalar(Add(t, v), (n + 1) as real)
  {
    var nr := n as real;
    assert (n + 1) as real == nr + 1.0;
    LerpMeanStep(t.r, v.r, nr);
    LerpMeanStep(t.g, v.g, nr);
    LerpMeanStep(t.b, v.b, nr);
  }

  /**
   * Blending `v` with weight `1 / (|pre| + 1)` into the mean of `pre` (into
   * anything, when `pre` is empty) gives the mean of `pre + [v]`.
   */
  lemma LerpMean(m: Spectrum, pre: seq<Spectrum>, v: Spectrum)
    requires |pre| > 0 ==> m == Mean(pre)
    ensures Lerp(m, v, 1.0 / ((|pre| + 1) as real)) == Mean(pre + [v])
  {
    var vs := pre + [v];
    assert vs[..|vs| - 1] == pre;
    assert Total(vs) == Add(Total(pre), v);
    if |pre| == 0 {
      assert Lerp(m, v, 1.0) == v;
      assert Total(vs) == Add(Black(), v);
    } else {
      LerpMeanSpectrum(Total(pre), v, |pre|);
    }
  }

  /** The column of the pixel at row-major position `i`. */
  function Column(width: nat, i: nat): (x: nat)
    requires width > 0
    ensures x < width
  {
    i % width
  }

  /** The row of the pixel at row-major position `i`. */
  function Row(width: nat, i: nat): nat
    requires width > 0
  {
    i / width
  }

  /** A film with a cell has a positive width. */
  lemma WidthPositive(width: nat, height: nat, i: nat)
    requires i < width * height
    ensures width > 0
  {
    if width == 0 {
      assert false;
    }
  }

  /**
   * The film after the first `n` pixels in row-major order (pixel `i` is
   * `(Column(width, i), Row(width, i))`) were rendered with `nSpp` samples
   * each, starting from the cells `before` and the sampler at `cursor`; the
   * second component is the sampler's cursor afterwards.
   */
  function RenderPrefix(nSpp: nat, li: Radiance, camera: Camera, draws: nat -> real,
                        width: nat, height: nat, before: seq<Spectrum>, n: nat, cursor: nat): (r: (seq<Spectrum>, nat))
    requires ValidCamera(camera)
    requires |before| == width * height && n <= |before|
    ensures |r.0| == |before|
    ensures Advances(li) ==> r.1 >= cursor + 2 * nSpp * n
  {
    if n == 0 then (before, cursor)
    else
      var prev := RenderPrefix(nSpp, li, camera, draws, width, height, before, n - 1, cursor);
      var i := n - 1;
      WidthPositive(width, height, i);
      var e := Estimates(li, camera, draws, Column(width, i), Row(width, i), prev.1, nSpp);
      (prev.0[i := Blend(prev.0[i], e.0)], e.1)
  }

  /**
   * Every pixel is visited exactly once, in row-major order: after `n`
   * pixels, pixel `i < n` holds its old value blended with the `nSpp`
   * estimates drawn when its turn came, and every later pixel is untouched.
   */
  lemma {:induction false} RenderPixels(nSpp: nat, li: Radiance, camera: Camera, draws: nat -> real,
                                        width: nat, height: nat, before: seq<Spectrum>, n: nat, cursor: nat, i: nat)
    requires ValidCamera(camera)
    requires |before| == width * height && n <= |before| && i < |before| && width > 0
    ensures var after := RenderPrefix(nSpp, li, camera, draws, width, height, before, n, cursor).0;
            if i < n then
              var turn := RenderPrefix(nSpp, li, camera, draws, width, height, before, i, cursor).1;
              after[i] == Blend(before[i], Estimates(li, camera, draws, Column(width, i), Row(width, i), turn, nSpp).0)
            else after[i] == before[i]
  {
    if n > 0 {
      var k := n - 1;
      var prev := RenderPrefix(nSpp, li, camera, draws, width, height, before, k, cursor);
      var after := RenderPrefix(nSpp, li, camera, draws, width, height, before, n, cursor).0;
      var e := Estimates(li, camera, draws, Column(width, k), Row(width, k), prev.1, nSpp).0;
      assert after == prev.0[k := Blend(prev.0[k], e)];
      RenderPixels(nSpp, li, camera, draws, width, height, before, k, cursor, i);
    }
  }

  /**
   * After the whole film is rendered, with `nSpp >= 1` each pixel is the
   * arithmetic mean of its `nSpp` estimates; with `nSpp == 0` the film is
   * left as it was.
   */
  lemma RenderedPixelIsMean(nSpp: nat, li: Radiance, camera: Camera, draws: nat -> real,
                            width: nat, height: nat, before: seq<Spectrum>, cursor: nat, i: nat)
    requires ValidCamera(camera)
    requires |before| == width * height && i < |before| && width > 0
    ensures var after := RenderPrefix(nSpp, li, camera, draws, width, height, before, |before|, cursor).0;
            var turn := RenderPrefix(nSpp, li, camera, draws, width, height, before, i, cursor).1;
            var e := Estimates(li, camera, draws, Column(width, i), Row(width, i), turn, nSpp).0;
            && (nSpp >= 1 ==> after[i] == Mean(e))
            && (nSpp == 0 ==> after[i] == before[i])
  {
    RenderPixels(nSpp, li, camera, draws, width, height, before, |before|, cursor, i);
    var turn := RenderPrefix(nSpp, li, camera, draws, width, height, before, i, cursor).1;
    var e := Estimates(li, camera, draws, Column(width, i), Row(width, i), turn, nSpp).0;
    if nSpp >= 1 {
      BlendIsMean(before[i], e);
    }
  }

  /** One sample for pixel `(x, y)`: a camera ray from `next2d`, the delegate's radiance, divided by the pdf. */
  method SampleOnce(integ: SampleIntegrator, scene: Scene, o: Oracles, sampler: Sampler, x: nat, y: nat,
                    ghost li: Radiance)
    returns (est: Spectrum)
    requires ValidOracles(o, sampler.draws) && Computes(li, integ.delegate, scene.primitives, o, sampler.draws)
    modifies sampler
    ensures (est, sampler.cursor) == Estimate(li, o.camera, sampler.draws, x, y, old(sampler.cursor))
  {
    var u := sampler.Next2D();
    var cs := o.camera(x, y, u);
    var radiance := Li(integ.delegate, cs.ray, scene, o, sampler);
    est := DivScalar(radiance, cs.pdf);
  }

  /**
   * The pixel's cell holds its old value `acc0` blended with the first `spp`
   * estimates drawn from `c0`, and the sampler has moved past them.
   */
  ghost predicate Accumulated(li: Radiance, camera: Camera, draws: nat -> real, x: nat, y: nat, c0: nat, spp: nat,
                              before: seq<Spectrum>, i: nat, cells: seq<Spectrum>, cursor: nat)
    requires ValidCamera(camera) && i < |before|
  {
    var e := Estimates(li, camera, draws, x, y, c0, spp);
    cells == before[i := Blend(before[i], e.0)] && cursor == e.1
  }

  /** One pass of the sample loop: `*acc = lerp(*acc, radiance / pdf, 1 / (spp + 1))`. */
  method AccumulateSample(integ: SampleIntegrator, film: Film, scene: Scene, o: Oracles, sampler: Sampler,
                          x: nat, y: nat, i: nat, spp: nat,
                          ghost li: Radiance, ghost before: seq<Spectrum>, ghost c0: nat)
    requires ValidOracles(o, sampler.draws) && Computes(li, integ.delegate, scene.primitives, o, sampler.draws)
    requires i < film.data.Length == |before|
    requires Accumulated(li, o.camera, sampler.draws, x, y, c0, spp, before, i, film.Cells(), sampler.cursor)
    modifies film.data, sampler
    ensures Accumulated(li, o.camera, sampler.draws, x, y, c0, spp + 1, before, i, film.Cells(), sampler.cursor)
  {
    ghost var e := Estimates(li, o.camera, sampler.draws, x, y, c0, spp);
    var est := SampleOnce(integ, scene, o, sampler, x, y, li);
    film.data[i] := Lerp(film.data[i], est, 1.0 / ((spp + 1) as real));
    assert e.0 + [est] == Estimates(li, o.camera, sampler.draws, x, y, c0, spp + 1).0;
    assert (e.0 + [est])[..spp] == e.0;
  }

  /** The sample loop of one pixel: the pixel's cell is overwritten once per sample. */
  method RenderPixel(integ: SampleIntegrator, film: Film, scene: Scene, o: Oracles, sampler: Sampler, x: nat, y: nat,
                     ghost li: Radiance)
    requires film.Valid() && x < film.width && y < film.height
    requires ValidOracles(o, sampler.draws) && Computes(li, integ.delegate, scene.primitives, o, sampler.draws)
    modifies film.data, sampler
    ensures var i := IndexUnchecked(film.width, x, y);
            var e := Estimates(li, o.camera, sampler.draws, x, y, old(sampler.cursor), integ.nSpp);
            && i < |old(film.Cells())|
            && film.Cells() == old(film.Cells())[i := Blend(old(film.Cells())[i], e.0)]
            && sampler.cursor == e.1
  {
    var i := Index(film.width, film.height, x, y).value;
    ghost var before := film.Cells();
    ghost var c0 := sampler.cursor;
    for spp := 0 to integ.nSpp
      invariant Accumulated(li, o.camera, sampler.draws, x, y, c0, spp, before, i, film.Cells(), sampler.cursor)
    {
      AccumulateSample(integ, film, scene, o, sampler, x, y, i, spp, li, before, c0);
    }
  }

  /** The film's cells and the sampler's cursor are those after the first `n` pixels were rendered. */
  ghost predicate RenderedUpTo(nSpp: nat, li: Radiance, camera: Camera, draws: nat -> real,
                               width: nat, height: nat, before: seq<Spectrum>, n: nat, c0: nat,
                               cells: seq<Spectrum>, cursor: nat)
    requires ValidCamera(camera)
  {
    && |before| == width * height && n <= |before|
    && (cells, cursor) == RenderPrefix(nSpp, li, camera, draws, width, height, before, n, c0)
  }

  /**
   * Rendering pixel `(x, y)` after the pixels before it in row-major order:
   * its cell is blended with the estimates drawn from where the sampler
   * stood, and the sampler moves past them.
   */
  lemma RenderPrefixStep(nSpp: nat, li: Radiance, camera: Camera, draws: nat -> real,
                         width: nat, height: nat, before: seq<Spectrum>, x: nat, y: nat, c0: nat,
                         cells: seq<Spectrum>, cursor: nat, cells': seq<Spectrum>, cursor': nat)
    requires ValidCamera(camera) && x < width && y < height
    requires RenderedUpTo(nSpp, li, camera, draws, width, height, before, IndexUnchecked(width, x, y), c0, cells, cursor)
    requires var i := IndexUnchecked(width, x, y);
             var e := Estimates(li, camera, draws, x, y, cursor, nSpp);
             && i < |cells|
             && cells' == cells[i := Blend(cells[i], e.0)]
             && cursor' == e.1
    ensures RenderedUpTo(nSpp, li, camera, draws, width, height, before, IndexUnchecked(width, x + 1, y), c0, cells', cursor')
  {
    var k := IndexUnchecked(width, x, y);
    IndexInBounds(width, height, x, y);
    RowMajorSplit(width, x, y);
    assert Column(width, k) == x && Row(width, k) == y;
    var e := Estimates(li, camera, draws, x, y, cursor, nSpp);
    assert RenderPrefix(nSpp, li, camera, draws, width, height, before, k + 1, c0) == (cells[k := Blend(cells[k], e.0)], e.1);
    assert IndexUnchecked(width, x + 1, y) == k + 1;
  }

  /**
   * The loop body of `render` for pixel `(x, y)`: its samples, after the
   * pixels before it in row-major order.
   */
  method RenderNext(integ: SampleIntegrator, film: Film, scene: Scene, o: Oracles, sampler: Sampler, x: nat, y: nat,
                    ghost li: Radiance, ghost before: seq<Spectrum>, ghost c0: nat)
    requires film.Valid() && x < film.width && y < film.height
    requires ValidOracles(o, sampler.draws) && Computes(li, integ.delegate, scene.primitives, o, sampler.draws)
    requires RenderedUpTo(integ.nSpp, li, o.camera, sampler.draws, film.width, film.height,
                          before, IndexUnchecked(film.width, x, y), c0, film.Cells(), sampler.cursor)
    modifies film.data, sampler
    ensures RenderedUpTo(integ.nSpp, li, o.camera, sampler.draws, film.width, film.height,
                         before, IndexUnchecked(film.width, x + 1, y), c0, film.Cells(), sampler.cursor)
  {
    ghost var cells, cursor := film.Cells(), sampler.cursor;
    RenderPixel(integ, film, scene, o, sampler, x, y, li);
    RenderPrefixStep(integ.nSpp, li, o.camera, sampler.draws, film.width, film.height, before, x, y, c0,
                     cells, cursor, film.Cells(), sampler.cursor);
  }

  /** The position one past the end of row `y` is the start of row `y + 1`. */
  lemma RowEnd(width: nat, y: nat)
    ensures IndexUnchecked(width, width, y) == IndexUnchecked(width, 0, y + 1) == (y + 1) * width
  {
  }

  /** One row of `render`: the pixels `(0, y)` to `(width - 1, y)`, left to right. */
  method RenderRow(integ: SampleIntegrator, film: Film, scene: Scene, o: Oracles, sampler: Sampler, y: nat,
                   ghost li: Radiance, ghost before: seq<Spectrum>, ghost c0: nat)
    requires film.Valid() && y < film.height
    requires ValidOracles(o, sampler.draws) && Computes(li, integ.delegate, scene.primitives, o, sampler.draws)
    requires RenderedUpTo(integ.nSpp, li, o.camera, sampler.draws, film.width, film.height,
                          before, IndexUnchecked(film.width, 0, y), c0, film.Cells(), sampler.cursor)
    modifies film.data, sampler
    ensures RenderedUpTo(integ.nSpp, li, o.camera, sampler.draws, film.width, film.height,
                         before, IndexUnchecked(film.width, 0, y + 1), c0, film.Cells(), sampler.cursor)
  {
    for x := 0 to film.width
      invariant RenderedUpTo(integ.nSpp, li, o.camera, sampler.draws, film.width, film.height,
                             before, IndexUnchecked(film.width, x, y), c0, film.Cells(), sampler.cursor)
    {
      RenderNext(integ, film, scene, o, sampler, x, y, li, before, c0);
    }
    RowEnd(film.width, y);
  }

  /**
   * `render`: every pixel, `y` outer and `x` inner, gets its `nSpp` samples;
   * `li` is the delegate's radiance function (for instance `LiOf`).
   */
  method Render(integ: SampleIntegrator, film: Film, scene: Scene, o: Oracles, sampler: Sampler, ghost li: Radiance)
    requires film.Valid()
    requires ValidOracles(o, sampler.draws) && Computes(li, integ.delegate, scene.primitives, o, sampler.draws)
    modifies film.data, sampler
    ensures (film.Cells(), sampler.cursor)
         == RenderPrefix(integ.nSpp, li, o.camera, sampler.draws, film.width, film.height,
                         old(film.Cells()), film.width * film.height, old(sampler.cursor))
  {
    ghost var before := film.Cells();
    ghost var c0 := sampler.cursor;
    for y := 0 to film.height
      invariant RenderedUpTo(integ.nSpp, li, o.camera, sampler.draws, film.width, film.height,
                             before, IndexUnchecked(film.width, 0, y), c0, film.Cells(), sampler.cursor)
    {
      RenderRow(integ, film, scene, o, sampler, y, li, before, c0);
    }
    assert IndexUnchecked(film.width, 0, film.height) == film.width * film.height;
  }
}
