/**
 * SmallPT: a path tracer with Russian roulette. From the camera ray it
 * repeatedly finds the nearest hit, adds the emission seen so far weighted
 * by the path throughput, samples the surface's BSDF for the next
 * direction, and, once the throughput is small or the path long enough,
 * plays Russian roulette against the throughput's largest channel.
 *
 * The path is specified one bounce at a time by `Bounce` and as a whole by
 * `Trace`; the method `Li` is the loop itself and is proved equal to
 * `Trace`. The source loop has no bound, so `Trace` and `Li` take a bounce
 * budget and return the radiance gathered so far when it runs out.
 */
module SmallPt {
  import opened Wrappers
  import opened Core
  import opened Spectra
  import opened Scenes
  import opened Samplers

  /** Below this largest-channel throughput Russian roulette is played whatever the depth. */
  const RR_THRESHOLD: real := 0.001

  /** The outcome of sampling a BSDF: the outgoing direction, the BSDF weight and the sample's pdf. */
  datatype SampleRecord = SampleRecord(wo: Vec3, weight: Spectrum, pdf: real)

  /** `BSDF::sample` for every scattering model (the material's `bsdf` handle), hit record and 2D sample. */
  type BsdfSampler = (nat, GeometryIntersection, Point2) -> SampleRecord

  /** Every BSDF sample has a positive pdf, so dividing the weight by it is defined. */
  ghost predicate ValidBsdf(sample: BsdfSampler)
  {
    forall bsdf, geo, u :: sample(bsdf, geo, u).pdf > 0.0
  }

  /** Depth from which Russian roulette is always played. */
  datatype SmallPT = SmallPT(rrDepth: nat)

  /** `SmallPT::default`: roulette from depth 4 on, and before that only for a dim path. */
  function Default(): (pt: SmallPT)
    ensures pt.rrDepth == 4
    ensures forall t: Spectrum, d: nat :: RouletteApplies(pt, t, d) <==> Max(t) < RR_THRESHOLD || d >= 4
  {
    SmallPT(4)
  }

  /** The loop's variables: the current ray, throughput, radiance so far, depth, and how many draws were used. */
  datatype PathState = PathState(ray: Ray, throughput: Spectrum, radiance: Spectrum, depth: nat, cursor: nat)

  /**
   * The state on entry: white throughput, black radiance, depth 0. It has
   * full throughput (largest channel 1) and meets the non-negativity that
   * `RadianceNonNegative` asks of a path's start.
   */
  function Start(ray: Ray, cursor: nat): (s: PathState)
    ensures s.ray == ray && s.cursor == cursor && s.depth == 0
    ensures Max(s.throughput) == 1.0 && NonNegative(s.throughput)
    ensures IsBlack(s.radiance) && NonNegative(s.radiance)
  {
    PathState(ray, White(), Black(), 0, cursor)
  }

  /** One turn of the loop either goes on with a new state or breaks with the final radiance and draw count. */
  datatype Step = Continue(next: PathState) | Done(radiance: Spectrum, cursor: nat)

  /**
   * When Russian roulette is played: at every hit from depth `rrDepth` on,
   * and before that only for a path whose throughput has fallen below the
   * threshold in every channel.
   */
  predicate RouletteApplies(pt: SmallPT, throughput: Spectrum, depth: nat)
    ensures depth >= pt.rrDepth ==> RouletteApplies(pt, throughput, depth)
    ensures throughput.r < RR_THRESHOLD && throughput.g < RR_THRESHOLD && throughput.b < RR_THRESHOLD
            ==> RouletteApplies(pt, throughput, depth)
    ensures depth < pt.rrDepth && (throughput.r >= RR_THRESHOLD || throughput.g >= RR_THRESHOLD || throughput.b >= RR_THRESHOLD)
            ==> !RouletteApplies(pt, throughput, depth)
  {
    Max(throughput) < RR_THRESHOLD || depth >= pt.rrDepth
  }

  /**
   * One turn of the loop: a miss ends the path with the environment's
   * contribution, a hit scatters. The environment being black, a miss ends
   * the path with the radiance unchanged and no draw; and a turn that ends
   * the path without a draw is a miss.
   */
  function Bounce(pt: SmallPT, prims: seq<Primitive>, intersect: Intersector, sample: BsdfSampler,
                  draws: nat -> real, s: PathState): (r: Step)
    requires ValidBsdf(sample) && ValidDraws(draws)
    ensures Nearest(prims, intersect, s.ray).None? ==> r == Done(s.radiance, s.cursor)
    ensures r.Done? && r.cursor == s.cursor ==> Nearest(prims, intersect, s.ray).None?
  {
    match Nearest(prims, intersect, s.ray)
    case None => Done(Add(s.radiance, Mul(s.throughput, EnvironMap(s.ray))), s.cursor)
    case Some(its) => Scatter(pt, sample, draws, s, its)
  }

  /**
   * The turn of the loop at a hit: add the emission, sample the BSDF with the
   * next two draws, weight the throughput, then play Russian roulette with a
   * third draw when it applies. Whatever happens next, the radiance gains
   * the hit's emission weighted by the throughput; a path that ends here
   * has played roulette and so used three draws, and one that goes on is
   * one bounce deeper and has used two or three.
   */
  function Scatter(pt: SmallPT, sample: BsdfSampler, draws: nat -> real, s: PathState, its: Intersection): (r: Step)
    requires ValidBsdf(sample) && ValidDraws(draws)
    ensures var radiance := Add(s.radiance, Mul(s.throughput, its.prim.material.emission));
            && (r.Done? ==> r.radiance == radiance && r.cursor == s.cursor + 3)
            && (r.Continue? ==> r.next.radiance == radiance && r.next.depth == s.depth + 1)
            && (r.Continue? ==> r.next.cursor == s.cursor + 2 || r.next.cursor == s.cursor + 3)
  {
    var radiance := Add(s.radiance, Mul(s.throughput, its.prim.material.emission));
    var rec := sample(its.prim.material.bsdf, its.geo, Draw2D(draws, s.cursor));
    var throughput := Mul(s.throughput, DivScalar(rec.weight, rec.pdf));
    var p := Max(throughput);
    var next := Forward(Ray(its.geo.pos, rec.wo), EPSILON);
    if RouletteApplies(pt, throughput, s.depth) then
      if draws(s.cursor + 2) < p then
        Continue(PathState(next, DivScalar(throughput, p), radiance, s.depth + 1, s.cursor + 3))
      else
        Done(radiance, s.cursor + 3)
    else
      Continue(PathState(next, throughput, radiance, s.depth + 1, s.cursor + 2))
  }

  /**
   * How a hit moves the path on. The throughput is weighted by the BSDF
   * sample's `weight / pdf`. Without roulette the path always goes on,
   * with that throughput and two draws used. With roulette it goes on
   * exactly when the third draw falls below the throughput's largest
   * channel `P`, and a survivor's throughput is divided by `P`, so that
   * scaling it back by `P` gives the weighted throughput. The next ray
   * leaves the hit point along the sampled direction, nudged forward by
   * `EPSILON`.
   */
  lemma ScatterRoulette(pt: SmallPT, sample: BsdfSampler, draws: nat -> real, s: PathState, its: Intersection)
    requires ValidBsdf(sample) && ValidDraws(draws)
    ensures var rec := sample(its.prim.material.bsdf, its.geo, Draw2D(draws, s.cursor));
            var tp := Mul(s.throughput, DivScalar(rec.weight, rec.pdf));
            var step := Scatter(pt, sample, draws, s, its);
            && (!RouletteApplies(pt, tp, s.depth) ==>
                  step.Continue? && step.next.throughput == tp && step.next.cursor == s.cursor + 2)
            && (RouletteApplies(pt, tp, s.depth) ==> (step.Continue? <==> draws(s.cursor + 2) < Max(tp)))
            && (RouletteApplies(pt, tp, s.depth) && step.Continue? ==>
                  MulScalar(step.next.throughput, Max(tp)) == tp)
            && (step.Continue? ==> step.next.ray == Forward(Ray(its.geo.pos, rec.wo), EPSILON))
  {
    var rec := sample(its.prim.material.bsdf, its.geo, Draw2D(draws, s.cursor));
    var tp := Mul(s.throughput, DivScalar(rec.weight, rec.pdf));
    if RouletteApplies(pt, tp, s.depth) && draws(s.cursor + 2) < Max(tp) {
      DivScalarMulCancel(tp, Max(tp));
    }
  }

  /**
   * The whole path from `s` with at most `budget` turns of the loop: the
   * radiance and the draw count it ends with. Each turn uses two draws for
   * the BSDF sample and one more when roulette is played.
   */
  function Trace(pt: SmallPT, prims: seq<Primitive>, intersect: Intersector, sample: BsdfSampler,
                 draws: nat -> real, budget: nat, s: PathState): (r: (Spectrum, nat))
    requires ValidBsdf(sample) && ValidDraws(draws)
    ensures s.cursor <= r.1 <= s.cursor + 3 * budget
    decreases budget
  {
    if budget == 0 then (s.radiance, s.cursor)
    else
      match Bounce(pt, prims, intersect, sample, draws, s)
      case Done(radiance, cursor) => (radiance, cursor)
      case Continue(next) => Trace(pt, prims, intersect, sample, draws, budget - 1, next)
  }

  /** Every primitive of the scene emits nothing. */
  ghost predicate Dark(prims: seq<Primitive>)
  {
    forall prim :: prim in prims ==> IsBlack(prim.material.emission)
  }

  /**
   * A turn that goes on is one bounce deeper and has used two draws, or
   * three when it played roulette; from depth `rrDepth` on roulette is
   * played at every hit, and a path that survives it has a throughput
   * whose largest channel is exactly 1.
   */
  lemma BounceSteps(pt: SmallPT, prims: seq<Primitive>, intersect: Intersector, sample: BsdfSampler,
                    draws: nat -> real, s: PathState)
    requires ValidBsdf(sample) && ValidDraws(draws)
    ensures var step := Bounce(pt, prims, intersect, sample, draws, s);
            && (step.Continue? ==> step.next.depth == s.depth + 1)
            && (step.Continue? ==> step.next.cursor == s.cursor + 2 || step.next.cursor == s.cursor + 3)
            && (step.Done? ==> step.cursor == s.cursor || step.cursor == s.cursor + 3)
            && (s.depth >= pt.rrDepth && Nearest(prims, intersect, s.ray).Some? ==>
                  (if step.Done? then step.cursor else step.next.cursor) == s.cursor + 3)
            && (step.Continue? && step.next.cursor == s.cursor + 3 ==> Max(step.next.throughput) == 1.0)
  {
    match Nearest(prims, intersect, s.ray)
    case None =>
    case Some(its) =>
      var rec := sample(its.prim.material.bsdf, its.geo, Draw2D(draws, s.cursor));
      var throughput := Mul(s.throughput, DivScalar(rec.weight, rec.pdf));
      if RouletteApplies(pt, throughput, s.depth) && draws(s.cursor + 2) < Max(throughput) {
        NormalisedMax(throughput);
      }
  }

  /** Dividing a spectrum by its positive largest channel makes that channel 1. */
  lemma NormalisedMax(t: Spectrum)
    requires Max(t) > 0.0
    ensures Max(DivScalar(t, Max(t))) == 1.0
  {
    var m := Max(t);
    var q := DivScalar(t, m);
    DivBelowOne(t.r, m);
    DivBelowOne(t.g, m);
    DivBelowOne(t.b, m);
    assert q.r == 1.0 || q.g == 1.0 || q.b == 1.0;
  }

  /** `x / m` is at most 1 when `x <= m` and `m > 0`, and exactly 1 when `x == m`. */
  lemma DivBelowOne(x: real, m: real)
    requires m > 0.0 && x <= m
    ensures x / m <= 1.0
    ensures x == m ==> x / m == 1.0
  {
  }

  /** In a scene that emits nothing, a turn leaves the radiance as it was. */
  lemma DarkBounce(pt: SmallPT, prims: seq<Primitive>, intersect: Intersector, sample: BsdfSampler,
                   draws: nat -> real, s: PathState)
    requires ValidBsdf(sample) && ValidDraws(draws)
    requires Dark(prims)
    ensures var step := Bounce(pt, prims, intersect, sample, draws, s);
            && (step.Done? ==> step.radiance == s.radiance)
            && (step.Continue? ==> step.next.radiance == s.radiance)
  {
    match Nearest(prims, intersect, s.ray)
    case None =>
      AddDarkTerm(s.radiance, s.throughput, EnvironMap(s.ray));
    case Some(its) =>
      AddDarkTerm(s.radiance, s.throughput, its.prim.material.emission);
  }

  /** Adding a black spectrum, whatever it is weighted by, changes nothing. */
  lemma AddDarkTerm(radiance: Spectrum, throughput: Spectrum, e: Spectrum)
    requires IsBlack(e)
    ensures Add(radiance, Mul(throughput, e)) == radiance
  {
  }

  /**
   * A scene that emits nothing under a black sky adds nothing to a path:
   * it ends with the radiance it started with (black, for a camera ray).
   */
  lemma {:induction false} DarkSceneAddsNothing(pt: SmallPT, prims: seq<Primitive>, intersect: Intersector,
                                                sample: BsdfSampler, draws: nat -> real, budget: nat, s: PathState)
    requires ValidBsdf(sample) && ValidDraws(draws)
    requires Dark(prims)
    ensures Trace(pt, prims, intersect, sample, draws, budget, s).0 == s.radiance
    decreases budget
  {
    if budget > 0 {
      DarkBounce(pt, prims, intersect, sample, draws, s);
      match Bounce(pt, prims, intersect, sample, draws, s)
      case Done(_, _) =>
      case Continue(next) =>
        DarkSceneAddsNothing(pt, prims, intersect, sample, draws, budget - 1, next);
    }
  }

  /** Every primitive emits a non-negative spectrum. */
  ghost predicate EmitsNonNegative(prims: seq<Primitive>)
  {
    forall prim :: prim in prims ==> NonNegative(prim.material.emission)
  }

  /** Every BSDF sample has a non-negative weight. */
  ghost predicate WeightsNonNegative(sample: BsdfSampler)
  {
    forall bsdf, geo, u :: NonNegative(sample(bsdf, geo, u).weight)
  }

  /** One turn keeps throughput and radiance non-negative. */
  lemma BounceKeepsNonNegative(pt: SmallPT, prims: seq<Primitive>, intersect: Intersector, sample: BsdfSampler,
                               draws: nat -> real, s: PathState)
    requires ValidBsdf(sample) && ValidDraws(draws)
    requires EmitsNonNegative(prims) && WeightsNonNegative(sample)
    requires NonNegative(s.throughput) && NonNegative(s.radiance)
    ensures var step := Bounce(pt, prims, intersect, sample, draws, s);
            && (step.Done? ==> NonNegative(step.radiance))
            && (step.Continue? ==> NonNegative(step.next.throughput) && NonNegative(step.next.radiance))
  {
    match Nearest(prims, intersect, s.ray)
    case None =>
    case Some(its) =>
      var e := its.prim.material.emission;
      assert NonNegative(e);
      var rec := sample(its.prim.material.bsdf, its.geo, Draw2D(draws, s.cursor));
      assert NonNegative(rec.weight);
      DivScalarNonNegative(rec.weight, rec.pdf);
      var w := DivScalar(rec.weight, rec.pdf);
      var throughput := Mul(s.throughput, w);
      if RouletteApplies(pt, throughput, s.depth) && draws(s.cursor + 2) < Max(throughput) {
        DivScalarNonNegative(throughput, Max(throughput));
      }
  }

  lemma DivScalarNonNegative(a: Spectrum, k: real)
    requires NonNegative(a) && k > 0.0
    ensures NonNegative(DivScalar(a, k))
  {
  }

  /**
   * With non-negative emissions and BSDF weights, a path that starts with
   * non-negative throughput and radiance ends with non-negative radiance.
   */
  lemma {:induction false} RadianceNonNegative(pt: SmallPT, prims: seq<Primitive>, intersect: Intersector,
                                               sample: BsdfSampler, draws: nat -> real, budget: nat, s: PathState)
    requires ValidBsdf(sample) && ValidDraws(draws)
    requires EmitsNonNegative(prims) && WeightsNonNegative(sample)
    requires NonNegative(s.throughput) && NonNegative(s.radiance)
    ensures NonNegative(Trace(pt, prims, intersect, sample, draws, budget, s).0)
    decreases budget
  {
    if budget > 0 {
      BounceKeepsNonNegative(pt, prims, intersect, sample, draws, s);
      match Bounce(pt, prims, intersect, sample, draws, s)
      case Done(_, _) =>
      case Continue(next) =>
        RadianceNonNegative(pt, prims, intersect, sample, draws, budget - 1, next);
    }
  }

  /** A turn that goes on leaves the rest of the path to the remaining budget. */
  lemma TraceContinues(pt: SmallPT, prims: seq<Primitive>, intersect: Intersector, sample: BsdfSampler,
                       draws: nat -> real, budget: nat, s: PathState)
    requires ValidBsdf(sample) && ValidDraws(draws)
    requires budget > 0 && Bounce(pt, prims, intersect, sample, draws, s).Continue?
    ensures Trace(pt, prims, intersect, sample, draws, budget, s)
         == Trace(pt, prims, intersect, sample, draws, budget - 1, Bounce(pt, prims, intersect, sample, draws, s).next)
  {
  }

  /** With no budget left the path is cut: the radiance gathered so far, and no further draws. */
  lemma TraceSpent(pt: SmallPT, prims: seq<Primitive>, intersect: Intersector, sample: BsdfSampler,
                   draws: nat -> real, s: PathState)
    requires ValidBsdf(sample) && ValidDraws(draws)
    ensures Trace(pt, prims, intersect, sample, draws, 0, s) == (s.radiance, s.cursor)
  {
  }

  /** A turn that ends the path ends the trace with the radiance gathered so far. */
  lemma TraceStops(pt: SmallPT, prims: seq<Primitive>, intersect: Intersector, sample: BsdfSampler,
                   draws: nat -> real, budget: nat, s: PathState)
    requires ValidBsdf(sample) && ValidDraws(draws)
    requires budget > 0 && Bounce(pt, prims, intersect, sample, draws, s).Done?
    ensures Trace(pt, prims, intersect, sample, draws, budget, s)
         == (Bounce(pt, prims, intersect, sample, draws, s).radiance, Bounce(pt, prims, intersect, sample, draws, s).cursor)
  {
  }

  /** `SmallPT::Li`: starts a path at the camera ray and follows it for at most `budget` turns. */
  method Li(pt: SmallPT, ray: Ray, scene: Scene, intersect: Intersector, sample: BsdfSampler,
            sampler: Sampler, budget: nat) returns (radiance: Spectrum)
    requires ValidBsdf(sample) && ValidDraws(sampler.draws)
    modifies sampler
    ensures (radiance, sampler.cursor)
         == Trace(pt, scene.primitives, intersect, sample, sampler.draws, budget, Start(ray, old(sampler.cursor)))
  {
    radiance := Follow(pt, Start(ray, sampler.cursor), scene, intersect, sample, sampler, budget);
  }

  /** The loop of `SmallPT::Li`, from the path state `path0`. */
  method Follow(pt: SmallPT, path0: PathState, scene: Scene, intersect: Intersector, sample: BsdfSampler,
                sampler: Sampler, budget: nat) returns (radiance: Spectrum)
    requires ValidBsdf(sample) && ValidDraws(sampler.draws)
    requires path0.cursor == sampler.cursor
    modifies sampler
    ensures (radiance, sampler.cursor) == Trace(pt, scene.primitives, intersect, sample, sampler.draws, budget, path0)
  {
    ghost var goal := Trace(pt, scene.primitives, intersect, sample, sampler.draws, budget, path0);
    var path := path0;
    var fuel := budget;
    while fuel > 0
      invariant path.cursor == sampler.cursor
      invariant Trace(pt, scene.primitives, intersect, sample, sampler.draws, fuel, path) == goal
      decreases fuel
    {
      var done;
      done, radiance, path := Advance(pt, path, scene, intersect, sample, sampler, fuel);
      if done {
        return;
      }
      fuel := fuel - 1;
    }
    radiance := path.radiance;
  }

  /**
   * One pass of the loop with `fuel` turns left: either the path ends with
   * `radiance`, or it goes on from `next` with one turn fewer.
   */
  method Advance(pt: SmallPT, path: PathState, scene: Scene, intersect: Intersector, sample: BsdfSampler,
              sampler: Sampler, fuel: nat) returns (done: bool, radiance: Spectrum, next: PathState)
    requires ValidBsdf(sample) && ValidDraws(sampler.draws)
    requires path.cursor == sampler.cursor && fuel > 0
    modifies sampler
    ensures done ==> (radiance, sampler.cursor) == Trace(pt, scene.primitives, intersect, sample, sampler.draws, fuel, path)
    ensures !done ==> next.cursor == sampler.cursor
    ensures !done ==>
              Trace(pt, scene.primitives, intersect, sample, sampler.draws, fuel - 1, next)
              == Trace(pt, scene.primitives, intersect, sample, sampler.draws, fuel, path)
  {
    var step := Turn(pt, path, scene, intersect, sample, sampler);
    done := step.Done?;
    if done {
      TraceStops(pt, scene.primitives, intersect, sample, sampler.draws, fuel, path);
      radiance, next := step.radiance, path;
    } else {
      TraceContinues(pt, scene.primitives, intersect, sample, sampler.draws, fuel, path);
      radiance, next := path.radiance, step.next;
    }
  }

  /** The body of the loop: one turn, as `Bounce` specifies it, drawing from the sampler as it goes. */
  method Turn(pt: SmallPT, path: PathState, scene: Scene, intersect: Intersector, sample: BsdfSampler,
              sampler: Sampler) returns (step: Step)
    requires ValidBsdf(sample) && ValidDraws(sampler.draws)
    requires path.cursor == sampler.cursor
    modifies sampler
    ensures step == Bounce(pt, scene.primitives, intersect, sample, sampler.draws, path)
    ensures sampler.cursor == if step.Done? then step.cursor else step.next.cursor
  {
    var hit := scene.NearestHit(path.ray, intersect);
    if hit.None? {
      return Done(Add(path.radiance, Mul(path.throughput, EnvironMap(path.ray))), sampler.cursor);
    }
    var its := hit.value;
    var radiance := Add(path.radiance, Mul(path.throughput, its.prim.material.emission));
    var u2 := sampler.Next2D();
    var rec := sample(its.prim.material.bsdf, its.geo, u2);
    var throughput := Mul(path.throughput, DivScalar(rec.weight, rec.pdf));
    var p := Max(throughput);
    var next := Forward(Ray(its.geo.pos, rec.wo), EPSILON);
    if p < RR_THRESHOLD || path.depth >= pt.rrDepth {
      var u := sampler.Next();
      if u < p {
        throughput := DivScalar(throughput, p);
      } else {
        assert Scatter(pt, sample, sampler.draws, path, its) == Done(radiance, sampler.cursor);
        return Done(radiance, sampler.cursor);
      }
    }
    step := Continue(PathState(next, throughput, radiance, path.depth + 1, sampler.cursor));
    assert Scatter(pt, sample, sampler.draws, path, its) == step;
  }
}
