/**
 * The scene: an insertion-ordered list of primitives, the nearest-hit query
 * by linear scan, and the environment radiance for rays that hit nothing.
 *
 * How a primitive meets a ray (its geometry, moved into place by its world
 * transform) is the parameter `intersect`; the scene only compares the
 * distances `t` that it reports.
 */
module Scenes {
  import opened Wrappers
  import opened Core
  import opened Spectra

  /** A constant-albedo texture, the only kind the renderer has. */
  datatype Texture = Uniform(albedo: Spectrum)

  /** `Texture::at`: a uniform texture has the same albedo at every surface coordinate. */
  function TextureAt(tex: Texture, uv: Point2): (s: Spectrum)
    ensures s == tex.albedo
  {
    tex.albedo
  }

  /** A material: a scattering model (a handle the BSDF sampler interprets), a texture and its own emission. */
  datatype Material = Material(bsdf: nat, texture: Texture, emission: Spectrum)

  /** A primitive: a placed shape (a handle `intersect` interprets) and its material. */
  datatype Primitive = Primitive(shape: nat, material: Material)

  /** A hit record paired with the primitive that produced it. */
  datatype Intersection = Intersection(geo: GeometryIntersection, prim: Primitive)

  /** `Primitive::intersect` for every primitive: the hit, if any, of a world-space ray. */
  type Intersector = (Primitive, Ray) -> Option<GeometryIntersection>

  /**
   * One step of the scan: a hit replaces the record kept so far only when it
   * is strictly nearer. The result is the kept record or the new hit paired
   * with `prim`, and it is no farther than either.
   */
  function Consider(kept: Option<Intersection>, prim: Primitive, hit: Option<GeometryIntersection>): (r: Option<Intersection>)
    ensures r == kept || (hit.Some? && r == Some(Intersection(hit.value, prim)))
    ensures hit.Some? ==> r.Some? && r.value.geo.t <= hit.value.t
    ensures kept.Some? ==> r.Some? && r.value.geo.t <= kept.value.geo.t
  {
    match hit
    case None => kept
    case Some(h) =>
      if kept.None? || h.t < kept.value.geo.t then Some(Intersection(h, prim)) else kept
  }

  /**
   * The record the scan over `prims`, in order, ends with. A hit it reports
   * is the own hit of one of the scene's primitives.
   */
  function Nearest(prims: seq<Primitive>, intersect: Intersector, ray: Ray): (r: Option<Intersection>)
    ensures r.Some? ==> r.value.prim in prims && intersect(r.value.prim, ray) == Some(r.value.geo)
  {
    if prims == [] then None
    else
      var n := |prims| - 1;
      var kept := Nearest(prims[..n], intersect, ray);
      assert kept.Some? ==> kept.value.prim in prims by {
        if kept.Some? {
          var k :| 0 <= k < n && prims[..n][k] == kept.value.prim;
          assert prims[k] == kept.value.prim;
        }
      }
      Consider(kept, prims[n], intersect(prims[n], ray))
  }

  /** `environ_map`: the environment is black in every direction. */
  function EnvironMap(ray: Ray): (s: Spectrum)
    ensures s.r == s.g == s.b == 0.0
  {
    Black()
  }

  /** The scan finds nothing exactly when no primitive is hit. */
  lemma {:induction false} NearestNoneIff(prims: seq<Primitive>, intersect: Intersector, ray: Ray)
    ensures Nearest(prims, intersect, ray).None? <==> forall i :: 0 <= i < |prims| ==> intersect(prims[i], ray).None?
  {
    if prims != [] {
      var n := |prims| - 1;
      NearestNoneIff(prims[..n], intersect, ray);
      assert forall i :: 0 <= i < n ==> prims[..n][i] == prims[i];
    }
  }

  /** The hit found is no farther than any primitive's hit. */
  lemma {:induction false} NearestIsClosest(prims: seq<Primitive>, intersect: Intersector, ray: Ray, i: nat)
    requires i < |prims| && intersect(prims[i], ray).Some?
    ensures Nearest(prims, intersect, ray).Some?
    ensures Nearest(prims, intersect, ray).value.geo.t <= intersect(prims[i], ray).value.t
  {
    var n := |prims| - 1;
    if i < n {
      assert prims[..n][i] == prims[i];
      NearestIsClosest(prims[..n], intersect, ray, i);
    }
  }

  /**
   * Primitive `k` of `prims` produced `h`, and every primitive before it
   * either misses or hits strictly farther away.
   */
  ghost predicate FirstWith(prims: seq<Primitive>, intersect: Intersector, ray: Ray, h: Intersection, k: nat)
  {
    && k < |prims|
    && prims[k] == h.prim
    && intersect(prims[k], ray) == Some(h.geo)
    && forall j :: 0 <= j < k ==> intersect(prims[j], ray).None? || intersect(prims[j], ray).value.t > h.geo.t
  }

  /**
   * The hit found belongs to a primitive of the scene, and on ties in `t`
   * the earliest primitive in list order wins.
   */
  lemma {:induction false} NearestIsFirst(prims: seq<Primitive>, intersect: Intersector, ray: Ray)
    requires Nearest(prims, intersect, ray).Some?
    ensures exists k :: FirstWith(prims, intersect, ray, Nearest(prims, intersect, ray).value, k)
  {
    var n := |prims| - 1;
    var front := prims[..n];
    var kept := Nearest(front, intersect, ray);
    var h := Nearest(prims, intersect, ray).value;
    assert forall j :: 0 <= j < n ==> front[j] == prims[j];
    if kept == Some(h) {
      NearestIsFirst(front, intersect, ray);
      var k :| FirstWith(front, intersect, ray, h, k);
      assert FirstWith(prims, intersect, ray, h, k);
    } else {
      assert h.prim == prims[n] && intersect(prims[n], ray) == Some(h.geo);
      forall j | 0 <= j < n && intersect(prims[j], ray).Some?
        ensures intersect(prims[j], ray).value.t > h.geo.t
      {
        NearestIsClosest(front, intersect, ray, j);
      }
      assert FirstWith(prims, intersect, ray, h, n);
    }
  }

  class Scene {
    var primitives: seq<Primitive>

    /** `Scene::new`: no primitives. */
    constructor New()
      ensures primitives == []
    {
      primitives := [];
    }

    /** Growing the list through `DerefMut`: `push` appends one primitive. */
    method Push(prim: Primitive)
      modifies this
      ensures primitives == old(primitives) + [prim]
    {
      primitives := primitives + [prim];
    }

    /** `nearest_hit`: a linear scan keeping the strictly nearest hit. */
    method NearestHit(ray: Ray, intersect: Intersector) returns (isect: Option<Intersection>)
      ensures isect == Nearest(primitives, intersect, ray)
    {
      isect := None;
      for i := 0 to |primitives|
        invariant isect == Nearest(primitives[..i], intersect, ray)
      {
        var prim := primitives[i];
        var newIsect := intersect(prim, ray);
        if newIsect.Some? {
          match isect
          case None =>
            isect := Some(Intersection(newIsect.value, prim));
          case Some(Intersection(geoIsect, _)) =>
            if newIsect.value.t < geoIsect.t {
              isect := Some(Intersection(newIsect.value, prim));
            }
        }
        assert primitives[..i + 1][..i] == primitives[..i];
      }
      assert primitives[..|primitives|] == primitives;
    }
  }

  /** A new scene has no primitives, so every ray misses it. */
  lemma EmptySceneMisses(intersect: Intersector, ray: Ray)
    ensures Nearest([], intersect, ray) == None
  {
  }
}
