/**
 * The diagnostic integrator delegates: each looks up the nearest hit of the
 * ray once and turns it into a colour, drawing nothing from the sampler.
 */
module Delegates {
  import opened Wrappers
  import opened Core
  import opened Spectra
  import opened Scenes

  /**
   * `Albedo::Li`: the environment (black) on a miss, and on a hit the
   * albedo of the primitive the nearest-hit scan picked, read at the
   * surface origin.
   */
  function AlbedoLi(prims: seq<Primitive>, intersect: Intersector, ray: Ray): (s: Spectrum)
    ensures Nearest(prims, intersect, ray).None? ==> IsBlack(s)
    ensures Nearest(prims, intersect, ray).Some? ==> s == Nearest(prims, intersect, ray).value.prim.material.texture.albedo
  {
    match Nearest(prims, intersect, ray)
    case None => EnvironMap(ray)
    case Some(Intersection(_, prim)) => TextureAt(prim.material.texture, Point2(0.0, 0.0))
  }

  /**
   * `Normal::Li`: black on a miss; on a hit, the normal mapped channel by
   * channel through `(n + 1) / 2`, a map that `2c - 1` undoes and that takes
   * components in [-1, 1] to channels in [0, 1].
   */
  function NormalLi(prims: seq<Primitive>, intersect: Intersector, ray: Ray): (c: Spectrum)
    ensures Nearest(prims, intersect, ray).None? ==> c == Black()
    ensures Nearest(prims, intersect, ray).Some? ==>
            var n := Nearest(prims, intersect, ray).value.geo.normal;
            && c.r * 2.0 - 1.0 == n.x && c.g * 2.0 - 1.0 == n.y && c.b * 2.0 - 1.0 == n.z
            && (-1.0 <= n.x <= 1.0 && -1.0 <= n.y <= 1.0 && -1.0 <= n.z <= 1.0
                ==> 0.0 <= c.r <= 1.0 && 0.0 <= c.g <= 1.0 && 0.0 <= c.b <= 1.0)
  {
    match Nearest(prims, intersect, ray)
    case None => Black()
    case Some(Intersection(geo, _)) =>
      var n := geo.normal;
      FromVec(Vec3((n.x + 1.0) / 2.0, (n.y + 1.0) / 2.0, (n.z + 1.0) / 2.0))
  }

  /**
   * `Position::Li`: black on a miss; on a hit, the coordinates of the point
   * where the ray meets the primitive the scan picked, which is that
   * primitive's own hit.
   */
  function PositionLi(prims: seq<Primitive>, intersect: Intersector, ray: Ray): (s: Spectrum)
    ensures Nearest(prims, intersect, ray).None? ==> s == Black()
    ensures Nearest(prims, intersect, ray).Some? ==>
            var h := Nearest(prims, intersect, ray).value;
            && intersect(h.prim, ray).Some?
            && s == Spectrum(intersect(h.prim, ray).value.pos.x, intersect(h.prim, ray).value.pos.y,
                             intersect(h.prim, ray).value.pos.z)
  {
    match Nearest(prims, intersect, ray)
    case None => Black()
    case Some(Intersection(geo, _)) => FromVec(geo.pos)
  }

  /**
   * `Albedo` shows the albedo of the primitive that wins the nearest-hit
   * scan: a primitive of the scene, hit, with no earlier primitive hit as near.
   */
  lemma AlbedoIsNearestAlbedo(prims: seq<Primitive>, intersect: Intersector, ray: Ray)
    ensures Nearest(prims, intersect, ray).None? ==> AlbedoLi(prims, intersect, ray) == Black()
    ensures Nearest(prims, intersect, ray).Some? ==>
      exists k: nat :: FirstWith(prims, intersect, ray, Nearest(prims, intersect, ray).value, k)
                    && AlbedoLi(prims, intersect, ray) == prims[k].material.texture.albedo
  {
    if Nearest(prims, intersect, ray).Some? {
      NearestIsFirst(prims, intersect, ray);
    }
  }
}
