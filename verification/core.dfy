/**
 * The core value types: three-component points and vectors (points and
 * vectors share one type here), two-component sample points, rays and the
 * geometric record of a ray hitting a surface.
 */
module Core {

  /** `Real::epsilon()` for 32-bit floats: 2^-23. */
  const EPSILON: real := 0.00000011920928955078125

  datatype Vec3 = Vec3(x: real, y: real, z: real)

  /** A point in the unit square, as handed out by `Sampler::next2d`. */
  datatype Point2 = Point2(u: real, v: real)

  function Plus(a: Vec3, b: Vec3): Vec3 { Vec3(a.x + b.x, a.y + b.y, a.z + b.z) }

  function Scale(a: Vec3, k: real): Vec3 { Vec3(a.x * k, a.y * k, a.z * k) }

  function Dot(a: Vec3, b: Vec3): real { a.x * b.x + a.y * b.y + a.z * b.z }

  /** Squared length, `magnitude2` in the vector library. */
  function Norm2(a: Vec3): real { Dot(a, a) }

  /** A ray with origin `org` and (by convention unit-length) direction `dir`. */
  datatype Ray = Ray(org: Vec3, dir: Vec3)

  /** `Ray::transport`: the point reached after travelling `t` along the ray. */
  function Transport(ray: Ray, t: real): (p: Vec3)
    ensures t == 0.0 ==> p == ray.org
  {
    Plus(ray.org, Scale(ray.dir, t))
  }

  /**
   * `Ray::forward`: moves the origin `d` along the direction, keeping the
   * direction, so that travelling `t` along the new ray reaches the point
   * `d + t` along the old one.
   */
  function Forward(ray: Ray, d: real): (r: Ray)
    ensures r.dir == ray.dir
    ensures forall t :: Transport(r, t) == Transport(ray, d + t)
  {
    Ray(Transport(ray, d), ray.dir)
  }

  /** A hit in geometric terms: where, the surface normal there, and the distance `t` along the ray. */
  datatype GeometryIntersection = GeometryIntersection(pos: Vec3, normal: Vec3, t: real)
}
