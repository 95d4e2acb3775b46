/**
 * A sphere of radius `radius` centred at the local origin, and the
 * ray/sphere intersection: solve `|org + t dir|^2 == radius^2` for a
 * unit-length `dir`, reject a negative discriminant, and take the near root
 * when it lies beyond `EPSILON`, otherwise the far root when that does.
 *
 * The square root is a parameter `sqrt`; the properties below assume of it
 * only the square-root law at the discriminant actually used.
 */
module Spheres {
  import opened Wrappers
  import opened Core

  datatype Sphere = Sphere(radius: real, rad2: real)

  /** `Sphere::new` caches the squared radius. */
  function New(radius: real): (s: Sphere)
    ensures s.radius == radius && s.rad2 == radius * radius
  {
    Sphere(radius, radius * radius)
  }

  /** `sqrt(d)` is the non-negative square root of `d`. */
  ghost predicate SqrtAt(sqrt: real -> real, d: real)
  {
    sqrt(d) >= 0.0 && sqrt(d) * sqrt(d) == d
  }

  /** Half the linear coefficient of the quadratic in `t`: `org . dir`. */
  function HalfB(ray: Ray): real
  {
    Dot(ray.org, ray.dir)
  }

  /** The (quarter) discriminant `b^2 - |org|^2 + radius^2`. */
  function Delta(s: Sphere, ray: Ray): real
  {
    HalfB(ray) * HalfB(ray) - Norm2(ray.org) + s.rad2
  }

  /** Point `p` lies on the sphere. */
  ghost predicate OnSphere(s: Sphere, p: Vec3)
  {
    Norm2(p) == s.rad2
  }

  /** The record for a hit at distance `t`: the normal is the hit position read as a vector. */
  function HitAt(ray: Ray, t: real): (h: GeometryIntersection)
    ensures h.t == t && h.pos == Transport(ray, t) && h.normal == h.pos
  {
    var pos := Transport(ray, t);
    GeometryIntersection(pos, pos, t)
  }

  /** `Sphere::intersect`, on a ray in the sphere's local space. */
  function Intersect(s: Sphere, ray: Ray, sqrt: real -> real): (r: Option<GeometryIntersection>)
    ensures Delta(s, ray) < 0.0 ==> r == None
    ensures r.Some? ==> r.value.t > EPSILON && r.value.pos == Transport(ray, r.value.t)
    ensures r.Some? ==> r.value.normal == r.value.pos
  {
    var b := HalfB(ray);
    var delta := Delta(s, ray);
    if delta < 0.0 then
      None
    else
      var ds := sqrt(delta);
      var near := -b - ds;
      if near > EPSILON then
        Some(HitAt(ray, near))
      else
        var far := -b + ds;
        if far > EPSILON then Some(HitAt(ray, far)) else None
  }

  /** Along a unit-length ray, `|org + t dir|^2 = |org|^2 + 2 t b + t^2`. */
  lemma Norm2Transport(ray: Ray, t: real)
    requires Norm2(ray.dir) == 1.0
    ensures Norm2(Transport(ray, t)) == Norm2(ray.org) + 2.0 * t * HalfB(ray) + t * t
  {
    var o, d := ray.org, ray.dir;
    calc {
      Norm2(Transport(ray, t));
      (o.x + d.x * t) * (o.x + d.x * t) + (o.y + d.y * t) * (o.y + d.y * t) + (o.z + d.z * t) * (o.z + d.z * t);
      Norm2(o) + 2.0 * t * Dot(o, d) + t * t * Norm2(d);
    }
  }

  /** A point of the ray lies on the sphere exactly when `(t + b)^2` equals the discriminant. */
  lemma OnSphereIffRoot(s: Sphere, ray: Ray, t: real)
    requires Norm2(ray.dir) == 1.0
    ensures OnSphere(s, Transport(ray, t)) <==> (t + HalfB(ray)) * (t + HalfB(ray)) == Delta(s, ray)
  {
    Norm2Transport(ray, t);
  }

  /** With a unit-length direction, every hit lies on the sphere. */
  lemma IntersectOnSphere(s: Sphere, ray: Ray, sqrt: real -> real)
    requires Norm2(ray.dir) == 1.0
    requires Delta(s, ray) >= 0.0 ==> SqrtAt(sqrt, Delta(s, ray))
    ensures Intersect(s, ray, sqrt).Some? ==> OnSphere(s, Intersect(s, ray, sqrt).value.pos)
  {
    var r := Intersect(s, ray, sqrt);
    if r.Some? {
      OnSphereIffRoot(s, ray, r.value.t);
    }
  }

  lemma SquareNonNegative(u: real)
    ensures u * u >= 0.0
  {
  }

  /** A square equal to `ds^2` (with `ds >= 0`) has root `ds` or `-ds`. */
  lemma SquareRoots(u: real, ds: real)
    requires ds >= 0.0 && u * u == ds * ds
    ensures u == ds || u == -ds
  {
    assert (u - ds) * (u + ds) == 0.0;
  }

  /** The root `Intersect` picks: the near one beyond `EPSILON`, else the far one beyond `EPSILON`. */
  function ChosenRoot(b: real, ds: real): Option<real>
  {
    if -b - ds > EPSILON then Some(-b - ds)
    else if -b + ds > EPSILON then Some(-b + ds)
    else None
  }

  /** On the roots of `(t + b)^2 == ds^2`, the chosen root is the least one beyond `EPSILON`. */
  lemma ChosenRootIsLeast(b: real, ds: real, t: real)
    requires ds >= 0.0 && (t + b) * (t + b) == ds * ds && t > EPSILON
    ensures ChosenRoot(b, ds).Some? && ChosenRoot(b, ds).value <= t
  {
    SquareRoots(t + b, ds);
  }

  lemma IntersectChoosesRoot(s: Sphere, ray: Ray, sqrt: real -> real)
    requires Delta(s, ray) >= 0.0
    ensures Intersect(s, ray, sqrt)
         == match ChosenRoot(HalfB(ray), sqrt(Delta(s, ray)))
            case None => None
            case Some(t) => Some(HitAt(ray, t))
  {
  }

  /**
   * The hit is the nearest point of the ray beyond `EPSILON` on the sphere:
   * whenever such a point exists at distance `t`, `Intersect` returns a hit
   * no farther than `t`.
   */
  lemma IntersectIsNearest(s: Sphere, ray: Ray, sqrt: real -> real, t: real)
    requires Norm2(ray.dir) == 1.0
    requires Delta(s, ray) >= 0.0 ==> SqrtAt(sqrt, Delta(s, ray))
    requires t > EPSILON && OnSphere(s, Transport(ray, t))
    ensures Intersect(s, ray, sqrt).Some? && Intersect(s, ray, sqrt).value.t <= t
  {
    OnSphereIffRoot(s, ray, t);
    var b, delta := HalfB(ray), Delta(s, ray);
    SquareNonNegative(t + b);
    assert delta >= 0.0;
    IntersectChoosesRoot(s, ray, sqrt);
    ChosenRootIsLeast(b, sqrt(delta), t);
  }

  lemma ChosenRootFromCentre()
    ensures ChosenRoot(0.0, 1.0) == Some(1.0)
  {
  }

  lemma SqrtOfOne(sqrt: real -> real)
    requires SqrtAt(sqrt, 1.0)
    ensures sqrt(1.0) == 1.0
  {
    SquareRoots(sqrt(1.0), 1.0);
  }

  /** The first unit-test hit: radius 1, from (10, 0, 0) along -x, hits (1, 0, 0) at t = 9. */
  lemma HitExample(sqrt: real -> real)
    requires SqrtAt(sqrt, 1.0)
    ensures Intersect(New(1.0), Ray(Vec3(10.0, 0.0, 0.0), Vec3(-1.0, 0.0, 0.0)), sqrt)
         == Some(GeometryIntersection(Vec3(1.0, 0.0, 0.0), Vec3(1.0, 0.0, 0.0), 9.0))
  {
    SqrtOfOne(sqrt);
  }

  /**
   * The second unit-test hit: from the centre along the diagonal `(k, k, 0)`
   * (the test uses the unit one, `k = sqrt(2) / 2`; the outcome does not
   * depend on `k`) the near root is behind the origin and the far root t = 1 is taken.
   */
  lemma InsideHitExample(sqrt: real -> real, k: real)
    requires SqrtAt(sqrt, 1.0)
    ensures Intersect(New(1.0), Ray(Vec3(0.0, 0.0, 0.0), Vec3(k, k, 0.0)), sqrt)
         == Some(GeometryIntersection(Vec3(k, k, 0.0), Vec3(k, k, 0.0), 1.0))
  {
    var ray := Ray(Vec3(0.0, 0.0, 0.0), Vec3(k, k, 0.0));
    assert HalfB(ray) == 0.0 && Delta(New(1.0), ray) == 1.0;
    SqrtOfOne(sqrt);
    ChosenRootFromCentre();
    IntersectChoosesRoot(New(1.0), ray, sqrt);
    assert Transport(ray, 1.0) == Vec3(k, k, 0.0);
  }

  /** The unit-test misses: from (0, 10, 0) pointing away along +y both roots lie behind the origin. */
  lemma MissBehindExample(sqrt: real -> real)
    requires SqrtAt(sqrt, 1.0)
    ensures Intersect(New(1.0), Ray(Vec3(0.0, 10.0, 0.0), Vec3(0.0, 1.0, 0.0)), sqrt) == None
  {
    SqrtOfOne(sqrt);
  }

  /** ... and from (0, 0, -10) along the unit direction `(0, k, -k)` the discriminant is negative. */
  lemma MissDiscriminantExample(sqrt: real -> real, k: real)
    requires k > 0.0 && 2.0 * k * k == 1.0
    ensures Intersect(New(1.0), Ray(Vec3(0.0, 0.0, -10.0), Vec3(0.0, k, -k)), sqrt) == None
  {
    assert Delta(New(1.0), Ray(Vec3(0.0, 0.0, -10.0), Vec3(0.0, k, -k))) == -49.0;
  }
}
