/**
 * Ray/sphere intersection (`src/engine/hittables/sphere.rs`): solve
 * `|O + tD - C|^2 = r^2`, i.e. `a t^2 + 2 half_b t + c = 0`, and keep the
 * nearest root inside `[t_min, t_max]`.
 */
module Spheres {
  import opened Options
  import opened Vectors
  import opened Rays
  import opened HitRecords

  /** The sphere's material is not part of the hit record; see `HitRecords`. */
  datatype Sphere = Sphere(center: Point, radius: real)

  function QuadA(ray: Ray): real {
    SizeSquared(ray.direction)
  }

  function HalfB(s: Sphere, ray: Ray): real {
    Dot(Sub(ray.origin, s.center), ray.direction)
  }

  function QuadC(s: Sphere, ray: Ray): real {
    SizeSquared(Sub(ray.origin, s.center)) - s.radius * s.radius
  }

  function Discriminant(s: Sphere, ray: Ray): real {
    HalfB(s, ray) * HalfB(s, ray) - QuadA(ray) * QuadC(s, ray)
  }

  function SmallerRoot(s: Sphere, ray: Ray, sqrt: real -> real): real
    requires ray.direction != Zeroes()
  {
    SizeSquaredIsDot(ray.direction);
    (-HalfB(s, ray) - sqrt(Discriminant(s, ray))) / QuadA(ray)
  }

  function LargerRoot(s: Sphere, ray: Ray, sqrt: real -> real): real
    requires ray.direction != Zeroes()
  {
    SizeSquaredIsDot(ray.direction);
    (-HalfB(s, ray) + sqrt(Discriminant(s, ray))) / QuadA(ray)
  }

  /** `a t^2 + 2 half_b t + c`, the sphere's equation along the ray. */
  function Quadratic(a: real, halfB: real, c: real, t: real): real {
    a * t * t + 2.0 * halfB * t + c
  }

  /** The negation of the source's rejection test `root < t_min || root > t_max`. */
  predicate InRange(t: real, tMin: real, tMax: real) {
    !(t < tMin || t > tMax)
  }

  /** The ray meets the sphere's surface at parameter `t`. */
  ghost predicate OnSurface(s: Sphere, ray: Ray, t: real) {
    SizeSquared(Sub(At(ray, t), s.center)) == s.radius * s.radius
  }

  /** `(hit_point - center) / radius`. */
  function OutwardNormal(s: Sphere, ray: Ray, t: real): Vector
    requires s.radius != 0.0
  {
    DivScalar(Sub(At(ray, t), s.center), s.radius)
  }

  function RecordAt(s: Sphere, ray: Ray, t: real): HitRecord
    requires s.radius != 0.0
  {
    FromRay(ray, t, OutwardNormal(s, ray, t))
  }

  /** `Sphere::hit`: the smaller root if it is in range, else the larger one, else no hit. */
  function Hit(s: Sphere, ray: Ray, tMin: real, tMax: real, sqrt: real -> real): (r: Option<HitRecord>)
    requires ray.direction != Zeroes()
    requires s.radius != 0.0
    ensures Discriminant(s, ray) < 0.0 ==> r.None?
    ensures r.Some? ==> tMin <= r.value.t <= tMax
    ensures r.Some? ==> r.value == RecordAt(s, ray, r.value.t)
    ensures r.Some? ==> r.value.t == SmallerRoot(s, ray, sqrt) || r.value.t == LargerRoot(s, ray, sqrt)
    ensures Discriminant(s, ray) >= 0.0 && InRange(SmallerRoot(s, ray, sqrt), tMin, tMax) ==>
              r == Some(RecordAt(s, ray, SmallerRoot(s, ray, sqrt)))
    ensures Discriminant(s, ray) >= 0.0 && !InRange(SmallerRoot(s, ray, sqrt), tMin, tMax) ==>
              r == if InRange(LargerRoot(s, ray, sqrt), tMin, tMax)
                   then Some(RecordAt(s, ray, LargerRoot(s, ray, sqrt)))
                   else None
  {
    var discriminant := Discriminant(s, ray);
    if discriminant < 0.0 then
      None
    else
      var root := SmallerRoot(s, ray, sqrt);
      if root < tMin || root > tMax then
        var root' := LargerRoot(s, ray, sqrt);
        if root' < tMin || root' > tMax then
          None
        else
          Some(RecordAt(s, ray, root'))
      else
        Some(RecordAt(s, ray, root))
  }

  // ---------------------------------------------------------------------
  // The quadratic.

  /** The distance from the centre along the ray is the sphere's quadratic. */
  lemma SurfaceQuadratic(s: Sphere, ray: Ray, t: real)
    ensures SizeSquared(Sub(At(ray, t), s.center)) - s.radius * s.radius ==
            Quadratic(QuadA(ray), HalfB(s, ray), QuadC(s, ray), t)
  {
    var oc := Sub(ray.origin, s.center);
    assert Sub(At(ray, t), s.center) == Add(oc, Scale(t, ray.direction));
    SizeSquaredExpand(oc, Scale(t, ray.direction), t);
    SizeSquaredExpand(ray.direction, ray.direction, t);
    DotBilinear(ray.direction, oc, ray.direction, t);
  }

  /** Both `(-half_b -+ sqrt(disc)) / a` solve `a t^2 + 2 half_b t + c = 0`. */
  lemma QuadraticRoot(a: real, halfB: real, c: real, e: real, t: real)
    requires a != 0.0
    requires e * e == halfB * halfB - a * c
    requires t == (-halfB + e) / a
    ensures Quadratic(a, halfB, c, t) == 0.0
  {
    assert a * t == -halfB + e;
    assert a * t * t + 2.0 * halfB * t == t * (halfB + e);
    assert t * (halfB + e) == ((e - halfB) * (e + halfB)) / a;
    assert (e - halfB) * (e + halfB) == -(a * c);
  }

  /** Both roots at once. */
  lemma RootPair(a: real, halfB: real, c: real, e: real)
    requires a != 0.0
    requires e * e == halfB * halfB - a * c
    ensures Quadratic(a, halfB, c, (-halfB - e) / a) == 0.0
    ensures Quadratic(a, halfB, c, (-halfB + e) / a) == 0.0
  {
    QuadraticRoot(a, halfB, c, e, (-halfB + e) / a);
    assert (-e) * (-e) == e * e;
    QuadraticRoot(a, halfB, c, -e, (-halfB - e) / a);
  }

  /** The two roots are the only solutions. */
  lemma QuadraticOnlyRoots(a: real, halfB: real, c: real, e: real, t: real)
    requires a != 0.0
    requires e * e == halfB * halfB - a * c
    requires Quadratic(a, halfB, c, t) == 0.0
    ensures t == (-halfB - e) / a || t == (-halfB + e) / a
  {
    var u := a * t + halfB;
    assert a * (a * t * t + 2.0 * halfB * t + c) == u * u - e * e;
    assert (u - e) * (u + e) == 0.0;
    if u - e != 0.0 {
      assert u + e == ((u - e) * (u + e)) / (u - e);
      assert a * t == -halfB - e;
    } else {
      assert a * t == -halfB + e;
    }
  }

  /** A negative discriminant leaves the quadratic without a zero. */
  lemma QuadraticNoRoot(a: real, halfB: real, c: real, t: real)
    requires a > 0.0
    requires halfB * halfB - a * c < 0.0
    ensures Quadratic(a, halfB, c, t) > 0.0
  {
    var u := a * t + halfB;
    assert a * (a * t * t + 2.0 * halfB * t + c) == u * u - (halfB * halfB - a * c);
    assert u * u >= 0.0;
    var q := a * t * t + 2.0 * halfB * t + c;
    assert a * q > 0.0;
  }

  lemma DivMonotone(x: real, y: real, a: real)
    requires x <= y && a > 0.0
    ensures x / a <= y / a
  {
    assert y / a - x / a == (y - x) / a;
  }

  /**
   * Choosing the smaller root when it is in range, and the larger one
   * otherwise, picks the least zero of the quadratic in `[t_min, t_max]`.
   */
  lemma NearestRoot(a: real, halfB: real, c: real, e: real, tMin: real, tMax: real, t: real)
    requires a > 0.0 && 0.0 <= e
    requires e * e == halfB * halfB - a * c
    requires Quadratic(a, halfB, c, t) == 0.0
    requires tMin <= t <= tMax
    ensures InRange((-halfB - e) / a, tMin, tMax) ==> (-halfB - e) / a <= t
    ensures !InRange((-halfB - e) / a, tMin, tMax) ==>
              InRange((-halfB + e) / a, tMin, tMax) && (-halfB + e) / a <= t
  {
    DivMonotone(-halfB - e, -halfB + e, a);
    QuadraticOnlyRoots(a, halfB, c, e, t);
  }

  // ---------------------------------------------------------------------
  // What a hit means geometrically.

  /** Both roots, when the discriminant is not negative, solve the quadratic. */
  lemma RootsSolve(s: Sphere, ray: Ray, sqrt: real -> real)
    requires SqrtSpec(sqrt)
    requires ray.direction != Zeroes()
    requires Discriminant(s, ray) >= 0.0
    ensures var t := SmallerRoot(s, ray, sqrt);
            Quadratic(QuadA(ray), HalfB(s, ray), QuadC(s, ray), t) == 0.0
    ensures var t := LargerRoot(s, ray, sqrt);
            Quadratic(QuadA(ray), HalfB(s, ray), QuadC(s, ray), t) == 0.0
  {
    SizeSquaredIsDot(ray.direction);
    RootPair(QuadA(ray), HalfB(s, ray), QuadC(s, ray), sqrt(Discriminant(s, ray)));
  }

  /** A returned parameter is a root of the quadratic. */
  lemma HitIsRoot(s: Sphere, ray: Ray, tMin: real, tMax: real, sqrt: real -> real)
    requires SqrtSpec(sqrt)
    requires ray.direction != Zeroes() && s.radius != 0.0
    requires Hit(s, ray, tMin, tMax, sqrt).Some?
    ensures var t := Hit(s, ray, tMin, tMax, sqrt).value.t;
            Quadratic(QuadA(ray), HalfB(s, ray), QuadC(s, ray), t) == 0.0
  {
    RootsSolve(s, ray, sqrt);
  }

  /** A hit lies on the surface, and its normals have length one. */
  lemma HitOnSurface(s: Sphere, ray: Ray, tMin: real, tMax: real, sqrt: real -> real)
    requires SqrtSpec(sqrt)
    requires ray.direction != Zeroes() && s.radius != 0.0
    requires Hit(s, ray, tMin, tMax, sqrt).Some?
    ensures OnSurface(s, ray, Hit(s, ray, tMin, tMax, sqrt).value.t)
    ensures SizeSquared(OutwardNormal(s, ray, Hit(s, ray, tMin, tMax, sqrt).value.t)) == 1.0
    ensures SizeSquared(Hit(s, ray, tMin, tMax, sqrt).value.normal) == 1.0
  {
    var t := Hit(s, ray, tMin, tMax, sqrt).value.t;
    HitIsRoot(s, ray, tMin, tMax, sqrt);
    SurfaceQuadratic(s, ray, t);
    var p := Sub(At(ray, t), s.center);
    assert SizeSquared(p) == s.radius * s.radius;
    UnitNormal(p, s.radius);
  }

  /** A point at distance `r` from the centre, divided by `r`, has length one. */
  lemma UnitNormal(p: Vector, r: real)
    requires r != 0.0
    requires SizeSquared(p) == r * r
    ensures SizeSquared(DivScalar(p, r)) == 1.0
  {
    SizeSquaredDivScalar(p, r);
    if Sq(r) == 0.0 {
      SquareZero(r);
      assert false;
    }
    var q := SizeSquared(DivScalar(p, r));
    assert Sq(r) * q == Sq(r);
    CancelFactor(Sq(r), q);
  }

  /**
   * The hit is the nearest point of the surface inside `[t_min, t_max]`,
   * and no hit means the surface has no point there.
   */
  lemma HitIsNearest(s: Sphere, ray: Ray, tMin: real, tMax: real, sqrt: real -> real, t': real)
    requires SqrtSpec(sqrt)
    requires ray.direction != Zeroes() && s.radius != 0.0
    requires tMin <= t' <= tMax && OnSurface(s, ray, t')
    ensures Hit(s, ray, tMin, tMax, sqrt).Some?
    ensures Hit(s, ray, tMin, tMax, sqrt).value.t <= t'
  {
    SizeSquaredIsDot(ray.direction);
    var a, halfB, c := QuadA(ray), HalfB(s, ray), QuadC(s, ray);
    SurfaceQuadratic(s, ray, t');
    assert Quadratic(a, halfB, c, t') == 0.0;
    if Discriminant(s, ray) < 0.0 {
      QuadraticNoRoot(a, halfB, c, t');
      assert false;
    }
    var e := sqrt(Discriminant(s, ray));
    NearestRoot(a, halfB, c, e, tMin, tMax, t');
  }

  /** No hit: the surface has no point with parameter in `[t_min, t_max]`. */
  lemma NoHitNoSurface(s: Sphere, ray: Ray, tMin: real, tMax: real, sqrt: real -> real, t': real)
    requires SqrtSpec(sqrt)
    requires ray.direction != Zeroes() && s.radius != 0.0
    requires Hit(s, ray, tMin, tMax, sqrt).None?
    requires tMin <= t' <= tMax
    ensures !OnSurface(s, ray, t')
  {
    if OnSurface(s, ray, t') {
      HitIsNearest(s, ray, tMin, tMax, sqrt, t');
      assert false;
    }
  }
}
