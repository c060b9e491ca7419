/**
 * Mirror-like scattering (`src/engine/materials/metal.rs`): reflect the unit
 * incoming direction, blur it by `fuzz` times a point of the unit ball, and
 * absorb the ray unless it leaves on the normal's side.
 */
module Metals {
  import opened Options
  import opened Vectors
  import opened Rays
  import opened HitRecords
  import opened ScatterResults

  /** `reflect(unit(direction), normal) + fuzz * in_sphere`. */
  function FuzzedReflection(ray: Ray, normal: Vector, fuzz: real, inSphere: Vector, sqrt: real -> real): Vector
    requires SqrtSpec(sqrt)
    requires ray.direction != Zeroes()
  {
    Add(Reflect(Unit(ray.direction, sqrt), normal), Scale(fuzz, inSphere))
  }

  /**
   * `Metal::scatter`: a result exactly when the fuzzed reflection has a
   * strictly positive dot product with the normal; it starts at the hit point
   * and is filtered by `albedo`.
   */
  function Scatter(albedo: Color, fuzz: real, ray: Ray, rec: HitRecord, inSphere: Vector, sqrt: real -> real): (res: Option<ScatterResult>)
    requires SqrtSpec(sqrt)
    requires ray.direction != Zeroes()
    ensures res.Some? <==> Dot(FuzzedReflection(ray, rec.normal, fuzz, inSphere, sqrt), rec.normal) > 0.0
    ensures res.Some? ==> res.value.attenuation == albedo
    ensures res.Some? ==> res.value.scattered.origin == rec.point
    ensures res.Some? ==> res.value.scattered.direction == FuzzedReflection(ray, rec.normal, fuzz, inSphere, sqrt)
  {
    var reflected := FuzzedReflection(ray, rec.normal, fuzz, inSphere, sqrt);
    var scattered := Ray(rec.point, reflected);
    var attenuation := albedo;
    if Dot(scattered.direction, rec.normal) > 0.0 then
      Some(ScatterResult(scattered, attenuation))
    else
      None
  }

  /**
   * Without fuzz, reflection in a unit normal keeps the unit length of the
   * incoming direction and turns its normal component around.
   */
  lemma MirrorReflection(ray: Ray, normal: Vector, inSphere: Vector, sqrt: real -> real)
    requires SqrtSpec(sqrt)
    requires ray.direction != Zeroes()
    requires SizeSquared(normal) == 1.0
    ensures SizeSquared(FuzzedReflection(ray, normal, 0.0, inSphere, sqrt)) == 1.0
    ensures Dot(FuzzedReflection(ray, normal, 0.0, inSphere, sqrt), normal) == -Dot(Unit(ray.direction, sqrt), normal)
  {
    var u := Unit(ray.direction, sqrt);
    assert Scale(0.0, inSphere) == Zeroes();
    AddSubInverse(Reflect(u, normal), Zeroes());
    ReflectPreservesSize(u, normal);
    ReflectDotNormal(u, normal);
  }

  /** Without fuzz, a ray arriving against a unit normal is never absorbed. */
  lemma MirrorNeverAbsorbs(albedo: Color, ray: Ray, rec: HitRecord, inSphere: Vector, sqrt: real -> real)
    requires SqrtSpec(sqrt)
    requires ray.direction != Zeroes()
    requires SizeSquared(rec.normal) == 1.0
    requires Dot(ray.direction, rec.normal) < 0.0
    ensures Scatter(albedo, 0.0, ray, rec, inSphere, sqrt).Some?
  {
    var u := Unit(ray.direction, sqrt);
    var s := Size(ray.direction, sqrt);
    assert s > 0.0 by {
      SizePositive(ray.direction, sqrt);
    }
    assert Dot(ray.direction, rec.normal) == s * Dot(u, rec.normal) by {
      assert ray.direction == Scale(s, u);
      DotBilinear(u, rec.normal, rec.normal, s);
    }
    assert Dot(u, rec.normal) < 0.0 by {
      NegativeFactor(s, Dot(u, rec.normal));
    }
    assert Dot(FuzzedReflection(ray, rec.normal, 0.0, inSphere, sqrt), rec.normal) > 0.0 by {
      MirrorReflection(ray, rec.normal, inSphere, sqrt);
    }
  }

  lemma NegativeFactor(s: real, x: real)
    requires s > 0.0 && s * x < 0.0
    ensures x < 0.0
  {
  }
}
