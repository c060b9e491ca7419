/**
 * Diffuse scattering (`src/engine/materials/lambertian.rs`): bounce along
 * the normal plus a random unit vector, falling back to the normal itself
 * when the sum nearly cancels.
 */
module Lambertians {
  import opened Options
  import opened Vectors
  import opened Rays
  import opened HitRecords
  import opened ScatterResults

  /**
   * `normal + r` for the random unit vector `r`, or exactly `normal` when
   * that sum is near zero.
   */
  function ScatterDirection(normal: Vector, r: Vector): (d: Vector)
    ensures !NearZero(Add(normal, r)) ==> d == Add(normal, r)
    ensures NearZero(Add(normal, r)) ==> d == normal
    ensures SizeSquared(normal) == 1.0 ==> !NearZero(d)
  {
    var candidate := Add(normal, r);
    if NearZero(candidate) then
      if SizeSquared(normal) == 1.0 then
        UnitNotNearZero(normal);
        normal
      else
        normal
    else
      candidate
  }

  /**
   * `Lambertian::scatter`: never absorbs; the scattered ray starts at the hit
   * point with attenuation `albedo`. The random unit vector is drawn as
   * `random_in_unit_sphere().unit()` from the accepted draw `inSphere`.
   */
  function Scatter(albedo: Color, rec: HitRecord, inSphere: Vector, sqrt: real -> real): (res: Option<ScatterResult>)
    requires SqrtSpec(sqrt)
    requires inSphere != Zeroes()
    ensures res.Some?
    ensures res.value.attenuation == albedo
    ensures res.value.scattered.origin == rec.point
    ensures res.value.scattered.direction == ScatterDirection(rec.normal, RandomUnitVector(inSphere, sqrt))
    ensures SizeSquared(rec.normal) == 1.0 ==> !NearZero(res.value.scattered.direction)
  {
    var scatterDirection := ScatterDirection(rec.normal, RandomUnitVector(inSphere, sqrt));
    var scattered := Ray(rec.point, scatterDirection);
    Some(ScatterResult(scattered, albedo))
  }
}
