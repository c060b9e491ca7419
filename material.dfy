/** `ScatterResult` (`src/engine/materials/material.rs`): the bounced ray and its colour filter. */
module ScatterResults {
  import opened Vectors
  import opened Rays

  datatype ScatterResult = ScatterResult(scattered: Ray, attenuation: Color)
}

/**
 * The `Material` trait objects of the program as a closed datatype, and
 * `scatter` dispatched on it. The random draws each material makes are
 * parameters: `inSphere` is the accepted draw of `random_in_unit_sphere`
 * (the Lambertian normalises it into `random_unit_vector`), `uniform` the
 * draw of `random_float(0.0, 1.0)`.
 */
module Materials {
  import opened Options
  import opened Vectors
  import opened Rays
  import opened HitRecords
  import opened ScatterResults
  import Lambertians
  import Metals
  import Dielectrics

  datatype Material =
    | Lambertian(albedo: Color)
    | Metal(albedo: Color, fuzz: real)
    | Dielectric(refractionIndex: real)

  /** What each material's `scatter` needs to avoid a division by zero. */
  predicate CanScatter(m: Material, ray: Ray, rec: HitRecord, inSphere: Vector) {
    match m
    case Lambertian(_) => inSphere != Zeroes()
    case Metal(_, _) => ray.direction != Zeroes()
    case Dielectric(index) => ray.direction != Zeroes() && Dielectrics.Admissible(index, rec)
  }

  /**
   * `scatter` of any material: every scattered ray leaves from the hit
   * point; only metal absorbs; glass is white and the others filter by
   * their albedo. Glass goes to the corrected `Dielectrics.Scatter`, whose
   * ray follows the direction the reflect/refract test chose; the
   * program's own `Dielectric::scatter` is `Dielectrics.ScatterAsWritten`.
   */
  function Scatter(m: Material, ray: Ray, rec: HitRecord, inSphere: Vector, uniform: real,
                   sqrt: real -> real): (res: Option<ScatterResult>)
    requires SqrtSpec(sqrt)
    requires CanScatter(m, ray, rec, inSphere)
    ensures res.Some? ==> res.value.scattered.origin == rec.point
    ensures res.None? ==> m.Metal?
    ensures res.Some? ==> res.value.attenuation == if m.Dielectric? then Dielectrics.White() else m.albedo
    ensures m.Metal? && res.Some? ==> Dot(res.value.scattered.direction, rec.normal) > 0.0
    ensures m.Lambertian? && SizeSquared(rec.normal) == 1.0 ==> !NearZero(res.value.scattered.direction)
    ensures m.Dielectric? ==>
              var ratio := Dielectrics.RefractionRatio(m.refractionIndex, rec.frontFace);
              res.value.scattered.direction ==
                Dielectrics.ChosenDirection(Unit(ray.direction, sqrt), rec.normal, ratio, uniform, sqrt)
  {
    match m
    case Lambertian(albedo) => Lambertians.Scatter(albedo, rec, inSphere, sqrt)
    case Metal(albedo, fuzz) => Metals.Scatter(albedo, fuzz, ray, rec, inSphere, sqrt)
    case Dielectric(index) => Dielectrics.Scatter(index, ray, rec, uniform, sqrt)
  }
}
