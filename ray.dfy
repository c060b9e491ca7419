/** A ray: an origin and a direction, evaluated at a parameter `t`. */
module Rays {
  import opened Vectors

  datatype Ray = Ray(origin: Point, direction: Vector)

  /** `origin + t * direction`: the point reached after `t` steps of `direction`. */
  function At(ray: Ray, t: real): (p: Point)
    ensures Sub(p, ray.origin) == Scale(t, ray.direction)
  {
    Add(ray.origin, Scale(t, ray.direction))
  }

  /** The ray starts at its origin and moves linearly in `t`. */
  lemma AtLinear(ray: Ray, s: real, t: real)
    ensures At(ray, 0.0) == ray.origin
    ensures At(ray, s + t) == Add(At(ray, s), Scale(t, ray.direction))
  {
  }
}
