/** The record of where a ray meets a surface (`src/engine/hittables/hittable.rs`). */
module HitRecords {
  import opened Vectors
  import opened Rays

  /**
   * `HitRecord::new` is the datatype's constructor. The record carries no
   * material: the record type in `hittable.rs` has none.
   */
  datatype HitRecord = HitRecord(point: Point, normal: Vector, t: real, frontFace: bool)

  /**
   * `HitRecord::from_ray`: the ray hits the front face when it travels against
   * the outward normal, and the stored normal always opposes the ray.
   */
  function FromRay(ray: Ray, t: real, outwardNormal: Vector): (rec: HitRecord)
    ensures rec.frontFace <==> Dot(ray.direction, outwardNormal) < 0.0
    ensures rec.normal == if rec.frontFace then outwardNormal else Scale(-1.0, outwardNormal)
    ensures Dot(ray.direction, rec.normal) <= 0.0
    ensures SizeSquared(rec.normal) == SizeSquared(outwardNormal)
    ensures rec.point == At(ray, t) && rec.t == t
  {
    var frontFace := Dot(ray.direction, outwardNormal) < 0.0;
    var normal := if frontFace then outwardNormal else Scale(-1.0, outwardNormal);
    var hitPoint := At(ray, t);
    HitRecord(hitPoint, normal, t, frontFace)
  }

  /** Flipping the outward normal flips the face and leaves the stored normal alone. */
  lemma FromRayFlippedNormal(ray: Ray, t: real, outwardNormal: Vector)
    requires Dot(ray.direction, outwardNormal) != 0.0
    ensures FromRay(ray, t, Scale(-1.0, outwardNormal)).frontFace == !FromRay(ray, t, outwardNormal).frontFace
    ensures FromRay(ray, t, Scale(-1.0, outwardNormal)).normal == FromRay(ray, t, outwardNormal).normal
  {
    DotBilinear(outwardNormal, ray.direction, ray.direction, -1.0);
  }
}
