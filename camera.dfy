/**
 * The pinhole camera (`src/engine/camera.rs`): a viewport rectangle of the
 * given height and aspect ratio, parallel to the x/y plane at distance
 * `focal_length` in front of the origin (along -z), and rays from the origin
 * through points of that rectangle.
 */
module Cameras {
  import opened Vectors
  import opened Rays

  datatype Camera = Camera(
    aspectRatio: real,
    viewportHeight: real,
    viewportWidth: real,
    focalLength: real,
    origin: Point,
    horizontal: Vector,
    vertical: Vector,
    viewportCenter: Vector,
    lowerLeftCorner: Vector)

  /**
   * `Camera::new`: the viewport is `viewport_height * aspect_ratio` wide;
   * its lower-left corner lies half a width left, half a height down and
   * `focal_length` ahead of the origin.
   */
  function New(origin: Point, aspectRatio: real, viewportHeight: real, focalLength: real): (cam: Camera)
    ensures cam.origin == origin && cam.aspectRatio == aspectRatio
    ensures cam.viewportHeight == viewportHeight && cam.focalLength == focalLength
    ensures cam.viewportWidth == cam.viewportHeight * cam.aspectRatio
    ensures cam.horizontal == Vector(cam.viewportWidth, 0.0, 0.0)
    ensures cam.vertical == Vector(0.0, cam.viewportHeight, 0.0)
    ensures Add(Add(cam.lowerLeftCorner, DivScalar(cam.horizontal, 2.0)), DivScalar(cam.vertical, 2.0)) ==
            Sub(origin, cam.viewportCenter)
    ensures cam.viewportCenter == Vector(0.0, 0.0, focalLength)
  {
    var viewportWidth := viewportHeight * aspectRatio;
    var horizontal := Vector(viewportWidth, 0.0, 0.0);
    var vertical := Vector(0.0, viewportHeight, 0.0);
    var focalVector := Vector(0.0, 0.0, focalLength);
    var lowerLeftCorner := Sub(Sub(Sub(origin, DivScalar(horizontal, 2.0)), DivScalar(vertical, 2.0)), focalVector);
    Camera(aspectRatio, viewportHeight, viewportWidth, focalLength, origin,
           horizontal, vertical, focalVector, lowerLeftCorner)
  }

  /** The point of the viewport at fractions `x` across and `y` up. */
  function ViewportPoint(cam: Camera, x: real, y: real): Point {
    Add(Add(cam.lowerLeftCorner, Scale(x, cam.horizontal)), Scale(y, cam.vertical))
  }

  /**
   * `get_ray`: from the camera origin towards the viewport point at `(x, y)`;
   * following the ray for one unit of `t` reaches that point.
   */
  function GetRay(cam: Camera, x: real, y: real): (ray: Ray)
    ensures ray.origin == cam.origin
    ensures At(ray, 1.0) == ViewportPoint(cam, x, y)
  {
    var direction := Sub(Add(Add(cam.lowerLeftCorner, Scale(x, cam.horizontal)), Scale(y, cam.vertical)), cam.origin);
    Ray(cam.origin, direction)
  }

  /**
   * For a camera built by `New`, the ray through `(x, y)` points `focal_length`
   * ahead, offset by `(x - 1/2)` viewport widths and `(y - 1/2)` heights;
   * the centre of the viewport is straight ahead along -z.
   */
  lemma GetRayDirection(origin: Point, aspectRatio: real, viewportHeight: real, focalLength: real, x: real, y: real)
    ensures var cam := New(origin, aspectRatio, viewportHeight, focalLength);
            GetRay(cam, x, y).direction ==
              Vector((x - 0.5) * cam.viewportWidth, (y - 0.5) * viewportHeight, -focalLength)
    ensures GetRay(New(origin, aspectRatio, viewportHeight, focalLength), 0.5, 0.5).direction ==
            Vector(0.0, 0.0, -focalLength)
  {
    var cam := New(origin, aspectRatio, viewportHeight, focalLength);
    var w := cam.viewportWidth;
    assert cam.lowerLeftCorner == Sub(origin, Vector(w / 2.0, viewportHeight / 2.0, focalLength));
    assert GetRay(cam, x, y).direction.x == x * w - w / 2.0;
    assert GetRay(cam, x, y).direction.y == y * viewportHeight - viewportHeight / 2.0;
  }

  /**
   * Moving `x` by `dx` moves the ray's direction by `dx` viewport widths, and
   * likewise for `y`: the directions are an affine image of the viewport
   * coordinates.
   */
  lemma GetRayAffine(cam: Camera, x: real, y: real, dx: real, dy: real)
    ensures GetRay(cam, x + dx, y + dy).direction ==
            Add(GetRay(cam, x, y).direction, Add(Scale(dx, cam.horizontal), Scale(dy, cam.vertical)))
  {
    var h, v := cam.horizontal, cam.vertical;
    assert Scale(x + dx, h) == Add(Scale(x, h), Scale(dx, h));
    assert Scale(y + dy, v) == Add(Scale(y, v), Scale(dy, v));
  }

  /** The corners: `(0, 0)` reaches the lower-left corner, `(1, 1)` the opposite one. */
  lemma GetRayCorners(cam: Camera)
    ensures At(GetRay(cam, 0.0, 0.0), 1.0) == cam.lowerLeftCorner
    ensures At(GetRay(cam, 1.0, 1.0), 1.0) == Add(Add(cam.lowerLeftCorner, cam.horizontal), cam.vertical)
  {
    assert Scale(0.0, cam.horizontal) == Zeroes() && Scale(0.0, cam.vertical) == Zeroes();
    assert Scale(1.0, cam.horizontal) == cam.horizontal && Scale(1.0, cam.vertical) == cam.vertical;
  }
}
