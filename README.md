# Ray tracer core, modelled in Dafny

This project models the decision logic of a brute-force ray tracer written
in Rust with `f64` arithmetic, with Dafny's `real` standing in for `f64`:

- the three-component vector algebra shared by `Vector`, `Point` and `Color`
  (`vector.dfy`, module `Vectors`), including `reflect`, `refract`,
  `random_in_unit_sphere` and `random_unit_vector`;
- rays and `Ray::at` (`ray.dfy`);
- `HitRecord::from_ray`, which decides the front face and turns the normal
  against the ray (`hittable.dfy`);
- `Sphere::hit`, the discriminant test and the choice of root
  (`sphere.dfy`);
- `HittableCollection`, whose `add` and `clear` change its list in place and
  whose `hit` loops over the list shrinking the upper bound
  (`hittable_collection.dfy`; a class, and a closed datatype `Hittable` for
  the trait objects);
- the `scatter` rules of the Lambertian, metal and dielectric materials
  (`lambertian.dfy`, `metal.dfy`, `dielectric.dfy`), dispatched on a closed
  datatype `Material` (`material.dfy`);
- the pinhole `Camera` and its `get_ray` (`camera.dfy`);
- `PPMWriter`, the "P3" header, one size block, then colours protocol
  (`ppm_writer.dfy`; a class, and a value-level state machine whose
  accepted call sequences are characterised exactly).

`sqrt` cannot be computed over `real`; every member that takes a square root
receives it as a parameter `sqrt: real -> real` satisfying `SqrtSpec`
(`sqrt(d) >= 0` and `sqrt(d) * sqrt(d) == d` for `d >= 0`). Random draws are
parameters too: `inSphere` for an accepted draw of `random_in_unit_sphere`
and `uniform` for `random_float(0.0, 1.0)`. `powf(2.0)` and `powf(5.0)` are
repeated multiplication.

Choices where the code is the reference:

- `Sphere::hit` accepts a root `t` with `t_min <= t <= t_max` (both ends
  closed; the code rejects only `root < t_min || root > t_max`).
- The camera is a pinhole camera built from an origin, an aspect ratio, a
  viewport height and a focal length; there is no lens, no look-at basis and
  no defocus.
- `HittableCollection::hit` passes the current nearest `t` as the next upper
  bound, and a member reporting exactly that `t` again replaces the result:
  ties go to the later member.
- The hit record carries no material (the `HitRecord` struct has no such
  field).
- `Dielectric::scatter` returns `refracted_direction` whatever its
  reflect/refract test chose. `Dielectrics.ScatterAsWritten` models this;
  `Materials.Scatter` uses the corrected `Dielectrics.Scatter` (see Findings).

## Model

| member | source | states |
|---|---|---|
| Vectors.Zeroes | src/vectors/vector.rs:19-21 | the vector `(0, 0, 0)`; `AddSubInverse` proves it the identity of addition and `SizeSquaredIsDot` the only vector of squared length 0 |
| Vectors.SizeSquared | src/macros/implement_vector_functions.rs:40-47 | `x*x + y*y + z*z`; `SizeSquaredIsDot` proves it is `dot(v, v)`, never negative and zero only for the zero vector, `SizeSquaredExpand` how it grows under sums and multiples |
| Vectors.Size | src/macros/implement_vector_functions.rs:49-51 | the `sqrt` of `size_squared`; `SizePositive` proves it positive for a nonzero vector, `Unit` that dividing by it gives length 1 |
| Vectors.Dot | src/macros/implement_vector_functions.rs:55-62 | the sum of componentwise products; `DotBilinear` proves it symmetric and linear, `DotStepwise` that the macro's accumulation computes it |
| Vectors.Cross | src/macros/implement_vector_functions.rs:22-28 | the cross product; `CrossProperties` proves it zero on equal operands, anti-commutative and orthogonal to both operands |
| Vectors.Add | src/macros/implement_vector_functions.rs:68-80 | componentwise sum; `AddSubInverse` proves `Sub` undoes it, that it commutes and that zero is its identity |
| Vectors.Sub | src/macros/implement_vector_functions.rs:82-94 | componentwise difference; `AddSubInverse` proves `Add` undoes it |
| Vectors.Mul | src/macros/implement_vector_functions.rs:96-108 | componentwise product (colour filtering); `MulDivInverse` proves `Div` undoes it |
| Vectors.Scale | src/macros/implement_vector_functions.rs:110-122 | scalar times vector; `ScaleDivInverse` proves `DivScalar` undoes it and `SizeSquaredExpand` that it multiplies the squared length by `k^2` |
| Vectors.DivScalar | src/macros/implement_vector_functions.rs:124-136 | vector divided by a nonzero scalar; `ScaleDivInverse` proves `Scale` undoes it and `SizeSquaredDivScalar` that it divides the squared length by `k^2` |
| Vectors.Div | src/macros/implement_vector_functions.rs:138-148 | componentwise quotient by nonzero components; `MulDivInverse` proves `Mul` undoes it |
| Vectors.SizeSquaredStepwise | src/macros/implement_vector_functions.rs:40-47 | the field-by-field accumulation equals the squared length, which is `dot(v, v)` and never negative |
| Vectors.DotStepwise | src/macros/implement_vector_functions.rs:53-62 | the field-by-field accumulation equals the sum of componentwise products and is symmetric |
| Vectors.SizeSquaredIsDot | src/macros/implement_vector_functions.rs:40-62 | `size_squared(v) == dot(v, v) >= 0`, and it is zero exactly for the zero vector |
| Vectors.SizePositive | src/macros/implement_vector_functions.rs:49-51 | a nonzero vector has a positive `size` |
| Vectors.Unit | src/macros/implement_vector_functions.rs:7-9 | `v / size(v)` has squared length 1 and scaling it by `size(v)` gives `v` back |
| Vectors.DocExamples | src/macros/implement_vector_functions.rs:53-148 | the worked examples of the doc comments: dot 4, sum (2,2,4), difference (0,-2,-2), 2*(1,2,3), both divisions, and `zeroes()` |
| Vectors.AddSubInverse | src/macros/implement_vector_functions.rs:66-92 | subtraction undoes addition and the other way round; addition is commutative with zero as identity |
| Vectors.ScaleDivInverse | src/macros/implement_vector_functions.rs:108-134 | dividing by a nonzero scalar undoes scaling by it, both ways |
| Vectors.MulDivInverse | src/macros/implement_vector_functions.rs:94-148 | componentwise division undoes componentwise multiplication, both ways |
| Vectors.DotBilinear | src/macros/implement_vector_functions.rs:53-62 | dot is symmetric and linear in its first argument |
| Vectors.SizeSquaredDivScalar | src/macros/implement_vector_functions.rs:122-134 | dividing by `k` divides the squared length by `k^2` |
| Vectors.SizeSquaredExpand | src/macros/implement_vector_functions.rs:40-47 | squared length of a sum and of a multiple |
| Vectors.CrossProperties | src/macros/implement_vector_functions.rs:16-28 | `cross(a, a)` is zero, `cross(a, b) == -cross(b, a)`, and the cross product is orthogonal to both operands |
| Vectors.RandomInUnitSphere | src/vectors/vector.rs:32-39 | a returned vector has `size_squared <= 1`, is the first such draw, and every earlier draw was rejected |
| Vectors.RandomUnitVector | src/vectors/vector.rs:45-47 | the accepted draw divided by its size: length one, and scaling it by that size gives the draw back |
| Vectors.Reflect | src/vectors/vector.rs:41-43 | `v - 2 (v . n) n`; for a unit `n`, `ReflectDotNormal`, `ReflectTwice`, `ReflectOrthogonal` and `ReflectPreservesSize` prove it the mirror image in the plane of `n` |
| Vectors.RefractPerp | src/vectors/vector.rs:50-51 | `ratio (v + cos n)`; `RefractIntoSurface` proves it orthogonal to a unit `n`, `Dielectrics.PerpLength` gives its squared length `ratio^2 (1 - cos^2)` |
| Vectors.Refract | src/vectors/vector.rs:49-55 | the perpendicular part plus `-sqrt(abs(1 - perp^2)) n`; `RefractIntoSurface` proves it points through the surface and `RefractUnitLength` that it has length one when `perp^2 <= 1` |
| Vectors.NearZero | src/consts.rs:1-3 | every component below `1e-8` in magnitude; `UnitNotNearZero` proves no unit vector is near zero |
| Vectors.ReflectDotNormal | src/vectors/vector.rs:41-43 | for unit `n`, `reflect(v, n) . n == -(v . n)` |
| Vectors.ReflectTwice | src/vectors/vector.rs:41-43 | for unit `n`, reflecting twice returns `v` |
| Vectors.ReflectOrthogonal | src/vectors/vector.rs:41-43 | a vector orthogonal to `n` is unchanged by reflection |
| Vectors.ReflectPreservesSize | src/vectors/vector.rs:41-43 | reflection in a unit normal keeps the length |
| Vectors.RefractCos | src/vectors/vector.rs:50 | the cosine is `-v . n` clamped to at most 1 |
| Vectors.RefractIntoSurface | src/vectors/vector.rs:49-55 | for unit `n`, the perpendicular part is orthogonal to `n` and the result is that part plus a non-positive multiple of `n`, so it leaves on the far side |
| Vectors.RefractUnitLength | src/vectors/vector.rs:49-55 | when the perpendicular part is at most a unit long, the refracted ray has length one |
| Vectors.UnitNotNearZero | src/consts.rs:1-3 | a vector of length one is never near zero |
| Rays.At | src/engine/ray.rs:10-14 | `at(t) - origin == t * direction` |
| Rays.AtLinear | src/engine/ray.rs:10-14 | `at(0)` is the origin and `at` moves linearly in `t` |
| HitRecords.FromRay | src/engine/hittables/hittable.rs:17-23 | front face iff `direction . outward < 0`; normal is `outward` or its negation accordingly, always with `direction . normal <= 0` and the same length; point is `ray.at(t)`, `t` is kept |
| HitRecords.FromRayFlippedNormal | src/engine/hittables/hittable.rs:18-19 | negating the outward normal flips the face and leaves the stored normal unchanged |
| Spheres.Discriminant | src/engine/hittables/sphere.rs:22-27 | `half_b^2 - a c` of the ray-sphere quadratic; `QuadraticNoRoot` proves a negative value leaves no intersection and `RootsSolve` that otherwise both roots lie on the sphere |
| Spheres.SmallerRoot | src/engine/hittables/sphere.rs:33-34 | `(-half_b - sqrt(disc)) / a`; `RootsSolve` proves it a root and `NearestRoot` that, when in range, it is the nearest one |
| Spheres.LargerRoot | src/engine/hittables/sphere.rs:36 | `(-half_b + sqrt(disc)) / a`; `RootsSolve` proves it a root and `QuadraticOnlyRoots` that no third root exists |
| Spheres.OutwardNormal | src/engine/hittables/sphere.rs:42-43 | `(at(t) - center) / radius`; `UnitNormal` proves it has length one on the surface |
| Spheres.Hit | src/engine/hittables/sphere.rs:21-45 | negative discriminant gives no hit; a hit has `t_min <= t <= t_max`, is one of the two roots and is recorded by `from_ray` with normal `(point - center) / radius`; the smaller root whenever it is in range, else the larger one if in range, else no hit |
| Spheres.SurfaceQuadratic | src/engine/hittables/sphere.rs:22-27 | `|at(t) - center|^2 - r^2 == a t^2 + 2 half_b t + c` |
| Spheres.QuadraticRoot | src/engine/hittables/sphere.rs:33-36 | `(-half_b + e) / a` solves the quadratic when `e^2` is the discriminant |
| Spheres.RootPair | src/engine/hittables/sphere.rs:33-36 | both `(-half_b -+ e) / a` solve the quadratic |
| Spheres.QuadraticOnlyRoots | src/engine/hittables/sphere.rs:27-39 | any zero of the quadratic is one of the two roots |
| Spheres.QuadraticNoRoot | src/engine/hittables/sphere.rs:27-30 | with `a > 0` and a negative discriminant the quadratic has no zero |
| Spheres.NearestRoot | src/engine/hittables/sphere.rs:32-40 | the smaller-then-larger choice picks the least zero in `[t_min, t_max]` |
| Spheres.RootsSolve | src/engine/hittables/sphere.rs:33-36 | with a non-negative discriminant both computed roots solve the sphere's quadratic |
| Spheres.HitIsRoot | src/engine/hittables/sphere.rs:23-44 | any returned `t` satisfies `a t^2 + 2 half_b t + c == 0` |
| Spheres.HitOnSurface | src/engine/hittables/sphere.rs:42-44 | the hit point lies on the sphere and both the outward and the stored normal have length one |
| Spheres.UnitNormal | src/engine/hittables/sphere.rs:43 | a point at distance `r` from the centre, divided by `r`, has length one |
| Spheres.HitIsNearest | src/engine/hittables/sphere.rs:32-40 | if the surface has a point at `t'` in `[t_min, t_max]` there is a hit, at most `t'` |
| Spheres.NoHitNoSurface | src/engine/hittables/sphere.rs:27-39 | no hit means no point of the surface in `[t_min, t_max]` |
| Hittables.HitObject | src/engine/hittables/hittable_collection.rs:26-42 | a hit of a sphere or a collection has `t_min <= t <= t_max` |
| Hittables.Scan | src/engine/hittables/hittable_collection.rs:27-39 | the loop state: bound at most `t_max`, equal to it while there is no result, and equal to the result's `t` otherwise |
| Hittables.BoundNeverIncreases | src/engine/hittables/hittable_collection.rs:27-35 | `smallest_distance` never increases from one member to the next |
| Hittables.NoneIffAllMiss | src/engine/hittables/hittable_collection.rs:26-41 | no result iff no member reports a hit in `[t_min, t_max]` |
| Hittables.LastReportWins | src/engine/hittables/hittable_collection.rs:30-38 | the result is the record of the last member that reported a hit under its turn's bound, and every later member misses `[t_min, t]` |
| Hittables.ResultBelowReport | src/engine/hittables/hittable_collection.rs:30-38 | the result's `t` is at most every `t` a member reported |
| Hittables.HitIsNearest | src/engine/hittables/hittable_collection.rs:30-41 | a hit lies on the surface, and no surface point in `[t_min, t_max]` is nearer; no hit means none there |
| Hittables.ScanIsNearest | src/engine/hittables/hittable_collection.rs:30-41 | after `n` members the result is the nearest surface point of those members |
| Hittables.HittableCollection.constructor | src/engine/hittables/hittable_collection.rs:10-14 | a new collection is empty |
| Hittables.HittableCollection.Add | src/engine/hittables/hittable_collection.rs:16-18 | appends at the end, earlier entries unchanged |
| Hittables.HittableCollection.Clear | src/engine/hittables/hittable_collection.rs:20-22 | the list becomes empty |
| Hittables.HittableCollection.Hit | src/engine/hittables/hittable_collection.rs:25-42 | the loop computes the fold `Scan`; result in range; no result iff every member misses |
| Lambertians.ScatterDirection | src/engine/materials/lambertian.rs:20-24 | `normal + r` unless that is near zero, then exactly `normal`; never near zero for a unit normal |
| Lambertians.Scatter | src/engine/materials/lambertian.rs:19-30 | always a result, attenuation `albedo`, from the hit point, along `normal + random_unit_vector` or the fallback |
| Metals.FuzzedReflection | src/engine/materials/metal.rs:20-23 | the reflection of the unit direction plus `fuzz` times the unit-ball draw; `MirrorReflection` proves it a unit reflection without fuzz |
| Metals.Scatter | src/engine/materials/metal.rs:19-32 | a result iff the fuzzed reflection has a strictly positive dot with the normal; then from the hit point along it, attenuation `albedo` |
| Metals.MirrorReflection | src/engine/materials/metal.rs:20-23 | without fuzz and for a unit normal, the reflection has length one and turns the normal component around |
| Metals.MirrorNeverAbsorbs | src/engine/materials/metal.rs:20-31 | without fuzz, a ray arriving against a unit normal is never absorbed |
| Dielectrics.SchlickR0 | src/engine/materials/dielectric.rs:27-29 | `((1 - ratio) / (1 + ratio))^2`; `ReflectanceBounds` proves it lies in `[0, 1]` |
| Dielectrics.Reflectance | src/engine/materials/dielectric.rs:27-31 | Schlick's `R0 + (1 - R0)(1 - cos)^5`; `ReflectanceEnds` and `ReflectanceBounds` give its values at the ends and its bounds |
| Dielectrics.CannotRefract | src/engine/materials/dielectric.rs:44-47 | `ratio * sin > 1` with `sin = sqrt(1 - cos^2)`; `NoTotalReflectionHeadOn` and `EnteringDenserCanRefract` say when it can hold |
| Dielectrics.ChosenDirection | src/engine/materials/dielectric.rs:49-54 | the reflection when `cannot_refract` or the reflectance beats the draw, the refraction otherwise; `Dielectrics.Scatter` follows it and `TotalReflectionReflects` proves the reflect branch |
| Dielectrics.RefractionRatio | src/engine/materials/dielectric.rs:18-24 | `AIR_REFRACTION_INDEX / index` on a front face, `index` on a back face |
| Dielectrics.RatiosReciprocal | src/engine/materials/dielectric.rs:18-24 | the two faces' ratios are reciprocal |
| Dielectrics.ReflectanceEnds | src/engine/materials/dielectric.rs:27-31 | Schlick's reflectance is `R0` head-on (0 for ratio 1) and 1 at grazing incidence |
| Dielectrics.ReflectanceBounds | src/engine/materials/dielectric.rs:27-31 | for a non-negative ratio and cosine in `[0, 1]`, `R0 <= reflectance <= 1` and `R0` is in `[0, 1]` |
| Dielectrics.ScatterAsWritten | src/engine/materials/dielectric.rs:35-61 | as written: always a white result from the hit point, along `refracted_direction` |
| Dielectrics.AsWrittenIgnoresDraw | src/engine/materials/dielectric.rs:49-60 | as written, the uniform draw has no effect on the result |
| Dielectrics.AsWrittenIgnoresTotalReflection | src/engine/materials/dielectric.rs:41-57 | as written, under total internal reflection the returned direction is not the reflection the code chose |
| Dielectrics.TotalReflectionExample | src/engine/materials/dielectric.rs:43-57 | ratio 1.5, direction (0.8,0,-0.6), normal (0,0,1): `cannot_refract` holds and `refract` differs from the reflection (0.8,0,0.6) |
| Dielectrics.RefractDiffersFromReflect | src/engine/materials/dielectric.rs:47-53 | under total internal reflection at unit vectors, `refract` and `reflect` differ |
| Dielectrics.NoTotalReflectionHeadOn | src/engine/materials/dielectric.rs:43-47 | `cannot_refract` needs `cos^2 < 1` and a ratio other than 1 |
| Dielectrics.Scatter | src/engine/materials/dielectric.rs:35-61 | always a white result from the hit point, along the reflection when `cannot_refract` or the reflectance beats the draw, along the refraction otherwise |
| Dielectrics.TotalReflectionReflects | src/engine/materials/dielectric.rs:47-51 | when refraction is impossible the scattered ray is the mirror reflection, of unit length, on the incoming side |
| Dielectrics.RefractionCrossesSurface | src/engine/materials/dielectric.rs:52-53 | on the refraction branch the ray crosses the surface and has unit length |
| Dielectrics.CosineAtMostOne | src/engine/materials/dielectric.rs:43 | for unit vectors the clamp of `cos_theta` never applies |
| Dielectrics.PerpLength | src/vectors/vector.rs:49-55 | for unit vectors the perpendicular part of the refracted ray has squared length `ratio^2 (1 - cos^2)` |
| Dielectrics.PerpAtMostOne | src/vectors/vector.rs:49-55 | when `cannot_refract` is false, the perpendicular part has length at most 1, so the parallel part's `sqrt` argument is non-negative |
| Dielectrics.TangentSplitDiffers | src/engine/materials/dielectric.rs:47-53 | for unit vectors with `cos^2 < 1` and a ratio other than 1, the perpendicular part plus any multiple of the normal is not the reflection |
| Dielectrics.EnteringDenserCanRefract | src/engine/materials/dielectric.rs:43-47 | entering a medium of index at least 1 from air, `cannot_refract` never holds |
| Materials.Scatter | src/engine/materials/material.rs:17-19 | every scattered ray leaves from the hit point; only metal absorbs; glass is white, the others filter by albedo |
| Cameras.New | src/engine/camera.rs:18-40 | width is `height * aspect_ratio`; `horizontal = (width,0,0)`, `vertical = (0,height,0)`; the lower-left corner plus half of each is `origin - (0,0,focal_length)` |
| Cameras.GetRay | src/engine/camera.rs:43-48 | every ray starts at the camera origin and reaches the viewport point `(x, y)` at `t = 1` |
| Cameras.GetRayDirection | src/engine/camera.rs:44-45 | the direction is `((x-1/2) width, (y-1/2) height, -focal_length)`, so `(0.5, 0.5)` points along `(0,0,-focal_length)` |
| Cameras.GetRayAffine | src/engine/camera.rs:44-45 | moving `(x, y)` by `(dx, dy)` moves the direction by `dx horizontal + dy vertical` |
| Cameras.GetRayCorners | src/engine/camera.rs:44-45 | `(0, 0)` reaches the lower-left corner and `(1, 1)` the opposite one |
| PpmWriters.Decimal | src/utils/ppm_writer.rs:41 | the `{}` text of a count is a non-empty digit string without a leading zero |
| PpmWriters.DecimalRoundTrip | src/utils/ppm_writer.rs:41 | reading the decimal text back gives the number |
| PpmWriters.DecimalInjective | src/utils/ppm_writer.rs:41 | different counts have different texts |
| PpmWriters.SizeBlock | src/utils/ppm_writer.rs:41-43 | the lines "columns rows\n" and "255\n"; `DecimalRoundTrip` and `DecimalInjective` prove the counts can be read back |
| PpmWriters.Accepts | src/utils/ppm_writer.rs:37-51 | the size only while unwritten, colours only once it is written; `SecondSizeFails` proves a second size is refused |
| PpmWriters.Run | src/utils/ppm_writer.rs:36-56 | the writer state after a call sequence, `None` after a panic; `RunShape`, `RunAccepted` and `RunOutput` characterise it |
| PpmWriters.Initial | src/utils/ppm_writer.rs:26-34 | after `new` the output is exactly "P3\n" and the size flag is false |
| PpmWriters.Step | src/utils/ppm_writer.rs:36-56 | an accepted call sets the flag and only appends to the output |
| PpmWriters.Rendered | src/utils/ppm_writer.rs:48-56 | the colour texts, one per colour call, in order |
| PpmWriters.RunShape | src/utils/ppm_writer.rs:26-56 | a call sequence is accepted iff it is empty or one size call followed only by colours; the output is then "P3\n", the size block, and the colours in order |
| PpmWriters.RunAccepted | src/utils/ppm_writer.rs:36-56 | a call sequence runs to the end iff it is well formed, and the size flag is then set iff some call was made |
| PpmWriters.RunOutput | src/utils/ppm_writer.rs:26-56 | the output of a well-formed non-empty sequence is "P3\n", the size block of its first call, then its colours in order |
| PpmWriters.WellFormedSnoc | src/utils/ppm_writer.rs:36-56 | one more call keeps a sequence acceptable iff it is the first call and writes the size, or it follows an acceptable sequence and writes a colour |
| PpmWriters.SizeWrittenOnce | src/utils/ppm_writer.rs:36-46 | in an accepted sequence the size is written only as the first call, never later |
| PpmWriters.SecondSizeFails | src/utils/ppm_writer.rs:37-45 | after an accepted size call a second one is refused |
| PpmWriters.PPMWriter.constructor | src/utils/ppm_writer.rs:26-34 | the writer starts with output "P3\n" and the flag false |
| PpmWriters.PPMWriter.WriteSize | src/utils/ppm_writer.rs:36-46 | fails with the panic message iff the size is written, leaving everything unchanged; otherwise appends "columns rows\n" then "255\n" and sets the flag |
| PpmWriters.PPMWriter.WriteColor | src/utils/ppm_writer.rs:48-56 | fails with the panic message iff the size is not written; otherwise appends the colour's text and changes nothing else |

## Left out

- Floating-point rounding, infinities and NaN: numbers are `real`. In `Dielectric::scatter`, `sqrt` of a negative `1 - cos^2` would be NaN, which makes the `cannot_refract` comparison false; `Dielectrics.CannotRefract` gives that case the same result. For a unit normal the radicand is never negative (`Dielectrics.CosineAtMostOne`).
- `sqrt`, `powf` and `abs` of `f64`: `sqrt` is a parameter with a stated contract; `powf(2.0)` and `powf(5.0)` are products.
- Randomness: `random_float`, `Vector::random` and `Color::random` are not part of this model; their draws are parameters. `Vectors.RandomInUnitSphere` takes a finite sequence of draws and returns `None` when it runs out, so the termination of the rejection loop is not modelled.
- `near_zero` is called but not modelled from a definition; `Vectors.NearZero` gives it the meaning of the `NEAR_ZERO_THRESHOLD` constant (every component below `1e-8` in magnitude).
- Vectors.Unit: requires a nonzero vector; `f64` would divide by zero and produce NaN components.
- Vectors.DivScalar and Vectors.Div: require nonzero divisors, for the same reason.
- Vectors.RandomUnitVector and Lambertians.Scatter: require a nonzero accepted draw, since normalising the zero vector divides by zero.
- Spheres.Hit: requires a nonzero ray direction and a nonzero radius. With a zero direction the code does not simply fail: `a`, `half_b` and the discriminant are 0, the root `0/0` is NaN, NaN passes the `root < t_min || root > t_max` test, and a hit at `t = NaN` is reported. With a zero radius the normal is infinite or NaN. Neither case is modelled.
- Hittables.HitObject, Hittables.HittableCollection.Hit and Metals.Scatter: require a nonzero ray direction, for the same reason.
- Dielectrics.Scatter and Dielectrics.ScatterAsWritten: require a nonzero ray direction (it is normalised), a nonzero index on a front face and a ratio other than -1, the divisors of the ratio and of Schlick's `R0`.
- Materials.Scatter: glass goes to the corrected `Dielectrics.Scatter`, which follows the reflect/refract choice; the program's own behaviour, which always refracts, is `Dielectrics.ScatterAsWritten` and is not what `Materials.Scatter` returns.
- Materials on hit records and spheres: the `HitRecord` struct has no material field, so spheres carry none either and the material is chosen by the caller.
- Trait objects and lifetimes of `Hittable` and `Material`: closed datatypes.
- `Color::to_string` is not part of this model: the text of a colour is the parameter `render`.
- The output sink of `PPMWriter` (`Box<dyn Write>`) and its write errors (`.expect` panics): the output is a sequence of strings, one per `write!`, and writes always succeed.
- The panics of `write_size` and `write_color` are `Fail` outcomes that leave the writer unchanged; the program would abort instead.
- The stored but unused camera fields (`aspect_ratio`, `viewport_height`, `focal_length`, `viewport_center`) are kept in the datatype and not used by `get_ray`.
- `src/main.rs` (file output), `src/macros/vector_functions.rs` (an older `f32` copy), `src/data_types/` (stale snapshots) and `src/engine/utils.rs` (`degrees_to_radians`) are not part of this model; `src/engine/ray.rs` contributes only its formula, over `real` instead of `f32`.
- The recursive colour accumulation (`ray_color`), the per-pixel sampling loop and a thin-lens camera are not part of this model.

## Findings

| source | as written | input that shows it | evidently intended | confidence | as-written member | corrected member |
|---|---|---|---|---|---|---|
| src/engine/materials/dielectric.rs:49-57 | the reflect/refract choice is stored in `direction`, which is never used; the result is built from `refracted_direction`, so glass never reflects | back face of glass of index 1.5 (ratio 1.5), unit direction (0.8, 0, -0.6), normal (0, 0, 1): cosine 0.6, sine 0.8, `1.5 * 0.8 > 1` so `cannot_refract` holds, yet the scattered direction is the refraction, not the reflection (0.8, 0, 0.6) | build the scattered ray from `direction` | high (not executed) | Dielectrics.AsWrittenIgnoresTotalReflection | Dielectrics.TotalReflectionReflects |
