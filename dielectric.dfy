/**
 * Glass-like scattering (`src/engine/materials/dielectric.rs`): always
 * scatters with white attenuation; reflects when Snell's law admits no
 * refraction or when Schlick's reflectance beats a uniform draw, and
 * refracts otherwise.
 *
 * The source computes the chosen `direction` but builds its result from
 * `refracted_direction`. `ScatterAsWritten` is that code; `Scatter` uses the
 * chosen direction, and `Materials` dispatches to it.
 */
module Dielectrics {
  import opened Options
  import opened Vectors
  import opened Rays
  import opened HitRecords
  import opened ScatterResults

  const AirRefractionIndex: real := 1.0

  /** Glass passes every colour unchanged. */
  function White(): Color {
    Vector(1.0, 1.0, 1.0)
  }

  /**
   * `get_refraction_ratio`: entering from air the ratio is
   * `AIR_REFRACTION_INDEX / refraction_index`, leaving it is the index itself.
   */
  function RefractionRatio(refractionIndex: real, frontFace: bool): (ratio: real)
    requires frontFace ==> refractionIndex != 0.0
    ensures frontFace ==> ratio * refractionIndex == AirRefractionIndex
    ensures !frontFace ==> ratio == refractionIndex
  {
    if frontFace then AirRefractionIndex / refractionIndex else refractionIndex
  }

  /** The ratios for the two faces are reciprocal. */
  lemma RatiosReciprocal(refractionIndex: real)
    requires refractionIndex != 0.0
    ensures RefractionRatio(refractionIndex, true) * RefractionRatio(refractionIndex, false) == 1.0
  {
  }

  /** `x.powf(5.0)`. */
  function Pow5(x: real): real {
    x * x * x * x * x
  }

  /** Schlick's `R0 = ((1 - r) / (1 + r))^2`. */
  function SchlickR0(refractionRatio: real): real
    requires 1.0 + refractionRatio != 0.0
  {
    var a := (1.0 - refractionRatio) / (1.0 + refractionRatio);
    a * a
  }

  /** `reflectance`: Schlick's approximation `R0 + (1 - R0)(1 - cos)^5`. */
  function Reflectance(cosTheta: real, refractionRatio: real): real
    requires 1.0 + refractionRatio != 0.0
  {
    var a := SchlickR0(refractionRatio);
    a + (1.0 - a) * Pow5(1.0 - cosTheta)
  }

  /**
   * Head-on the reflectance is `R0`, which is zero when both media have the
   * same index; at grazing incidence everything is reflected.
   */
  lemma ReflectanceEnds(refractionRatio: real)
    requires 1.0 + refractionRatio != 0.0
    ensures Reflectance(1.0, refractionRatio) == SchlickR0(refractionRatio)
    ensures Reflectance(0.0, refractionRatio) == 1.0
    ensures SchlickR0(1.0) == 0.0 && Reflectance(1.0, 1.0) == 0.0
  {
    assert Pow5(0.0) == 0.0;
    assert Pow5(1.0) == 1.0;
  }

  /** For a non-negative ratio and a cosine in `[0, 1]` the reflectance is a probability, at least `R0`. */
  lemma ReflectanceBounds(cosTheta: real, refractionRatio: real)
    requires 0.0 <= refractionRatio
    requires 0.0 <= cosTheta <= 1.0
    ensures SchlickR0(refractionRatio) <= Reflectance(cosTheta, refractionRatio) <= 1.0
    ensures 0.0 <= SchlickR0(refractionRatio) <= 1.0
  {
    var a := (1.0 - refractionRatio) / (1.0 + refractionRatio);
    RatioBelowOne(refractionRatio);
    SquareAtMostOne(a);
    var x := 1.0 - cosTheta;
    Pow5Unit(x);
    ConvexCombination(SchlickR0(refractionRatio), Pow5(x));
  }

  lemma RatioBelowOne(r: real)
    requires 0.0 <= r
    ensures -1.0 < (1.0 - r) / (1.0 + r) <= 1.0
  {
    var a := (1.0 - r) / (1.0 + r);
    assert a * (1.0 + r) == 1.0 - r;
  }

  lemma SquareAtMostOne(a: real)
    requires -1.0 <= a <= 1.0
    ensures 0.0 <= a * a <= 1.0
  {
    var b := Abs(a);
    assert b * b == a * a;
    SquareNonNegative(a);
    if b < 1.0 {
      SquareBelow(b, 1.0);
    }
  }

  lemma SquareNonNegative(r: real)
    ensures 0.0 <= r * r
  {
    if r > 0.0 { SquareBelow(0.0, r); }
    if r < 0.0 { SquareBelow(0.0, -r); assert (-r) * (-r) == r * r; }
  }

  /** Scaling by a factor in `[0, 1]` does not grow a non-negative number. */
  lemma ScaleDown(x: real, y: real)
    requires 0.0 <= x && 0.0 <= y <= 1.0
    ensures 0.0 <= x * y <= x
  {
    assert x * y + x * (1.0 - y) == x;
    assert 0.0 <= x * (1.0 - y);
  }

  lemma Pow5Unit(x: real)
    requires 0.0 <= x <= 1.0
    ensures 0.0 <= Pow5(x) <= 1.0
  {
    var x2 := x * x;
    ScaleDown(x, x);
    var x4 := x2 * x2;
    ScaleDown(x2, x2);
    assert Pow5(x) == x4 * x;
    ScaleDown(x4, x);
  }

  lemma ConvexCombination(a: real, p: real)
    requires 0.0 <= a <= 1.0 && 0.0 <= p <= 1.0
    ensures a <= a + (1.0 - a) * p
    ensures a + (1.0 - a) * p <= 1.0
  {
    var q := 1.0 - a;
    ScaleDown(q, p);
    assert a + q * p <= 1.0;
  }

  /**
   * `cannot_refract`: `ratio * sqrt(1 - cos^2) > 1`. When `1 - cos^2` is
   * negative the f64 square root is NaN and the comparison is false.
   */
  predicate CannotRefract(refractionRatio: real, cosTheta: real, sqrt: real -> real) {
    var radicand := 1.0 - cosTheta * cosTheta;
    radicand >= 0.0 && refractionRatio * sqrt(radicand) > 1.0
  }

  /** The reflect branch: no refraction possible, or Schlick's reflectance beats the draw. */
  predicate ReflectChosen(refractionRatio: real, cosTheta: real, uniform: real, sqrt: real -> real)
    requires 1.0 + refractionRatio != 0.0
  {
    CannotRefract(refractionRatio, cosTheta, sqrt) || Reflectance(cosTheta, refractionRatio) > uniform
  }

  /** The `direction` the source chooses: the mirror reflection or the refraction. */
  function ChosenDirection(unitDirection: Vector, normal: Vector, refractionRatio: real, uniform: real,
                           sqrt: real -> real): Vector
    requires 1.0 + refractionRatio != 0.0
  {
    if ReflectChosen(refractionRatio, RefractCos(unitDirection, normal), uniform, sqrt)
    then Reflect(unitDirection, normal)
    else Refract(unitDirection, normal, refractionRatio, sqrt)
  }

  /** What every dielectric scatter needs: an index whose ratio can be divided by. */
  predicate Admissible(refractionIndex: real, rec: HitRecord) {
    (rec.frontFace ==> refractionIndex != 0.0) &&
    1.0 + RefractionRatio(refractionIndex, rec.frontFace) != 0.0
  }

  /**
   * `Dielectric::scatter` as the source writes it: the chosen `direction` is
   * computed but the result is built from `refracted_direction`.
   */
  function ScatterAsWritten(refractionIndex: real, ray: Ray, rec: HitRecord, uniform: real,
                            sqrt: real -> real): (res: Option<ScatterResult>)
    requires SqrtSpec(sqrt)
    requires ray.direction != Zeroes()
    requires Admissible(refractionIndex, rec)
    ensures res.Some? && res.value.attenuation == White()
    ensures res.value.scattered.origin == rec.point
    ensures res.value.scattered.direction ==
            Refract(Unit(ray.direction, sqrt), rec.normal, RefractionRatio(refractionIndex, rec.frontFace), sqrt)
  {
    var attenuation := White();
    var refractionRatio := RefractionRatio(refractionIndex, rec.frontFace);
    var unitDirection := Unit(ray.direction, sqrt);
    var refractedDirection := Refract(unitDirection, rec.normal, refractionRatio, sqrt);
    var direction := ChosenDirection(unitDirection, rec.normal, refractionRatio, uniform, sqrt);
    Some(ScatterResult(Ray(rec.point, refractedDirection), attenuation))
  }

  /** As written, the uniform draw has no effect on the result. */
  lemma AsWrittenIgnoresDraw(refractionIndex: real, ray: Ray, rec: HitRecord, u1: real, u2: real, sqrt: real -> real)
    requires SqrtSpec(sqrt)
    requires ray.direction != Zeroes()
    requires Admissible(refractionIndex, rec)
    ensures ScatterAsWritten(refractionIndex, ray, rec, u1, sqrt) == ScatterAsWritten(refractionIndex, ray, rec, u2, sqrt)
  {
  }

  /**
   * As written, whenever Snell's law rules refraction out at a unit normal,
   * the returned direction is not the mirror reflection the source chose.
   */
  lemma AsWrittenIgnoresTotalReflection(refractionIndex: real, ray: Ray, rec: HitRecord, uniform: real,
                                        sqrt: real -> real)
    requires SqrtSpec(sqrt)
    requires ray.direction != Zeroes()
    requires Admissible(refractionIndex, rec)
    requires SizeSquared(rec.normal) == 1.0
    requires CannotRefract(RefractionRatio(refractionIndex, rec.frontFace),
                           RefractCos(Unit(ray.direction, sqrt), rec.normal), sqrt)
    ensures ScatterAsWritten(refractionIndex, ray, rec, uniform, sqrt).value.scattered.direction !=
            Reflect(Unit(ray.direction, sqrt), rec.normal)
  {
    RefractDiffersFromReflect(Unit(ray.direction, sqrt), rec.normal,
                              RefractionRatio(refractionIndex, rec.frontFace), sqrt);
  }

  /**
   * The input named in the findings: leaving glass of index 1.5 through its
   * back face (so the ratio is 1.5), along the unit direction (0.8, 0, -0.6)
   * against the stored normal (0, 0, 1). The cosine is 0.6 and the sine 0.8,
   * so Snell's law rules refraction out (`1.5 * 0.8 > 1`), yet `refract`
   * does not give the mirror reflection (0.8, 0, 0.6).
   */
  lemma TotalReflectionExample(u: Vector, n: Vector, sqrt: real -> real)
    requires SqrtSpec(sqrt)
    requires u == Vector(0.8, 0.0, -0.6) && n == Vector(0.0, 0.0, 1.0)
    ensures CannotRefract(1.5, RefractCos(u, n), sqrt)
    ensures Reflect(u, n) == Vector(0.8, 0.0, 0.6)
    ensures Refract(u, n, 1.5, sqrt) != Reflect(u, n)
  {
    ExampleCos(u, n);
    ExampleSin(sqrt);
    RefractDiffersFromReflect(u, n, 1.5, sqrt);
  }

  lemma ExampleCos(d: Vector, n: Vector)
    requires d == Vector(0.8, 0.0, -0.6) && n == Vector(0.0, 0.0, 1.0)
    ensures RefractCos(d, n) == 0.6
    ensures SizeSquared(d) == 1.0 && SizeSquared(n) == 1.0
    ensures Reflect(d, n) == Vector(0.8, 0.0, 0.6)
  {
    assert Dot(d, n) == -0.6;
    assert Scale(-1.0, d) == Vector(-0.8, 0.0, 0.6);
    assert Dot(Scale(-1.0, d), n) == 0.6;
    assert Scale(2.0 * Dot(d, n), n) == Vector(0.0, 0.0, -1.2);
  }

  lemma ExampleSin(sqrt: real -> real)
    requires SqrtSpec(sqrt)
    ensures CannotRefract(1.5, 0.6, sqrt)
  {
    assert 1.0 - 0.6 * 0.6 == 0.8 * 0.8;
    SqrtOfSquare(sqrt, 0.8);
  }

  /**
   * Under total internal reflection (`ratio * sin > 1` with `sin^2 = 1 - cos^2`)
   * at a unit normal, `refract` and `reflect` of a unit vector differ.
   */
  lemma RefractDiffersFromReflect(u: Vector, n: Vector, ratio: real, sqrt: real -> real)
    requires SqrtSpec(sqrt)
    requires SizeSquared(u) == 1.0 && SizeSquared(n) == 1.0
    requires CannotRefract(ratio, RefractCos(u, n), sqrt)
    ensures Refract(u, n, ratio, sqrt) != Reflect(u, n)
  {
    var c := RefractCos(u, n);
    NoTotalReflectionHeadOn(ratio, c, sqrt);
    var perp := RefractPerp(u, n, ratio);
    var k := -1.0 * sqrt(Abs(1.0 - SizeSquared(perp)));
    assert Refract(u, n, ratio, sqrt) == Add(perp, Scale(k, n));
    TangentSplitDiffers(u, n, c, ratio, k);
  }

  /**
   * For unit vectors at an angle (`cos^2 < 1`) and a ratio other than one, no
   * multiple of the normal added to the perpendicular part gives the mirror
   * reflection.
   */
  lemma TangentSplitDiffers(u: Vector, n: Vector, c: real, ratio: real, k: real)
    requires SizeSquared(u) == 1.0 && SizeSquared(n) == 1.0
    requires c == RefractCos(u, n) && c * c < 1.0
    requires ratio != 1.0
    ensures Add(RefractPerp(u, n, ratio), Scale(k, n)) != Reflect(u, n)
  {
    var cc := c * c;
    assert c == -Dot(u, n) by {
      CosineAtMostOne(u, n);
    }
    var t := Add(u, Scale(c, n));
    assert Dot(t, n) == 0.0 && SizeSquared(t) == 1.0 - cc by {
      TangentFacts(u, n, c);
    }
    assert RefractPerp(u, n, ratio) == Scale(ratio, t);
    assert Reflect(u, n) == Add(t, Scale(c, n)) by {
      ReflectSplit(u, n, c);
    }
    assert Add(Scale(ratio, t), Scale(k, n)) != Add(t, Scale(c, n)) by {
      if Add(Scale(ratio, t), Scale(k, n)) == Add(t, Scale(c, n)) {
        SplitAlongTangent(t, n, ratio, k, c);
      }
    }
  }

  /** With `c = -(u . n)`, the reflection of `u` is `(u + c n) + c n`. */
  lemma ReflectSplit(u: Vector, n: Vector, c: real)
    requires c == -Dot(u, n)
    ensures Reflect(u, n) == Add(Add(u, Scale(c, n)), Scale(c, n))
  {
    assert 2.0 * Dot(u, n) == -2.0 * c;
  }

  /**
   * Total internal reflection needs a positive `1 - cos^2`, so a cosine
   * other than one, and a ratio other than one.
   */
  lemma NoTotalReflectionHeadOn(ratio: real, c: real, sqrt: real -> real)
    requires SqrtSpec(sqrt)
    requires CannotRefract(ratio, c, sqrt)
    ensures c * c < 1.0 && c != 1.0 && ratio != 1.0
  {
    SquareNonNegative(c);
    SineFacts(ratio, sqrt(1.0 - c * c), 1.0 - c * c);
  }

  /** `ratio * sin > 1` with `sin >= 0` and `sin^2 = rad <= 1` forces `rad > 0` and `ratio != 1`. */
  lemma SineFacts(ratio: real, sin: real, rad: real)
    requires 0.0 <= sin && sin * sin == rad && rad <= 1.0
    requires ratio * sin > 1.0
    ensures rad > 0.0 && ratio != 1.0
  {
    if sin == 0.0 {
      MulZero(ratio, sin);
      assert false;
    }
    if ratio == 1.0 {
      SquareBelow(1.0, sin);
      assert false;
    }
    SquareBelow(0.0, sin);
  }

  /** `t = u + c n` with `c = -(u . n)` is orthogonal to `n` and has `|t|^2 = 1 - c^2`. */
  lemma TangentFacts(u: Vector, n: Vector, c: real)
    requires SizeSquared(u) == 1.0 && SizeSquared(n) == 1.0
    requires c == -Dot(u, n)
    ensures Dot(Add(u, Scale(c, n)), n) == 0.0
    ensures SizeSquared(Add(u, Scale(c, n))) == 1.0 - c * c
  {
    TangentOrthogonal(u, n, c);
    TangentLength(u, n, c);
  }

  lemma TangentOrthogonal(u: Vector, n: Vector, c: real)
    requires SizeSquared(n) == 1.0
    requires c == -Dot(u, n)
    ensures Dot(Add(u, Scale(c, n)), n) == 0.0
  {
    SizeSquaredIsDot(n);
    DotBilinear(u, Scale(c, n), n, c);
    DotBilinear(n, n, n, c);
    MulOne(c, Dot(n, n));
  }

  lemma TangentLength(u: Vector, n: Vector, c: real)
    requires SizeSquared(u) == 1.0 && SizeSquared(n) == 1.0
    requires c == -Dot(u, n)
    ensures SizeSquared(Add(u, Scale(c, n))) == 1.0 - c * c
  {
    SizeSquaredExpand(u, Scale(c, n), c);
    SizeSquaredExpand(n, n, c);
    MulOne(Sq(c), SizeSquared(n));
    DotBilinear(u, Scale(c, n), u, c);
    DotBilinear(n, u, u, c);
    CrossTerm(c, Dot(u, n));
  }

  lemma CrossTerm(c: real, p: real)
    requires c == -p
    ensures 1.0 + 2.0 * (c * p) + Sq(c) == 1.0 - c * c
  {
  }

  /** `ratio t + k n == t + c n` with `t . n == 0` and `t != 0` forces `ratio == 1`. */
  lemma SplitAlongTangent(t: Vector, n: Vector, ratio: real, k: real, c: real)
    requires Dot(t, n) == 0.0 && SizeSquared(t) > 0.0
    requires Add(Scale(ratio, t), Scale(k, n)) == Add(t, Scale(c, n))
    ensures ratio == 1.0
  {
    Rearrange(t.x, ratio, n.x, k, c);
    Rearrange(t.y, ratio, n.y, k, c);
    Rearrange(t.z, ratio, n.z, k, c);
    assert Scale(ratio - 1.0, t) == Scale(c - k, n);
    DotBilinear(t, t, t, ratio - 1.0);
    DotBilinear(n, t, t, c - k);
    MulZero(c - k, Dot(n, t));
    SizeSquaredIsDot(t);
    ZeroProduct(ratio - 1.0, Dot(t, t));
  }

  lemma Rearrange(a: real, r: real, b: real, k: real, c: real)
    requires a * r + b * k == a + b * c
    ensures a * (r - 1.0) == b * (c - k)
  {
  }

  lemma ZeroProduct(d: real, p: real)
    requires p != 0.0 && d * p == 0.0
    ensures d == 0.0
  {
  }

  /**
   * `Dielectric::scatter` with the chosen direction: always a result, white,
   * from the hit point, along the mirror reflection or the refraction as
   * Snell's law and the draw decide.
   */
  function Scatter(refractionIndex: real, ray: Ray, rec: HitRecord, uniform: real,
                   sqrt: real -> real): (res: Option<ScatterResult>)
    requires SqrtSpec(sqrt)
    requires ray.direction != Zeroes()
    requires Admissible(refractionIndex, rec)
    ensures res.Some? && res.value.attenuation == White()
    ensures res.value.scattered.origin == rec.point
    ensures var ratio := RefractionRatio(refractionIndex, rec.frontFace);
            var u := Unit(ray.direction, sqrt);
            res.value.scattered.direction ==
              if ReflectChosen(ratio, RefractCos(u, rec.normal), uniform, sqrt) then Reflect(u, rec.normal)
              else Refract(u, rec.normal, ratio, sqrt)
  {
    var attenuation := White();
    var refractionRatio := RefractionRatio(refractionIndex, rec.frontFace);
    var unitDirection := Unit(ray.direction, sqrt);
    var direction := ChosenDirection(unitDirection, rec.normal, refractionRatio, uniform, sqrt);
    Some(ScatterResult(Ray(rec.point, direction), attenuation))
  }

  /**
   * When Snell's law rules refraction out at a unit normal, the scattered
   * ray is the mirror reflection: it keeps unit length and stays on the
   * side it came from.
   */
  lemma TotalReflectionReflects(refractionIndex: real, ray: Ray, rec: HitRecord, uniform: real,
                                sqrt: real -> real)
    requires SqrtSpec(sqrt)
    requires ray.direction != Zeroes()
    requires Admissible(refractionIndex, rec)
    requires SizeSquared(rec.normal) == 1.0
    requires CannotRefract(RefractionRatio(refractionIndex, rec.frontFace),
                           RefractCos(Unit(ray.direction, sqrt), rec.normal), sqrt)
    ensures var d := Scatter(refractionIndex, ray, rec, uniform, sqrt).value.scattered.direction;
            d == Reflect(Unit(ray.direction, sqrt), rec.normal) &&
            SizeSquared(d) == 1.0 &&
            Dot(d, rec.normal) == -Dot(Unit(ray.direction, sqrt), rec.normal)
  {
    var u := Unit(ray.direction, sqrt);
    ReflectPreservesSize(u, rec.normal);
    ReflectDotNormal(u, rec.normal);
  }

  /**
   * When the refraction branch is taken at a unit normal, the scattered ray
   * is Snell's refraction: it crosses to the far side of the normal and, for
   * a non-negative ratio, has unit length.
   */
  lemma RefractionCrossesSurface(refractionIndex: real, ray: Ray, rec: HitRecord, uniform: real,
                                 sqrt: real -> real)
    requires SqrtSpec(sqrt)
    requires ray.direction != Zeroes()
    requires Admissible(refractionIndex, rec)
    requires SizeSquared(rec.normal) == 1.0
    requires RefractionRatio(refractionIndex, rec.frontFace) >= 0.0
    requires !ReflectChosen(RefractionRatio(refractionIndex, rec.frontFace),
                            RefractCos(Unit(ray.direction, sqrt), rec.normal), uniform, sqrt)
    ensures var d := Scatter(refractionIndex, ray, rec, uniform, sqrt).value.scattered.direction;
            d == Refract(Unit(ray.direction, sqrt), rec.normal, RefractionRatio(refractionIndex, rec.frontFace), sqrt) &&
            Dot(d, rec.normal) <= 0.0 &&
            SizeSquared(d) == 1.0
  {
    var u := Unit(ray.direction, sqrt);
    var ratio := RefractionRatio(refractionIndex, rec.frontFace);
    CosineAtMostOne(u, rec.normal);
    RefractIntoSurface(u, rec.normal, ratio, sqrt);
    PerpAtMostOne(u, rec.normal, ratio, sqrt);
    RefractUnitLength(u, rec.normal, ratio, sqrt);
  }

  /** For unit vectors `-(u . n) <= 1`, so `refract` never needs its clamp. */
  lemma CosineAtMostOne(u: Vector, n: Vector)
    requires SizeSquared(u) == 1.0 && SizeSquared(n) == 1.0
    ensures Dot(Scale(-1.0, u), n) <= 1.0
    ensures RefractCos(u, n) == -Dot(u, n)
  {
    var d := Dot(u, n);
    assert 0.0 <= 2.0 + 2.0 * d by {
      SizeSquaredExpand(u, n, 1.0);
      SizeSquaredIsDot(Add(u, n));
    }
    assert Dot(Scale(-1.0, u), n) == -d by {
      DotBilinear(u, n, n, -1.0);
    }
  }

  /** Without total internal reflection the perpendicular part is at most a unit long. */
  lemma PerpAtMostOne(u: Vector, n: Vector, ratio: real, sqrt: real -> real)
    requires SqrtSpec(sqrt)
    requires SizeSquared(u) == 1.0 && SizeSquared(n) == 1.0
    requires ratio >= 0.0
    requires !CannotRefract(ratio, RefractCos(u, n), sqrt)
    ensures SizeSquared(RefractPerp(u, n, ratio)) <= 1.0
  {
    PerpLength(u, n, ratio);
    CanRefractBound(ratio, RefractCos(u, n), sqrt);
  }

  /** For unit vectors the perpendicular part has squared length `ratio^2 (1 - cos^2)`. */
  lemma PerpLength(u: Vector, n: Vector, ratio: real)
    requires SizeSquared(u) == 1.0 && SizeSquared(n) == 1.0
    ensures var c := RefractCos(u, n);
            0.0 <= 1.0 - c * c && SizeSquared(RefractPerp(u, n, ratio)) == Sq(ratio) * (1.0 - c * c)
  {
    CosineAtMostOne(u, n);
    var c := RefractCos(u, n);
    var t := Add(u, Scale(c, n));
    assert SizeSquared(t) == 1.0 - c * c by {
      TangentLength(u, n, c);
    }
    assert 0.0 <= SizeSquared(t) by {
      SizeSquaredIsDot(t);
    }
    assert RefractPerp(u, n, ratio) == Scale(ratio, t);
    SizeSquaredExpand(t, t, ratio);
  }

  lemma CanRefractBound(ratio: real, c: real, sqrt: real -> real)
    requires SqrtSpec(sqrt)
    requires ratio >= 0.0
    requires !CannotRefract(ratio, c, sqrt) && 0.0 <= 1.0 - c * c
    ensures Sq(ratio) * (1.0 - c * c) <= 1.0
  {
    RatioSineBound(ratio, c, sqrt);
    var rad := 1.0 - c * c;
    PerpBound(ratio, sqrt(rad), rad);
  }

  lemma RatioSineBound(ratio: real, c: real, sqrt: real -> real)
    requires !CannotRefract(ratio, c, sqrt) && 0.0 <= 1.0 - c * c
    ensures ratio * sqrt(1.0 - c * c) <= 1.0
  {
  }

  lemma PerpBound(ratio: real, sin: real, rad: real)
    requires 0.0 <= ratio && 0.0 <= sin && 0.0 <= rad && sin * sin == rad
    requires ratio * sin <= 1.0
    ensures Sq(ratio) * rad <= 1.0
  {
    var p := ratio * sin;
    assert 0.0 <= p;
    SquareAtMostOne(p);
    assert p * p == Sq(ratio) * rad;
  }

  /** Entering a medium at least as dense as air, refraction is always possible. */
  lemma EnteringDenserCanRefract(refractionIndex: real, cosTheta: real, sqrt: real -> real)
    requires SqrtSpec(sqrt)
    requires refractionIndex >= 1.0
    ensures !CannotRefract(RefractionRatio(refractionIndex, true), cosTheta, sqrt)
  {
    var ratio := RefractionRatio(refractionIndex, true);
    var rad := 1.0 - cosTheta * cosTheta;
    if rad >= 0.0 {
      var sin := sqrt(rad);
      assert cosTheta * cosTheta >= 0.0;
      SinAtMostOne(sin, rad);
      assert ratio * refractionIndex == 1.0;
      assert 0.0 < ratio <= 1.0;
      assert ratio * sin <= sin;
    }
  }

  lemma SinAtMostOne(sin: real, rad: real)
    requires 0.0 <= sin && sin * sin == rad && rad <= 1.0
    ensures sin <= 1.0
  {
    if sin > 1.0 {
      SquareBelow(1.0, sin);
      assert false;
    }
  }
}
