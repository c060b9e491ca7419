/**
 * The three-component vector algebra shared by `Vector`, `Point` and `Color`
 * (the `implement_*` macros and `src/vectors/vector.rs`), over `real`.
 *
 * `sqrt` is not computable over Dafny's reals; every operation that takes a
 * square root receives it as a parameter `sqrt: real -> real` that satisfies
 * `SqrtSpec`.
 */
module Vectors {
  import opened Options

  datatype Vector = Vector(x: real, y: real, z: real)

  /** A vector used as a position. */
  type Point = Vector

  /** A vector whose components are red, green and blue. */
  type Color = Vector

  /** Values whose magnitude is under this number are treated as zero. */
  const NearZeroThreshold: real := 0.00000001

  /** What the model assumes of f64 `sqrt` on non-negative arguments. */
  ghost predicate SqrtSpec(sqrt: real -> real) {
    forall d :: 0.0 <= d ==> 0.0 <= sqrt(d) && sqrt(d) * sqrt(d) == d
  }

  function Abs(r: real): real {
    if r < 0.0 then -r else r
  }

  /** `f64::min`. */
  function Min(a: real, b: real): real {
    if a <= b then a else b
  }

  function Zeroes(): Vector {
    Vector(0.0, 0.0, 0.0)
  }

  function Add(a: Vector, b: Vector): Vector {
    Vector(a.x + b.x, a.y + b.y, a.z + b.z)
  }

  function Sub(a: Vector, b: Vector): Vector {
    Vector(a.x - b.x, a.y - b.y, a.z - b.z)
  }

  /** Componentwise product (`Mul for Vector`). */
  function Mul(a: Vector, b: Vector): Vector {
    Vector(a.x * b.x, a.y * b.y, a.z * b.z)
  }

  /** `k * v` (`Mul<Vector> for f64`). */
  function Scale(k: real, v: Vector): Vector {
    Vector(v.x * k, v.y * k, v.z * k)
  }

  /** `v / k` (`Div<f64> for Vector`). */
  function DivScalar(v: Vector, k: real): Vector
    requires k != 0.0
  {
    Vector(v.x / k, v.y / k, v.z / k)
  }

  /** Componentwise quotient (`Div for Vector`). */
  function Div(a: Vector, b: Vector): Vector
    requires b.x != 0.0 && b.y != 0.0 && b.z != 0.0
  {
    Vector(a.x / b.x, a.y / b.y, a.z / b.z)
  }

  function Dot(a: Vector, b: Vector): real {
    a.x * b.x + a.y * b.y + a.z * b.z
  }

  function SizeSquared(v: Vector): real {
    v.x * v.x + v.y * v.y + v.z * v.z
  }

  /** `size_squared` as the macro writes it: one accumulation per field. */
  method SizeSquaredStepwise(v: Vector) returns (result: real)
    ensures result == SizeSquared(v)
    ensures result == Dot(v, v) && 0.0 <= result
  {
    result := 0.0;
    result := result + v.x * v.x;
    result := result + v.y * v.y;
    result := result + v.z * v.z;
    SizeSquaredIsDot(v);
  }

  /** `dot` as the macro writes it: one accumulation per field. */
  method DotStepwise(a: Vector, b: Vector) returns (result: real)
    ensures result == Dot(a, b)
    ensures result == Dot(b, a)
  {
    result := 0.0;
    result := result + a.x * b.x;
    result := result + a.y * b.y;
    result := result + a.z * b.z;
  }

  function Size(v: Vector, sqrt: real -> real): real {
    sqrt(SizeSquared(v))
  }

  /** Only the zero vector has size zero. */
  lemma SizeSquaredIsDot(v: Vector)
    ensures SizeSquared(v) == Dot(v, v)
    ensures 0.0 <= SizeSquared(v)
    ensures SizeSquared(v) == 0.0 <==> v == Zeroes()
  {
    assert 0.0 <= v.x * v.x && 0.0 <= v.y * v.y && 0.0 <= v.z * v.z;
    if SizeSquared(v) == 0.0 {
      SquareZero(v.x);
      SquareZero(v.y);
      SquareZero(v.z);
    }
  }

  /** A nonzero vector has a positive size. */
  lemma SizePositive(v: Vector, sqrt: real -> real)
    requires SqrtSpec(sqrt)
    requires v != Zeroes()
    ensures Size(v, sqrt) > 0.0
  {
    SizeSquaredIsDot(v);
    if Size(v, sqrt) == 0.0 {
      assert false;
    }
  }

  /** `v / v.size()`: a vector of length one pointing the same way. */
  function Unit(v: Vector, sqrt: real -> real): (u: Vector)
    requires SqrtSpec(sqrt)
    requires v != Zeroes()
    ensures SizeSquared(u) == 1.0
    ensures Scale(Size(v, sqrt), u) == v
  {
    SizeSquaredIsDot(v);
    var s := Size(v, sqrt);
    var ss := SizeSquared(v);
    assert Sq(s) == ss && ss != 0.0;
    var p := Sq(s);
    var q := SizeSquared(DivScalar(v, s));
    assert p * q == ss by { SizeSquaredDivScalar(v, s); }
    UnitFactor(p, q, ss);
    ScaleDivInverse(s, v);
    DivScalar(v, s)
  }

  function Cross(a: Vector, b: Vector): Vector {
    Vector(a.y * b.z - a.z * b.y,
           a.z * b.x - a.x * b.z,
           a.x * b.y - a.y * b.x)
  }

  /** `v - 2 (v . n) n`: mirror `v` in the plane whose normal is `n`. */
  function Reflect(v: Vector, normal: Vector): Vector {
    Sub(v, Scale(2.0 * Dot(v, normal), normal))
  }

  /** The cosine `refract` works with, clamped to at most one. */
  function RefractCos(v: Vector, normal: Vector): (c: real)
    ensures c <= 1.0
    ensures c == Dot(Scale(-1.0, v), normal) || (c == 1.0 && Dot(Scale(-1.0, v), normal) > 1.0)
  {
    Min(Dot(Scale(-1.0, v), normal), 1.0)
  }

  /** The part of the refracted ray perpendicular to the normal. */
  function RefractPerp(v: Vector, normal: Vector, refractionRatio: real): Vector {
    Scale(refractionRatio, Add(v, Scale(RefractCos(v, normal), normal)))
  }

  /** Snell's law split into a perpendicular and a parallel part. */
  function Refract(v: Vector, normal: Vector, refractionRatio: real, sqrt: real -> real): Vector {
    var perp := RefractPerp(v, normal, refractionRatio);
    var parallel := Scale(-1.0 * sqrt(Abs(1.0 - SizeSquared(perp))), normal);
    Add(perp, parallel)
  }

  /**
   * `near_zero`: every component is below `NearZeroThreshold` in magnitude.
   * The function's definition is not modelled; this is the meaning its
   * threshold constant documents.
   */
  predicate NearZero(v: Vector) {
    Abs(v.x) < NearZeroThreshold && Abs(v.y) < NearZeroThreshold && Abs(v.z) < NearZeroThreshold
  }

  /**
   * `random_in_unit_sphere`: reject draws until one lies in the unit ball.
   * The draws of `Vector::random(-1.0, 1.0)` are given as a sequence; `None`
   * means the sequence ran out before a draw was accepted.
   */
  method RandomInUnitSphere(draws: seq<Vector>) returns (r: Option<Vector>)
    ensures r.Some? ==> SizeSquared(r.value) <= 1.0
    ensures r.Some? ==> exists k :: 0 <= k < |draws| && draws[k] == r.value &&
                                    forall j :: 0 <= j < k ==> SizeSquared(draws[j]) > 1.0
    ensures r.None? <==> forall j :: 0 <= j < |draws| ==> SizeSquared(draws[j]) > 1.0
  {
    var i := 0;
    while i < |draws|
      invariant 0 <= i <= |draws|
      invariant forall j :: 0 <= j < i ==> SizeSquared(draws[j]) > 1.0
    {
      var candidate := draws[i];
      if SizeSquared(candidate) <= 1.0 {
        return Some(candidate);
      }
      i := i + 1;
    }
    return None;
  }

  /** `random_unit_vector`: the accepted draw of the unit ball, normalised. */
  function RandomUnitVector(inSphere: Vector, sqrt: real -> real): (u: Vector)
    requires SqrtSpec(sqrt)
    requires inSphere != Zeroes()
    ensures SizeSquared(u) == 1.0
    ensures Scale(Size(inSphere, sqrt), u) == inSphere
    ensures Dot(u, inSphere) > 0.0
  {
    var u := Unit(inSphere, sqrt);
    var s := Size(inSphere, sqrt);
    SizeSquaredIsDot(inSphere);
    assert inSphere == Scale(s, u);
    assert Dot(u, inSphere) == s * SizeSquared(u);
    u
  }

  lemma SqrtOfSquare(sqrt: real -> real, r: real)
    requires SqrtSpec(sqrt)
    requires 0.0 <= r
    ensures sqrt(r * r) == r
  {
    SquareEq(sqrt(r * r), r);
  }

  function Sq(r: real): real {
    r * r
  }

  lemma MulOne(k: real, x: real)
    requires x == 1.0
    ensures k * x == k
  {
  }

  lemma MulZero(k: real, x: real)
    requires x == 0.0
    ensures k * x == 0.0
  {
  }

  /** `p * x == p` with `p` nonzero forces `x == 1`. */
  lemma UnitFactor(p: real, x: real, r: real)
    requires p == r && r != 0.0 && p * x == r
    ensures x == 1.0
  {
    calc {
      r * x;
      p * x;
      r;
    }
    CancelFactor(r, x);
  }

  lemma CancelFactor(p: real, x: real)
    requires p != 0.0 && p * x == p
    ensures x == 1.0
  {
    assert p * (x - 1.0) == 0.0;
  }

  lemma SquareBelow(a: real, t: real)
    requires 0.0 <= a < t
    ensures a * a < t * t
  {
    var d := t - a;
    assert t * t == a * a + 2.0 * a * d + d * d;
    assert d * d > 0.0;
    assert a * d >= 0.0;
  }

  lemma SquareZero(r: real)
    requires r * r == 0.0
    ensures r == 0.0
  {
    if r > 0.0 { SquareBelow(0.0, r); assert false; }
    if r < 0.0 { SquareBelow(0.0, -r); assert false; }
  }

  lemma SquareEq(s: real, r: real)
    requires 0.0 <= s && 0.0 <= r && s * s == r * r
    ensures s == r
  {
    if s < r { SquareBelow(s, r); assert false; }
    if r < s { SquareBelow(r, s); assert false; }
  }

  /** The worked examples in the macros' doc comments. */
  lemma DocExamples()
    ensures Dot(Vector(1.0, 2.0, 3.0), Vector(1.0, 0.0, 1.0)) == 4.0
    ensures Add(Vector(1.0, 0.0, 1.0), Vector(1.0, 2.0, 3.0)) == Vector(2.0, 2.0, 4.0)
    ensures Sub(Vector(1.0, 0.0, 1.0), Vector(1.0, 2.0, 3.0)) == Vector(0.0, -2.0, -2.0)
    ensures Scale(2.0, Vector(1.0, 2.0, 3.0)) == Vector(2.0, 4.0, 6.0)
    ensures Div(Vector(2.0, 4.0, 2.0), Vector(2.0, 1.0, 2.0)) == Vector(1.0, 4.0, 1.0)
    ensures DivScalar(Vector(2.0, 4.0, 2.0), 2.0) == Vector(1.0, 2.0, 1.0)
    ensures Zeroes() == Vector(0.0, 0.0, 0.0)
  {
  }

  /** Subtraction undoes addition and the other way round. */
  lemma AddSubInverse(a: Vector, b: Vector)
    ensures Sub(Add(a, b), b) == a
    ensures Add(Sub(a, b), b) == a
    ensures Add(a, b) == Add(b, a)
    ensures Add(a, Zeroes()) == a
  {
  }

  /** Division by a scalar undoes scaling by it. */
  lemma ScaleDivInverse(k: real, v: Vector)
    requires k != 0.0
    ensures DivScalar(Scale(k, v), k) == v
    ensures Scale(k, DivScalar(v, k)) == v
  {
    DivUndoesScale(k, v);
    ScaleUndoesDiv(k, v);
  }

  lemma DivUndoesScale(k: real, v: Vector)
    requires k != 0.0
    ensures DivScalar(Scale(k, v), k) == v
  {
    var w := Scale(k, v);
    var d := DivScalar(w, k);
    assert d.x == v.x by { MulDivCancel(v.x, k); }
    assert d.y == v.y by { MulDivCancel(v.y, k); }
    assert d.z == v.z by { MulDivCancel(v.z, k); }
  }

  lemma ScaleUndoesDiv(k: real, v: Vector)
    requires k != 0.0
    ensures Scale(k, DivScalar(v, k)) == v
  {
    MulDivCancel(v.x, k);
    MulDivCancel(v.y, k);
    MulDivCancel(v.z, k);
    assert Scale(k, DivScalar(v, k)) == Vector((v.x / k) * k, (v.y / k) * k, (v.z / k) * k);
  }

  lemma MulDivCancel(a: real, k: real)
    requires k != 0.0
    ensures (a * k) / k == a
    ensures (a / k) * k == a
  {
  }

  /** Componentwise division undoes componentwise multiplication. */
  lemma MulDivInverse(a: Vector, b: Vector)
    requires b.x != 0.0 && b.y != 0.0 && b.z != 0.0
    ensures Div(Mul(a, b), b) == a
    ensures Mul(Div(a, b), b) == a
  {
  }

  /** The dot product is symmetric and linear in its first argument. */
  lemma DotBilinear(a: Vector, b: Vector, c: Vector, k: real)
    ensures Dot(a, b) == Dot(b, a)
    ensures Dot(Add(a, b), c) == Dot(a, c) + Dot(b, c)
    ensures Dot(Sub(a, b), c) == Dot(a, c) - Dot(b, c)
    ensures Dot(Scale(k, a), b) == k * Dot(a, b)
  {
  }

  /** Dividing by `k` divides the squared length by `k^2`. */
  lemma SizeSquaredDivScalar(v: Vector, k: real)
    requires k != 0.0
    ensures Sq(k) * SizeSquared(DivScalar(v, k)) == SizeSquared(v)
  {
    var u := DivScalar(v, k);
    assert Scale(k, u) == v;
    SizeSquaredExpand(u, u, k);
  }

  /** Expanding the length of a sum and of a multiple. */
  lemma SizeSquaredExpand(p: Vector, q: Vector, k: real)
    ensures SizeSquared(Add(p, q)) == SizeSquared(p) + 2.0 * Dot(p, q) + SizeSquared(q)
    ensures SizeSquared(Scale(k, p)) == Sq(k) * SizeSquared(p)
  {
    assert (p.x + q.x) * (p.x + q.x) == p.x * p.x + 2.0 * (p.x * q.x) + q.x * q.x;
    assert (p.y + q.y) * (p.y + q.y) == p.y * p.y + 2.0 * (p.y * q.y) + q.y * q.y;
    assert (p.z + q.z) * (p.z + q.z) == p.z * p.z + 2.0 * (p.z * q.z) + q.z * q.z;
    assert (p.x * k) * (p.x * k) == k * k * (p.x * p.x);
    assert (p.y * k) * (p.y * k) == k * k * (p.y * p.y);
    assert (p.z * k) * (p.z * k) == k * k * (p.z * p.z);
  }

  /** The cross product is anti-commutative and orthogonal to both operands. */
  lemma CrossProperties(a: Vector, b: Vector)
    ensures Cross(a, a) == Zeroes()
    ensures Cross(a, b) == Scale(-1.0, Cross(b, a))
    ensures Dot(Cross(a, b), a) == 0.0
    ensures Dot(Cross(a, b), b) == 0.0
  {
  }

  /** Reflecting in a unit normal negates the normal component. */
  lemma ReflectDotNormal(v: Vector, n: Vector)
    requires SizeSquared(n) == 1.0
    ensures Dot(Reflect(v, n), n) == -Dot(v, n)
  {
    var k := 2.0 * Dot(v, n);
    DotBilinear(v, Scale(k, n), n, k);
    DotBilinear(n, n, n, k);
    assert Dot(Scale(k, n), n) == k * Dot(n, n);
    assert Dot(n, n) == 1.0;
  }

  /** Reflecting twice in the same unit normal gives back the vector. */
  lemma ReflectTwice(v: Vector, n: Vector)
    requires SizeSquared(n) == 1.0
    ensures Reflect(Reflect(v, n), n) == v
  {
    ReflectDotNormal(v, n);
    var r := Reflect(v, n);
    assert Reflect(r, n) == Sub(r, Scale(-2.0 * Dot(v, n), n));
  }

  /** A vector lying in the mirror plane is unchanged by reflection. */
  lemma ReflectOrthogonal(v: Vector, n: Vector)
    requires Dot(v, n) == 0.0
    ensures Reflect(v, n) == v
  {
  }

  /** Reflection in a unit normal keeps the length. */
  lemma ReflectPreservesSize(v: Vector, n: Vector)
    requires SizeSquared(n) == 1.0
    ensures SizeSquared(Reflect(v, n)) == SizeSquared(v)
  {
    var k := 2.0 * Dot(v, n);
    var w := Scale(k, n);
    assert Dot(w, w) == k * k * Dot(n, n);
    assert Dot(v, w) == k * Dot(v, n);
    assert Dot(Sub(v, w), Sub(v, w)) == Dot(v, v) - 2.0 * Dot(v, w) + Dot(w, w);
    SizeSquaredIsDot(v);
    SizeSquaredIsDot(Sub(v, w));
  }

  /**
   * When the cosine is not clamped and the normal has length one, the
   * perpendicular part is orthogonal to the normal and the refracted ray
   * leaves on the far side of the surface.
   */
  lemma RefractIntoSurface(v: Vector, n: Vector, ratio: real, sqrt: real -> real)
    requires SqrtSpec(sqrt)
    requires SizeSquared(n) == 1.0
    requires Dot(Scale(-1.0, v), n) <= 1.0
    ensures Dot(RefractPerp(v, n, ratio), n) == 0.0
    ensures Dot(Refract(v, n, ratio, sqrt), n) <= 0.0
  {
    SizeSquaredIsDot(n);
    var c := RefractCos(v, n);
    DotBilinear(v, n, n, -1.0);
    var inner := Add(v, Scale(c, n));
    DotBilinear(v, Scale(c, n), n, ratio);
    DotBilinear(n, n, n, c);
    DotBilinear(inner, n, n, ratio);
    var perp := RefractPerp(v, n, ratio);
    var s := sqrt(Abs(1.0 - SizeSquared(perp)));
    DotBilinear(perp, Scale(-1.0 * s, n), n, -1.0 * s);
    DotBilinear(n, n, n, -1.0 * s);
  }

  /**
   * Under the same conditions, when the perpendicular part is not longer
   * than one, the refracted ray has length one.
   */
  lemma RefractUnitLength(v: Vector, n: Vector, ratio: real, sqrt: real -> real)
    requires SqrtSpec(sqrt)
    requires SizeSquared(n) == 1.0
    requires Dot(Scale(-1.0, v), n) <= 1.0
    requires SizeSquared(RefractPerp(v, n, ratio)) <= 1.0
    ensures SizeSquared(Refract(v, n, ratio, sqrt)) == 1.0
  {
    RefractIntoSurface(v, n, ratio, sqrt);
    var perp := RefractPerp(v, n, ratio);
    var s := sqrt(Abs(1.0 - SizeSquared(perp)));
    var k := -1.0 * s;
    var par := Scale(k, n);
    assert Sq(k) == 1.0 - SizeSquared(perp);
    SizeSquaredExpand(n, n, k);
    MulOne(Sq(k), SizeSquared(n));
    DotBilinear(n, perp, perp, k);
    DotBilinear(par, perp, perp, k);
    MulZero(k, Dot(n, perp));
    SizeSquaredExpand(perp, par, k);
  }

  /** A vector of length one is never near zero. */
  lemma UnitNotNearZero(v: Vector)
    requires SizeSquared(v) == 1.0
    ensures !NearZero(v)
  {
    if NearZero(v) {
      var t := NearZeroThreshold;
      assert v.x * v.x == Abs(v.x) * Abs(v.x);
      assert v.y * v.y == Abs(v.y) * Abs(v.y);
      assert v.z * v.z == Abs(v.z) * Abs(v.z);
      SquareBelow(Abs(v.x), t);
      SquareBelow(Abs(v.y), t);
      SquareBelow(Abs(v.z), t);
      assert false;
    }
  }
}
