/**
 * Hittable objects and the nearest-hit search over a collection of them
 * (`src/engine/hittables/hittable_collection.rs`).
 *
 * The `Hittable` trait objects of the program are the closed datatype
 * `Hittable`: a sphere, or a collection of further hittables. The
 * collection itself, whose list `add` and `clear` change in place, is the
 * class `HittableCollection`; its `Hit` method is the program's loop and is
 * proved to compute the fold `Scan`.
 */
module Hittables {
  import opened Options
  import opened Vectors
  import opened Rays
  import opened HitRecords
  import Spheres

  datatype Hittable =
    | SphereObject(sphere: Spheres.Sphere)
    | Collection(members: seq<Hittable>)

  /** Every sphere inside has a nonzero radius (the sphere divides by it). */
  predicate WellFormed(h: Hittable)
    decreases h
  {
    match h
    case SphereObject(s) => s.radius != 0.0
    case Collection(items) => forall j :: 0 <= j < |items| ==> WellFormed(items[j])
  }

  /** The loop state of `HittableCollection::hit`: the shrinking bound and the best record so far. */
  datatype ScanState = ScanState(smallestDistance: real, result: Option<HitRecord>)

  /** `hit` of any hittable: the sphere test, or the nearest-hit loop of a collection. */
  function HitObject(h: Hittable, ray: Ray, tMin: real, tMax: real, sqrt: real -> real): (r: Option<HitRecord>)
    requires ray.direction != Zeroes()
    requires WellFormed(h)
    ensures r.Some? ==> tMin <= r.value.t <= tMax
    decreases h
  {
    match h
    case SphereObject(s) => Spheres.Hit(s, ray, tMin, tMax, sqrt)
    case Collection(items) => Scan(items, |items|, ray, tMin, tMax, sqrt).result
  }

  /**
   * The loop state after the first `n` members: it starts at `(t_max, None)`,
   * and a member that reports a hit under the current bound makes its `t` the
   * new bound and its record the result.
   */
  function Scan(items: seq<Hittable>, n: nat, ray: Ray, tMin: real, tMax: real, sqrt: real -> real): (st: ScanState)
    requires ray.direction != Zeroes()
    requires n <= |items|
    requires forall j :: 0 <= j < |items| ==> WellFormed(items[j])
    ensures st.smallestDistance <= tMax
    ensures st.result.Some? ==> st.result.value.t == st.smallestDistance && tMin <= st.smallestDistance
    ensures st.result.None? ==> st.smallestDistance == tMax
    decreases items, n
  {
    if n == 0 then
      ScanState(tMax, None)
    else
      var before := Scan(items, n - 1, ray, tMin, tMax, sqrt);
      match HitObject(items[n - 1], ray, tMin, before.smallestDistance, sqrt)
      case Some(rec) => ScanState(rec.t, Some(rec))
      case None => before
  }

  /** The parameters at which the ray meets the surface of `h`. */
  ghost predicate Surface(h: Hittable, ray: Ray, t: real)
    decreases h
  {
    match h
    case SphereObject(s) => Spheres.OnSurface(s, ray, t)
    case Collection(items) => exists j :: 0 <= j < |items| && Surface(items[j], ray, t)
  }

  // ---------------------------------------------------------------------
  // The loop's bound and result.

  /** `smallest_distance` never increases from one member to the next. */
  lemma BoundNeverIncreases(items: seq<Hittable>, n: nat, ray: Ray, tMin: real, tMax: real, sqrt: real -> real)
    requires ray.direction != Zeroes()
    requires 0 < n <= |items|
    requires forall j :: 0 <= j < |items| ==> WellFormed(items[j])
    ensures Scan(items, n, ray, tMin, tMax, sqrt).smallestDistance <=
            Scan(items, n - 1, ray, tMin, tMax, sqrt).smallestDistance
  {
  }

  /** No record comes back exactly when no member reports a hit in `[t_min, t_max]`. */
  lemma NoneIffAllMiss(items: seq<Hittable>, n: nat, ray: Ray, tMin: real, tMax: real, sqrt: real -> real)
    requires ray.direction != Zeroes()
    requires n <= |items|
    requires forall j :: 0 <= j < |items| ==> WellFormed(items[j])
    ensures Scan(items, n, ray, tMin, tMax, sqrt).result.None? <==>
            forall j :: 0 <= j < n ==> HitObject(items[j], ray, tMin, tMax, sqrt).None?
    decreases n
  {
    if n > 0 {
      NoneIffAllMiss(items, n - 1, ray, tMin, tMax, sqrt);
    }
  }

  /**
   * Member `j` reported `r` under the bound of its turn, and the members
   * after it, up to `n`, miss `[t_min, r.t]`.
   */
  ghost predicate WonBy(items: seq<Hittable>, j: nat, n: nat, ray: Ray, tMin: real, tMax: real, sqrt: real -> real,
                        r: HitRecord)
    requires ray.direction != Zeroes()
    requires j < n <= |items|
    requires forall i :: 0 <= i < |items| ==> WellFormed(items[i])
  {
    HitObject(items[j], ray, tMin, Scan(items, j, ray, tMin, tMax, sqrt).smallestDistance, sqrt) == Some(r) &&
    forall k :: j < k < n ==> HitObject(items[k], ray, tMin, r.t, sqrt).None?
  }

  /**
   * The result is the record of the last member that reported a hit under
   * the bound of its turn, and every later member misses `[t_min, t]`: of
   * two members reporting the same distance, the later one wins.
   */
  lemma LastReportWins(items: seq<Hittable>, n: nat, ray: Ray, tMin: real, tMax: real, sqrt: real -> real)
    requires ray.direction != Zeroes()
    requires n <= |items|
    requires forall j :: 0 <= j < |items| ==> WellFormed(items[j])
    ensures var r := Scan(items, n, ray, tMin, tMax, sqrt).result;
            r.Some? ==> exists j :: 0 <= j < n && WonBy(items, j, n, ray, tMin, tMax, sqrt, r.value)
    decreases n
  {
    if n > 0 {
      var before := Scan(items, n - 1, ray, tMin, tMax, sqrt);
      var r := Scan(items, n, ray, tMin, tMax, sqrt).result;
      var report := HitObject(items[n - 1], ray, tMin, before.smallestDistance, sqrt);
      if report.Some? {
        assert WonBy(items, n - 1, n, ray, tMin, tMax, sqrt, r.value);
      } else if r.Some? {
        assert r == before.result && before.smallestDistance == r.value.t;
        LastReportWins(items, n - 1, ray, tMin, tMax, sqrt);
        var j :| 0 <= j < n - 1 && WonBy(items, j, n - 1, ray, tMin, tMax, sqrt, r.value);
        assert WonBy(items, j, n, ray, tMin, tMax, sqrt, r.value);
      }
    }
  }

  /** The result's `t` is at most the distance member `k` reported on its turn. */
  lemma ResultBelowReport(items: seq<Hittable>, n: nat, k: nat, ray: Ray, tMin: real, tMax: real, sqrt: real -> real)
    requires ray.direction != Zeroes()
    requires k < n <= |items|
    requires forall j :: 0 <= j < |items| ==> WellFormed(items[j])
    requires HitObject(items[k], ray, tMin, Scan(items, k, ray, tMin, tMax, sqrt).smallestDistance, sqrt).Some?
    ensures Scan(items, n, ray, tMin, tMax, sqrt).result.Some?
    ensures Scan(items, n, ray, tMin, tMax, sqrt).result.value.t <=
            HitObject(items[k], ray, tMin, Scan(items, k, ray, tMin, tMax, sqrt).smallestDistance, sqrt).value.t
    decreases n
  {
    var before := Scan(items, n - 1, ray, tMin, tMax, sqrt);
    var report := HitObject(items[n - 1], ray, tMin, before.smallestDistance, sqrt);
    assert Scan(items, n, ray, tMin, tMax, sqrt) == if report.Some? then ScanState(report.value.t, report) else before;
    if k < n - 1 {
      ResultBelowReport(items, n - 1, k, ray, tMin, tMax, sqrt);
    }
  }

  // ---------------------------------------------------------------------
  // The nearest hit.

  /**
   * A hit lies on the surface inside `[t_min, t_max]`, and no point of the
   * surface inside that interval is nearer; in particular no hit means the
   * surface has no point there.
   */
  lemma HitIsNearest(h: Hittable, ray: Ray, tMin: real, tMax: real, sqrt: real -> real)
    requires SqrtSpec(sqrt)
    requires ray.direction != Zeroes()
    requires WellFormed(h)
    ensures var r := HitObject(h, ray, tMin, tMax, sqrt);
            r.Some? ==> Surface(h, ray, r.value.t)
    ensures var r := HitObject(h, ray, tMin, tMax, sqrt);
            forall t' :: tMin <= t' <= tMax && Surface(h, ray, t') ==> r.Some? && r.value.t <= t'
    decreases h
  {
    match h
    case SphereObject(s) =>
      if Spheres.Hit(s, ray, tMin, tMax, sqrt).Some? {
        Spheres.HitOnSurface(s, ray, tMin, tMax, sqrt);
      }
      forall t' | tMin <= t' <= tMax && Surface(h, ray, t')
        ensures Spheres.Hit(s, ray, tMin, tMax, sqrt).Some?
        ensures Spheres.Hit(s, ray, tMin, tMax, sqrt).value.t <= t'
      {
        Spheres.HitIsNearest(s, ray, tMin, tMax, sqrt, t');
      }
    case Collection(items) =>
      ScanIsNearest(items, |items|, ray, tMin, tMax, sqrt);
  }

  /** The loop keeps the nearest surface point of the members seen so far. */
  lemma ScanIsNearest(items: seq<Hittable>, n: nat, ray: Ray, tMin: real, tMax: real, sqrt: real -> real)
    requires SqrtSpec(sqrt)
    requires ray.direction != Zeroes()
    requires n <= |items|
    requires forall j :: 0 <= j < |items| ==> WellFormed(items[j])
    ensures var r := Scan(items, n, ray, tMin, tMax, sqrt).result;
            r.Some? ==> exists j :: 0 <= j < n && Surface(items[j], ray, r.value.t)
    ensures var r := Scan(items, n, ray, tMin, tMax, sqrt).result;
            forall j, t' :: 0 <= j < n && tMin <= t' <= tMax && Surface(items[j], ray, t') ==>
              r.Some? && r.value.t <= t'
    decreases items, n
  {
    if n > 0 {
      ScanIsNearest(items, n - 1, ray, tMin, tMax, sqrt);
      var before := Scan(items, n - 1, ray, tMin, tMax, sqrt);
      var report := HitObject(items[n - 1], ray, tMin, before.smallestDistance, sqrt);
      HitIsNearest(items[n - 1], ray, tMin, before.smallestDistance, sqrt);
      var r := Scan(items, n, ray, tMin, tMax, sqrt).result;
      assert r == if report.Some? then report else before.result;
      if r.Some? {
        if report.Some? {
          assert Surface(items[n - 1], ray, r.value.t);
        } else {
          var j :| 0 <= j < n - 1 && Surface(items[j], ray, r.value.t);
          assert Surface(items[j], ray, r.value.t);
        }
      }
      forall j, t' | 0 <= j < n && tMin <= t' <= tMax && Surface(items[j], ray, t')
        ensures r.Some? && r.value.t <= t'
      {
        if j < n - 1 {
          assert before.result.Some? && before.result.value.t <= t';
        } else if t' <= before.smallestDistance {
          assert report.Some? && report.value.t <= t';
        } else {
          assert before.result.Some?;
        }
      }
    }
  }

  // ---------------------------------------------------------------------
  // The collection object.

  class HittableCollection {
    var hittables: seq<Hittable>

    /** `HittableCollection::new`: an empty list. */
    constructor()
      ensures hittables == []
    {
      hittables := [];
    }

    /** `add`: push at the end, earlier entries untouched. */
    method Add(h: Hittable)
      modifies this
      ensures hittables == old(hittables) + [h]
      ensures |hittables| == |old(hittables)| + 1 && hittables[..|old(hittables)|] == old(hittables)
    {
      hittables := hittables + [h];
    }

    /** `clear`: the list becomes empty. */
    method Clear()
      modifies this
      ensures hittables == []
    {
      hittables := [];
    }

    /** The collection as a hittable value. */
    function AsHittable(): Hittable
      reads this
    {
      Collection(hittables)
    }

    /**
     * `hit`: visit the members in order, each with the bound shrunk to the
     * nearest hit so far.
     */
    method Hit(ray: Ray, tMin: real, tMax: real, sqrt: real -> real) returns (result: Option<HitRecord>)
      requires ray.direction != Zeroes()
      requires forall j :: 0 <= j < |hittables| ==> WellFormed(hittables[j])
      ensures result == HitObject(AsHittable(), ray, tMin, tMax, sqrt)
      ensures result.Some? ==> tMin <= result.value.t <= tMax
      ensures result.None? <==> forall j :: 0 <= j < |hittables| ==> HitObject(hittables[j], ray, tMin, tMax, sqrt).None?
    {
      var smallestDistance := tMax;
      result := None;
      var i := 0;
      while i < |hittables|
        invariant 0 <= i <= |hittables|
        invariant ScanState(smallestDistance, result) == Scan(hittables, i, ray, tMin, tMax, sqrt)
      {
        var hitResult := HitObject(hittables[i], ray, tMin, smallestDistance, sqrt);
        match hitResult {
          case Some(hitRecord) =>
            smallestDistance := hitRecord.t;
            result := Some(hitRecord);
          case None =>
        }
        i := i + 1;
      }
      NoneIffAllMiss(hittables, |hittables|, ray, tMin, tMax, sqrt);
    }
  }
}
