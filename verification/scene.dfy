/** The scene aggregate `RenderList` of renderable.rs: parallel sequences of
    spheres and materials, the nearest-hit scan and the material package. */
module Scene {
  import opened Vec3Math
  import opened Wrappers
  import opened Spheres
  import opened Materials

  /** The result of a successful scene query: the query ray, the index of the
      sphere hit and the hit time. */
  datatype HitRecord = HitRecord(ray: Ray, index: nat, time: real)

  /** Spheres with their materials, in insertion order. Materials are values
      here; the source keeps shared references to them. */
  datatype RenderList = RenderList(spheres: seq<Sphere>, materials: seq<Material>)

  /** The two sequences stay parallel. */
  predicate Valid(l: RenderList) {
    |l.spheres| == |l.materials|
  }

  /** A scene the integrator can shade: parallel sequences and materials whose
      divisions are well defined. */
  predicate Shadeable(l: RenderList) {
    Valid(l) && forall i :: 0 <= i < |l.materials| ==> WellDefined(l.materials[i])
  }

  /** `RenderList::new()`. */
  function New(): (l: RenderList)
    ensures Valid(l) && |l.spheres| == 0
  {
    RenderList([], [])
  }

  /** `add_sphere`: appends one sphere and its material, leaving every earlier entry alone. */
  function AddSphere(l: RenderList, s: Sphere, m: Material): (r: RenderList)
    ensures |r.spheres| == |l.spheres| + 1 && |r.materials| == |l.materials| + 1
    ensures r.spheres[..|l.spheres|] == l.spheres && r.materials[..|l.materials|] == l.materials
    ensures r.spheres[|l.spheres|] == s && r.materials[|l.materials|] == m
    ensures Valid(l) ==> Valid(r)
  {
    RenderList(l.spheres + [s], l.materials + [m])
  }

  /** Adds the pairs in order. */
  function AddAll(l: RenderList, pairs: seq<(Sphere, Material)>): RenderList
    decreases |pairs|
  {
    if |pairs| == 0 then l
    else AddSphere(AddAll(l, pairs[..|pairs| - 1]), pairs[|pairs| - 1].0, pairs[|pairs| - 1].1)
  }

  /** A scene built by successive `add_sphere` calls holds the added pairs at
      their insertion positions. */
  lemma {:induction false} AddAllInOrder(pairs: seq<(Sphere, Material)>)
    ensures var l := AddAll(New(), pairs);
      && Valid(l) && |l.spheres| == |pairs|
      && forall i :: 0 <= i < |pairs| ==> l.spheres[i] == pairs[i].0 && l.materials[i] == pairs[i].1
  {
    if |pairs| > 0 {
      var init := pairs[..|pairs| - 1];
      AddAllInOrder(init);
      var prev := AddAll(New(), init);
      var l := AddAll(New(), pairs);
      assert l == AddSphere(prev, pairs[|pairs| - 1].0, pairs[|pairs| - 1].1);
      forall i | 0 <= i < |pairs|
        ensures l.spheres[i] == pairs[i].0 && l.materials[i] == pairs[i].1
      {
        if i < |pairs| - 1 {
          assert l.spheres[i] == l.spheres[..|prev.spheres|][i] == prev.spheres[i];
          assert l.materials[i] == l.materials[..|prev.materials|][i] == prev.materials[i];
          assert init[i] == pairs[i];
        }
      }
    }
  }

  // ----- Nearest hit -----

  /** The current winner of the scan. */
  datatype Best = Best(index: nat, time: real)

  /** The upper bound the scan passes to the next sphere. */
  function Closest(b: Option<Best>, tmax: real): real {
    if b.Some? then b.value.time else tmax
  }

  /** The scan over the first `n` spheres: each sphere is queried on
      (tmin, closest so far), and a later sphere wins only when its hit time is
      greater than `tmin`, that is strictly before the current best. */
  function ScanPrefix(spheres: seq<Sphere>, ray: Ray, tmin: real, tmax: real, sqrt: real -> real, n: nat)
    : (r: Option<Best>)
    requires n <= |spheres|
    ensures r.Some? ==> r.value.index < n && tmin < r.value.time < tmax
    ensures r.Some? ==> Discriminant(spheres[r.value.index], ray) > 0.0
  {
    if n == 0 then
      None
    else
      var prev := ScanPrefix(spheres, ray, tmin, tmax, sqrt, n - 1);
      var hitTime := GetHitTime(spheres[n - 1], ray, tmin, Closest(prev, tmax), sqrt);
      if hitTime > tmin then Some(Best(n - 1, hitTime)) else prev
  }

  /** Whether sphere `i` on its own is hit inside (tmin, tmax). */
  predicate Hits(spheres: seq<Sphere>, i: nat, ray: Ray, tmin: real, tmax: real, sqrt: real -> real)
    requires i < |spheres|
  {
    GetHitTime(spheres[i], ray, tmin, tmax, sqrt) > tmin
  }

  function HitTimeOf(spheres: seq<Sphere>, i: nat, ray: Ray, tmin: real, tmax: real, sqrt: real -> real): real
    requires i < |spheres|
  {
    GetHitTime(spheres[i], ray, tmin, tmax, sqrt)
  }

  /** `r` is the outcome a first-argmin search over the first `n` spheres
      must have: nothing exactly when no sphere is hit on the full interval,
      and otherwise the smallest full-interval hit time, with the lowest index
      attaining it. */
  ghost predicate FirstArgmin(spheres: seq<Sphere>, ray: Ray, tmin: real, tmax: real, sqrt: real -> real,
                              n: nat, r: Option<Best>)
    requires n <= |spheres|
  {
    && (r.None? <==> forall i :: 0 <= i < n ==> !Hits(spheres, i, ray, tmin, tmax, sqrt))
    && (r.Some? ==>
          && r.value.index < n
          && Hits(spheres, r.value.index, ray, tmin, tmax, sqrt)
          && HitTimeOf(spheres, r.value.index, ray, tmin, tmax, sqrt) == r.value.time
          && (forall i :: 0 <= i < n && Hits(spheres, i, ray, tmin, tmax, sqrt) ==>
                r.value.time <= HitTimeOf(spheres, i, ray, tmin, tmax, sqrt))
          && (forall i :: 0 <= i < r.value.index && Hits(spheres, i, ray, tmin, tmax, sqrt) ==>
                r.value.time < HitTimeOf(spheres, i, ray, tmin, tmax, sqrt)))
  }

  /** The shrinking-interval scan computes a first argmin. */
  lemma {:induction false} ScanIsFirstArgmin(spheres: seq<Sphere>, ray: Ray, tmin: real, tmax: real, sqrt: real -> real, n: nat)
    requires IsSqrt(sqrt)
    requires n <= |spheres|
    ensures FirstArgmin(spheres, ray, tmin, tmax, sqrt, n, ScanPrefix(spheres, ray, tmin, tmax, sqrt, n))
  {
    if n > 0 {
      ScanIsFirstArgmin(spheres, ray, tmin, tmax, sqrt, n - 1);
      var prev := ScanPrefix(spheres, ray, tmin, tmax, sqrt, n - 1);
      var closest := Closest(prev, tmax);
      HitTimeShrink(spheres[n - 1], ray, tmin, closest, tmax, sqrt);
      var last := HitTimeOf(spheres, n - 1, ray, tmin, tmax, sqrt);
      var hitTime := GetHitTime(spheres[n - 1], ray, tmin, closest, sqrt);
      assert hitTime == if tmin < last < closest then last else tmin;
      if hitTime > tmin {
        ScanTakesLast(spheres, ray, tmin, tmax, sqrt, n, prev, last);
      } else {
        ScanKeepsPrevious(spheres, ray, tmin, tmax, sqrt, n, prev, last);
      }
    }
  }

  /** Step of the scan when sphere `n - 1` beats every earlier hit. */
  lemma ScanTakesLast(spheres: seq<Sphere>, ray: Ray, tmin: real, tmax: real, sqrt: real -> real,
                      n: nat, prev: Option<Best>, last: real)
    requires 0 < n <= |spheres|
    requires FirstArgmin(spheres, ray, tmin, tmax, sqrt, n - 1, prev)
    requires last == HitTimeOf(spheres, n - 1, ray, tmin, tmax, sqrt)
    requires tmin < last < Closest(prev, tmax)
    ensures FirstArgmin(spheres, ray, tmin, tmax, sqrt, n, Some(Best(n - 1, last)))
  {
    assert Hits(spheres, n - 1, ray, tmin, tmax, sqrt);
    forall i | 0 <= i < n && Hits(spheres, i, ray, tmin, tmax, sqrt)
      ensures last <= HitTimeOf(spheres, i, ray, tmin, tmax, sqrt)
    {
      if i < n - 1 {
        assert prev.Some?;
      }
    }
  }

  /** Step of the scan when sphere `n - 1` is not hit before the current best. */
  lemma ScanKeepsPrevious(spheres: seq<Sphere>, ray: Ray, tmin: real, tmax: real, sqrt: real -> real,
                          n: nat, prev: Option<Best>, last: real)
    requires 0 < n <= |spheres|
    requires FirstArgmin(spheres, ray, tmin, tmax, sqrt, n - 1, prev)
    requires last == HitTimeOf(spheres, n - 1, ray, tmin, tmax, sqrt)
    requires !(tmin < last < Closest(prev, tmax))
    ensures FirstArgmin(spheres, ray, tmin, tmax, sqrt, n, prev)
  {
    if prev.None? {
      assert !Hits(spheres, n - 1, ray, tmin, tmax, sqrt);
    }
  }

  /** The functional reading of `try_get_hit_record`: the record it writes on success. */
  function NearestHit(l: RenderList, ray: Ray, tmin: real, tmax: real, sqrt: real -> real): (r: Option<HitRecord>)
    ensures r.Some? ==> r.value.ray == ray && r.value.index < |l.spheres| && tmin < r.value.time < tmax
    ensures r.Some? ==> Discriminant(l.spheres[r.value.index], ray) > 0.0
  {
    match ScanPrefix(l.spheres, ray, tmin, tmax, sqrt, |l.spheres|)
    case None => None
    case Some(b) => Some(HitRecord(ray, b.index, b.time))
  }

  /** `try_get_hit_record`: a linear scan with a shrinking upper bound. On
      failure the caller's record is returned untouched. */
  method TryGetHitRecord(l: RenderList, ray: Ray, tmin: real, tmax: real, hitRecord: HitRecord, sqrt: real -> real)
    returns (found: bool, rec: HitRecord)
    requires IsSqrt(sqrt)
    ensures found <==> NearestHit(l, ray, tmin, tmax, sqrt).Some?
    ensures found ==> rec == NearestHit(l, ray, tmin, tmax, sqrt).value
    ensures !found ==> rec == hitRecord
    ensures !found <==> forall i :: 0 <= i < |l.spheres| ==> !Hits(l.spheres, i, ray, tmin, tmax, sqrt)
    ensures found ==>
      && rec.ray == ray && rec.index < |l.spheres| && tmin < rec.time < tmax
      && HitTimeOf(l.spheres, rec.index, ray, tmin, tmax, sqrt) == rec.time
      && (forall i :: 0 <= i < |l.spheres| && Hits(l.spheres, i, ray, tmin, tmax, sqrt) ==>
            rec.time <= HitTimeOf(l.spheres, i, ray, tmin, tmax, sqrt))
      && (forall i :: 0 <= i < rec.index && Hits(l.spheres, i, ray, tmin, tmax, sqrt) ==>
            rec.time < HitTimeOf(l.spheres, i, ray, tmin, tmax, sqrt))
  {
    // `None` plays the role of the `usize::MAX` sentinel index.
    var closestIndex: Option<nat> := None;
    var closestTime := tmax;
    var index := 0;
    while index < |l.spheres|
      invariant 0 <= index <= |l.spheres|
      invariant closestIndex.None? ==> closestTime == tmax
      invariant ScanPrefix(l.spheres, ray, tmin, tmax, sqrt, index)
             == if closestIndex.None? then None else Some(Best(closestIndex.value, closestTime))
    {
      var hitTime := GetHitTime(l.spheres[index], ray, tmin, closestTime, sqrt);
      if hitTime > tmin {
        closestTime := hitTime;
        closestIndex := Some(index);
      }
      index := index + 1;
    }
    ScanIsFirstArgmin(l.spheres, ray, tmin, tmax, sqrt, |l.spheres|);
    if closestIndex.None? {
      return false, hitRecord;
    }
    found := true;
    rec := HitRecord(ray, closestIndex.value, closestTime);
  }

  // ----- Material package -----

  datatype MaterialPackage = MaterialPackage(material: Material, input: MaterialInput)

  /** `get_material_package`: the hit point `ray.point_at(time)`, the normal
      `(point - center) / radius` and the material stored at `index`. */
  function GetMaterialPackage(l: RenderList, ray: Ray, time: real, index: nat): (p: MaterialPackage)
    requires index < |l.spheres| && index < |l.materials|
    requires l.spheres[index].radius != 0.0
    ensures p.material == l.materials[index]
    ensures p.input.incomingRay == ray && p.input.point == PointAt(ray, time)
    ensures Scale(l.spheres[index].radius, p.input.normal) == Sub(p.input.point, l.spheres[index].center)
    ensures OnSurface(l.spheres[index], ray, time) ==> LengthSquared(p.input.normal) == 1.0
  {
    var sphere := l.spheres[index];
    var point := PointAt(ray, time);
    var normal := DivScalar(Sub(point, sphere.center), sphere.radius);
    UnitNormal(Sub(point, sphere.center), sphere.radius);
    MaterialPackage(l.materials[index], MaterialInput(ray, point, normal))
  }

  /** A vector as long as `k`, divided by `k`, has unit length. */
  lemma UnitNormal(v: Vec3, k: real)
    requires k != 0.0
    ensures LengthSquared(v) == k * k ==> LengthSquared(DivScalar(v, k)) == 1.0
  {
    var u := DivScalar(v, k);
    SquareOfQuotient(v.x, k);
    SquareOfQuotient(v.y, k);
    SquareOfQuotient(v.z, k);
    assert LengthSquared(u) * k * k == LengthSquared(v);
    if LengthSquared(v) == k * k {
      CancelSquare(LengthSquared(u), k, LengthSquared(v));
    }
  }

  lemma SquareOfQuotient(a: real, k: real)
    requires k != 0.0
    ensures (a / k) * (a / k) * k * k == a * a
  {
    var b := a / k;
    assert b * k == a;
  }

  lemma CancelSquare(s: real, k: real, t: real)
    requires k != 0.0
    requires s * k * k == t
    requires t == k * k
    ensures s == 1.0
  {
    var w := s - 1.0;
    assert w * k * k == s * k * k - k * k;
    assert (w * k) * k == 0.0;
    ProductZero(w * k, k);
    ProductZero(w, k);
  }

  /** A sphere the scan reports was really crossed: it has a non-zero radius, the
      query ray has a non-zero length, and the hit point lies on the sphere so
      the package normal has unit length. */
  lemma NearestHitIsOnSurface(l: RenderList, ray: Ray, tmin: real, tmax: real, sqrt: real -> real)
    requires IsSqrt(sqrt)
    ensures var r := NearestHit(l, ray, tmin, tmax, sqrt);
      r.Some? ==>
        && l.spheres[r.value.index].radius != 0.0
        && sqrt(LengthSquared(ray.dir)) > 0.0
        && OnSurface(l.spheres[r.value.index], ray, r.value.time)
  {
    var r := NearestHit(l, ray, tmin, tmax, sqrt);
    if r.Some? {
      var s := l.spheres[r.value.index];
      ScanIsFirstArgmin(l.spheres, ray, tmin, tmax, sqrt, |l.spheres|);
      HitTimeIsNearestSurface(s, ray, tmin, tmax, sqrt);
      if s.radius == 0.0 {
        PointSphereNeverCrossed(s, ray);
        assert false;
      }
      CrossingHasDirection(s, ray);
      LengthSquaredZero(ray.dir);
      SqrtPositive(sqrt, LengthSquared(ray.dir));
    }
  }
}
