/** Surface materials (`materials` in renderable.rs) and the rejection sampler
    `random_in_unit_sphere`. The trait objects of the source become one closed
    datatype; every random value a material draws arrives in a `Bounce`. */
module Materials {
  import opened Vec3Math
  import opened Wrappers

  datatype Material =
    | Lambertian(albedo: Vec3)
    | Metal(albedo: Vec3, fuzziness: real)
    | Dielectric(refractionIndex: real)

  /** What a material sees of a hit: the incoming ray, the hit point and the
      sphere's normal there. */
  datatype MaterialInput = MaterialInput(incomingRay: Ray, point: Vec3, normal: Vec3)

  datatype MaterialOutput = MaterialOutput(attenuation: Vec3, scattered: Ray)

  /** The random values one `apply` call draws: the point that
      `random_in_unit_sphere` returns (Lambertian, Metal) and the uniform roll
      in [0, 1) that picks reflection or refraction (Dielectric). */
  datatype Bounce = Bounce(sample: Vec3, roll: real)

  /** The divisions a dielectric performs (by `refraction_index` and by
      `1 + refraction_index`) are by non-zero numbers. */
  predicate WellDefined(m: Material) {
    m.Dielectric? ==> m.refractionIndex != 0.0 && m.refractionIndex != -1.0
  }

  /** The albedo of a diffuse or metal surface is a colour in [0, 1]^3. */
  predicate AlbedoInRange(m: Material) {
    m.Dielectric? || InUnitCube(m.albedo)
  }

  // ----- random_in_unit_sphere -----

  /** The candidate point `2 * (rx, ry, rz) - (1, 1, 1)`. */
  function Candidate(rx: real, ry: real, rz: real): Vec3 {
    Sub(Scale(2.0, Vec3(rx, ry, rz)), One)
  }

  /** The candidate built from the `k`-th triple of draws. */
  function CandidateAt(draws: seq<real>, k: nat): Vec3
    requires 3 * k + 3 <= |draws|
  {
    Candidate(draws[3 * k], draws[3 * k + 1], draws[3 * k + 2])
  }

  predicate Rejected(p: Vec3) {
    LengthSquared(p) >= 1.0
  }

  /** Every draw is a uniform sample of [0, 1). */
  predicate UnitDraws(draws: seq<real>) {
    forall i :: 0 <= i < |draws| ==> 0.0 <= draws[i] < 1.0
  }

  /** An accepted point and the number of triples drawn to find it. */
  datatype Sample = Sample(point: Vec3, tries: nat)

  /** Rejection sampling inside the unit sphere: triples of draws are turned
      into candidates until one has squared length below 1. The source loops
      until it succeeds; here the draws are a finite sequence, and `None`
      means it ran out before a candidate was accepted. */
  function RandomInUnitSphere(draws: seq<real>): (r: Option<Sample>)
    decreases |draws|
    ensures r.Some? ==> LengthSquared(r.value.point) < 1.0
    ensures r.Some? ==> 1 <= r.value.tries && 3 * r.value.tries <= |draws|
    ensures r.Some? ==> r.value.point == CandidateAt(draws, r.value.tries - 1)
    ensures r.Some? ==> forall k :: 0 <= k < r.value.tries - 1 ==> Rejected(CandidateAt(draws, k))
    ensures r.None? <==> forall k :: 0 <= k && 3 * k + 3 <= |draws| ==> Rejected(CandidateAt(draws, k))
    ensures r.Some? && UnitDraws(draws) ==>
      var p := r.value.point; -1.0 <= p.x < 1.0 && -1.0 <= p.y < 1.0 && -1.0 <= p.z < 1.0
  {
    if |draws| < 3 then
      None
    else
      var p := Candidate(draws[0], draws[1], draws[2]);
      if LengthSquared(p) >= 1.0 then
        var rest := RandomInUnitSphere(draws[3..]);
        ShiftedCandidates(draws);
        RejectedAfterFirst(draws);
        match rest
        case None => None
        case Some(s) =>
          RejectedPrefixAfterFirst(draws, s.tries - 1);
          Some(Sample(s.point, s.tries + 1))
      else
        Some(Sample(p, 1))
  }

  /** Dropping the first triple shifts every later candidate down by one. */
  lemma ShiftedCandidates(draws: seq<real>)
    requires |draws| >= 3
    ensures forall k: nat {:trigger CandidateAt(draws[3..], k)} :: 3 * k + 3 <= |draws| - 3 ==>
      CandidateAt(draws[3..], k) == CandidateAt(draws, k + 1)
    ensures UnitDraws(draws) ==> UnitDraws(draws[3..])
  {
  }

  /** Once the first candidate is rejected, all candidates are rejected
      exactly when all candidates of the remaining draws are. */
  lemma RejectedAfterFirst(draws: seq<real>)
    requires |draws| >= 3
    requires Rejected(CandidateAt(draws, 0))
    ensures (forall k :: 0 <= k && 3 * k + 3 <= |draws| - 3 ==> Rejected(CandidateAt(draws[3..], k)))
        <==> (forall k :: 0 <= k && 3 * k + 3 <= |draws| ==> Rejected(CandidateAt(draws, k)))
  {
    ShiftedCandidates(draws);
    if forall k :: 0 <= k && 3 * k + 3 <= |draws| - 3 ==> Rejected(CandidateAt(draws[3..], k)) {
      forall k | 0 <= k && 3 * k + 3 <= |draws|
        ensures Rejected(CandidateAt(draws, k))
      {
        if k > 0 {
          assert CandidateAt(draws[3..], k - 1) == CandidateAt(draws, k);
        }
      }
    }
    if forall k :: 0 <= k && 3 * k + 3 <= |draws| ==> Rejected(CandidateAt(draws, k)) {
      forall k | 0 <= k && 3 * k + 3 <= |draws| - 3
        ensures Rejected(CandidateAt(draws[3..], k))
      {
        assert CandidateAt(draws[3..], k) == CandidateAt(draws, k + 1);
      }
    }
  }

  /** The same shift, for the first `n` candidates of the remaining draws. */
  lemma RejectedPrefixAfterFirst(draws: seq<real>, n: nat)
    requires 3 * n + 3 <= |draws|
    requires Rejected(CandidateAt(draws, 0))
    requires forall k :: 0 <= k < n ==> Rejected(CandidateAt(draws[3..], k))
    ensures forall k :: 0 <= k < n + 1 ==> Rejected(CandidateAt(draws, k))
  {
    ShiftedCandidates(draws);
    forall k | 0 < k < n + 1
      ensures Rejected(CandidateAt(draws, k))
    {
      assert CandidateAt(draws[3..], k - 1) == CandidateAt(draws, k);
    }
  }

  // ----- Schlick approximation -----

  function Pow5(x: real): real {
    x * x * x * x * x
  }

  /** Reflectance at normal incidence, `((1 - n) / (1 + n))^2`. */
  function R0(refractionIndex: real): real
    requires refractionIndex != -1.0
  {
    var q := (1.0 - refractionIndex) / (1.0 + refractionIndex);
    q * q
  }

  /** Schlick's approximation of the reflect probability; `powf(5.0)` is the fifth power. */
  function Schlick(cosine: real, refractionIndex: real): (r: real)
    requires refractionIndex != -1.0
    ensures cosine == 1.0 ==> r == R0(refractionIndex)
    ensures 0.0 <= cosine <= 1.0 && refractionIndex >= 0.0 ==>
      0.0 <= R0(refractionIndex) <= r <= 1.0
  {
    var r0 := R0(refractionIndex);
    SchlickBounds(cosine, refractionIndex);
    r0 + (1.0 - r0) * Pow5(1.0 - cosine)
  }

  lemma SchlickBounds(cosine: real, n: real)
    requires n != -1.0
    ensures 0.0 <= cosine <= 1.0 && n >= 0.0 ==>
      0.0 <= R0(n) <= R0(n) + (1.0 - R0(n)) * Pow5(1.0 - cosine) <= 1.0
  {
    if 0.0 <= cosine <= 1.0 && n >= 0.0 {
      var q := (1.0 - n) / (1.0 + n);
      DivWithinOne(1.0 - n, 1.0 + n);
      SquareNonNegative(q);
      AbsBoundFromSquareInverse(q);
      var p := Pow5(1.0 - cosine);
      UnitPow5(1.0 - cosine);
      var r0 := R0(n);
      assert r0 == q * q;
      assert q * q <= 1.0;
      assert 1.0 - r0 >= 0.0;
      ProductBounds(1.0 - r0, p);
    }
  }

  /** A number in [-1, 1] has a square in [0, 1]. */
  lemma AbsBoundFromSquareInverse(q: real)
    requires -1.0 <= q <= 1.0
    ensures q * q <= 1.0
  {
    var a := if q >= 0.0 then q else -q;
    assert a * a == q * q;
    ProductBounds(a, a);
  }

  lemma ProductBounds(k: real, p: real)
    requires k >= 0.0
    requires 0.0 <= p <= 1.0
    ensures 0.0 <= k * p <= k
  {
    assert k - k * p == k * (1.0 - p);
  }

  lemma UnitPow5(x: real)
    requires 0.0 <= x <= 1.0
    ensures 0.0 <= Pow5(x) <= 1.0
  {
    ProductBounds(x, x);
    ProductBounds(x * x, x);
    ProductBounds(x * x * x, x);
    ProductBounds(x * x * x * x, x);
  }

  // ----- Reflection and refraction -----

  /** Mirror `d` about the plane with normal `n`: `d - 2 (d.n) n`. */
  function Reflect(d: Vec3, n: Vec3): Vec3 {
    Sub(d, Scale(2.0 * Dot(d, n), n))
  }

  /** Which side of the surface the ray comes from. */
  datatype Orientation = Orientation(outwardNormal: Vec3, niOverNt: real, cosine: real)

  /** A ray leaving the sphere (`dir.normal > 0`) sees the flipped normal and
      the ratio `refraction_index`; an entering ray keeps the normal and sees
      `1 / refraction_index`. */
  function Orient(refractionIndex: real, dir: Vec3, normal: Vec3, dirLength: real): (o: Orientation)
    requires refractionIndex != 0.0 && dirLength != 0.0
    ensures Dot(dir, o.outwardNormal) <= 0.0
    ensures o.niOverNt == if Dot(dir, normal) > 0.0 then refractionIndex else 1.0 / refractionIndex
    ensures o.outwardNormal == if Dot(dir, normal) > 0.0 then Scale(-1.0, normal) else normal
    ensures o.cosine * dirLength == if Dot(dir, normal) > 0.0 then refractionIndex * Dot(dir, normal) else -Dot(dir, normal)
    ensures refractionIndex > 0.0 && dirLength > 0.0 ==> o.cosine >= 0.0
  {
    var dirDotNormal := Dot(dir, normal);
    if dirDotNormal > 0.0 then
      assert Dot(dir, Scale(-1.0, normal)) == -dirDotNormal;
      Orientation(Scale(-1.0, normal), refractionIndex, refractionIndex * dirDotNormal / dirLength)
    else
      Orientation(normal, 1.0 / refractionIndex, -dirDotNormal / dirLength)
  }

  /** Snell's law in vector form, `ni_over_nt (d - (d.n) n) - sqrt(disc) n`,
      given the square root of the refraction discriminant. */
  function Refract(unit: Vec3, outwardNormal: Vec3, niOverNt: real, root: real): Vec3 {
    var dt := Dot(unit, outwardNormal);
    Sub(Scale(niOverNt, Sub(unit, Scale(dt, outwardNormal))), Scale(root, outwardNormal))
  }

  /** With equal indices and a root equal to `-(d.n)` the refraction is the identity. */
  lemma RefractUnitRatio(unit: Vec3, outwardNormal: Vec3)
    ensures Refract(unit, outwardNormal, 1.0, -Dot(unit, outwardNormal)) == unit
  {
  }

  /** Everything a dielectric computes before its roll. */
  datatype DielectricState = DielectricState(
    reflected: Vec3, refracted: Vec3, discriminant: real, reflectChance: real)

  function DielectricSetup(refractionIndex: real, input: MaterialInput, sqrt: real -> real): DielectricState
    requires refractionIndex != 0.0 && refractionIndex != -1.0
    requires sqrt(LengthSquared(input.incomingRay.dir)) != 0.0
  {
    var dir := input.incomingRay.dir;
    var unit := Normalize(sqrt, dir);
    var reflected := Reflect(unit, input.normal);
    var o := Orient(refractionIndex, dir, input.normal, sqrt(LengthSquared(dir)));
    var dt := Dot(unit, o.outwardNormal);
    var discriminant := 1.0 - o.niOverNt * o.niOverNt * (1.0 - dt * dt);
    if discriminant > 0.0 then
      var refracted := Refract(unit, o.outwardNormal, o.niOverNt, sqrt(discriminant));
      DielectricState(reflected, refracted, discriminant, Schlick(o.cosine, refractionIndex))
    else
      DielectricState(reflected, Zero, discriminant, 1.0)
  }

  /** The reflected direction a metal surface produces, fuzz included. */
  function MetalReflected(fuzziness: real, input: MaterialInput, sample: Vec3, sqrt: real -> real): Vec3 {
    Add(Reflect(Normalize(sqrt, input.incomingRay.dir), input.normal), Scale(fuzziness, sample))
  }

  /** `Material::apply`: `Some(output)` when the material scatters, `None`
      when it absorbs the ray. */
  function Apply(m: Material, input: MaterialInput, draw: Bounce, sqrt: real -> real): (r: Option<MaterialOutput>)
    requires WellDefined(m)
    requires m.Dielectric? ==> sqrt(LengthSquared(input.incomingRay.dir)) != 0.0
    ensures r.Some? ==> r.value.scattered.origin == input.point
    ensures m.Lambertian? ==>
      r.Some? && r.value.attenuation == m.albedo
      && r.value.scattered.dir == Add(input.normal, draw.sample)
    ensures m.Metal? ==>
      (r.Some? <==> Dot(MetalReflected(m.fuzziness, input, draw.sample, sqrt), input.normal) > 0.0)
    ensures m.Metal? && r.Some? ==>
      r.value.attenuation == m.albedo
      && r.value.scattered.dir == MetalReflected(m.fuzziness, input, draw.sample, sqrt)
    ensures m.Dielectric? ==>
      var st := DielectricSetup(m.refractionIndex, input, sqrt);
      && r.Some? && r.value.attenuation == One
      && r.value.scattered.dir == (if draw.roll < st.reflectChance then st.reflected else st.refracted)
      && (st.discriminant <= 0.0 && draw.roll < 1.0 ==> r.value.scattered.dir == st.reflected)
  {
    match m
    case Lambertian(albedo) =>
      var target := Add(Add(input.point, input.normal), draw.sample);
      Some(MaterialOutput(albedo, Ray(input.point, Sub(target, input.point))))
    case Metal(albedo, fuzziness) =>
      var reflected := MetalReflected(fuzziness, input, draw.sample, sqrt);
      if Dot(reflected, input.normal) > 0.0 then
        Some(MaterialOutput(albedo, Ray(input.point, reflected)))
      else
        None
    case Dielectric(refractionIndex) =>
      var st := DielectricSetup(refractionIndex, input, sqrt);
      var dir := if draw.roll < st.reflectChance then st.reflected else st.refracted;
      Some(MaterialOutput(One, Ray(input.point, dir)))
  }

  /** Every attenuation a material reports is a colour in [0, 1]^3 when its
      albedo is: materials never amplify light. */
  lemma AttenuationInRange(m: Material, input: MaterialInput, draw: Bounce, sqrt: real -> real)
    requires WellDefined(m) && AlbedoInRange(m)
    requires m.Dielectric? ==> sqrt(LengthSquared(input.incomingRay.dir)) != 0.0
    ensures var r := Apply(m, input, draw, sqrt);
      r.Some? ==> InUnitCube(r.value.attenuation)
  {
  }

  /** Reflection negates the normal component of a direction about a unit normal. */
  lemma ReflectNormalComponent(d: Vec3, n: Vec3)
    requires Dot(n, n) == 1.0
    ensures Dot(Reflect(d, n), n) == -Dot(d, n)
  {
    var k := 2.0 * Dot(d, n);
    assert Dot(Reflect(d, n), n) == Dot(d, n) - k * Dot(n, n);
  }

  /** A perfect mirror (fuzziness 0) with a unit normal scatters exactly the
      rays that arrive against the normal. */
  lemma MirrorScattersIncomingRays(albedo: Vec3, input: MaterialInput, draw: Bounce, sqrt: real -> real)
    requires Dot(input.normal, input.normal) == 1.0
    ensures Apply(Metal(albedo, 0.0), input, draw, sqrt).Some?
        <==> Dot(Normalize(sqrt, input.incomingRay.dir), input.normal) < 0.0
  {
    var unit := Normalize(sqrt, input.incomingRay.dir);
    ReflectNormalComponent(unit, input.normal);
    assert MetalReflected(0.0, input, draw.sample, sqrt) == Reflect(unit, input.normal);
  }

  /** A dielectric of refraction index 1 bends nothing: whenever a refracted
      ray exists it continues in the incoming direction. */
  lemma UnitIndexPassesThrough(input: MaterialInput, draw: Bounce, sqrt: real -> real)
    requires IsSqrt(sqrt)
    requires sqrt(LengthSquared(input.incomingRay.dir)) != 0.0
    ensures var st := DielectricSetup(1.0, input, sqrt);
      st.discriminant > 0.0 && draw.roll >= st.reflectChance ==>
        Apply(Dielectric(1.0), input, draw, sqrt).value.scattered.dir == Normalize(sqrt, input.incomingRay.dir)
  {
    UnitIndexRefraction(input, sqrt);
  }

  /** With index 1 the refracted direction, whenever one exists, is the unit
      incoming direction. */
  lemma UnitIndexRefraction(input: MaterialInput, sqrt: real -> real)
    requires IsSqrt(sqrt)
    requires sqrt(LengthSquared(input.incomingRay.dir)) != 0.0
    ensures var st := DielectricSetup(1.0, input, sqrt);
      st.discriminant > 0.0 ==> st.refracted == Normalize(sqrt, input.incomingRay.dir)
  {
    var dir := input.incomingRay.dir;
    var len := sqrt(LengthSquared(dir));
    SquareNonNegative(dir.x);
    SquareNonNegative(dir.y);
    SquareNonNegative(dir.z);
    Root(sqrt, LengthSquared(dir));
    assert len >= 0.0;
    var unit := Normalize(sqrt, dir);
    var o := Orient(1.0, dir, input.normal, len);
    var on := o.outwardNormal;
    var dt := Dot(unit, on);
    DotDivScalar(dir, on, len);
    assert dt * len == Dot(dir, on);
    ProductNonPosFactor(dt, len);
    assert o.niOverNt == 1.0;
    var disc := 1.0 - 1.0 * 1.0 * (1.0 - dt * dt);
    if disc > 0.0 {
      SqrtOfSquare(sqrt, dt);
      assert sqrt(disc) == -dt;
      RefractUnitRatio(unit, on);
      var st := DielectricSetup(1.0, input, sqrt);
      assert Orient(1.0, dir, input.normal, sqrt(LengthSquared(dir))) == o;
      assert st.discriminant == disc;
      assert st.refracted == Refract(unit, on, 1.0, sqrt(disc));
    }
  }
}
