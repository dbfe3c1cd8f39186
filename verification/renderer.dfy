/** The integrator `color` and the pixel loop `render` of renderer.rs. Every
    random value is an input: a ray path draws its bounces from `path`, and
    each camera sample takes its jitter and path from `Job.draws`. */
module Renderer {
  import opened Vec3Math
  import opened Wrappers
  import opened Materials
  import opened Scene
  import opened Cameras
  import opened RenderBuffers

  /** Recursion stops scattering once `depth` reaches this bound. */
  const MaxDepth: nat := 50

  /** The scene query ignores hits closer than this, to avoid self-intersection. */
  const Epsilon: real := 0.001

  /** `f64::MAX`, the upper end of the scene query. */
  const F64Max: real := 179769313486231570814527423731704356798070567525844996598917476803157260780028538760589558632766878171540458953514382464234321326889464182768467546703537516986049910576551282076245490090389328944075868508455133942304583236903222948165808559332123348274797826204144723168738177180919299881250404026184124858368.0

  const White: Vec3 := One
  const SkyBlue: Vec3 := Vec3(0.5, 0.7, 1.0)
  const Black: Vec3 := Zero

  // ----- Background -----

  /** The blend weight of the sky, `0.5 * unit.y + 1.0` as the code writes it. */
  function SkyWeight(sqrt: real -> real, dir: Vec3): real {
    0.5 * Normalize(sqrt, dir).y + 1.0
  }

  /** The gradient a ray that escapes the scene sees: `(1 - t) * white + t * blue`. */
  function Background(sqrt: real -> real, dir: Vec3): (c: Vec3)
    ensures c.z == 1.0
    ensures c.x == 1.0 - 0.5 * SkyWeight(sqrt, dir) && c.y == 1.0 - 0.3 * SkyWeight(sqrt, dir)
    ensures SkyWeight(sqrt, dir) == 0.0 ==> c == White
    ensures SkyWeight(sqrt, dir) == 1.0 ==> c == SkyBlue
  {
    var t := SkyWeight(sqrt, dir);
    Add(Scale(1.0 - t, White), Scale(t, SkyBlue))
  }

  /** Since the weight ranges over [0.5, 1.5] rather than [0, 1], red stays in
      [0.25, 0.75], green in [0.55, 0.85] and blue is always 1. */
  lemma BackgroundRange(sqrt: real -> real, dir: Vec3)
    requires IsSqrt(sqrt)
    ensures var c := Background(sqrt, dir);
      0.25 <= c.x <= 0.75 && 0.55 <= c.y <= 0.85 && c.z == 1.0 && InUnitCube(c)
  {
    NormalizeYBound(sqrt, dir);
  }

  /** A horizontal ray sees exactly the sky blue of the gradient. */
  lemma HorizonIsSkyBlue(sqrt: real -> real, dir: Vec3)
    requires dir.y == 0.0
    ensures Background(sqrt, dir) == SkyBlue
  {
    var len := sqrt(LengthSquared(dir));
    if len != 0.0 {
      assert Normalize(sqrt, dir).y == 0.0 / len;
    }
  }

  /** A ray pointing straight up sees (0.25, 0.55, 1), past the blue end of the
      white-to-blue blend. */
  lemma ZenithOvershootsBlue(sqrt: real -> real, k: real)
    requires IsSqrt(sqrt)
    requires k > 0.0
    ensures Background(sqrt, Vec3(0.0, k, 0.0)) == Vec3(0.25, 0.55, 1.0)
  {
    var v := Vec3(0.0, k, 0.0);
    assert LengthSquared(v) == k * k;
    SqrtOfSquare(sqrt, k);
    assert Normalize(sqrt, v).y == k / k == 1.0;
  }

  // ----- The integrator -----

  /** What one call of `color` does with its ray: it escapes to the
      background, it is absorbed (black), or it scatters. */
  datatype Step = Escape | Absorb | Scatter(output: MaterialOutput)

  /** The decision of one `color` call: query the scene on (0.001, f64::MAX);
      on a hit build the material package from the recorded ray, time and
      index; scatter only when `depth < 50` and the material's `apply` does. */
  function StepOf(scene: RenderList, ray: Ray, depth: nat, path: nat -> Bounce, sqrt: real -> real): (s: Step)
    requires IsSqrt(sqrt) && Shadeable(scene)
    ensures s.Escape? <==> NearestHit(scene, ray, Epsilon, F64Max, sqrt).None?
    ensures s.Scatter? ==> depth < MaxDepth
    ensures s.Scatter? && AlbedosInRange(scene) ==> InUnitCube(s.output.attenuation)
  {
    match NearestHit(scene, ray, Epsilon, F64Max, sqrt)
    case None => Escape
    case Some(rec) =>
      NearestHitIsOnSurface(scene, ray, Epsilon, F64Max, sqrt);
      var pkg := GetMaterialPackage(scene, rec.ray, rec.time, rec.index);
      if depth < MaxDepth then
        match Apply(pkg.material, pkg.input, path(depth), sqrt)
        case Some(out) =>
          AttenuationBounded(scene, rec.index, pkg.input, path(depth), sqrt);
          Scatter(out)
        case None => Absorb
      else
        Absorb
  }

  predicate AlbedosInRange(scene: RenderList) {
    forall i :: 0 <= i < |scene.materials| ==> AlbedoInRange(scene.materials[i])
  }

  /** In a scene whose albedos are in range, every attenuation is in [0, 1]^3. */
  lemma AttenuationBounded(scene: RenderList, index: nat, input: MaterialInput, draw: Bounce, sqrt: real -> real)
    requires Shadeable(scene) && index < |scene.materials|
    requires scene.materials[index].Dielectric? ==> sqrt(LengthSquared(input.incomingRay.dir)) != 0.0
    ensures var out := Apply(scene.materials[index], input, draw, sqrt);
      AlbedosInRange(scene) && out.Some? ==> InUnitCube(out.value.attenuation)
  {
    if AlbedosInRange(scene) {
      AttenuationInRange(scene.materials[index], input, draw, sqrt);
    }
  }

  /** `color`: the radiance carried back along `ray`. A miss shows the
      background; a scattering hit multiplies the scattered ray's colour by the
      attenuation channel by channel; an absorbed ray is black. Bounce `k` of
      the path draws `path(k)`. When every albedo is a colour in [0, 1]^3, so
      is the result. */
  function Color(scene: RenderList, ray: Ray, depth: nat, path: nat -> Bounce, sqrt: real -> real): (c: Vec3)
    requires IsSqrt(sqrt) && Shadeable(scene)
    ensures AlbedosInRange(scene) ==> InUnitCube(c)
    decreases MaxDepth - depth
  {
    match StepOf(scene, ray, depth, path, sqrt)
    case Escape =>
      BackgroundRange(sqrt, ray.dir);
      Background(sqrt, ray.dir)
    case Absorb => Black
    case Scatter(out) =>
      var c := Color(scene, out.scattered, depth + 1, path, sqrt);
      MulInUnitCube(c, out.attenuation);
      Mul(c, out.attenuation)
  }

  lemma MulInUnitCube(a: Vec3, b: Vec3)
    ensures InUnitCube(a) && InUnitCube(b) ==> InUnitCube(Mul(a, b))
  {
    if InUnitCube(a) && InUnitCube(b) {
      UnitProduct(a.x, b.x);
      UnitProduct(a.y, b.y);
      UnitProduct(a.z, b.z);
    }
  }

  lemma UnitProduct(p: real, q: real)
    requires 0.0 <= p <= 1.0 && 0.0 <= q <= 1.0
    ensures 0.0 <= p * q <= 1.0
  {
    ProductBounds(p, q);
  }

  /** The number of nested `color` calls one top-level call makes, itself
      included: at most 51 from depth 0. */
  function NestedCalls(scene: RenderList, ray: Ray, depth: nat, path: nat -> Bounce, sqrt: real -> real): (k: nat)
    requires IsSqrt(sqrt) && Shadeable(scene)
    ensures 1 <= k
    ensures depth <= MaxDepth ==> k <= MaxDepth + 1 - depth
    ensures depth >= MaxDepth ==> k == 1
    decreases MaxDepth - depth
  {
    match StepOf(scene, ray, depth, path, sqrt)
    case Scatter(out) => 1 + NestedCalls(scene, out.scattered, depth + 1, path, sqrt)
    case _ => 1
  }

  /** One step reads only bounce `depth` of the path, and only below the depth bound. */
  lemma StepUsesOneBounce(scene: RenderList, ray: Ray, depth: nat, p: nat -> Bounce, q: nat -> Bounce, sqrt: real -> real)
    requires IsSqrt(sqrt) && Shadeable(scene)
    requires depth < MaxDepth ==> p(depth) == q(depth)
    ensures StepOf(scene, ray, depth, p, sqrt) == StepOf(scene, ray, depth, q, sqrt)
  {
  }

  /** A call at depth `depth` consults only the bounces `depth` to
      `MaxDepth - 1` of its path: two paths that agree there give the same colour. */
  lemma {:induction false} ColorUsesBoundedBounces(scene: RenderList, ray: Ray, depth: nat,
                                                   p: nat -> Bounce, q: nat -> Bounce, sqrt: real -> real)
    requires IsSqrt(sqrt) && Shadeable(scene)
    requires forall k :: depth <= k < MaxDepth ==> p(k) == q(k)
    ensures Color(scene, ray, depth, p, sqrt) == Color(scene, ray, depth, q, sqrt)
    decreases MaxDepth - depth
  {
    StepUsesOneBounce(scene, ray, depth, p, q, sqrt);
    var step := StepOf(scene, ray, depth, p, sqrt);
    if step.Scatter? {
      ColorUsesBoundedBounces(scene, step.output.scattered, depth + 1, p, q, sqrt);
    }
  }

  /** A ray that no sphere crosses inside (0.001, f64::MAX) shows the
      background, with no recursion. */
  lemma MissShowsBackground(scene: RenderList, ray: Ray, depth: nat, path: nat -> Bounce, sqrt: real -> real)
    requires IsSqrt(sqrt) && Shadeable(scene)
    requires forall i :: 0 <= i < |scene.spheres| ==> !Hits(scene.spheres, i, ray, Epsilon, F64Max, sqrt)
    ensures Color(scene, ray, depth, path, sqrt) == Background(sqrt, ray.dir)
    ensures NestedCalls(scene, ray, depth, path, sqrt) == 1
  {
    ScanIsFirstArgmin(scene.spheres, ray, Epsilon, F64Max, sqrt, |scene.spheres|);
  }

  /** An empty scene is all sky. */
  lemma EmptySceneIsSky(ray: Ray, depth: nat, path: nat -> Bounce, sqrt: real -> real)
    requires IsSqrt(sqrt)
    ensures Color(Scene.New(), ray, depth, path, sqrt) == Background(sqrt, ray.dir)
  {
    MissShowsBackground(Scene.New(), ray, depth, path, sqrt);
  }

  /** Once the depth bound is reached, a ray that hits any sphere is black. */
  lemma DepthLimitIsBlack(scene: RenderList, ray: Ray, depth: nat, path: nat -> Bounce, sqrt: real -> real, i: nat)
    requires IsSqrt(sqrt) && Shadeable(scene)
    requires depth >= MaxDepth
    requires i < |scene.spheres| && Hits(scene.spheres, i, ray, Epsilon, F64Max, sqrt)
    ensures Color(scene, ray, depth, path, sqrt) == Black
  {
    ScanIsFirstArgmin(scene.spheres, ray, Epsilon, F64Max, sqrt, |scene.spheres|);
  }

  /** A hit decides `color` by the material package built from the record:
      below the depth bound, a material that accepts the package scatters and
      the colour is the scattered ray's colour times the attenuation, channel
      by channel; at the bound, or when the material refuses, the ray is black.
      The divisions the package needs are by non-zero numbers. */
  lemma HitShading(scene: RenderList, ray: Ray, depth: nat, path: nat -> Bounce, sqrt: real -> real)
    requires IsSqrt(sqrt) && Shadeable(scene)
    requires NearestHit(scene, ray, Epsilon, F64Max, sqrt).Some?
    ensures var rec := NearestHit(scene, ray, Epsilon, F64Max, sqrt).value;
      && rec.ray == ray
      && scene.spheres[rec.index].radius != 0.0
      && sqrt(LengthSquared(rec.ray.dir)) != 0.0
      && var pkg := GetMaterialPackage(scene, rec.ray, rec.time, rec.index);
         var out := Apply(pkg.material, pkg.input, path(depth), sqrt);
         && (depth < MaxDepth && out.Some? ==>
               Color(scene, ray, depth, path, sqrt)
                 == Mul(Color(scene, out.value.scattered, depth + 1, path, sqrt), out.value.attenuation))
         && (depth >= MaxDepth || out.None? ==> Color(scene, ray, depth, path, sqrt) == Black)
  {
    NearestHitIsOnSurface(scene, ray, Epsilon, F64Max, sqrt);
  }

  /** The recursion unrolled: a loop that follows the path and multiplies up the
      attenuations computes the same colour as `color` from depth 0. */
  method Trace(scene: RenderList, ray: Ray, path: nat -> Bounce, sqrt: real -> real) returns (c: Vec3)
    requires IsSqrt(sqrt) && Shadeable(scene)
    ensures c == Color(scene, ray, 0, path, sqrt)
  {
    var current := ray;
    var depth: nat := 0;
    var throughput := One;
    var step := StepOf(scene, current, depth, path, sqrt);
    OneIsNeutral(Color(scene, ray, 0, path, sqrt));
    while step.Scatter?
      invariant step == StepOf(scene, current, depth, path, sqrt)
      invariant Color(scene, ray, 0, path, sqrt) == Mul(Color(scene, current, depth, path, sqrt), throughput)
      decreases MaxDepth - depth
    {
      ScatterStep(scene, ray, current, depth, throughput, path, sqrt);
      throughput := Mul(step.output.attenuation, throughput);
      current := step.output.scattered;
      depth := depth + 1;
      step := StepOf(scene, current, depth, path, sqrt);
    }
    FinalStep(scene, ray, current, depth, throughput, path, sqrt);
    if step.Escape? {
      c := Mul(Background(sqrt, current.dir), throughput);
    } else {
      c := Black;
    }
  }

  /** Following a scattering step moves its attenuation into the throughput. */
  lemma ScatterStep(scene: RenderList, ray: Ray, current: Ray, depth: nat, throughput: Vec3,
                    path: nat -> Bounce, sqrt: real -> real)
    requires IsSqrt(sqrt) && Shadeable(scene)
    requires StepOf(scene, current, depth, path, sqrt).Scatter?
    requires Color(scene, ray, 0, path, sqrt) == Mul(Color(scene, current, depth, path, sqrt), throughput)
    ensures var out := StepOf(scene, current, depth, path, sqrt).output;
      Color(scene, ray, 0, path, sqrt)
        == Mul(Color(scene, out.scattered, depth + 1, path, sqrt), Mul(out.attenuation, throughput))
  {
    var out := StepOf(scene, current, depth, path, sqrt).output;
    MulAssociates(Color(scene, out.scattered, depth + 1, path, sqrt), out.attenuation, throughput);
  }

  /** A step that does not scatter ends the path: the background through the
      throughput, or black. */
  lemma FinalStep(scene: RenderList, ray: Ray, current: Ray, depth: nat, throughput: Vec3,
                  path: nat -> Bounce, sqrt: real -> real)
    requires IsSqrt(sqrt) && Shadeable(scene)
    requires !StepOf(scene, current, depth, path, sqrt).Scatter?
    requires Color(scene, ray, 0, path, sqrt) == Mul(Color(scene, current, depth, path, sqrt), throughput)
    ensures StepOf(scene, current, depth, path, sqrt).Escape? ==>
      Color(scene, ray, 0, path, sqrt) == Mul(Background(sqrt, current.dir), throughput)
    ensures StepOf(scene, current, depth, path, sqrt).Absorb? ==> Color(scene, ray, 0, path, sqrt) == Black
  {
    assert Mul(Black, throughput) == Black;
  }

  lemma OneIsNeutral(a: Vec3)
    ensures Mul(a, One) == a
  {
  }

  lemma MulAssociates(a: Vec3, b: Vec3, c: Vec3)
    ensures Mul(Mul(a, b), c) == Mul(a, Mul(b, c))
  {
    assert a.x * b.x * c.x == a.x * (b.x * c.x);
    assert a.y * b.y * c.y == a.y * (b.y * c.y);
    assert a.z * b.z * c.z == a.z * (b.z * c.z);
  }

  // ----- Quantisation -----

  const I32Min: int := -0x8000_0000
  const I32Max: int := 0x7FFF_FFFF

  /** Rust's `f64 as i32`: truncation toward zero, saturating at the ends of
      the 32-bit range. */
  function TruncI32(x: real): (n: int)
    ensures I32Min <= n <= I32Max
    ensures 0.0 <= x < I32Max as real + 1.0 ==> n as real <= x < n as real + 1.0
    ensures I32Min as real - 1.0 < x <= 0.0 ==> n as real - 1.0 < x <= n as real
    ensures x >= I32Max as real + 1.0 ==> n == I32Max
    ensures x <= I32Min as real - 1.0 ==> n == I32Min
  {
    if x >= 0.0 then
      if x.Floor > I32Max then I32Max else x.Floor
    else
      var t := -((-x).Floor);
      if t < I32Min then I32Min else t
  }

  /** One output channel from the sum of `numSamples` sample colours: the
      average, gamma-corrected by a square root, scaled by 255.99 and cast. A
      non-positive sample count gives 0 (the cast of NaN or of -0.0), and so
      does a negative average (the cast of a NaN root). */
  function Channel(sqrt: real -> real, total: real, numSamples: int): (v: int)
    requires IsSqrt(sqrt)
    ensures 0 <= v <= I32Max
    ensures numSamples <= 0 ==> v == 0
    ensures 0 < numSamples && 0.0 <= total <= numSamples as real ==> v <= 255
    ensures 0 < numSamples && total == numSamples as real ==> v == 255
    ensures total == 0.0 ==> v == 0
  {
    if numSamples <= 0 then 0
    else
      var avg := total / numSamples as real;
      if avg < 0.0 then 0
      else
        ChannelBounds(sqrt, total, numSamples);
        TruncI32(255.99 * sqrt(avg))
  }

  lemma ChannelBounds(sqrt: real -> real, total: real, numSamples: int)
    requires IsSqrt(sqrt)
    requires 0 < numSamples && total / numSamples as real >= 0.0
    ensures var s := sqrt(total / numSamples as real);
      && s >= 0.0
      && (total <= numSamples as real ==> s <= 1.0)
      && (total == numSamples as real ==> s == 1.0)
      && (total == 0.0 ==> s == 0.0)
  {
    var n := numSamples as real;
    var avg := total / n;
    var s := sqrt(avg);
    Root(sqrt, avg);
    assert s >= 0.0 && s * s == avg;
    if total <= n {
      assert avg * n == total;
      ProductNonPosFactor(avg - 1.0, n);
      SqrtAtMostOne(sqrt, avg);
    }
    if total == n {
      assert avg == 1.0;
      assert (s - 1.0) * (s + 1.0) == 0.0;
      ProductZero(s - 1.0, s + 1.0);
    }
    if total == 0.0 {
      SquareZero(s);
    }
  }

  // ----- The pixel loop -----

  /** The random values of one camera sample: the jitter inside the pixel and
      the bounces of its path. */
  datatype Jitter = Jitter(offsetX: real, offsetY: real, path: nat -> Bounce)

  /** What `render` reads: the scene, the camera, `num_samples_per_pixel`, and
      the draws of sample `s` of pixel `(x, y)` at `draws(x, y, s)`. */
  datatype Job = Job(scene: RenderList, camera: Camera, numSamplesPerPixel: int,
                     draws: (nat, nat, nat) -> Jitter)

  /** The image parameter of a jittered sample in cell `i` of `n`: `(i + offset) / n`.
      An offset drawn from [0, 1) keeps the sample inside its own cell, and so
      inside [0, 1). */
  function PixelCoord(i: nat, n: nat, offset: real): (c: real)
    requires i < n
    ensures 0.0 <= offset < 1.0 ==> i as real / n as real <= c < (i + 1) as real / n as real
    ensures 0.0 <= offset < 1.0 ==> 0.0 <= c < 1.0
  {
    CoordInCell(i, n, offset);
    (i as real + offset) / n as real
  }

  lemma CoordInCell(i: nat, n: nat, offset: real)
    requires i < n
    ensures var c := (i as real + offset) / n as real;
      0.0 <= offset < 1.0 ==> i as real / n as real <= c < (i + 1) as real / n as real && 0.0 <= c < 1.0
  {
    if 0.0 <= offset < 1.0 {
      var a, m := i as real, n as real;
      assert (i + 1) as real == a + 1.0 <= m;
      var c := (a + offset) / m;
      CellBounds(a / m, c, (a + 1.0) / m, m, a, a + offset, a + 1.0);
      CellBounds(0.0, c, 1.0, m, 0.0, a + offset, m);
    }
  }

  /** Comparisons of `p = lo * m`, `q = c * m` and `r = hi * m` carry over to
      `lo`, `c` and `hi` when `m > 0`. */
  lemma CellBounds(lo: real, c: real, hi: real, m: real, p: real, q: real, r: real)
    requires m > 0.0
    requires lo * m == p && c * m == q && hi * m == r
    requires p <= q < r
    ensures lo <= c < hi
  {
    assert (lo - c) * m == p - q;
    ProductNonPosFactor(lo - c, m);
    assert (c - hi) * m == q - r;
    ProductNonPosFactor(c - hi, m);
  }

  /** The camera ray of one jittered sample of pixel (x, y). */
  function SampleRay(job: Job, width: nat, height: nat, x: nat, y: nat, j: Jitter): Ray
    requires x < width && y < height
  {
    GetRay(job.camera, PixelCoord(x, width, j.offsetX), PixelCoord(y, height, j.offsetY))
  }

  /** The colour of sample `s` of pixel (x, y): `color` of its camera ray at depth 0.
      With albedos in range it lies in the unit cube. */
  function SampleColor(job: Job, width: nat, height: nat, x: nat, y: nat, s: nat, sqrt: real -> real): (c: Vec3)
    requires IsSqrt(sqrt) && Shadeable(job.scene)
    requires x < width && y < height
    ensures AlbedosInRange(job.scene) ==> InUnitCube(c)
  {
    var j := job.draws(x, y, s);
    Color(job.scene, SampleRay(job, width, height, x, y, j), 0, j.path, sqrt)
  }

  /** The samples of pixel (x, y) as a function of their index. */
  function SampleColors(job: Job, width: nat, height: nat, x: nat, y: nat, sqrt: real -> real): (colors: nat -> Vec3)
    requires IsSqrt(sqrt) && Shadeable(job.scene)
    requires x < width && y < height
    ensures SamplesOf(job, width, height, x, y, sqrt, colors)
  {
    (s: nat) => SampleColor(job, width, height, x, y, s, sqrt)
  }

  /** `colors` gives, for every index, the colour of that sample of pixel (x, y).
      The trigger keeps the shading out of sight until a proof names a sample. */
  ghost predicate SamplesOf(job: Job, width: nat, height: nat, x: nat, y: nat, sqrt: real -> real,
                            colors: nat -> Vec3)
    requires IsSqrt(sqrt) && Shadeable(job.scene)
    requires x < width && y < height
  {
    forall s: nat {:trigger SampleColor(job, width, height, x, y, s, sqrt)} ::
      colors(s) == SampleColor(job, width, height, x, y, s, sqrt)
  }

  /** The sum of the first `k` colours. */
  function SumOf(colors: nat -> Vec3, k: nat): Vec3 {
    if k == 0 then Zero else Add(SumOf(colors, k - 1), colors(k - 1))
  }

  /** A sum of `k` colours from the unit cube has every channel in [0, k]. */
  lemma {:induction false} SumOfBounds(colors: nat -> Vec3, k: nat)
    requires forall s: nat :: s < k ==> InUnitCube(colors(s))
    ensures var c := SumOf(colors, k);
      0.0 <= c.x <= k as real && 0.0 <= c.y <= k as real && 0.0 <= c.z <= k as real
  {
    if k > 0 {
      SumOfBounds(colors, k - 1);
      assert InUnitCube(colors(k - 1));
    }
  }

  /** `num_samples_per_pixel` as a loop count: a range `0..n` with `n <= 0` is empty. */
  function SampleCount(n: int): nat {
    if n > 0 then n else 0
  }

  /** Averages a colour sum over `n` samples, gamma-corrects and quantises
      each channel. */
  function Quantise(sqrt: real -> real, sum: Vec3, n: int): Pixel
    requires IsSqrt(sqrt)
  {
    Pixel(Channel(sqrt, sum.x, n), Channel(sqrt, sum.y, n), Channel(sqrt, sum.z, n))
  }

  /** The pixel `render` pushes for (x, y). */
  function PixelOf(job: Job, width: nat, height: nat, x: nat, y: nat, sqrt: real -> real): Pixel
    requires IsSqrt(sqrt) && Shadeable(job.scene)
    requires x < width && y < height
  {
    var n := job.numSamplesPerPixel;
    Quantise(sqrt, SumOf(SampleColors(job, width, height, x, y, sqrt), SampleCount(n)), n)
  }

  /** `grid` holds, at every coordinate of the frame, the pixel `render`
      computes there. The trigger keeps the pixel computation out of sight
      until a proof names it. */
  ghost predicate Pictures(job: Job, width: nat, height: nat, sqrt: real -> real, grid: (nat, nat) -> Pixel)
    requires IsSqrt(sqrt) && Shadeable(job.scene)
  {
    forall x: nat, y: nat {:trigger PixelOf(job, width, height, x, y, sqrt)} ::
      x < width && y < height ==> grid(x, y) == PixelOf(job, width, height, x, y, sqrt)
  }

  /** Every pixel of the frame as a function of its coordinates. */
  function PixelGrid(job: Job, width: nat, height: nat, sqrt: real -> real): (grid: (nat, nat) -> Pixel)
    requires IsSqrt(sqrt) && Shadeable(job.scene)
    ensures Pictures(job, width, height, sqrt, grid)
  {
    (x: nat, y: nat) =>
      if x < width && y < height then PixelOf(job, width, height, x, y, sqrt) else Pixel(0, 0, 0)
  }

  /** The first `k` pixels of row `y` of `grid`, left to right. */
  function RowPrefix(grid: (nat, nat) -> Pixel, y: nat, k: nat): (row: seq<Pixel>)
    ensures |row| == k
  {
    seq(k, (x: int) requires 0 <= x => grid(x, y))
  }

  /** The first `k` rows of a `height`-row grid in the order `render` visits
      them: from row `height - 1` down. */
  function Rows(grid: (nat, nat) -> Pixel, width: nat, height: nat, k: nat): seq<Pixel>
    requires k <= height
  {
    if k == 0 then []
    else Rows(grid, width, height, k - 1) + RowPrefix(grid, height - k, width)
  }

  /** Entry `r * width + x` of the rows is pixel (x, height - 1 - r): rows are
      emitted top row first, each left to right. */
  lemma {:induction false} RowsScanOrder(grid: (nat, nat) -> Pixel, width: nat, height: nat, k: nat)
    requires k <= height
    ensures |Rows(grid, width, height, k)| == k * width
    ensures forall r, x :: 0 <= r < k && 0 <= x < width ==>
      RowMajor(r, x, width) < k * width &&
      Rows(grid, width, height, k)[RowMajor(r, x, width)] == grid(x, height - 1 - r)
  {
    if k > 0 {
      RowsScanOrder(grid, width, height, k - 1);
      var prev := Rows(grid, width, height, k - 1);
      var row := RowPrefix(grid, height - k, width);
      assert Rows(grid, width, height, k) == prev + row;
      assert k * width == (k - 1) * width + width;
      forall r, x | 0 <= r < k && 0 <= x < width
        ensures RowMajor(r, x, width) < k * width
        ensures (prev + row)[RowMajor(r, x, width)] == grid(x, height - 1 - r)
      {
        RowMajorBounds(r, x, width, k);
        if r == k - 1 {
          assert RowMajor(r, x, width) == (k - 1) * width + x;
        }
      }
    }
  }

  /** The index of column `x` of the `r`-th emitted row. */
  function RowMajor(r: nat, x: nat, width: nat): nat {
    r * width + x
  }

  lemma RowMajorBounds(r: nat, x: nat, width: nat, k: nat)
    requires r < k && x < width
    ensures RowMajor(r, x, width) < k * width
    ensures r < k - 1 ==> RowMajor(r, x, width) < (k - 1) * width
    ensures (k - 1) * width <= RowMajor(k - 1, x, width)
  {
    assert (r + 1) * width == r * width + width;
    if r < k - 1 {
      assert (r + 1) * width <= (k - 1) * width;
    }
    assert r * width <= (k - 1) * width;
  }

  /** Pixel (x, y) of a full frame sits at entry `RowMajor(height - 1 - y, x, width)`:
      rows are emitted top row first, each left to right. */
  lemma FramePixel(grid: (nat, nat) -> Pixel, width: nat, height: nat, x: nat, y: nat)
    requires x < width && y < height
    ensures |Rows(grid, width, height, height)| == width * height
    ensures RowMajor(height - 1 - y, x, width) < width * height
    ensures Rows(grid, width, height, height)[RowMajor(height - 1 - y, x, width)] == grid(x, y)
  {
    RowsScanOrder(grid, width, height, height);
    assert height - 1 - (height - 1 - y) == y;
  }

  /** Behind the earlier content of `buf`, a pushed frame of `grid` holds pixel
      (x, y) at triple `RowMajor(height - 1 - y, x, width)`. */
  lemma FrameReadBack(buf: RenderBufferI32, grid: (nat, nat) -> Pixel, width: nat, height: nat, x: nat, y: nat)
    requires x < width && y < height
    ensures var o := PushPixels(buf, Rows(grid, width, height, height));
      && |buf.buffer| <= |o.buffer|
      && ChannelsPerPixel * RowMajor(height - 1 - y, x, width) + 2 < |o.buffer| - |buf.buffer|
      && PixelAt(o.buffer[|buf.buffer|..], RowMajor(height - 1 - y, x, width)) == grid(x, y)
  {
    var rows := Rows(grid, width, height, height);
    FramePixel(grid, width, height, x, y);
    PushPixelsLayout(buf, rows);
  }

  /** Some grid holds the pixels of the frame: `PixelGrid` is one. */
  lemma PicturesExist(job: Job, width: nat, height: nat, sqrt: real -> real)
    requires IsSqrt(sqrt) && Shadeable(job.scene)
    ensures exists grid :: Pictures(job, width, height, sqrt, grid)
  {
    var grid := PixelGrid(job, width, height, sqrt);
    assert Pictures(job, width, height, sqrt, grid);
  }

  /** With albedos in range every channel written is an integer in [0, 255]. */
  lemma PixelInRange(job: Job, width: nat, height: nat, x: nat, y: nat, sqrt: real -> real)
    requires IsSqrt(sqrt) && Shadeable(job.scene) && AlbedosInRange(job.scene)
    requires x < width && y < height
    ensures var p := PixelOf(job, width, height, x, y, sqrt);
      0 <= p.r <= 255 && 0 <= p.g <= 255 && 0 <= p.b <= 255
  {
    var colors := SampleColors(job, width, height, x, y, sqrt);
    SampleSumBounds(job, width, height, x, y, sqrt, colors);
  }

  /** With albedos in range, the sum of the first `k` samples of a pixel has
      every channel in [0, k]. */
  lemma SampleSumBounds(job: Job, width: nat, height: nat, x: nat, y: nat, sqrt: real -> real,
                        colors: nat -> Vec3)
    requires IsSqrt(sqrt) && Shadeable(job.scene) && AlbedosInRange(job.scene)
    requires x < width && y < height
    requires SamplesOf(job, width, height, x, y, sqrt, colors)
    ensures forall k: nat {:trigger SumOf(colors, k)} :: var c := SumOf(colors, k);
      0.0 <= c.x <= k as real && 0.0 <= c.y <= k as real && 0.0 <= c.z <= k as real
  {
    forall s: nat
      ensures InUnitCube(colors(s))
    {
      assert colors(s) == SampleColor(job, width, height, x, y, s, sqrt);
    }
    forall k: nat
      ensures var c := SumOf(colors, k);
        0.0 <= c.x <= k as real && 0.0 <= c.y <= k as real && 0.0 <= c.z <= k as real
    {
      SumOfBounds(colors, k);
    }
  }

  /** Pushing a full frame of `grid` appends `3 * width * height` channels
      behind the earlier content. */
  lemma FrameLayout(buf: RenderBufferI32, grid: (nat, nat) -> Pixel, width: nat, height: nat)
    ensures var o := PushPixels(buf, Rows(grid, width, height, height));
      && o.width == buf.width && o.height == buf.height
      && |o.buffer| == |buf.buffer| + ChannelsPerPixel * (width * height)
      && o.buffer[..|buf.buffer|] == buf.buffer
  {
    RowsLength(grid, width, height, height);
    PushPixelsGrowth(buf, Rows(grid, width, height, height));
    assert height * width == width * height;
  }

  /** `k` rows of `width` pixels each. */
  lemma {:induction false} RowsLength(grid: (nat, nat) -> Pixel, width: nat, height: nat, k: nat)
    requires k <= height
    ensures |Rows(grid, width, height, k)| == k * width
  {
    if k > 0 {
      RowsLength(grid, width, height, k - 1);
      assert k * width == (k - 1) * width + width;
    }
  }

  /** Pushing pixel (x, y) extends the pushed prefix of row `y` by one. */
  lemma PushNextPixel(buf: RenderBufferI32, grid: (nat, nat) -> Pixel, y: nat, x: nat)
    ensures PushPixels(buf, RowPrefix(grid, y, x + 1))
         == PushPixel(PushPixels(buf, RowPrefix(grid, y, x)), grid(x, y).r, grid(x, y).g, grid(x, y).b)
  {
    var row := RowPrefix(grid, y, x + 1);
    assert row[..|row| - 1] == RowPrefix(grid, y, x);
  }

  /** After `k` rows comes row `height - 1 - k`. */
  lemma NextRow(grid: (nat, nat) -> Pixel, width: nat, height: nat, k: nat)
    requires k < height
    ensures Rows(grid, width, height, k + 1)
         == Rows(grid, width, height, k) + RowPrefix(grid, height - 1 - k, width)
  {
  }

  /** Pushing row `height - 1 - k` behind the first `k` rows pushes the first `k + 1`. */
  lemma RowsStep(buf: RenderBufferI32, grid: (nat, nat) -> Pixel, width: nat, height: nat, k: nat,
                 before: RenderBufferI32, after: RenderBufferI32)
    requires k < height
    requires before == PushPixels(buf, Rows(grid, width, height, k))
    requires after == PushPixels(before, RowPrefix(grid, height - 1 - k, width))
    ensures after == PushPixels(buf, Rows(grid, width, height, k + 1))
  {
    PushPixelsAppend(buf, Rows(grid, width, height, k), RowPrefix(grid, height - 1 - k, width));
    NextRow(grid, width, height, k);
  }

  /** `render`: for every row from the top down and every column left to
      right, pushes the pixel the samples give. `grid` names those pixels
      (`PixelGrid` is one such grid); the buffer grows by exactly three
      channels per pixel behind what it already held. */
  method Render(job: Job, buf: RenderBufferI32, sqrt: real -> real) returns (out: RenderBufferI32)
    requires IsSqrt(sqrt) && Shadeable(job.scene)
    ensures out.width == buf.width && out.height == buf.height
    ensures |out.buffer| == |buf.buffer| + ChannelsPerPixel * (buf.width * buf.height)
    ensures out.buffer[..|buf.buffer|] == buf.buffer
    ensures RenderedInto(job, buf, sqrt, out)
  {
    PicturesExist(job, buf.width, buf.height, sqrt);
    ghost var grid: (nat, nat) -> Pixel :| Pictures(job, buf.width, buf.height, sqrt, grid);
    out := RenderFrame(job, buf, sqrt, grid);
  }

  /** `out` is `buf` with a full frame pushed behind its content, for some
      grid holding the pixels the samples give. */
  ghost predicate RenderedInto(job: Job, buf: RenderBufferI32, sqrt: real -> real, out: RenderBufferI32)
    requires IsSqrt(sqrt) && Shadeable(job.scene)
  {
    exists grid :: Pictures(job, buf.width, buf.height, sqrt, grid)
      && out == PushPixels(buf, Rows(grid, buf.width, buf.height, buf.height))
  }

  /** In a rendered buffer, pixel (x, y) reads back, behind the earlier
      content, from triple `RowMajor(height - 1 - y, x, width)` as the pixel
      its samples give. */
  lemma RenderedPixel(job: Job, buf: RenderBufferI32, sqrt: real -> real, out: RenderBufferI32, x: nat, y: nat)
    requires IsSqrt(sqrt) && Shadeable(job.scene)
    requires RenderedInto(job, buf, sqrt, out)
    requires x < buf.width && y < buf.height
    ensures |buf.buffer| <= |out.buffer|
    ensures ChannelsPerPixel * RowMajor(buf.height - 1 - y, x, buf.width) + 2 < |out.buffer| - |buf.buffer|
    ensures PixelAt(out.buffer[|buf.buffer|..], RowMajor(buf.height - 1 - y, x, buf.width))
         == PixelOf(job, buf.width, buf.height, x, y, sqrt)
  {
    var grid := RenderedGrid(job, buf, sqrt, out);
    FrameReadBack(buf, grid, buf.width, buf.height, x, y);
    GridPixel(job, buf.width, buf.height, sqrt, grid, x, y);
  }

  /** A grid that a rendered buffer was pushed from. */
  lemma RenderedGrid(job: Job, buf: RenderBufferI32, sqrt: real -> real, out: RenderBufferI32)
      returns (grid: (nat, nat) -> Pixel)
    requires IsSqrt(sqrt) && Shadeable(job.scene)
    requires RenderedInto(job, buf, sqrt, out)
    ensures Pictures(job, buf.width, buf.height, sqrt, grid)
    ensures out == PushPixels(buf, Rows(grid, buf.width, buf.height, buf.height))
  {
    grid :| Pictures(job, buf.width, buf.height, sqrt, grid)
      && out == PushPixels(buf, Rows(grid, buf.width, buf.height, buf.height));
  }

  lemma GridPixel(job: Job, width: nat, height: nat, sqrt: real -> real, grid: (nat, nat) -> Pixel, x: nat, y: nat)
    requires IsSqrt(sqrt) && Shadeable(job.scene)
    requires Pictures(job, width, height, sqrt, grid)
    requires x < width && y < height
    ensures grid(x, y) == PixelOf(job, width, height, x, y, sqrt)
  {
  }

  /** `render` with the frame's pixels named by `grid`: the buffer ends up
      holding the frame's rows pushed behind its earlier content. */
  method RenderFrame(job: Job, buf: RenderBufferI32, sqrt: real -> real, ghost grid: (nat, nat) -> Pixel)
      returns (out: RenderBufferI32)
    requires IsSqrt(sqrt) && Shadeable(job.scene)
    requires Pictures(job, buf.width, buf.height, sqrt, grid)
    ensures out == PushPixels(buf, Rows(grid, buf.width, buf.height, buf.height))
    ensures out.width == buf.width && out.height == buf.height
    ensures |out.buffer| == |buf.buffer| + ChannelsPerPixel * (buf.width * buf.height)
    ensures out.buffer[..|buf.buffer|] == buf.buffer
  {
    out := RenderRows(job, buf, sqrt, grid);
    FrameLayout(buf, grid, buf.width, buf.height);
  }

  /** The outer loop of `render`: after `k` rounds the top `k` rows are pushed. */
  method RenderRows(job: Job, buf: RenderBufferI32, sqrt: real -> real, ghost grid: (nat, nat) -> Pixel)
      returns (out: RenderBufferI32)
    requires IsSqrt(sqrt) && Shadeable(job.scene)
    requires Pictures(job, buf.width, buf.height, sqrt, grid)
    ensures out == PushPixels(buf, Rows(grid, buf.width, buf.height, buf.height))
  {
    out := buf;
    var k := 0;
    while k < buf.height
      invariant 0 <= k <= buf.height
      invariant out == PushPixels(buf, Rows(grid, buf.width, buf.height, k))
    {
      out := RenderRow(job, buf, k, sqrt, grid, out);
      k := k + 1;
    }
  }

  /** The inner loop of `render`: pushes the pixels of row `height - 1 - k`
      left to right, completing the first `k + 1` rows of the frame. `start` is
      the buffer before the frame and `sofar` the buffer after its first `k` rows. */
  method RenderRow(job: Job, start: RenderBufferI32, k: nat, sqrt: real -> real,
                   ghost grid: (nat, nat) -> Pixel, sofar: RenderBufferI32) returns (out: RenderBufferI32)
    requires IsSqrt(sqrt) && Shadeable(job.scene)
    requires Pictures(job, start.width, start.height, sqrt, grid)
    requires k < start.height
    requires sofar == PushPixels(start, Rows(grid, start.width, start.height, k))
    ensures out == PushPixels(start, Rows(grid, start.width, start.height, k + 1))
  {
    out := PushRow(job, start.width, start.height, start.height - 1 - k, sqrt, grid, sofar);
    RowsStep(start, grid, start.width, start.height, k, sofar, out);
  }

  /** Pushes the pixels of row `y` left to right. */
  method PushRow(job: Job, width: nat, height: nat, y: nat, sqrt: real -> real,
                 ghost grid: (nat, nat) -> Pixel, buf: RenderBufferI32) returns (out: RenderBufferI32)
    requires IsSqrt(sqrt) && Shadeable(job.scene)
    requires Pictures(job, width, height, sqrt, grid)
    requires y < height
    ensures out == PushPixels(buf, RowPrefix(grid, y, width))
  {
    out := buf;
    var x := 0;
    while x < width
      invariant 0 <= x <= width
      invariant out == PushPixels(buf, RowPrefix(grid, y, x))
    {
      var p := NextPixel(job, width, height, x, y, sqrt, grid);
      PushNextPixel(buf, grid, y, x);
      out := PushPixel(out, p.r, p.g, p.b);
      x := x + 1;
    }
  }

  /** Shades pixel (x, y) and reports it as the entry of `grid` it fills. */
  method NextPixel(job: Job, width: nat, height: nat, x: nat, y: nat, sqrt: real -> real,
                   ghost grid: (nat, nat) -> Pixel) returns (p: Pixel)
    requires IsSqrt(sqrt) && Shadeable(job.scene)
    requires Pictures(job, width, height, sqrt, grid)
    requires x < width && y < height
    ensures p == grid(x, y)
  {
    p := ShadePixel(job, width, height, x, y, sqrt);
  }

  /** The body of the pixel loop: sums `num_samples_per_pixel` jittered camera
      samples, averages, gamma-corrects and quantises. */
  method ShadePixel(job: Job, width: nat, height: nat, x: nat, y: nat, sqrt: real -> real) returns (p: Pixel)
    requires IsSqrt(sqrt) && Shadeable(job.scene)
    requires x < width && y < height
    ensures p == PixelOf(job, width, height, x, y, sqrt)
    ensures AlbedosInRange(job.scene) ==> 0 <= p.r <= 255 && 0 <= p.g <= 255 && 0 <= p.b <= 255
  {
    ghost var colors := SampleColors(job, width, height, x, y, sqrt);
    var c := SumSamples(job, width, height, x, y, sqrt, colors);
    p := Pixel(Channel(sqrt, c.x, job.numSamplesPerPixel),
               Channel(sqrt, c.y, job.numSamplesPerPixel),
               Channel(sqrt, c.z, job.numSamplesPerPixel));
    if AlbedosInRange(job.scene) {
      PixelInRange(job, width, height, x, y, sqrt);
    }
  }

  /** The sample loop of `render`: adds the colours of `num_samples_per_pixel`
      camera rays through jittered points of pixel (x, y), each traced by
      `color` from depth 0. With albedos in range each channel of the sum
      lies between 0 and the number of samples. */
  method SumSamples(job: Job, width: nat, height: nat, x: nat, y: nat, sqrt: real -> real,
                    ghost colors: nat -> Vec3) returns (c: Vec3)
    requires IsSqrt(sqrt) && Shadeable(job.scene)
    requires x < width && y < height
    requires SamplesOf(job, width, height, x, y, sqrt, colors)
    ensures c == SumOf(colors, SampleCount(job.numSamplesPerPixel))
    ensures AlbedosInRange(job.scene) ==> var n := SampleCount(job.numSamplesPerPixel) as real;
      0.0 <= c.x <= n && 0.0 <= c.y <= n && 0.0 <= c.z <= n
  {
    c := Zero;
    var s := 0;
    while s < job.numSamplesPerPixel
      invariant 0 <= s <= SampleCount(job.numSamplesPerPixel)
      invariant c == SumOf(colors, s)
    {
      var j := job.draws(x, y, s);
      var u := PixelCoord(x, width, j.offsetX);
      var v := PixelCoord(y, height, j.offsetY);
      var r := GetRay(job.camera, u, v);
      var sample := Color(job.scene, r, 0, j.path, sqrt);
      assert sample == SampleColor(job, width, height, x, y, s, sqrt);
      c := Add(c, sample);
      s := s + 1;
    }
    if AlbedosInRange(job.scene) {
      SampleSumBounds(job, width, height, x, y, sqrt, colors);
      assert c == SumOf(colors, SampleCount(job.numSamplesPerPixel));
    }
  }
}
