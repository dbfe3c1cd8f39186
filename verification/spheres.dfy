/** Ray–sphere intersection (`shapes::Sphere::get_hit_time` in renderable.rs). */
module Spheres {
  import opened Vec3Math

  datatype Sphere = Sphere(center: Vec3, radius: real)

  /** Coefficients of `|origin + t*dir - center|^2 - radius^2 = a*t^2 + b*t + c`,
      computed as the source does. */
  function QuadA(ray: Ray): real {
    Dot(ray.dir, ray.dir)
  }

  function QuadB(s: Sphere, ray: Ray): real {
    2.0 * Dot(Sub(ray.origin, s.center), ray.dir)
  }

  function QuadC(s: Sphere, ray: Ray): real {
    var offset := Sub(ray.origin, s.center);
    Dot(offset, offset) - s.radius * s.radius
  }

  function Discriminant(s: Sphere, ray: Ray): real {
    QuadB(s, ray) * QuadB(s, ray) - 4.0 * QuadA(ray) * QuadC(s, ray)
  }

  /** The geometric meaning of a root: the point of the ray at time `t` lies on the sphere. */
  ghost predicate OnSurface(s: Sphere, ray: Ray, t: real) {
    LengthSquared(Sub(PointAt(ray, t), s.center)) == s.radius * s.radius
  }

  predicate InOpen(t: real, lo: real, hi: real) {
    lo < t < hi
  }

  lemma StillRayLinearCoefficient(s: Sphere, ray: Ray)
    requires ray.dir == Zero
    ensures QuadB(s, ray) == 0.0
  {
  }

  lemma ZeroCoefficientsDiscriminant(s: Sphere, ray: Ray)
    requires QuadA(ray) == 0.0 && QuadB(s, ray) == 0.0
    ensures Discriminant(s, ray) == 0.0
  {
  }

  /** A ray with no direction has `a = b = 0` and so a zero discriminant. */
  lemma StillRayNotCrossing(s: Sphere, ray: Ray)
    ensures QuadA(ray) >= 0.0
    ensures QuadA(ray) == 0.0 ==> ray.dir == Zero && Discriminant(s, ray) == 0.0
  {
    LengthSquaredZero(ray.dir);
    if QuadA(ray) == 0.0 {
      StillRayLinearCoefficient(s, ray);
      ZeroCoefficientsDiscriminant(s, ray);
    }
  }

  /** A ray with a positive discriminant has a non-zero direction. */
  lemma CrossingHasDirection(s: Sphere, ray: Ray)
    requires Discriminant(s, ray) > 0.0
    ensures QuadA(ray) > 0.0
    ensures ray.dir != Zero
  {
    StillRayNotCrossing(s, ray);
    LengthSquaredZero(ray.dir);
  }

  /** The entry root `(-b - sqrt(disc)) / 2a`. */
  function NearRoot(s: Sphere, ray: Ray, sqrt: real -> real): real
    requires Discriminant(s, ray) > 0.0
  {
    CrossingHasDirection(s, ray);
    (-QuadB(s, ray) - sqrt(Discriminant(s, ray))) / (2.0 * QuadA(ray))
  }

  /** The exit root `(-b + sqrt(disc)) / 2a`. */
  function FarRoot(s: Sphere, ray: Ray, sqrt: real -> real): real
    requires Discriminant(s, ray) > 0.0
  {
    CrossingHasDirection(s, ray);
    (-QuadB(s, ray) + sqrt(Discriminant(s, ray))) / (2.0 * QuadA(ray))
  }

  /** The hit time of `ray` against `s` inside the open interval (tmin, tmax),
      or `tmin` itself as the "no hit" sentinel. A tangent ray (zero
      discriminant) is a miss. The entry root is tried before the exit root. */
  function GetHitTime(s: Sphere, ray: Ray, tmin: real, tmax: real, sqrt: real -> real): (t: real)
    ensures t == tmin || InOpen(t, tmin, tmax)
    ensures Discriminant(s, ray) <= 0.0 ==> t == tmin
    ensures t != tmin ==> Discriminant(s, ray) > 0.0
    ensures t != tmin ==> t == NearRoot(s, ray, sqrt) || t == FarRoot(s, ray, sqrt)
  {
    if Discriminant(s, ray) <= 0.0 then
      tmin
    else
      var near := NearRoot(s, ray, sqrt);
      if near >= tmax || near <= tmin then
        var far := FarRoot(s, ray, sqrt);
        if far >= tmax || far <= tmin then tmin else far
      else
        near
  }

  /** Expanding the squared distance from the centre gives the source's quadratic. */
  lemma SurfaceQuadratic(s: Sphere, ray: Ray, t: real)
    ensures LengthSquared(Sub(PointAt(ray, t), s.center)) - s.radius * s.radius
         == QuadA(ray) * t * t + QuadB(s, ray) * t + QuadC(s, ray)
  {
    var o := Sub(ray.origin, s.center);
    var d := ray.dir;
    assert Sub(PointAt(ray, t), s.center) == Vec3(o.x + t * d.x, o.y + t * d.y, o.z + t * d.z);
    assert (o.x + t * d.x) * (o.x + t * d.x) == o.x * o.x + 2.0 * t * (o.x * d.x) + t * t * (d.x * d.x);
    assert (o.y + t * d.y) * (o.y + t * d.y) == o.y * o.y + 2.0 * t * (o.y * d.y) + t * t * (d.y * d.y);
    assert (o.z + t * d.z) * (o.z + t * d.z) == o.z * o.z + 2.0 * t * (o.z * d.z) + t * t * (d.z * d.z);
  }

  /** For `a != 0`, `t` solves `a t^2 + b t + c = 0` exactly when `(2at + b)^2 = b^2 - 4ac`. */
  lemma CompletedSquare(a: real, b: real, c: real, t: real)
    requires a != 0.0
    ensures a * t * t + b * t + c == 0.0 <==> (2.0 * a * t + b) * (2.0 * a * t + b) == b * b - 4.0 * a * c
  {
    assert (2.0 * a * t + b) * (2.0 * a * t + b) - (b * b - 4.0 * a * c) == 4.0 * a * (a * t * t + b * t + c);
    if (2.0 * a * t + b) * (2.0 * a * t + b) == b * b - 4.0 * a * c {
      ProductZero(a * t * t + b * t + c, 4.0 * a);
    }
  }

  /** The quadratic formula over the reals, for a positive leading coefficient
      and a given non-negative root of the discriminant. */
  lemma QuadraticFormula(a: real, b: real, c: real, root: real, t: real)
    requires a > 0.0
    requires root >= 0.0 && root * root == b * b - 4.0 * a * c
    ensures (-b - root) / (2.0 * a) <= (-b + root) / (2.0 * a)
    ensures a * t * t + b * t + c == 0.0 <==> t == (-b - root) / (2.0 * a) || t == (-b + root) / (2.0 * a)
  {
    var near, far := (-b - root) / (2.0 * a), (-b + root) / (2.0 * a);
    assert near * (2.0 * a) == -b - root;
    assert far * (2.0 * a) == -b + root;
    assert (near - far) * (2.0 * a) == -2.0 * root;
    ProductNonPosFactor(near - far, 2.0 * a);
    CompletedSquare(a, b, c, t);
    var w := 2.0 * a * t + b;
    if w * w == root * root {
      AbsBoundFromSquare(w, root);
      AbsBoundFromSquare(root, if w >= 0.0 then w else -w);
      if w == root {
        assert t * (2.0 * a) == -b + root;
        assert t == far;
      } else {
        assert t * (2.0 * a) == -b - root;
        assert t == near;
      }
    } else {
      assert near * (2.0 * a) + b == -root;
      assert far * (2.0 * a) + b == root;
    }
  }

  /** With a genuine square root, the surface points of a crossing ray are
      exactly the entry and exit roots, and the entry root comes first. */
  lemma RootsOfCrossing(s: Sphere, ray: Ray, sqrt: real -> real, t: real)
    requires IsSqrt(sqrt)
    requires Discriminant(s, ray) > 0.0
    ensures NearRoot(s, ray, sqrt) <= FarRoot(s, ray, sqrt)
    ensures OnSurface(s, ray, t) <==> t == NearRoot(s, ray, sqrt) || t == FarRoot(s, ray, sqrt)
  {
    CrossingHasDirection(s, ray);
    var a, b, c := QuadA(ray), QuadB(s, ray), QuadC(s, ray);
    var root := sqrt(Discriminant(s, ray));
    Root(sqrt, Discriminant(s, ray));
    assert root >= 0.0 && root * root == b * b - 4.0 * a * c;
    assert NearRoot(s, ray, sqrt) == (-b - root) / (2.0 * a);
    assert FarRoot(s, ray, sqrt) == (-b + root) / (2.0 * a);
    SurfaceQuadratic(s, ray, t);
    QuadraticFormula(a, b, c, root, t);
  }

  /** The hit time is the nearest surface point strictly inside (tmin, tmax):
      a hit lies on the sphere with no surface point between tmin and it, and
      every surface point in the interval of a crossing ray is found. */
  lemma HitTimeIsNearestSurface(s: Sphere, ray: Ray, tmin: real, tmax: real, sqrt: real -> real)
    requires IsSqrt(sqrt)
    ensures var t := GetHitTime(s, ray, tmin, tmax, sqrt);
      && (t > tmin ==> OnSurface(s, ray, t) && t < tmax)
      && (t > tmin ==> forall u :: tmin < u < t ==> !OnSurface(s, ray, u))
      && (Discriminant(s, ray) > 0.0 ==>
            forall u :: InOpen(u, tmin, tmax) && OnSurface(s, ray, u) ==> tmin < t <= u)
  {
    var t := GetHitTime(s, ray, tmin, tmax, sqrt);
    if Discriminant(s, ray) > 0.0 {
      RootsOfCrossing(s, ray, sqrt, t);
      forall u | tmin < u < tmax && OnSurface(s, ray, u)
        ensures tmin < t <= u
      {
        RootsOfCrossing(s, ray, sqrt, u);
      }
      if t > tmin {
        forall u | tmin < u < t
          ensures !OnSurface(s, ray, u)
        {
          RootsOfCrossing(s, ray, sqrt, u);
        }
      }
    }
  }

  /** Narrowing the upper bound to `m` keeps a hit before `m` and drops the rest;
      this is what lets the scene scan shrink its interval. */
  lemma HitTimeShrink(s: Sphere, ray: Ray, tmin: real, m: real, tmax: real, sqrt: real -> real)
    requires IsSqrt(sqrt)
    requires m <= tmax
    ensures var full := GetHitTime(s, ray, tmin, tmax, sqrt);
      GetHitTime(s, ray, tmin, m, sqrt) == if tmin < full < m then full else tmin
  {
    var full := GetHitTime(s, ray, tmin, tmax, sqrt);
    var part := GetHitTime(s, ray, tmin, m, sqrt);
    HitTimeIsNearestSurface(s, ray, tmin, tmax, sqrt);
    HitTimeIsNearestSurface(s, ray, tmin, m, sqrt);
    if part != tmin {
      assert InOpen(part, tmin, tmax) && OnSurface(s, ray, part);
      assert full <= part;
      assert full == part;
    } else if tmin < full < m {
      assert false;
    }
  }

  /** `|a|^2 |b|^2 - (a.b)^2` is a sum of squares (Lagrange's identity), so never negative. */
  lemma CauchySchwarz(a: Vec3, b: Vec3)
    ensures Dot(a, b) * Dot(a, b) <= Dot(a, a) * Dot(b, b)
  {
    var cx := a.y * b.z - a.z * b.y;
    var cy := a.z * b.x - a.x * b.z;
    var cz := a.x * b.y - a.y * b.x;
    Lagrange(a.x, a.y, a.z, b.x, b.y, b.z);
    SquareNonNegative(cx);
    SquareNonNegative(cy);
    SquareNonNegative(cz);
  }

  lemma Lagrange(a1: real, a2: real, a3: real, b1: real, b2: real, b3: real)
    ensures (a1 * a1 + a2 * a2 + a3 * a3) * (b1 * b1 + b2 * b2 + b3 * b3)
            - (a1 * b1 + a2 * b2 + a3 * b3) * (a1 * b1 + a2 * b2 + a3 * b3)
         == (a2 * b3 - a3 * b2) * (a2 * b3 - a3 * b2)
            + (a3 * b1 - a1 * b3) * (a3 * b1 - a1 * b3)
            + (a1 * b2 - a2 * b1) * (a1 * b2 - a2 * b1)
  {
  }

  /** A sphere of radius zero is never hit: its discriminant is never positive. */
  lemma PointSphereNeverCrossed(s: Sphere, ray: Ray)
    requires s.radius == 0.0
    ensures Discriminant(s, ray) <= 0.0
  {
    var o := Sub(ray.origin, s.center);
    CauchySchwarz(o, ray.dir);
    assert Discriminant(s, ray) == 4.0 * (Dot(o, ray.dir) * Dot(o, ray.dir) - Dot(ray.dir, ray.dir) * Dot(o, o));
  }
}
