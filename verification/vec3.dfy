/** A minimal stand-in for the `rusty_math` vector and ray library, over
    mathematical reals. Square root is not definable here, so every operation
    that needs it takes the root as a parameter `sqrt` and states what it
    relies on through `IsSqrt`. */
module Vec3Math {

  datatype Vec3 = Vec3(x: real, y: real, z: real)

  /** A ray: `origin + t * dir` for every real `t`. */
  datatype Ray = Ray(origin: Vec3, dir: Vec3)

  const Zero: Vec3 := Vec3(0.0, 0.0, 0.0)
  const One: Vec3 := Vec3(1.0, 1.0, 1.0)

  function Add(a: Vec3, b: Vec3): Vec3 {
    Vec3(a.x + b.x, a.y + b.y, a.z + b.z)
  }

  function Sub(a: Vec3, b: Vec3): Vec3 {
    Vec3(a.x - b.x, a.y - b.y, a.z - b.z)
  }

  function Scale(k: real, v: Vec3): Vec3 {
    Vec3(k * v.x, k * v.y, k * v.z)
  }

  /** Component-wise division by a scalar (`&v / k` in the library). */
  function DivScalar(v: Vec3, k: real): Vec3
    requires k != 0.0
  {
    Vec3(v.x / k, v.y / k, v.z / k)
  }

  /** Channel-wise product of two colours. */
  function Mul(a: Vec3, b: Vec3): Vec3 {
    Vec3(a.x * b.x, a.y * b.y, a.z * b.z)
  }

  function Dot(a: Vec3, b: Vec3): real {
    a.x * b.x + a.y * b.y + a.z * b.z
  }

  function LengthSquared(v: Vec3): real {
    Dot(v, v)
  }

  function PointAt(r: Ray, t: real): Vec3 {
    Add(r.origin, Scale(t, r.dir))
  }

  /** The only fact the model assumes about the platform square root:
      on non-negative inputs it returns the non-negative root. */
  ghost predicate IsSqrt(sqrt: real -> real) {
    forall x: real :: RootAt(sqrt, x)
  }

  /** `sqrt` is the non-negative root at `x`, if `x` has one. Proofs use the
      root at a point through `Root`. */
  ghost predicate RootAt(sqrt: real -> real, x: real) {
    0.0 <= x ==> 0.0 <= sqrt(x) && sqrt(x) * sqrt(x) == x
  }

  lemma Root(sqrt: real -> real, x: real)
    requires IsSqrt(sqrt)
    requires 0.0 <= x
    ensures 0.0 <= sqrt(x) && sqrt(x) * sqrt(x) == x
  {
    assert RootAt(sqrt, x);
  }

  /** `v / |v|`. The zero vector, which has no direction, is returned as is. */
  function Normalize(sqrt: real -> real, v: Vec3): Vec3 {
    var len := sqrt(LengthSquared(v));
    if len == 0.0 then v else DivScalar(v, len)
  }

  /** A colour all of whose channels lie in [0, 1]. */
  predicate InUnitCube(c: Vec3) {
    0.0 <= c.x <= 1.0 && 0.0 <= c.y <= 1.0 && 0.0 <= c.z <= 1.0
  }

  lemma SquareNonNegative(t: real)
    ensures t * t >= 0.0
  {
    if t < 0.0 {
      assert t * t == (-t) * (-t);
    }
  }

  lemma ProductNonPosFactor(p: real, q: real)
    requires p * q <= 0.0
    requires q > 0.0
    ensures p <= 0.0
  {
    assert p == (p * q) / q;
  }

  lemma ProductZero(p: real, q: real)
    requires p * q == 0.0
    requires q != 0.0
    ensures p == 0.0
  {
    assert p == p * q / q;
  }

  /** A square bounded by `b * b` bounds the number itself by `b`. */
  lemma AbsBoundFromSquare(t: real, b: real)
    requires b >= 0.0
    requires t * t <= b * b
    ensures -b <= t <= b
  {
    var a := if t >= 0.0 then t else -t;
    assert a * a == t * t;
    assert (a - b) * (a + b) == a * a - b * b;
    if a + b == 0.0 {
      assert a == 0.0;
    } else {
      ProductNonPosFactor(a - b, a + b);
    }
  }

  lemma SquareZero(t: real)
    requires t * t == 0.0
    ensures t == 0.0
  {
    AbsBoundFromSquare(t, 0.0);
  }

  /** Dividing a number in [-q, q] by `q > 0` lands in [-1, 1]. */
  lemma DivWithinOne(p: real, q: real)
    requires q > 0.0
    requires -q <= p <= q
    ensures -1.0 <= p / q <= 1.0
  {
    assert p / q * q == p;
    ProductNonPosFactor(p / q - 1.0, q);
    assert (-1.0 - p / q) * q == -q - p;
    ProductNonPosFactor(-1.0 - p / q, q);
  }

  lemma ComponentSquareBound(v: Vec3)
    ensures v.y * v.y <= LengthSquared(v)
  {
    SquareNonNegative(v.x);
    SquareNonNegative(v.z);
  }

  /** A squared length is never negative and is zero only for the zero vector. */
  lemma LengthSquaredZero(v: Vec3)
    ensures LengthSquared(v) >= 0.0
    ensures LengthSquared(v) == 0.0 <==> v == Zero
  {
    SquareNonNegative(v.x);
    SquareNonNegative(v.y);
    SquareNonNegative(v.z);
    if LengthSquared(v) == 0.0 {
      SquareZero(v.x);
      SquareZero(v.y);
      SquareZero(v.z);
    }
  }

  lemma SqrtPositive(sqrt: real -> real, x: real)
    requires IsSqrt(sqrt)
    requires x > 0.0
    ensures sqrt(x) > 0.0
  {
    Root(sqrt, x);
  }

  /** The root of a square is the absolute value. */
  lemma SqrtOfSquare(sqrt: real -> real, t: real)
    requires IsSqrt(sqrt)
    ensures sqrt(t * t) == if t >= 0.0 then t else -t
  {
    SquareNonNegative(t);
    var s := sqrt(t * t);
    var a := if t >= 0.0 then t else -t;
    Root(sqrt, t * t);
    assert s >= 0.0 && s * s == a * a;
    AbsBoundFromSquare(s, a);
    AbsBoundFromSquare(a, s);
  }

  /** The root of a number in [0, 1] lies in [0, 1]. */
  lemma SqrtAtMostOne(sqrt: real -> real, x: real)
    requires IsSqrt(sqrt)
    requires 0.0 <= x <= 1.0
    ensures 0.0 <= sqrt(x) <= 1.0
  {
    var s := sqrt(x);
    Root(sqrt, x);
    AbsBoundFromSquare(s, 1.0);
  }

  /** Dividing by the length keeps the vertical component within [-1, 1]. */
  lemma NormalizeYBound(sqrt: real -> real, v: Vec3)
    requires IsSqrt(sqrt)
    ensures -1.0 <= Normalize(sqrt, v).y <= 1.0
  {
    var l2 := LengthSquared(v);
    SquareNonNegative(v.x);
    SquareNonNegative(v.y);
    SquareNonNegative(v.z);
    var len := sqrt(l2);
    Root(sqrt, l2);
    assert len >= 0.0 && len * len == l2;
    if len != 0.0 {
      ComponentSquareBound(v);
      AbsBoundFromSquare(v.y, len);
      DivWithinOne(v.y, len);
    }
  }

  /** Normalising a non-zero vector divides its dot products by a positive length. */
  lemma NormalizeDot(sqrt: real -> real, v: Vec3, n: Vec3)
    requires IsSqrt(sqrt)
    requires v != Zero
    ensures sqrt(LengthSquared(v)) > 0.0
    ensures Dot(Normalize(sqrt, v), n) == Dot(v, n) / sqrt(LengthSquared(v))
  {
    LengthSquaredZero(v);
    var len := sqrt(LengthSquared(v));
    SqrtPositive(sqrt, LengthSquared(v));
    DotDivScalar(v, n, len);
  }

  lemma DotDivScalar(v: Vec3, n: Vec3, k: real)
    requires k != 0.0
    ensures Dot(DivScalar(v, k), n) == Dot(v, n) / k
  {
    assert (v.x / k) * n.x == (v.x * n.x) / k;
    assert (v.y / k) * n.y == (v.y * n.y) / k;
    assert (v.z / k) * n.z == (v.z * n.z) / k;
  }
}
