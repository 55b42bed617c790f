/** `Vec3` (src/vec3.rs): three-component vectors, used for points,
    directions and linear RGB colours alike (the source names the fields
    `x_r`, `y_g`, `z_b`). Every `f64` is a `real`; `hypot` and `sqrt` results
    are inputs tied to their arguments by `IsLength` / `IsSqrt`. */
module Vectors {
  import opened Options
  import opened Sampling
  import RealFacts

  datatype Vec3 = Vec3(x: real, y: real, z: real)

  const Zero: Vec3 := Vec3(0.0, 0.0, 0.0)

  /** `f64::MIN_POSITIVE`, 2^-1022, written out exactly. */
  const F64MinPositive: real := 1.0 / 44942328371557897693232629769725618340449424473557664318357520289433168951375240783177119330601884005280028469967848339414697442203604155623211857659868531094441973356216371319075554900311523529863270738021251442209537670585615720368478277635206809290837627671146574559986811484619929076208839082406056034304.0

  /** `f64::MAX`, (2^53 - 1) * 2^971, written out exactly; `f64::MIN` is its negation. */
  const F64Max: real := 179769313486231570814527423731704356798070567525844996598917476803157260780028538760589558632766878171540458953514382464234321326889464182768467546703537516986049910576551282076245490090389328944075868508455133942304583236903222948165808559332123348274797826204144723168738177180919299881250404026184124858368.0
  const F64Min: real := -F64Max

  function Abs(a: real): real {
    if a < 0.0 then -a else a
  }

  function Min(a: real, b: real): real {
    if a <= b then a else b
  }

  function Max(a: real, b: real): real {
    if a >= b then a else b
  }

  // The operator impls: `+`, `-`, `*` (by a vector and by a scalar), unary
  // `-`, `/ f64`, and the compound assignments, which update a copy in place
  // and are written here as the value they leave behind.

  function Add(a: Vec3, b: Vec3): Vec3 {
    Vec3(a.x + b.x, a.y + b.y, a.z + b.z)
  }

  function Sub(a: Vec3, b: Vec3): Vec3 {
    Vec3(a.x - b.x, a.y - b.y, a.z - b.z)
  }

  /** `Mul for Vec3`: the componentwise (Hadamard) product, used on colours. */
  function Mul(a: Vec3, b: Vec3): Vec3 {
    Vec3(a.x * b.x, a.y * b.y, a.z * b.z)
  }

  /** `Mul<f64> for Vec3` and `MulAssign<f64>`. */
  function Scale(a: Vec3, s: real): Vec3 {
    Vec3(a.x * s, a.y * s, a.z * s)
  }

  function Neg(a: Vec3): Vec3 {
    Vec3(-a.x, -a.y, -a.z)
  }

  /** `Div<f64>` and `DivAssign<f64>`; a zero divisor gives infinities or NaN
      in the source and is excluded here. */
  function Div(a: Vec3, s: real): Vec3
    requires s != 0.0
  {
    Vec3(a.x / s, a.y / s, a.z / s)
  }

  /** `AddAssign<f64>`: the same scalar is added to every component. */
  function AddScalar(a: Vec3, s: real): Vec3 {
    Vec3(a.x + s, a.y + s, a.z + s)
  }

  /** `Index<usize>`: 0, 1, 2 select `x_r`, `y_g`, `z_b`; any other index
      panics, which is the precondition. */
  function Get(a: Vec3, i: nat): real
    requires i < 3
  {
    if i == 0 then a.x else if i == 1 then a.y else a.z
  }

  /** `IndexMut<usize>` followed by a store: only the selected component changes. */
  function With(a: Vec3, i: nat, value: real): (r: Vec3)
    requires i < 3
    ensures Get(r, i) == value
    ensures forall j: nat :: j < 3 && j != i ==> Get(r, j) == Get(a, j)
  {
    if i == 0 then a.(x := value) else if i == 1 then a.(y := value) else a.(z := value)
  }

  /** Every arithmetic operator acts on each component separately. */
  lemma Componentwise(a: Vec3, b: Vec3, s: real, i: nat)
    requires i < 3
    ensures Get(Add(a, b), i) == Get(a, i) + Get(b, i)
    ensures Get(Sub(a, b), i) == Get(a, i) - Get(b, i)
    ensures Get(Mul(a, b), i) == Get(a, i) * Get(b, i)
    ensures Get(Scale(a, s), i) == Get(a, i) * s
    ensures Get(Neg(a), i) == -Get(a, i)
    ensures Get(AddScalar(a, s), i) == Get(a, i) + s
    ensures s != 0.0 ==> Get(Div(a, s), i) == Get(a, i) / s
  {
    ComponentwiseSums(a, b, s, i);
    ComponentwiseProducts(a, b, s, i);
    ComponentwiseQuotient(a, s, i);
  }

  lemma ComponentwiseSums(a: Vec3, b: Vec3, s: real, i: nat)
    requires i < 3
    ensures Get(Add(a, b), i) == Get(a, i) + Get(b, i)
    ensures Get(Sub(a, b), i) == Get(a, i) - Get(b, i)
    ensures Get(Neg(a), i) == -Get(a, i)
    ensures Get(AddScalar(a, s), i) == Get(a, i) + s
  {
  }

  lemma ComponentwiseProducts(a: Vec3, b: Vec3, s: real, i: nat)
    requires i < 3
    ensures Get(Mul(a, b), i) == Get(a, i) * Get(b, i)
    ensures Get(Scale(a, s), i) == Get(a, i) * s
  {
  }

  lemma ComponentwiseQuotient(a: Vec3, s: real, i: nat)
    requires i < 3
    ensures s != 0.0 ==> Get(Div(a, s), i) == Get(a, i) / s
  {
  }

  function Dot(a: Vec3, b: Vec3): real {
    a.x * b.x + a.y * b.y + a.z * b.z
  }

  lemma DotSymmetric(a: Vec3, b: Vec3)
    ensures Dot(a, b) == Dot(b, a)
  {
  }

  /** The dot product is linear in its first argument. */
  lemma DotLinear(a: Vec3, b: Vec3, c: Vec3, s: real)
    ensures Dot(Add(a, b), c) == Dot(a, c) + Dot(b, c)
    ensures Dot(Sub(a, b), c) == Dot(a, c) - Dot(b, c)
    ensures Dot(Scale(a, s), c) == s * Dot(a, c)
    ensures Dot(Neg(a), c) == -Dot(a, c)
  {
  }

  function Cross(a: Vec3, b: Vec3): Vec3 {
    Vec3(a.y * b.z - a.z * b.y,
         a.z * b.x - a.x * b.z,
         a.x * b.y - a.y * b.x)
  }

  /** The cross product is orthogonal to both of its factors. */
  lemma CrossOrthogonal(a: Vec3, b: Vec3)
    ensures Dot(Cross(a, b), a) == 0.0
    ensures Dot(Cross(a, b), b) == 0.0
  {
  }

  /** `length_squared`: the source squares `hypot(hypot(x, y), z)`; in exact
      arithmetic that is the sum of the squared components. */
  function LengthSquared(a: Vec3): real {
    Dot(a, a)
  }

  lemma LengthSquaredNonNeg(a: Vec3)
    ensures 0.0 <= LengthSquared(a)
    ensures a != Zero ==> 0.0 < LengthSquared(a)
  {
    RealFacts.SumSquares(a.x, a.y, a.z, LengthSquared(a));
  }

  lemma NegLengthSquared(a: Vec3)
    ensures LengthSquared(Neg(a)) == LengthSquared(a)
  {
  }

  lemma ScaleLengthSquared(a: Vec3, s: real)
    ensures LengthSquared(Scale(a, s)) == s * s * LengthSquared(a)
  {
  }

  /** `len` is what `Vec3::length` (`hypot`) returns for `a`. */
  predicate IsLength(a: Vec3, len: real) {
    0.0 <= len && len * len == LengthSquared(a)
  }

  /** `root` is what `f64::sqrt` returns for `x`. */
  predicate IsSqrt(x: real, root: real) {
    0.0 <= root && root * root == x
  }

  /** `sqrt` gives every non-negative number its square root. */
  ghost predicate SqrtOracle(sqrt: real -> real) {
    forall x: real :: 0.0 <= x ==> IsSqrt(x, sqrt(x))
  }

  /** `unit_vector`: `a / length(a)`, for a non-zero `a` whose length is `len`. */
  function UnitVector(a: Vec3, len: real): (r: Vec3)
    requires IsLength(a, len) && len != 0.0
    ensures LengthSquared(r) == 1.0
    ensures Scale(r, len) == a
  {
    var k := 1.0 / len;
    assert Div(a, len) == Scale(a, k);
    ScaleLengthSquared(a, k);
    assert k * k * (len * len) == (k * len) * (k * len) == 1.0;
    Div(a, len)
  }

  /** `near_zero`: every component's magnitude is below `f64::MIN_POSITIVE`. */
  predicate NearZero(a: Vec3) {
    Abs(a.x) < F64MinPositive && Abs(a.y) < F64MinPositive && Abs(a.z) < F64MinPositive
  }

  lemma NearZeroByIndex(a: Vec3)
    ensures NearZero(a) <==> forall i: nat :: i < 3 ==> Abs(Get(a, i)) < F64MinPositive
  {
    if !NearZero(a) {
      if Abs(a.x) >= F64MinPositive {
        assert Abs(Get(a, 0)) >= F64MinPositive;
      } else if Abs(a.y) >= F64MinPositive {
        assert Abs(Get(a, 1)) >= F64MinPositive;
      } else {
        assert Abs(Get(a, 2)) >= F64MinPositive;
      }
    }
  }

  /** `reflect(v, n) = v - n * dot(v, n) * 2`. */
  function Reflect(v: Vec3, n: Vec3): Vec3 {
    Sub(v, Scale(Scale(n, Dot(v, n)), 2.0))
  }

  /** About a unit normal, reflection negates the normal component and keeps
      the length. */
  lemma ReflectAboutUnitNormal(v: Vec3, n: Vec3)
    requires LengthSquared(n) == 1.0
    ensures Dot(Reflect(v, n), n) == -Dot(v, n)
    ensures LengthSquared(Reflect(v, n)) == LengthSquared(v)
  {
    var d := Dot(v, n);
    var r := Reflect(v, n);
    DotLinear(v, Scale(Scale(n, d), 2.0), n, 0.0);
    assert Dot(Scale(Scale(n, d), 2.0), n) == 2.0 * d * LengthSquared(n);
    calc {
      LengthSquared(r);
      Dot(v, v) - 4.0 * d * Dot(v, n) + 4.0 * d * d * Dot(n, n);
      Dot(v, v);
    }
  }

  /** The dot product of a vector in the unit ball with a unit vector lies
      in `[-1, 1]` (the Cauchy-Schwarz inequality for these lengths). */
  lemma DotWithinUnit(u: Vec3, n: Vec3)
    requires LengthSquared(u) <= 1.0 && LengthSquared(n) == 1.0
    ensures -1.0 <= Dot(u, n) <= 1.0
  {
    ExpandSquare(u.x, n.x);
    ExpandSquare(u.y, n.y);
    ExpandSquare(u.z, n.z);
    LengthSquaredNonNeg(Add(u, n));
    LengthSquaredNonNeg(Sub(u, n));
  }

  /** `|a + b|^2 = |a|^2 + 2 a.b + |b|^2`. */
  lemma LengthSquaredAdd(a: Vec3, b: Vec3)
    ensures LengthSquared(Add(a, b)) == LengthSquared(a) + 2.0 * Dot(a, b) + LengthSquared(b)
  {
    ExpandSquare(a.x, b.x);
    ExpandSquare(a.y, b.y);
    ExpandSquare(a.z, b.z);
  }

  lemma ExpandSquare(a: real, b: real)
    ensures (a + b) * (a + b) == a * a + 2.0 * (a * b) + b * b
    ensures (a - b) * (a - b) == a * a - 2.0 * (a * b) + b * b
  {
  }

  /** The perpendicular part of `reflact`: `(uv + n * cos_theta) * etai_over_etat`. */
  function RefractPerp(uv: Vec3, n: Vec3, etaiOverEtat: real): Vec3 {
    var cosTheta := Min(Dot(Neg(uv), n), 1.0);
    Scale(Add(uv, Scale(n, cosTheta)), etaiOverEtat)
  }

  /** `reflact` (refraction by Snell's law). `parallelLen` is the `sqrt` of
      `|1 - length_squared(r_out_perp)|` computed by the source. */
  function Refract(uv: Vec3, n: Vec3, etaiOverEtat: real, parallelLen: real): Vec3 {
    Add(RefractPerp(uv, n, etaiOverEtat), Scale(n, -parallelLen))
  }

  /** For a unit normal the perpendicular part is orthogonal to `n`, so the
      refracted ray's component along `n` is exactly `-parallelLen`. */
  lemma RefractNormalComponent(uv: Vec3, n: Vec3, etaiOverEtat: real, parallelLen: real)
    requires LengthSquared(n) == 1.0 && Dot(Neg(uv), n) <= 1.0
    ensures Dot(RefractPerp(uv, n, etaiOverEtat), n) == 0.0
    ensures Dot(Refract(uv, n, etaiOverEtat, parallelLen), n) == -parallelLen
  {
    var c := Dot(Neg(uv), n);
    DotLinear(uv, uv, n, 0.0);
    DotLinear(n, n, n, c);
    DotLinear(uv, Scale(n, c), n, 0.0);
    var perp := RefractPerp(uv, n, etaiOverEtat);
    assert perp == Scale(Add(uv, Scale(n, c)), etaiOverEtat);
    DotLinear(Add(uv, Scale(n, c)), Add(uv, Scale(n, c)), n, etaiOverEtat);
    DotLinear(perp, Scale(n, -parallelLen), n, 0.0);
    DotLinear(n, n, n, -parallelLen);
  }

  /** For a unit normal and an incidence below the critical angle the
      refracted direction is again a unit vector. */
  lemma RefractIsUnit(uv: Vec3, n: Vec3, etaiOverEtat: real, parallelLen: real)
    requires IsSqrt(Abs(1.0 - LengthSquared(RefractPerp(uv, n, etaiOverEtat))), parallelLen)
    requires LengthSquared(n) == 1.0 && Dot(Neg(uv), n) <= 1.0
    requires LengthSquared(RefractPerp(uv, n, etaiOverEtat)) <= 1.0
    ensures LengthSquared(Refract(uv, n, etaiOverEtat, parallelLen)) == 1.0
  {
    var perp := RefractPerp(uv, n, etaiOverEtat);
    var par := Scale(n, -parallelLen);
    RefractNormalComponent(uv, n, etaiOverEtat, parallelLen);
    DotSymmetric(perp, par);
    DotSymmetric(perp, n);
    DotLinear(n, n, perp, -parallelLen);
    ParallelPartSquared(n, parallelLen);
    LengthSquaredAdd(perp, par);
  }

  lemma ParallelPartSquared(n: Vec3, len: real)
    requires LengthSquared(n) == 1.0
    ensures LengthSquared(Scale(n, -len)) == len * len
  {
    ScaleLengthSquared(n, -len);
    assert (-len) * (-len) == len * len;
  }

  // Random points, with the draws of `Random::random` given as samples.

  /** `Vec3::random(rng, min, max)`: three independent draws. */
  function RandomVec(s1: real, s2: real, s3: real, min: Option<real>, max: Option<real>): (r: Vec3)
    requires IsSample(s1) && IsSample(s2) && IsSample(s3)
    ensures min.Some? && max.Some? && min.value <= max.value ==>
              min.value <= r.x <= max.value && min.value <= r.y <= max.value && min.value <= r.z <= max.value
    ensures min.Some? && max.Some? && min.value < max.value ==>
              r.x < max.value && r.y < max.value && r.z < max.value
  {
    Vec3(RangeMap(s1, min, max), RangeMap(s2, min, max), RangeMap(s3, min, max))
  }

  /** `Vec3::random(rng, min, max)` drawing from the generator: three
      consecutive samples, one per component. */
  method RandomVecFrom(rng: Random, min: Option<real>, max: Option<real>) returns (v: Vec3)
    requires rng.Valid()
    modifies rng
    ensures rng.Valid() && rng.drawn == old(rng.drawn) + 3
    ensures v == RandomVec(rng.stream(old(rng.drawn)), rng.stream(old(rng.drawn) + 1),
                           rng.stream(old(rng.drawn) + 2), min, max)
  {
    var x := rng.Random(min, max);
    var y := rng.Random(min, max);
    var z := rng.Random(min, max);
    v := Vec3(x, y, z);
  }

  /** `random_in_unit_sphere`: each draw is confined to what the earlier ones
      left, so the point lies in the octahedron |x| + |y| + |z| <= 1 and
      therefore inside the unit sphere. */
  function RandomInUnitSphere(s1: real, s2: real, s3: real): (r: Vec3)
    requires IsSample(s1) && IsSample(s2) && IsSample(s3)
    ensures Abs(r.x) + Abs(r.y) + Abs(r.z) <= 1.0
    ensures LengthSquared(r) <= 1.0
  {
    var x := RangeMap(s1, Some(-1.0), Some(1.0));
    var y := RangeMap(s2, Some(-1.0 + Abs(x)), Some(1.0 - Abs(x)));
    var z := RangeMap(s3, Some(-1.0 + Abs(x) + Abs(y)), Some(1.0 - Abs(x) - Abs(y)));
    var r := Vec3(x, y, z);
    OctahedronInBall(r);
    r
  }

  lemma OctahedronInBall(r: Vec3)
    requires Abs(r.x) + Abs(r.y) + Abs(r.z) <= 1.0
    ensures LengthSquared(r) <= 1.0
  {
    var ax, ay, az := Abs(r.x), Abs(r.y), Abs(r.z);
    RealFacts.MulNonNeg(ax, 1.0 - ax);
    RealFacts.MulNonNeg(ay, 1.0 - ay);
    RealFacts.MulNonNeg(az, 1.0 - az);
    assert r.x * r.x == ax * ax && r.y * r.y == ay * ay && r.z * r.z == az * az;
  }

  /** `random_unit_vector`: the unit sphere point normalised; `len` is its
      `hypot` length, which is zero only for the centre. */
  function RandomUnitVector(s1: real, s2: real, s3: real, len: real): (r: Vec3)
    requires IsSample(s1) && IsSample(s2) && IsSample(s3)
    requires IsLength(RandomInUnitSphere(s1, s2, s3), len) && len != 0.0
    ensures LengthSquared(r) == 1.0
  {
    UnitVector(RandomInUnitSphere(s1, s2, s3), len)
  }

  /** `random_in_hemisphere`: the unit sphere point, flipped when it lies on
      the far side of `normal`. */
  function RandomInHemisphere(s1: real, s2: real, s3: real, normal: Vec3): (r: Vec3)
    requires IsSample(s1) && IsSample(s2) && IsSample(s3)
    ensures Dot(r, normal) >= 0.0
    ensures r == RandomInUnitSphere(s1, s2, s3) || r == Neg(RandomInUnitSphere(s1, s2, s3))
    ensures LengthSquared(r) <= 1.0
  {
    var inUnitSphere := RandomInUnitSphere(s1, s2, s3);
    DotLinear(inUnitSphere, inUnitSphere, normal, 0.0);
    NegLengthSquared(inUnitSphere);
    if Dot(inUnitSphere, normal) > 0.0 then inUnitSphere else Neg(inUnitSphere)
  }

  /** `random_in_unit_disk`: the same construction in the plane z = 0. */
  function RandomInUnitDisk(s1: real, s2: real): (r: Vec3)
    requires IsSample(s1) && IsSample(s2)
    ensures r.z == 0.0
    ensures Abs(r.x) + Abs(r.y) <= 1.0
    ensures LengthSquared(r) <= 1.0
  {
    var x := RangeMap(s1, Some(-1.0), Some(1.0));
    var y := RangeMap(s2, Some(-1.0 + Abs(x)), Some(1.0 - Abs(x)));
    var r := Vec3(x, y, 0.0);
    OctahedronInBall(r);
    r
  }
}
