/** The ray-sphere quadratic shared by the three sphere kinds
    (src/objects/sphere.rs, src/sphere.rs, src/objects/moving_sphere.rs):
    with `oc = origin - center`, the point `ray.at(t)` lies on the sphere
    exactly when `a t^2 + 2 halfB t + c = 0`, where `a = |direction|^2`,
    `halfB = oc . direction` and `c = |oc|^2 - radius^2`. `sqrt` is the
    square root the source takes of the discriminant. */
module SphereRoots {
  import opened Options
  import opened Vectors
  import opened Rays
  import RealFacts

  function QuadA(ray: Ray): real {
    LengthSquared(ray.direction)
  }

  function HalfB(center: Vec3, ray: Ray): real {
    Dot(Sub(ray.origin, center), ray.direction)
  }

  function QuadC(center: Vec3, radius: real, ray: Ray): real {
    LengthSquared(Sub(ray.origin, center)) - radius * radius
  }

  /** `half_b * half_b - a * c`. */
  function Discriminant(center: Vec3, radius: real, ray: Ray): real {
    Disc(QuadA(ray), HalfB(center, ray), QuadC(center, radius, ray))
  }

  function Disc(a: real, halfB: real, c: real): real {
    halfB * halfB - a * c
  }

  /** `ray.at(t)` lies on the sphere. */
  predicate OnSphere(center: Vec3, radius: real, ray: Ray, t: real) {
    LengthSquared(Sub(At(ray, t), center)) == radius * radius
  }

  /** The two roots, the smaller first when `a > 0`. */
  function NearRoot(a: real, halfB: real, sqrtd: real): real
    requires a != 0.0
  {
    (-halfB - sqrtd) / a
  }

  function FarRoot(a: real, halfB: real, sqrtd: real): real
    requires a != 0.0
  {
    (-halfB + sqrtd) / a
  }

  predicate InRange(t: real, tMin: real, tMax: real) {
    !(t < tMin || tMax < t)
  }

  /** The root selection: the smaller root if it lies in the closed window,
      otherwise the larger one if that does, otherwise none. */
  function PickRoot(a: real, halfB: real, sqrtd: real, tMin: real, tMax: real): (r: Option<real>)
    requires a != 0.0
    ensures r.Some? ==> tMin <= r.value <= tMax
    ensures r.Some? ==> r.value == NearRoot(a, halfB, sqrtd) || r.value == FarRoot(a, halfB, sqrtd)
    ensures InRange(NearRoot(a, halfB, sqrtd), tMin, tMax) ==> r == Some(NearRoot(a, halfB, sqrtd))
    ensures r.None? <==>
      !InRange(NearRoot(a, halfB, sqrtd), tMin, tMax) && !InRange(FarRoot(a, halfB, sqrtd), tMin, tMax)
  {
    var root := NearRoot(a, halfB, sqrtd);
    if root < tMin || tMax < root then
      var root' := FarRoot(a, halfB, sqrtd);
      if root' < tMin || tMax < root' then None else Some(root')
    else Some(root)
  }

  /** The sphere's nearest root in the window. A negative discriminant is a
      miss. A zero direction makes the source divide 0 by 0 and report a NaN
      parameter; it is a miss here. */
  function SphereRoot(center: Vec3, radius: real, ray: Ray, tMin: real, tMax: real, sqrt: real -> real): Option<real> {
    QuadraticRoot(QuadA(ray), HalfB(center, ray), QuadC(center, radius, ray), tMin, tMax, sqrt)
  }

  /** The same selection for the coefficients `a`, `halfB`, `c`. */
  function QuadraticRoot(a: real, halfB: real, c: real, tMin: real, tMax: real, sqrt: real -> real): Option<real> {
    var disc := Disc(a, halfB, c);
    if disc < 0.0 || a == 0.0 then None
    else PickRoot(a, halfB, sqrt(disc), tMin, tMax)
  }

  /** `|oc + s d|^2 = |oc|^2 + 2 s (oc . d) + s^2 |d|^2`. */
  lemma ExpandDistance(oc: Vec3, d: Vec3, s: real)
    ensures LengthSquared(Add(oc, Scale(d, s))) ==
      LengthSquared(d) * s * s + 2.0 * Dot(oc, d) * s + LengthSquared(oc)
  {
    LengthSquaredAdd(oc, Scale(d, s));
    DotSymmetric(oc, Scale(d, s));
    DotLinear(d, d, oc, s);
    DotSymmetric(d, oc);
    ScaleLengthSquared(d, s);
  }

  /** On the sphere exactly when the parameter solves the quadratic. */
  lemma OnSphereQuadratic(center: Vec3, radius: real, ray: Ray, t: real)
    ensures OnSphere(center, radius, ray, t) <==>
      QuadA(ray) * t * t + 2.0 * HalfB(center, ray) * t + QuadC(center, radius, ray) == 0.0
  {
    OnSphereSolves(center, radius, ray, t);
    SolutionOnSphere(center, radius, ray, t);
  }

  lemma OnSphereSolves(center: Vec3, radius: real, ray: Ray, t: real)
    ensures OnSphere(center, radius, ray, t) ==>
      QuadA(ray) * t * t + 2.0 * HalfB(center, ray) * t + QuadC(center, radius, ray) == 0.0
  {
    DistanceAsQuadratic(center, radius, ray, t);
  }

  lemma SolutionOnSphere(center: Vec3, radius: real, ray: Ray, t: real)
    ensures QuadA(ray) * t * t + 2.0 * HalfB(center, ray) * t + QuadC(center, radius, ray) == 0.0 ==>
      OnSphere(center, radius, ray, t)
  {
    DistanceAsQuadratic(center, radius, ray, t);
  }

  lemma DistanceAsQuadratic(center: Vec3, radius: real, ray: Ray, t: real)
    ensures LengthSquared(Sub(At(ray, t), center)) == radius * radius <==>
      QuadA(ray) * t * t + 2.0 * HalfB(center, ray) * t + QuadC(center, radius, ray) == 0.0
  {
    DistanceExpanded(center, ray, t);
    QuadraticShift(LengthSquared(Sub(At(ray, t), center)), QuadA(ray), HalfB(center, ray),
                   LengthSquared(Sub(ray.origin, center)), radius * radius, QuadC(center, radius, ray), t);
  }

  /** The squared distance from the center along the ray, as a polynomial
      in the parameter. */
  lemma DistanceExpanded(center: Vec3, ray: Ray, t: real)
    ensures LengthSquared(Sub(At(ray, t), center)) ==
      QuadA(ray) * t * t + 2.0 * HalfB(center, ray) * t + LengthSquared(Sub(ray.origin, center))
  {
    OffsetFromCenter(center, ray, t);
    ExpandDistance(Sub(ray.origin, center), ray.direction, t);
  }

  lemma QuadraticShift(dist: real, a: real, halfB: real, c0: real, rr: real, c: real, t: real)
    requires dist == a * t * t + 2.0 * halfB * t + c0 && c == c0 - rr
    ensures dist == rr <==> a * t * t + 2.0 * halfB * t + c == 0.0
  {
  }

  lemma OffsetFromCenter(center: Vec3, ray: Ray, t: real)
    ensures Sub(At(ray, t), center) == Add(Sub(ray.origin, center), Scale(ray.direction, t))
  {
  }

  /** `a (a t^2 + 2 halfB t + c) = (a t + halfB)^2 - (halfB^2 - a c)`. */
  lemma CompleteSquare(a: real, halfB: real, c: real, t: real)
    ensures a * (a * t * t + 2.0 * halfB * t + c) ==
      (a * t + halfB) * (a * t + halfB) - (halfB * halfB - a * c)
  {
  }

  /** Both roots solve the quadratic. */
  lemma RootsSolve(a: real, halfB: real, c: real, sqrtd: real)
    requires a != 0.0 && IsSqrt(halfB * halfB - a * c, sqrtd)
    ensures a * NearRoot(a, halfB, sqrtd) * NearRoot(a, halfB, sqrtd) + 2.0 * halfB * NearRoot(a, halfB, sqrtd) + c == 0.0
    ensures a * FarRoot(a, halfB, sqrtd) * FarRoot(a, halfB, sqrtd) + 2.0 * halfB * FarRoot(a, halfB, sqrtd) + c == 0.0
  {
    var t1, t2 := NearRoot(a, halfB, sqrtd), FarRoot(a, halfB, sqrtd);
    assert a * t1 + halfB == -sqrtd;
    assert a * t2 + halfB == sqrtd;
    CompleteSquare(a, halfB, c, t1);
    CompleteSquare(a, halfB, c, t2);
    ZeroProduct(a, a * t1 * t1 + 2.0 * halfB * t1 + c);
    ZeroProduct(a, a * t2 * t2 + 2.0 * halfB * t2 + c);
  }

  lemma ZeroProduct(a: real, b: real)
    requires a != 0.0 && a * b == 0.0
    ensures b == 0.0
  {
  }

  /** Every solution of the quadratic is one of the two roots, and the near
      root is the smaller one when `a > 0`. */
  lemma SolutionIsRoot(a: real, halfB: real, c: real, sqrtd: real, t: real)
    requires 0.0 < a && IsSqrt(halfB * halfB - a * c, sqrtd)
    requires a * t * t + 2.0 * halfB * t + c == 0.0
    ensures t == NearRoot(a, halfB, sqrtd) || t == FarRoot(a, halfB, sqrtd)
    ensures NearRoot(a, halfB, sqrtd) <= FarRoot(a, halfB, sqrtd)
  {
    var m := a * t + halfB;
    CompleteSquare(a, halfB, c, t);
    SquaresEqual(m, sqrtd, halfB * halfB - a * c);
    SolveFor(a, t, m - halfB);
    RootsOrdered(a, halfB, sqrtd);
  }

  /** Two numbers with the same square are equal up to sign. */
  lemma SquaresEqual(m: real, q: real, sq: real)
    requires m * m == sq && q * q == sq
    ensures m == q || m == -q
  {
    assert (m - q) * (m + q) == m * m - q * q;
    if m != q {
      ZeroProduct(m - q, m + q);
    }
  }

  lemma SolveFor(a: real, t: real, k: real)
    requires a != 0.0 && a * t == k
    ensures t == k / a
  {
  }

  lemma RootsOrdered(a: real, halfB: real, sqrtd: real)
    requires 0.0 < a && 0.0 <= sqrtd
    ensures NearRoot(a, halfB, sqrtd) <= FarRoot(a, halfB, sqrtd)
  {
    var lo, hi := NearRoot(a, halfB, sqrtd), FarRoot(a, halfB, sqrtd);
    SolveFor(a, lo, -halfB - sqrtd);
    SolveFor(a, hi, -halfB + sqrtd);
    if hi < lo {
      RealFacts.MulPos(lo - hi, a, (lo - hi) * a);
    }
  }

  /** A root found lies in the window and solves the quadratic. */
  lemma QuadraticRootSound(a: real, halfB: real, c: real, tMin: real, tMax: real, sqrt: real -> real)
    requires IsSqrt(Disc(a, halfB, c), sqrt(Disc(a, halfB, c)))
    ensures QuadraticRoot(a, halfB, c, tMin, tMax, sqrt).Some? ==>
      var t := QuadraticRoot(a, halfB, c, tMin, tMax, sqrt).value;
      tMin <= t <= tMax && a * t * t + 2.0 * halfB * t + c == 0.0
  {
    if QuadraticRoot(a, halfB, c, tMin, tMax, sqrt).Some? {
      RootsSolve(a, halfB, c, sqrt(Disc(a, halfB, c)));
    }
  }

  /** Any solution in the window makes the selection find a root no
      farther, when `a > 0`. */
  lemma QuadraticRootNearest(a: real, halfB: real, c: real, tMin: real, tMax: real, sqrt: real -> real, s: real)
    requires 0.0 < a && IsSqrt(Disc(a, halfB, c), sqrt(Disc(a, halfB, c)))
    requires tMin <= s <= tMax && a * s * s + 2.0 * halfB * s + c == 0.0
    ensures QuadraticRoot(a, halfB, c, tMin, tMax, sqrt).Some?
    ensures QuadraticRoot(a, halfB, c, tMin, tMax, sqrt).value <= s
  {
    var disc := Disc(a, halfB, c);
    var sqrtd := sqrt(disc);
    RealFacts.SquareNonNeg(sqrtd, disc);
    SolutionIsRoot(a, halfB, c, sqrtd, s);
    PickRootAtMost(a, halfB, sqrtd, tMin, tMax, s);
  }

  /** A root found lies in the window and on the sphere. */
  lemma SphereRootSound(center: Vec3, radius: real, ray: Ray, tMin: real, tMax: real, sqrt: real -> real)
    requires IsSqrt(Discriminant(center, radius, ray), sqrt(Discriminant(center, radius, ray)))
    ensures SphereRoot(center, radius, ray, tMin, tMax, sqrt).Some? ==>
      var t := SphereRoot(center, radius, ray, tMin, tMax, sqrt).value;
      tMin <= t <= tMax && OnSphere(center, radius, ray, t)
  {
    var r := SphereRoot(center, radius, ray, tMin, tMax, sqrt);
    if r.Some? {
      var t := r.value;
      SphereRootSolves(center, radius, ray, tMin, tMax, sqrt);
      assert QuadA(ray) * t * t + 2.0 * HalfB(center, ray) * t + QuadC(center, radius, ray) == 0.0;
      SolutionOnSphere(center, radius, ray, t);
    }
  }

  lemma SphereRootSolves(center: Vec3, radius: real, ray: Ray, tMin: real, tMax: real, sqrt: real -> real)
    requires IsSqrt(Discriminant(center, radius, ray), sqrt(Discriminant(center, radius, ray)))
    requires SphereRoot(center, radius, ray, tMin, tMax, sqrt).Some?
    ensures var t := SphereRoot(center, radius, ray, tMin, tMax, sqrt).value;
      tMin <= t <= tMax && QuadA(ray) * t * t + 2.0 * HalfB(center, ray) * t + QuadC(center, radius, ray) == 0.0
  {
    QuadraticRootSound(QuadA(ray), HalfB(center, ray), QuadC(center, radius, ray), tMin, tMax, sqrt);
  }

  /** The root found is the nearest point of the sphere in the window: when
      the ray meets the sphere at any `s` in `[tMin, tMax]`, a root is found
      and it is no farther than `s`. */
  lemma SphereRootNearest(center: Vec3, radius: real, ray: Ray, tMin: real, tMax: real, sqrt: real -> real, s: real)
    requires IsSqrt(Discriminant(center, radius, ray), sqrt(Discriminant(center, radius, ray)))
    requires ray.direction != Zero
    requires tMin <= s <= tMax && OnSphere(center, radius, ray, s)
    ensures SphereRoot(center, radius, ray, tMin, tMax, sqrt).Some?
    ensures SphereRoot(center, radius, ray, tMin, tMax, sqrt).value <= s
  {
    LengthSquaredNonNeg(ray.direction);
    OnSphereSolves(center, radius, ray, s);
    QuadraticRootNearest(QuadA(ray), HalfB(center, ray), QuadC(center, radius, ray), tMin, tMax, sqrt, s);
  }

  /** A root in the window makes the selection find one no farther. */
  lemma PickRootAtMost(a: real, halfB: real, sqrtd: real, tMin: real, tMax: real, s: real)
    requires a != 0.0 && NearRoot(a, halfB, sqrtd) <= FarRoot(a, halfB, sqrtd)
    requires s == NearRoot(a, halfB, sqrtd) || s == FarRoot(a, halfB, sqrtd)
    requires tMin <= s <= tMax
    ensures PickRoot(a, halfB, sqrtd, tMin, tMax).Some?
    ensures PickRoot(a, halfB, sqrtd, tMin, tMax).value <= s
  {
  }

  /** The discriminant decides whether the line meets the sphere at all:
      when it is negative no parameter lies on the sphere. */
  lemma NegativeDiscriminantMisses(center: Vec3, radius: real, ray: Ray, s: real)
    requires Discriminant(center, radius, ray) < 0.0
    ensures !OnSphere(center, radius, ray, s)
  {
    OnSphereSolves(center, radius, ray, s);
    NoRealSolution(QuadA(ray), HalfB(center, ray), QuadC(center, radius, ray), s);
  }

  /** A negative discriminant leaves the quadratic without a solution. */
  lemma NoRealSolution(a: real, halfB: real, c: real, s: real)
    requires Disc(a, halfB, c) < 0.0
    ensures a * s * s + 2.0 * halfB * s + c != 0.0
  {
    CompleteSquare(a, halfB, c, s);
    var m := a * s + halfB;
    RealFacts.SquareNonNeg(m, m * m);
  }
}
