/** `MovingSphere` (src/objects/moving_sphere.rs): a sphere whose centre moves
    linearly from `center0` at `time0` to `center1` at `time1`. Its `hit`
    writes `t`, `p`, `normal`, `front_face` and `material` and leaves `u`
    and `v` as they were. */
module MovingSpheres {
  import opened Options
  import opened Vectors
  import opened Rays
  import opened Boxes
  import opened Materials
  import opened Hits
  import opened SphereRoots
  import Spheres
  import RealFacts

  datatype MovingSphere = MovingSphere(
    center0: Vec3, center1: Vec3, time0: real, time1: real, radius: real, material: Material)

  /** `center`: `center0 + (center1 - center0) * ((time - time0) / (time1 -
      time0))`. Equal shutter times divide 0 by 0 in the source; the model
      asks for distinct times wherever the centre is used. */
  function Center(ms: MovingSphere, time: real): Vec3
    requires ms.time0 != ms.time1
  {
    Add(ms.center0, Scale(Sub(ms.center1, ms.center0), (time - ms.time0) / (ms.time1 - ms.time0)))
  }

  /** The centre passes through both key positions and moves by a fixed
      velocity: the displacement between two times is proportional to the
      time between them. */
  lemma CenterAffine(ms: MovingSphere, t: real, s: real)
    requires ms.time0 != ms.time1
    ensures Center(ms, ms.time0) == ms.center0
    ensures Center(ms, ms.time1) == ms.center1
    ensures Sub(Center(ms, t), Center(ms, s)) ==
      Scale(Sub(ms.center1, ms.center0), (t - s) / (ms.time1 - ms.time0))
  {
    var dt := ms.time1 - ms.time0;
    var v := Sub(ms.center1, ms.center0);
    DivFacts(t - ms.time0, s - ms.time0, dt);
    DivFacts(ms.time1 - ms.time0, 0.0, dt);
    ScaleDifference(ms.center0, v, (t - ms.time0) / dt, (s - ms.time0) / dt);
  }

  lemma DivFacts(p: real, q: real, d: real)
    requires d != 0.0
    ensures p / d - q / d == (p - q) / d
    ensures d / d == 1.0 && 0.0 / d == 0.0
  {
  }

  lemma ScaleDifference(c: Vec3, v: Vec3, a: real, b: real)
    ensures Sub(Add(c, Scale(v, a)), Add(c, Scale(v, b))) == Scale(v, a - b)
    ensures Scale(v, 0.0) == Zero && Scale(v, 1.0) == v
  {
  }

  /** `MovingSphere::hit`: the sphere's quadratic at the centre for the ray's
      time, and the normal from that same centre; equal shutter times, a zero
      direction or a zero radius is a miss. */
  method HitInto(ms: MovingSphere, ray: Ray, tMin: real, tMax: real, sqrt: real -> real, rec: HitRecord)
    returns (hit: bool, rec': HitRecord)
    ensures hit <==> (ms.time0 != ms.time1 && ms.radius != 0.0 &&
      SphereRoot(Center(ms, ray.time), ms.radius, ray, tMin, tMax, sqrt).Some?)
    ensures hit ==>
      var root := SphereRoot(Center(ms, ray.time), ms.radius, ray, tMin, tMax, sqrt).value;
      rec' == WithFaceNormal(rec.(t := root, p := At(ray, root)), ray,
                             Div(Sub(At(ray, root), Center(ms, ray.time)), ms.radius)).(material := Some(ms.material))
    ensures hit ==> tMin <= rec'.t <= tMax && rec'.p == At(ray, rec'.t)
    ensures hit && IsSqrt(Discriminant(Center(ms, ray.time), ms.radius, ray), sqrt(Discriminant(Center(ms, ray.time), ms.radius, ray))) ==>
      OnSphere(Center(ms, ray.time), ms.radius, ray, rec'.t)
    ensures rec'.u == rec.u && rec'.v == rec.v
    ensures !hit ==> rec' == rec
  {
    rec' := rec;
    if ms.time0 == ms.time1 || ms.radius == 0.0 {
      return false, rec';
    }
    var center := Center(ms, ray.time);
    var oc := Sub(ray.origin, center);
    var a := LengthSquared(ray.direction);
    var halfB := Dot(oc, ray.direction);
    var c := LengthSquared(oc) - ms.radius * ms.radius;
    var discriminant := halfB * halfB - a * c;
    assert discriminant == Discriminant(center, ms.radius, ray) by {
      assert a == QuadA(ray) && halfB == HalfB(center, ray) && c == QuadC(center, ms.radius, ray);
    }
    if discriminant < 0.0 || a == 0.0 {
      return false, rec';
    }
    var sqrtd := sqrt(discriminant);
    var root := NearRoot(a, halfB, sqrtd);
    if root < tMin || tMax < root {
      root := FarRoot(a, halfB, sqrtd);
      if root < tMin || tMax < root {
        return false, rec';
      }
    }
    assert SphereRoot(center, ms.radius, ray, tMin, tMax, sqrt) == Some(root);
    if IsSqrt(discriminant, sqrtd) {
      SphereRootSound(center, ms.radius, ray, tMin, tMax, sqrt);
    }
    rec' := rec'.(t := root);
    rec' := rec'.(p := At(ray, rec'.t));
    var outward := Div(Sub(rec'.p, Center(ms, ray.time)), ms.radius);
    rec' := SetFaceNormal(rec', ray, outward);
    rec' := rec'.(material := Some(ms.material));
    hit := true;
  }

  /** The static sphere's box around the centre at one time. */
  function BoxAt(ms: MovingSphere, time: real): Aabb
    requires ms.time0 != ms.time1
  {
    Spheres.BoundingBox(Spheres.Sphere(Center(ms, time), ms.radius, ms.material))
  }

  /** `bounding_box`: the union of the sphere's boxes at the two query times;
      it always reports a box (equal shutter times give NaN corners in the
      source and no box here). */
  function BoundingBox(ms: MovingSphere, time0: real, time1: real): (r: Option<Aabb>)
    ensures r.Some? <==> ms.time0 != ms.time1
    ensures r.Some? ==> Contains(r.value, BoxAt(ms, time0)) && Contains(r.value, BoxAt(ms, time1))
    ensures r.Some? ==> forall b :: Contains(b, BoxAt(ms, time0)) && Contains(b, BoxAt(ms, time1)) ==> Contains(b, r.value)
  {
    if ms.time0 == ms.time1 then None
    else Some(SurroundingBox(BoxAt(ms, time0), BoxAt(ms, time1)))
  }

  /** The box holds the sphere at every time between the two query times,
      because the centre moves along a straight line. */
  lemma BoxHoldsPath(ms: MovingSphere, time0: real, time1: real, time: real)
    requires ms.time0 != ms.time1
    requires time0 <= time <= time1
    ensures Contains(BoundingBox(ms, time0, time1).value, BoxAt(ms, time))
  {
    var dt := ms.time1 - ms.time0;
    var v := Sub(ms.center1, ms.center0);
    CenterAffine(ms, time, time0);
    CenterAffine(ms, time1, time);
    var k0, k1 := (time - time0) / dt, (time1 - time) / dt;
    SameSign(time - time0, time1 - time, dt);
    var c0, c, c1 := Center(ms, time0), Center(ms, time), Center(ms, time1);
    StepsBetween(c0, c, c1, v, k0, k1);
    BoxBetween(c0, c, c1, ms.radius, ms.material);
  }

  /** A point reached from both ends by steps of the same sign along one
      vector lies, axis by axis, between the ends. */
  lemma StepsBetween(c0: Vec3, c: Vec3, c1: Vec3, v: Vec3, k0: real, k1: real)
    requires Sub(c, c0) == Scale(v, k0) && Sub(c1, c) == Scale(v, k1)
    requires (0.0 <= k0 && 0.0 <= k1) || (k0 <= 0.0 && k1 <= 0.0)
    ensures Min(c0.x, c1.x) <= c.x <= Max(c0.x, c1.x)
    ensures Min(c0.y, c1.y) <= c.y <= Max(c0.y, c1.y)
    ensures Min(c0.z, c1.z) <= c.z <= Max(c0.z, c1.z)
  {
    Between(c0.x, c.x, c1.x, v.x, k0, k1);
    Between(c0.y, c.y, c1.y, v.y, k0, k1);
    Between(c0.z, c.z, c1.z, v.z, k0, k1);
  }

  /** A sphere whose centre lies, axis by axis, between two centres lies in
      the union of the two spheres' boxes. */
  lemma BoxBetween(c0: Vec3, c: Vec3, c1: Vec3, radius: real, material: Material)
    requires Min(c0.x, c1.x) <= c.x <= Max(c0.x, c1.x)
    requires Min(c0.y, c1.y) <= c.y <= Max(c0.y, c1.y)
    requires Min(c0.z, c1.z) <= c.z <= Max(c0.z, c1.z)
    ensures Contains(SurroundingBox(Spheres.BoundingBox(Spheres.Sphere(c0, radius, material)),
                                    Spheres.BoundingBox(Spheres.Sphere(c1, radius, material))),
                     Spheres.BoundingBox(Spheres.Sphere(c, radius, material)))
  {
  }

  /** Two non-negative numbers divided by the same non-zero number keep the
      same sign as each other. */
  lemma SameSign(p: real, q: real, d: real)
    requires 0.0 <= p && 0.0 <= q && d != 0.0
    ensures (0.0 <= p / d && 0.0 <= q / d) || (p / d <= 0.0 && q / d <= 0.0)
  {
    if d > 0.0 {
      RealFacts.MulNonNeg(p, 1.0 / d);
      RealFacts.MulNonNeg(q, 1.0 / d);
    } else {
      RealFacts.MulNonNeg(p, -1.0 / d);
      RealFacts.MulNonNeg(q, -1.0 / d);
    }
  }

  /** A point reached from both ends by steps of the same sign lies between
      the ends. */
  lemma Between(a: real, m: real, b: real, v: real, k0: real, k1: real)
    requires m - a == v * k0 && b - m == v * k1
    requires (0.0 <= k0 && 0.0 <= k1) || (k0 <= 0.0 && k1 <= 0.0)
    ensures Min(a, b) <= m <= Max(a, b)
  {
    if 0.0 <= k0 && 0.0 <= k1 {
      if 0.0 <= v {
        RealFacts.MulNonNeg(v, k0);
        RealFacts.MulNonNeg(v, k1);
      } else {
        RealFacts.MulNonNeg(-v, k0);
        RealFacts.MulNonNeg(-v, k1);
      }
    } else {
      if 0.0 <= v {
        RealFacts.MulNonNeg(v, -k0);
        RealFacts.MulNonNeg(v, -k1);
      } else {
        RealFacts.MulNonNeg(-v, -k0);
        RealFacts.MulNonNeg(-v, -k1);
      }
    }
  }
}
