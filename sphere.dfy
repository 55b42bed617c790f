/** `Sphere` (src/objects/sphere.rs): a centre, a radius and a material.
    `hit` writes every field of the record, so the out-parameter method and
    the function that builds the record agree. `get_sphere_uv` is built on
    `atan2` / `asin` and enters as the function `uvOf` from the outward
    normal to `(u, v)`. */
module Spheres {
  import opened Options
  import opened Vectors
  import opened Rays
  import opened Boxes
  import opened Materials
  import opened Hits
  import opened SphereRoots
  import RealFacts

  datatype Sphere = Sphere(center: Vec3, radius: real, material: Material)

  /** The record of a hit at `root`: point, outward normal `(p - center) /
      radius` oriented against the ray, texture coordinates of the outward
      normal, and the material. */
  function RecordAt(sphere: Sphere, ray: Ray, root: real, uvOf: Vec3 -> (real, real)): HitRecord
    requires sphere.radius != 0.0
  {
    var p := At(ray, root);
    var outward := Div(Sub(p, sphere.center), sphere.radius);
    var rec := WithFaceNormal(DefaultRecord.(t := root, p := p), ray, outward);
    rec.(u := uvOf(outward).0, v := uvOf(outward).1, material := Some(sphere.material))
  }

  /** `Sphere::hit` as a value. A zero radius makes the source divide 0 by 0
      for the normal; it is a miss here. */
  function Hit(sphere: Sphere, ray: Ray, tMin: real, tMax: real, sqrt: real -> real, uvOf: Vec3 -> (real, real)): Option<HitRecord> {
    if sphere.radius == 0.0 then None
    else
      match SphereRoot(sphere.center, sphere.radius, ray, tMin, tMax, sqrt)
      case None => None
      case Some(root) => Some(RecordAt(sphere, ray, root, uvOf))
  }

  /** `Sphere::hit`: the local `root` is reassigned while the two roots are
      tried; on a miss `rec` is left untouched. */
  method HitInto(sphere: Sphere, ray: Ray, tMin: real, tMax: real, sqrt: real -> real, uvOf: Vec3 -> (real, real), rec: HitRecord)
    returns (hit: bool, rec': HitRecord)
    ensures hit == Hit(sphere, ray, tMin, tMax, sqrt, uvOf).Some?
    ensures hit ==> rec' == Hit(sphere, ray, tMin, tMax, sqrt, uvOf).value
    ensures !hit ==> rec' == rec
  {
    rec' := rec;
    var a := LengthSquared(ray.direction);
    var oc := Sub(ray.origin, sphere.center);
    var halfB := Dot(oc, ray.direction);
    var c := LengthSquared(oc) - sphere.radius * sphere.radius;
    var discriminant := halfB * halfB - a * c;
    assert discriminant == Discriminant(sphere.center, sphere.radius, ray) by {
      assert a == QuadA(ray) && halfB == HalfB(sphere.center, ray) && c == QuadC(sphere.center, sphere.radius, ray);
    }
    if discriminant < 0.0 || a == 0.0 || sphere.radius == 0.0 {
      return false, rec';
    }
    var sqrtd := sqrt(discriminant);
    var root := NearRoot(a, halfB, sqrtd);
    if root < tMin || tMax < root {
      root := FarRoot(a, halfB, sqrtd);
      if root < tMin || tMax < root {
        return false, rec';
      }
    }
    assert SphereRoot(sphere.center, sphere.radius, ray, tMin, tMax, sqrt) == Some(root);
    rec' := rec'.(t := root);
    rec' := rec'.(p := At(ray, rec'.t));
    var outward := Div(Sub(rec'.p, sphere.center), sphere.radius);
    rec' := SetFaceNormal(rec', ray, outward);
    rec' := rec'.(u := uvOf(outward).0, v := uvOf(outward).1);
    rec' := rec'.(material := Some(sphere.material));
    hit := true;
  }

  /** A reported hit lies in the window and on the sphere, carries the
      sphere's material and the texture coordinates of its outward normal,
      and its normal is the outward unit normal turned against the ray. */
  lemma HitSound(sphere: Sphere, ray: Ray, tMin: real, tMax: real, sqrt: real -> real, uvOf: Vec3 -> (real, real))
    requires IsSqrt(Discriminant(sphere.center, sphere.radius, ray), sqrt(Discriminant(sphere.center, sphere.radius, ray)))
    ensures Hit(sphere, ray, tMin, tMax, sqrt, uvOf).Some? ==>
      var r := Hit(sphere, ray, tMin, tMax, sqrt, uvOf).value;
      var outward := Div(Sub(r.p, sphere.center), sphere.radius);
      tMin <= r.t <= tMax && r.p == At(ray, r.t) &&
      LengthSquared(Sub(r.p, sphere.center)) == sphere.radius * sphere.radius &&
      LengthSquared(outward) == 1.0 &&
      (r.normal == outward || r.normal == Neg(outward)) &&
      (r.frontFace <==> Dot(ray.direction, outward) < 0.0) &&
      (r.u, r.v) == uvOf(outward) && r.material == Some(sphere.material)
  {
    SphereRootSound(sphere.center, sphere.radius, ray, tMin, tMax, sqrt);
    var root := SphereRoot(sphere.center, sphere.radius, ray, tMin, tMax, sqrt);
    if sphere.radius != 0.0 && root.Some? {
      RecordAtSound(sphere, ray, root.value, uvOf);
    }
  }

  lemma RecordAtSound(sphere: Sphere, ray: Ray, root: real, uvOf: Vec3 -> (real, real))
    requires sphere.radius != 0.0 && OnSphere(sphere.center, sphere.radius, ray, root)
    ensures var r := RecordAt(sphere, ray, root, uvOf);
      var outward := Div(Sub(r.p, sphere.center), sphere.radius);
      r.t == root && r.p == At(ray, root) &&
      LengthSquared(Sub(r.p, sphere.center)) == sphere.radius * sphere.radius &&
      LengthSquared(outward) == 1.0 &&
      (r.normal == outward || r.normal == Neg(outward)) &&
      (r.frontFace <==> Dot(ray.direction, outward) < 0.0) &&
      (r.u, r.v) == uvOf(outward) && r.material == Some(sphere.material)
  {
    UnitNormal(Sub(At(ray, root), sphere.center), sphere.radius);
  }

  /** Dividing a vector of length `|radius|` by `radius` gives a unit vector. */
  lemma UnitNormal(diff: Vec3, radius: real)
    requires radius != 0.0 && LengthSquared(diff) == radius * radius
    ensures LengthSquared(Div(diff, radius)) == 1.0
  {
    var k := 1.0 / radius;
    assert Div(diff, radius) == Scale(diff, k);
    ScaleLengthSquared(diff, k);
    assert k * k * (radius * radius) == (k * radius) * (k * radius) == 1.0;
  }

  /** The hit is the nearest point of the sphere in the window: whenever the
      ray meets the sphere at some `s` in `[tMin, tMax]` there is a hit, and
      it is no farther than `s`. */
  lemma HitIsNearestPoint(sphere: Sphere, ray: Ray, tMin: real, tMax: real, sqrt: real -> real, uvOf: Vec3 -> (real, real), s: real)
    requires IsSqrt(Discriminant(sphere.center, sphere.radius, ray), sqrt(Discriminant(sphere.center, sphere.radius, ray)))
    requires ray.direction != Zero && sphere.radius != 0.0
    requires tMin <= s <= tMax && OnSphere(sphere.center, sphere.radius, ray, s)
    ensures Hit(sphere, ray, tMin, tMax, sqrt, uvOf).Some?
    ensures Hit(sphere, ray, tMin, tMax, sqrt, uvOf).value.t <= s
  {
    SphereRootNearest(sphere.center, sphere.radius, ray, tMin, tMax, sqrt, s);
  }

  /** Shrinking the far end of the window keeps the nearest root while it
      still fits: the near root is never larger than the far one. */
  lemma PickRootNarrows(a: real, halfB: real, sqrtd: real, lo: real, hi: real, hi': real)
    requires 0.0 < a && 0.0 <= sqrtd && hi' <= hi
    ensures PickRoot(a, halfB, sqrtd, lo, hi') ==
      (if PickRoot(a, halfB, sqrtd, lo, hi).Some? && PickRoot(a, halfB, sqrtd, lo, hi).value <= hi'
       then PickRoot(a, halfB, sqrtd, lo, hi) else None)
  {
    var t1, t2 := NearRoot(a, halfB, sqrtd), FarRoot(a, halfB, sqrtd);
    assert a * t2 - a * t1 == 2.0 * sqrtd;
    if t2 < t1 {
      RealFacts.MulPos(t1 - t2, a, (t1 - t2) * a);
    }
  }

  /** A sphere's hit keeps the contract every object's hit keeps, so
      spheres can be scanned in a list or a BVH. */
  lemma HitIsNearest(sqrt: real -> real, uvOf: Vec3 -> (real, real))
    requires SqrtOracle(sqrt)
    ensures Nearest((sphere: Sphere, ray: Ray, lo: real, hi: real) => Hit(sphere, ray, lo, hi, sqrt, uvOf))
  {
    var hitOf := (sphere: Sphere, ray: Ray, lo: real, hi: real) => Hit(sphere, ray, lo, hi, sqrt, uvOf);
    forall sphere: Sphere, ray: Ray, lo: real, hi: real
      ensures InWindow(hitOf(sphere, ray, lo, hi), lo, hi)
      ensures forall hi': real :: hi' <= hi ==>
        hitOf(sphere, ray, lo, hi') ==
          (if hitOf(sphere, ray, lo, hi).Some? && hitOf(sphere, ray, lo, hi).value.t <= hi'
           then hitOf(sphere, ray, lo, hi) else None)
    {
      var disc := Discriminant(sphere.center, sphere.radius, ray);
      if 0.0 <= disc {
        assert IsSqrt(disc, sqrt(disc));
      }
      forall hi': real | hi' <= hi
        ensures hitOf(sphere, ray, lo, hi') ==
          (if hitOf(sphere, ray, lo, hi).Some? && hitOf(sphere, ray, lo, hi).value.t <= hi'
           then hitOf(sphere, ray, lo, hi) else None)
      {
        if 0.0 <= disc && QuadA(ray) != 0.0 {
          LengthSquaredNonNeg(ray.direction);
          PickRootNarrows(QuadA(ray), HalfB(sphere.center, ray), sqrt(disc), lo, hi, hi');
        }
      }
    }
  }

  /** `bounding_box`: `center -/+ (r, r, r)` for any time interval; it
      always reports a box. */
  function BoundingBox(sphere: Sphere): (box: Aabb)
    ensures Sub(box.max, sphere.center) == Sub(sphere.center, box.min) ==
      Vec3(sphere.radius, sphere.radius, sphere.radius)
  {
    var r := Vec3(sphere.radius, sphere.radius, sphere.radius);
    Aabb(Sub(sphere.center, r), Add(sphere.center, r))
  }

  /** For a non-negative radius the box holds every point of the sphere. */
  lemma BoxHoldsSphere(sphere: Sphere, p: Vec3)
    requires 0.0 <= sphere.radius
    requires LengthSquared(Sub(p, sphere.center)) == sphere.radius * sphere.radius
    ensures ContainsPoint(BoundingBox(sphere), p)
  {
    var d := Sub(p, sphere.center);
    CoordinateWithin(d.x, d.y * d.y + d.z * d.z, sphere.radius);
    CoordinateWithin(d.y, d.x * d.x + d.z * d.z, sphere.radius);
    CoordinateWithin(d.z, d.x * d.x + d.y * d.y, sphere.radius);
  }

  /** One coordinate of a vector of length `r` lies in `[-r, r]`. */
  lemma CoordinateWithin(x: real, rest: real, r: real)
    requires 0.0 <= r && 0.0 <= rest && x * x + rest == r * r
    ensures -r <= x <= r
  {
    if x > r {
      RealFacts.MulPos(x - r, x + r, (x - r) * (x + r));
    } else if x < -r {
      RealFacts.MulPos(-r - x, r - x, (-r - x) * (r - x));
    }
  }
}
