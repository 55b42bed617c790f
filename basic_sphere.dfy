/** The older `Sphere` (src/sphere.rs): centre and radius only, no material
    and no texture coordinates. Its `hit` writes `t`, `p`, `normal` and
    `front_face` and leaves every other field of the record as it was. */
module BasicSpheres {
  import opened Options
  import opened Vectors
  import opened Rays
  import opened Hits
  import opened SphereRoots

  datatype BasicSphere = BasicSphere(center: Vec3, radius: real)

  /** `Sphere::hit`: the same root selection as the current sphere; a zero
      direction or a zero radius, which give NaN in the source, is a miss. */
  method HitInto(sphere: BasicSphere, ray: Ray, tMin: real, tMax: real, sqrt: real -> real, rec: HitRecord)
    returns (hit: bool, rec': HitRecord)
    ensures hit <==> sphere.radius != 0.0 && SphereRoot(sphere.center, sphere.radius, ray, tMin, tMax, sqrt).Some?
    ensures hit ==>
      var root := SphereRoot(sphere.center, sphere.radius, ray, tMin, tMax, sqrt).value;
      rec' == WithFaceNormal(rec.(t := root, p := At(ray, root)), ray,
                             Div(Sub(At(ray, root), sphere.center), sphere.radius))
    ensures hit ==> tMin <= rec'.t <= tMax && rec'.p == At(ray, rec'.t)
    ensures hit && IsSqrt(Discriminant(sphere.center, sphere.radius, ray), sqrt(Discriminant(sphere.center, sphere.radius, ray))) ==>
      OnSphere(sphere.center, sphere.radius, ray, rec'.t)
    ensures rec'.u == rec.u && rec'.v == rec.v && rec'.material == rec.material
    ensures !hit ==> rec' == rec
  {
    rec' := rec;
    var oc := Sub(ray.origin, sphere.center);
    var a := LengthSquared(ray.direction);
    var halfB := Dot(oc, ray.direction);
    var c := LengthSquared(oc) - sphere.radius * sphere.radius;
    var discriminant := halfB * halfB - a * c;
    assert discriminant == Discriminant(sphere.center, sphere.radius, ray) by {
      assert a == QuadA(ray) && halfB == HalfB(sphere.center, ray) && c == QuadC(sphere.center, sphere.radius, ray);
    }
    if discriminant < 0.0 || a == 0.0 || sphere.radius == 0.0 {
      return false, rec';
    }
    var sqrtd := sqrt(discriminant);
    var root := NearRoot(a, halfB, sqrtd);
    if root < tMin || tMax < root {
      root := FarRoot(a, halfB, sqrtd);
      if root < tMin || tMax < root {
        return false, rec';
      }
    }
    assert SphereRoot(sphere.center, sphere.radius, ray, tMin, tMax, sqrt) == Some(root);
    if IsSqrt(discriminant, sqrtd) {
      SphereRootSound(sphere.center, sphere.radius, ray, tMin, tMax, sqrt);
    }
    rec' := rec'.(t := root);
    rec' := rec'.(p := At(ray, rec'.t));
    var outward := Div(Sub(rec'.p, sphere.center), sphere.radius);
    rec' := SetFaceNormal(rec', ray, outward);
    hit := true;
  }
}
