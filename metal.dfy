/** `Metal` (src/material/metal.rs): a mirror whose reflection is blurred by
    a random point of the ball of radius `fuzz`. The draws `s1`, `s2`, `s3`
    pick that point; `dirLen` is the length of the incoming direction,
    which the source normalises. */
module Metals {
  import opened Vectors
  import opened Rays
  import opened Sampling
  import opened Materials
  import opened Hits
  import RealFacts

  /** `Metal::new`: the fuzz is capped at 1. */
  function New(albedo: Vec3, fuzz: real): (m: Material)
    ensures m.Metal? && m.color == albedo && m.fuzz <= 1.0
    ensures fuzz < 1.0 ==> m.fuzz == fuzz
    ensures 1.0 <= fuzz ==> m.fuzz == 1.0
  {
    Metal(albedo, if fuzz < 1.0 then fuzz else 1.0)
  }

  /** Capping twice is capping once. */
  lemma NewIdempotent(albedo: Vec3, fuzz: real)
    ensures New(albedo, New(albedo, fuzz).fuzz) == New(albedo, fuzz)
  {
  }

  /** The mirror direction of the normalised incoming direction. */
  function Mirror(rayIn: Ray, rec: HitRecord, dirLen: real): Vec3
    requires IsLength(rayIn.direction, dirLen) && dirLen != 0.0
  {
    Reflect(UnitVector(rayIn.direction, dirLen), rec.normal)
  }

  /** `Metal::scatter` as a value: both out-parameters are always written;
      the attenuation is the albedo, the ray leaves the hit point at the
      incoming ray's time, in the mirror direction moved by at most `fuzz`,
      and it counts as scattered exactly when it leaves on the normal's
      side. */
  function Scatter(albedo: Vec3, fuzz: real, rayIn: Ray, rec: HitRecord, s1: real, s2: real, s3: real, dirLen: real): (r: Scattered)
    requires IsSample(s1) && IsSample(s2) && IsSample(s3)
    requires IsLength(rayIn.direction, dirLen) && dirLen != 0.0
    ensures r.attenuation == albedo
    ensures r.scattered.origin == rec.p && r.scattered.time == rayIn.time
    ensures r.ok <==> Dot(r.scattered.direction, rec.normal) > 0.0
    ensures 0.0 <= fuzz ==>
      LengthSquared(Sub(r.scattered.direction, Mirror(rayIn, rec, dirLen))) <= fuzz * fuzz
  {
    var w := RandomInUnitSphere(s1, s2, s3);
    var direction := Add(Mirror(rayIn, rec, dirLen), Scale(w, fuzz));
    FuzzWithin(Mirror(rayIn, rec, dirLen), w, fuzz);
    Scattered(Dot(direction, rec.normal) > 0.0, albedo, NewRay(rec.p, direction, rayIn.time))
  }

  /** A point of the unit ball scaled by `fuzz` is at most `fuzz` away. */
  lemma FuzzWithin(mirror: Vec3, w: Vec3, fuzz: real)
    requires LengthSquared(w) <= 1.0
    ensures 0.0 <= fuzz ==> LengthSquared(Sub(Add(mirror, Scale(w, fuzz)), mirror)) <= fuzz * fuzz
  {
    assert Sub(Add(mirror, Scale(w, fuzz)), mirror) == Scale(w, fuzz);
    ScaleLengthSquared(w, fuzz);
    RealFacts.MulNonNeg(fuzz * fuzz, 1.0 - LengthSquared(w));
  }

  /** `Metal::scatter`: writes `scattered` and `attenuation`, then reports
      whether the new direction leaves on the normal's side. */
  method ScatterInto(albedo: Vec3, fuzz: real, rayIn: Ray, rec: HitRecord, s1: real, s2: real, s3: real, dirLen: real)
    returns (ok: bool, attenuation: Vec3, scattered: Ray)
    requires IsSample(s1) && IsSample(s2) && IsSample(s3)
    requires IsLength(rayIn.direction, dirLen) && dirLen != 0.0
    ensures Scattered(ok, attenuation, scattered) == Scatter(albedo, fuzz, rayIn, rec, s1, s2, s3, dirLen)
  {
    var reflected := Reflect(UnitVector(rayIn.direction, dirLen), rec.normal);
    scattered := NewRay(rec.p, Add(reflected, Scale(RandomInUnitSphere(s1, s2, s3), fuzz)), rayIn.time);
    attenuation := albedo;
    ok := Dot(scattered.direction, rec.normal) > 0.0;
  }

  /** A ray arriving against a unit normal more steeply than the fuzz can
      tilt it is always scattered, whatever the draws. */
  lemma SteepRaysScatter(albedo: Vec3, fuzz: real, rayIn: Ray, rec: HitRecord, s1: real, s2: real, s3: real, dirLen: real)
    requires IsSample(s1) && IsSample(s2) && IsSample(s3)
    requires IsLength(rayIn.direction, dirLen) && dirLen != 0.0
    requires LengthSquared(rec.normal) == 1.0 && 0.0 <= fuzz
    requires Dot(UnitVector(rayIn.direction, dirLen), rec.normal) < -fuzz
    ensures Scatter(albedo, fuzz, rayIn, rec, s1, s2, s3, dirLen).ok
  {
    var unit := UnitVector(rayIn.direction, dirLen);
    var w := RandomInUnitSphere(s1, s2, s3);
    var mirror := Reflect(unit, rec.normal);
    assert Mirror(rayIn, rec, dirLen) == mirror;
    ReflectAboutUnitNormal(unit, rec.normal);
    DotWithinUnit(w, rec.normal);
    TiltedComponent(mirror, w, rec.normal, fuzz);
    TiltBounded(-Dot(unit, rec.normal), fuzz, Dot(w, rec.normal), fuzz * Dot(w, rec.normal));
  }

  /** The fuzzed direction's component along `n` is the mirror's plus
      `fuzz` times the draw's. */
  lemma TiltedComponent(mirror: Vec3, w: Vec3, n: Vec3, fuzz: real)
    ensures Dot(Add(mirror, Scale(w, fuzz)), n) == Dot(mirror, n) + fuzz * Dot(w, n)
  {
    DotLinear(mirror, Scale(w, fuzz), n, 0.0);
    DotLinear(w, w, n, fuzz);
  }

  /** A component above `fuzz` stays positive after a tilt of at most
      `fuzz` either way. */
  lemma TiltBounded(a: real, fuzz: real, d: real, tilt: real)
    requires tilt == fuzz * d && 0.0 <= fuzz && -1.0 <= d && fuzz < a
    ensures 0.0 < a + tilt
  {
    RealFacts.MulNonNeg(fuzz, d + 1.0);
  }

  /** Without fuzz a metal is a perfect mirror: for a unit normal the new
      direction is a unit vector with the normal component negated, and the
      ray scatters exactly when it arrives against the normal. */
  lemma MirrorWithoutFuzz(albedo: Vec3, rayIn: Ray, rec: HitRecord, s1: real, s2: real, s3: real, dirLen: real)
    requires IsSample(s1) && IsSample(s2) && IsSample(s3)
    requires IsLength(rayIn.direction, dirLen) && dirLen != 0.0
    requires LengthSquared(rec.normal) == 1.0
    ensures var r := Scatter(albedo, 0.0, rayIn, rec, s1, s2, s3, dirLen);
      var unit := UnitVector(rayIn.direction, dirLen);
      LengthSquared(r.scattered.direction) == 1.0 &&
      Dot(r.scattered.direction, rec.normal) == -Dot(unit, rec.normal) &&
      (r.ok <==> Dot(unit, rec.normal) < 0.0)
  {
    var unit := UnitVector(rayIn.direction, dirLen);
    var w := RandomInUnitSphere(s1, s2, s3);
    assert Add(Reflect(unit, rec.normal), Scale(w, 0.0)) == Reflect(unit, rec.normal);
    ReflectAboutUnitNormal(unit, rec.normal);
  }
}
