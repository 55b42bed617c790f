/** `Lamberian` (src/material/lamberian.rs): an ideal diffuse surface. It
    scatters every ray towards the normal plus a random unit vector, given
    here by the three draws `s1`, `s2`, `s3` of `random_in_unit_sphere` and
    the length `len` of the point they pick. */
module Lambertians {
  import opened Vectors
  import opened Rays
  import opened Sampling
  import opened Textures
  import opened Materials
  import opened Hits

  /** The draws of `random_unit_vector`: a non-zero point of the unit ball
      and its length. A zero point makes the source divide by zero. */
  predicate UnitDraws(s1: real, s2: real, s3: real, len: real) {
    IsSample(s1) && IsSample(s2) && IsSample(s3) &&
    IsLength(RandomInUnitSphere(s1, s2, s3), len) && len != 0.0
  }

  /** `Lamberian::scatter` as a value: it always scatters, from the hit
      point at the incoming ray's time, with the texture's colour at the
      hit as attenuation. The direction is the normal plus the random unit
      vector, or the normal alone when that sum is near zero. */
  function Scatter(albedo: Texture, rayIn: Ray, rec: HitRecord, s1: real, s2: real, s3: real, len: real): (r: Scattered)
    requires UnitDraws(s1, s2, s3, len)
    ensures r.ok
    ensures r.scattered.origin == rec.p && r.scattered.time == rayIn.time
    ensures r.attenuation == Textures.Color(albedo, rec.u, rec.v, rec.p)
    ensures r.scattered.direction == Add(rec.normal, RandomUnitVector(s1, s2, s3, len)) ||
            r.scattered.direction == rec.normal
    ensures NearZero(r.scattered.direction) ==> NearZero(rec.normal)
  {
    var direction := Add(rec.normal, RandomUnitVector(s1, s2, s3, len));
    Scattered(true, Textures.Color(albedo, rec.u, rec.v, rec.p),
              NewRay(rec.p, if NearZero(direction) then rec.normal else direction, rayIn.time))
  }

  /** `Lamberian::scatter`: the local direction is replaced by the normal
      when near zero, then both out-parameters are written. */
  method ScatterInto(albedo: Texture, rayIn: Ray, rec: HitRecord, s1: real, s2: real, s3: real, len: real)
    returns (ok: bool, attenuation: Vec3, scattered: Ray)
    requires UnitDraws(s1, s2, s3, len)
    ensures Scattered(ok, attenuation, scattered) == Scatter(albedo, rayIn, rec, s1, s2, s3, len)
  {
    var scatterDirection := Add(rec.normal, RandomUnitVector(s1, s2, s3, len));
    if NearZero(scatterDirection) {
      scatterDirection := rec.normal;
    }
    scattered := NewRay(rec.p, scatterDirection, rayIn.time);
    attenuation := Textures.Color(albedo, rec.u, rec.v, rec.p);
    ok := true;
  }
}
