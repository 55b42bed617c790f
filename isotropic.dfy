/** `Isotropic` (src/material/isotropic.rs): the phase function of a
    participating medium. It scatters every ray in a random direction,
    picked by the three draws `s1`, `s2`, `s3` of `random_in_unit_sphere`,
    whatever the surface normal. */
module Isotropics {
  import opened Vectors
  import opened Rays
  import opened Sampling
  import opened Textures
  import opened Materials
  import opened Hits

  /** `Isotropic::scatter` as a value: it always scatters, from the hit
      point at the incoming ray's time, towards a point of the unit ball
      (`|x| + |y| + |z| <= 1`), with the texture's colour at the hit as
      attenuation. */
  function Scatter(albedo: Texture, rayIn: Ray, rec: HitRecord, s1: real, s2: real, s3: real): (r: Scattered)
    requires IsSample(s1) && IsSample(s2) && IsSample(s3)
    ensures r.ok
    ensures r.scattered.origin == rec.p && r.scattered.time == rayIn.time
    ensures r.scattered.direction == RandomInUnitSphere(s1, s2, s3)
    ensures var d := r.scattered.direction;
      Abs(d.x) + Abs(d.y) + Abs(d.z) <= 1.0 && LengthSquared(d) <= 1.0
    ensures r.attenuation == Textures.Color(albedo, rec.u, rec.v, rec.p)
  {
    Scattered(true, Textures.Color(albedo, rec.u, rec.v, rec.p),
              NewRay(rec.p, RandomInUnitSphere(s1, s2, s3), rayIn.time))
  }

  /** `Isotropic::scatter`: both out-parameters are written and it reports
      a scatter. */
  method ScatterInto(albedo: Texture, rayIn: Ray, rec: HitRecord, s1: real, s2: real, s3: real)
    returns (ok: bool, attenuation: Vec3, scattered: Ray)
    requires IsSample(s1) && IsSample(s2) && IsSample(s3)
    ensures Scattered(ok, attenuation, scattered) == Scatter(albedo, rayIn, rec, s1, s2, s3)
  {
    scattered := NewRay(rec.p, RandomInUnitSphere(s1, s2, s3), rayIn.time);
    attenuation := Textures.Color(albedo, rec.u, rec.v, rec.p);
    ok := true;
  }

  /** The phase function is isotropic: the incoming direction, the normal
      and the face of the record play no part, so two hits at the same point
      with the same texture coordinates scatter alike. */
  lemma ScatterIgnoresOrientation(albedo: Texture, rayIn: Ray, rayIn': Ray, rec: HitRecord, rec': HitRecord,
                                  s1: real, s2: real, s3: real)
    requires IsSample(s1) && IsSample(s2) && IsSample(s3)
    requires rec'.p == rec.p && rec'.u == rec.u && rec'.v == rec.v && rayIn'.time == rayIn.time
    ensures Scatter(albedo, rayIn', rec', s1, s2, s3) == Scatter(albedo, rayIn, rec, s1, s2, s3)
  {
  }
}
