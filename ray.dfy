/** `Ray` (src/ray.rs): an origin, a direction and the shutter time at which
    the ray is cast. */
module Rays {
  import opened Vectors

  datatype Ray = Ray(origin: Vec3, direction: Vec3, time: real)

  /** `Ray::at`: the point at parameter `t`. */
  function At(r: Ray, t: real): (p: Vec3)
    ensures Sub(p, r.origin) == Scale(r.direction, t)
  {
    Add(r.origin, Scale(r.direction, t))
  }

  /** `Ray::new` keeps its three arguments unchanged. */
  function NewRay(origin: Vec3, direction: Vec3, time: real): (r: Ray)
    ensures r.origin == origin && r.direction == direction && r.time == time
  {
    Ray(origin, direction, time)
  }

  lemma AtZero(r: Ray)
    ensures At(r, 0.0) == r.origin
  {
  }

  /** The point depends only on origin and direction, not on the time, and
      moving the parameter by `s` moves the point by `direction * s`. */
  lemma AtShift(r: Ray, t: real, s: real, time: real)
    ensures At(r, t + s) == Add(At(r, t), Scale(r.direction, s))
    ensures At(r.(time := time), t) == At(r, t)
  {
  }
}
