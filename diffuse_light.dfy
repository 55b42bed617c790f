/** `DiffuseLight` (src/material/diffuse_light.rs): an emitting material.
    It never scatters; the light it gives off is its texture's colour at
    the hit. */
module DiffuseLights {
  import opened Vectors
  import opened Rays
  import opened Textures
  import opened Materials
  import opened Hits

  /** `DiffuseLight::new`: the material holding the emission texture. */
  function New(emit: Texture): (m: Material)
    ensures m.DiffuseLight? && m.emit == emit
  {
    DiffuseLight(emit)
  }

  /** `DiffuseLight::scatter`: it reports no scatter and leaves the
      `attenuation` and `scattered` out-parameters as they were. */
  function Scatter(emit: Texture, rayIn: Ray, rec: HitRecord, attenuation: Vec3, scattered: Ray): (r: Scattered)
    ensures !r.ok
    ensures r.attenuation == attenuation && r.scattered == scattered
  {
    Scattered(false, attenuation, scattered)
  }

  /** `DiffuseLight::emitted`: the emission texture's colour at `(u, v, p)`;
      for a solid colour that colour itself. */
  function Emitted(emit: Texture, u: real, v: real, p: Vec3): (c: Vec3)
    ensures c == Textures.Color(emit, u, v, p)
    ensures emit.Solid? ==> c == emit.solid.colorValue
  {
    Textures.Color(emit, u, v, p)
  }

  /** A light with a solid colour shines the same everywhere on its
      surface. */
  lemma SolidLightIsUniform(emit: Texture, u: real, v: real, p: Vec3, u': real, v': real, p': Vec3)
    requires emit.Solid?
    ensures Emitted(emit, u, v, p) == Emitted(emit, u', v', p')
  {
  }
}
