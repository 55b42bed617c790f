/** The materials a surface can carry (src/material.rs and src/material/):
    the data of each kind. Their `scatter` and `emitted` rules live in one
    module per kind. */
module Materials {
  import opened Vectors
  import opened Rays
  import opened Textures

  datatype Material =
    | Lambertian(albedo: Texture)
    | Metal(color: Vec3, fuzz: real)
    | Dielectric(ir: real)
    | Isotropic(phase: Texture)
    | DiffuseLight(emit: Texture)

  /** What `Material::scatter` leaves behind: its verdict and the values of
      the `attenuation` and `scattered` out-parameters afterwards. */
  datatype Scattered = Scattered(ok: bool, attenuation: Vec3, scattered: Ray)
}
