/** The textures the materials sample (src/texture.rs): solid colours and
    image textures. */
module Textures {
  import opened Vectors
  import SolidColors
  import ImageTextures

  datatype Texture =
    | Solid(solid: SolidColors.SolidColor)
    | Image(image: ImageTextures.ImageTexture)

  /** `Texture::color`, dispatched to the concrete texture. */
  function Color(t: Texture, u: real, v: real, p: Vec3): (c: Vec3)
    ensures t.Solid? ==> c == t.solid.colorValue
    ensures t.Image? && t.image.data.None? ==> c == Vec3(255.0, 0.0, 0.0)
    ensures t.Image? ==> c == ImageTextures.Color(t.image, u, v, p)
  {
    match t
    case Solid(s) => SolidColors.Color(s, u, v, p)
    case Image(i) => ImageTextures.Color(i, u, v, p)
  }
}
