/** `SolidColor` (src/texture/solid_color.rs): a texture that is one colour
    everywhere. */
module SolidColors {
  import opened Vectors

  datatype SolidColor = SolidColor(colorValue: Vec3)

  /** `SolidColor::new` stores the colour unchanged. */
  function New(colorValue: Vec3): (s: SolidColor)
    ensures s.colorValue == colorValue
  {
    SolidColor(colorValue)
  }

  /** `color`: the stored colour, whatever the surface coordinates and point. */
  function Color(s: SolidColor, u: real, v: real, p: Vec3): (c: Vec3)
    ensures c == s.colorValue
  {
    s.colorValue
  }

  /** A solid colour looks the same at every `(u, v)` and every point. */
  lemma ColorIsConstant(s: SolidColor, u: real, v: real, p: Vec3, u': real, v': real, p': Vec3)
    ensures Color(s, u, v, p) == Color(s, u', v', p')
    ensures Color(New(s.colorValue), u, v, p) == s.colorValue
  {
  }
}
