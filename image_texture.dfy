/** `ImageTexture::color` (src/texture/image_texture.rs): surface coordinates
    clamped to the unit square and turned into an in-bounds pixel index. The
    decoded image is a grid of RGB pixels, `pixels[row][column]`. */
module ImageTextures {
  import opened Options
  import opened Vectors
  import RealFacts

  datatype ImageData = ImageData(data: Option<seq<seq<Vec3>>>, width: nat, height: nat)

  /** What `ImageTexture::new` establishes: the dimensions are those of the
      decoded image, which has at least one pixel. */
  predicate WellFormed(t: ImageData) {
    t.data.Some? ==>
      1 <= t.width && 1 <= t.height && |t.data.value| == t.height &&
      forall j :: 0 <= j < t.height ==> |t.data.value[j]| == t.width
  }

  type ImageTexture = t: ImageData | WellFormed(t) witness ImageData(None, 0, 0)

  /** `f64::clamp`. */
  function Clamp(x: real, lo: real, hi: real): (r: real)
    requires lo <= hi
    ensures lo <= r <= hi
    ensures lo <= x <= hi ==> r == x
  {
    if x < lo then lo else if x > hi then hi else x
  }

  /** `(w * n as f64) as usize` for `w` in [0, 1], then pulled back to `n - 1`
      when it reaches `n`. */
  function PixelIndex(w: real, n: nat): (i: nat)
    requires 0.0 <= w <= 1.0 && 1 <= n
    ensures i < n
    ensures w == 1.0 ==> i == n - 1
    ensures w < 1.0 ==> i as real <= w * n as real < i as real + 1.0
  {
    ScaleUnit(w, n as real);
    var c := (w * n as real).Floor;
    if c >= n then n - 1 else c
  }

  lemma ScaleUnit(w: real, n: real)
    requires 0.0 <= w <= 1.0 && 1.0 <= n
    ensures 0.0 <= w * n <= n
    ensures w < 1.0 ==> w * n < n
  {
    if w < 1.0 {
      RealFacts.ScaleWithin(w, n);
    }
  }

  /** The column of `u`: `u` clamped to [0, 1]. */
  function Column(u: real, width: nat): (i: nat)
    requires 1 <= width
    ensures i < width
    ensures u >= 1.0 ==> i == width - 1
    ensures u <= 0.0 ==> i == 0
  {
    PixelIndex(Clamp(u, 0.0, 1.0), width)
  }

  /** The row of `v`: `v` clamped to [0, 1] and flipped, so that `v = 0` is
      the bottom row of the image. */
  function Row(v: real, height: nat): (j: nat)
    requires 1 <= height
    ensures j < height
    ensures v <= 0.0 ==> j == height - 1
    ensures v >= 1.0 ==> j == 0
  {
    PixelIndex(1.0 - Clamp(v, 0.0, 1.0), height)
  }

  /** `ImageTexture::color`: the selected pixel's three channels, or pure red
      (255, 0, 0) when the texture has no image data. */
  function Color(t: ImageTexture, u: real, v: real, p: Vec3): (c: Vec3)
    ensures t.data.None? ==> c == Vec3(255.0, 0.0, 0.0)
    ensures t.data.Some? ==>
      exists i, j :: 0 <= i < t.width && 0 <= j < t.height && c == t.data.value[j][i]
    ensures t.data.Some? ==> c == t.data.value[Row(v, t.height)][Column(u, t.width)]
  {
    match t.data
    case None => Vec3(255.0, 0.0, 0.0)
    case Some(pixels) =>
      var i := Column(u, t.width);
      var j := Row(v, t.height);
      pixels[j][i]
  }

  /** Inside the unit square the chosen column is the one whose span
      `[i/width, (i+1)/width)` contains `u` (and likewise the row for `1 - v`):
      the lookup is the nearest-below pixel, never a clamped neighbour. */
  lemma ColumnContainsU(u: real, width: nat)
    requires 1 <= width && 0.0 <= u < 1.0
    ensures Column(u, width) as real <= u * width as real < Column(u, width) as real + 1.0
  {
  }

  /** The chosen row is the one whose span contains `1 - v`, counted from
      the top of the image, for `v` in `(0, 1]`. */
  lemma RowContainsV(v: real, height: nat)
    requires 1 <= height && 0.0 < v <= 1.0
    ensures Row(v, height) as real <= (1.0 - v) * height as real < Row(v, height) as real + 1.0
  {
  }
}
