/** `BoxRender` (src/objects/box_render.rs): an axis-aligned box made of six
    rectangles, two per axis, held in a list and hit through the list's
    closest-so-far scan. */
module BoxRenders {
  import opened Options
  import opened Vectors
  import opened Rays
  import opened Boxes
  import opened Materials
  import opened Hits
  import opened Rects

  datatype BoxRender = BoxRender(pmin: Vec3, pmax: Vec3, sides: seq<Rect>)

  /** The plane of side `i`: sides 0 and 1 are `xy_rect`s, 2 and 3 `xz_rect`s,
      4 and 5 `yz_rect`s. */
  function SidePlane(i: nat): Plane
    requires i < 6
  {
    if i < 2 then XY else if i < 4 then XZ else YZ
  }

  /** The side in `plane` at the coordinate of `corner` on the normal axis,
      spanning from `p0` to `p1` on the other two axes. */
  function Side(p0: Vec3, p1: Vec3, material: Material, plane: Plane, corner: Vec3): Rect {
    Rect(plane, Get(p0, FirstAxis(plane)), Get(p1, FirstAxis(plane)),
         Get(p0, SecondAxis(plane)), Get(p1, SecondAxis(plane)),
         Get(corner, NormalAxis(plane)), material)
  }

  /** `BoxRender::new`: six rectangles are pushed onto an empty list; for
      each axis the first lies at `p1`'s coordinate and the second at
      `p0`'s, and all share the material. */
  method New(p0: Vec3, p1: Vec3, material: Material) returns (b: BoxRender)
    ensures b.pmin == p0 && b.pmax == p1 && |b.sides| == 6
    ensures forall i :: 0 <= i < 6 ==> b.sides[i].mp == material && b.sides[i].plane == SidePlane(i)
    ensures forall i :: 0 <= i < 6 ==>
      b.sides[i] == Side(p0, p1, material, SidePlane(i), if i % 2 == 0 then p1 else p0)
  {
    var sides: seq<Rect> := [];
    sides := sides + [Rect(XY, p0.x, p1.x, p0.y, p1.y, p1.z, material)];
    sides := sides + [Rect(XY, p0.x, p1.x, p0.y, p1.y, p0.z, material)];
    sides := sides + [Rect(XZ, p0.x, p1.x, p0.z, p1.z, p1.y, material)];
    sides := sides + [Rect(XZ, p0.x, p1.x, p0.z, p1.z, p0.y, material)];
    sides := sides + [Rect(YZ, p0.y, p1.y, p0.z, p1.z, p1.x, material)];
    sides := sides + [Rect(YZ, p0.y, p1.y, p0.z, p1.z, p0.x, material)];
    b := BoxRender(p0, p1, sides);
  }

  /** Every point of every side lies on one of the six faces of the box
      `[p0, p1]`, and, when `p0 <= p1`, inside the box's bounding box. */
  lemma SidesOnSurface(p0: Vec3, p1: Vec3, material: Material, i: nat, p: Vec3)
    requires i < 6
    requires OnRect(Side(p0, p1, material, SidePlane(i), if i % 2 == 0 then p1 else p0), p)
    ensures p0.x <= p1.x && p0.y <= p1.y && p0.z <= p1.z ==>
      ContainsPoint(BoundingBox(BoxRender(p0, p1, [])), p)
    ensures exists a: nat :: a < 3 && (Get(p, a) == Get(p0, a) || Get(p, a) == Get(p1, a))
  {
    var plane := SidePlane(i);
    assert Get(p, NormalAxis(plane)) == Get(p0, NormalAxis(plane)) ||
           Get(p, NormalAxis(plane)) == Get(p1, NormalAxis(plane));
  }

  /** `BoxRender::hit`: the list hit over the six sides. */
  function Hit(b: BoxRender, ray: Ray, tMin: real, tMax: real): Option<HitRecord> {
    Scan(b.sides, Rects.Hit, ray, tMin, tMax, |b.sides|)
  }

  /** The box's hit is the nearest of its sides' hits in the window, and
      none exactly when no side is hit. */
  lemma HitIsNearestSide(b: BoxRender, ray: Ray, tMin: real, tMax: real)
    ensures InWindow(Hit(b, ray, tMin, tMax), tMin, tMax)
    ensures Hit(b, ray, tMin, tMax).Some? <==>
      exists i :: 0 <= i < |b.sides| && Rects.Hit(b.sides[i], ray, tMin, tMax).Some?
    ensures Hit(b, ray, tMin, tMax).Some? ==>
      NearestAmong(Hit(b, ray, tMin, tMax).value, b.sides, |b.sides|, Rects.Hit, ray, tMin, tMax)
  {
    Rects.HitIsNearest();
    ListHitIsNearest(b.sides, Rects.Hit, ray, tMin, tMax);
  }

  /** A box keeps the contract of every object's hit. */
  lemma HitIsNearest()
    ensures Nearest(Hit)
  {
    Rects.HitIsNearest();
    ListIsNearest(Rects.Hit);
    assert Nearest((objects: seq<Rect>, ray: Ray, lo: real, hi: real) => Scan(objects, Rects.Hit, ray, lo, hi, |objects|));
    forall b: BoxRender, ray: Ray, lo: real, hi: real, hi': real | hi' <= hi
      ensures InWindow(Hit(b, ray, lo, hi), lo, hi)
      ensures Hit(b, ray, lo, hi') ==
        (if Hit(b, ray, lo, hi).Some? && Hit(b, ray, lo, hi).value.t <= hi' then Hit(b, ray, lo, hi) else None)
    {
      Narrow((objects: seq<Rect>, ray: Ray, lo: real, hi: real) => Scan(objects, Rects.Hit, ray, lo, hi, |objects|),
        b.sides, ray, lo, hi, hi');
    }
    forall b: BoxRender, ray: Ray, lo: real, hi: real
      ensures InWindow(Hit(b, ray, lo, hi), lo, hi)
    {
      Narrow((objects: seq<Rect>, ray: Ray, lo: real, hi: real) => Scan(objects, Rects.Hit, ray, lo, hi, |objects|),
        b.sides, ray, lo, hi, hi);
    }
  }

  /** `bounding_box`: `(pmin, pmax)` for any time interval; it always
      reports a box, and for `pmin <= pmax` that box holds every side
      (`SidesOnSurface`). */
  function BoundingBox(b: BoxRender): Aabb {
    Aabb(b.pmin, b.pmax)
  }
}
