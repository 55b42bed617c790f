/** Axis-aligned rectangles (src/objects/rect.rs, and the out-parameter
    revision in src/objects/xy_rect.rs, xz_rect.rs, yz_rect.rs). The three
    kinds differ only in which axes they use, so one datatype carries the
    plane: an `xy_rect` spans x and y at `z = k`, an `xz_rect` spans x and z
    at `y = k`, a `yz_rect` spans y and z at `x = k`. */
module Rects {
  import opened Options
  import opened Vectors
  import opened Rays
  import opened Boxes
  import opened Materials
  import opened Hits
  import RealFacts

  datatype Plane = XY | XZ | YZ

  /** The rectangle `[a0, a1] x [b0, b1]` in the plane where the normal
      coordinate equals `k`. */
  datatype Rect = Rect(plane: Plane, a0: real, a1: real, b0: real, b1: real, k: real, mp: Material)

  /** The axis the rectangle is perpendicular to. */
  function NormalAxis(plane: Plane): (n: nat)
    ensures n < 3
  {
    match plane
    case XY => 2
    case XZ => 1
    case YZ => 0
  }

  /** The axis of the first span (`x0..x1` or `y0..y1`). */
  function FirstAxis(plane: Plane): (a: nat)
    ensures a < 3 && a != NormalAxis(plane)
  {
    match plane
    case XY => 0
    case XZ => 0
    case YZ => 1
  }

  /** The axis of the second span (`y0..y1` or `z0..z1`). */
  function SecondAxis(plane: Plane): (b: nat)
    ensures b < 3 && b != NormalAxis(plane) && b != FirstAxis(plane)
  {
    match plane
    case XY => 1
    case XZ => 2
    case YZ => 2
  }

  /** The outward normal: (0,0,1), (0,1,0) or (1,0,0), the unit vector of the
      normal axis. */
  function OutwardNormal(plane: Plane): (r: Vec3)
    ensures r == With(Zero, NormalAxis(plane), 1.0)
    ensures forall d: Vec3 {:trigger Dot(d, r)} :: Dot(d, r) == Get(d, NormalAxis(plane))
  {
    match plane
    case XY => Vec3(0.0, 0.0, 1.0)
    case XZ => Vec3(0.0, 1.0, 0.0)
    case YZ => Vec3(1.0, 0.0, 0.0)
  }

  /** A texture coordinate `num / den`. When the span is degenerate the
      source divides 0 by 0 and stores NaN; the model stores 0 instead. */
  function Ratio(num: real, den: real): real {
    if den == 0.0 then 0.0 else num / den
  }

  /** A point lies on the rectangle: in its plane and within both spans. */
  predicate OnRect(rect: Rect, p: Vec3) {
    Get(p, NormalAxis(rect.plane)) == rect.k &&
    rect.a0 <= Get(p, FirstAxis(rect.plane)) <= rect.a1 &&
    rect.b0 <= Get(p, SecondAxis(rect.plane)) <= rect.b1
  }

  /** The ray parameter where the ray crosses the rectangle's plane. */
  function Crossing(rect: Rect, ray: Ray): real
    requires Get(ray.direction, NormalAxis(rect.plane)) != 0.0
  {
    (rect.k - Get(ray.origin, NormalAxis(rect.plane))) / Get(ray.direction, NormalAxis(rect.plane))
  }

  /** The coordinate `o + t * d` the source computes by hand. */
  function Coord(o: real, d: real, t: real): real {
    o + t * d
  }

  /** `set_face_normal` with the plane's outward normal, decided by the
      sign of the ray's component along the normal axis (the dot product
      with a unit axis vector is that component). */
  function FacePlane(rec: HitRecord, ray: Ray, plane: Plane): HitRecord {
    var frontFace := Get(ray.direction, NormalAxis(plane)) < 0.0;
    rec.(frontFace := frontFace, normal := if frontFace then OutwardNormal(plane) else Neg(OutwardNormal(plane)))
  }

  /** Orienting by the normal-axis component is `set_face_normal` with the
      outward normal. */
  lemma FacePlaneIsFaceNormal(rec: HitRecord, ray: Ray, plane: Plane)
    ensures FacePlane(rec, ray, plane) == WithFaceNormal(rec, ray, OutwardNormal(plane))
  {
  }

  /** `hit` of `xy_rect`, `xz_rect` and `yz_rect` (Option revision): the
      crossing parameter must lie in the closed window and the crossing
      point within both spans. A ray parallel to the plane divides by zero
      in the source; it is a miss here. */
  function Hit(rect: Rect, ray: Ray, tMin: real, tMax: real): Option<HitRecord> {
    if Get(ray.direction, NormalAxis(rect.plane)) == 0.0 then None
    else HitAt(rect, ray, Crossing(rect, ray), tMin, tMax)
  }

  /** The rest of `hit` once the crossing parameter `t` is known: the
      window test, the span tests at the crossing point, and the record. */
  function HitAt(rect: Rect, ray: Ray, t: real, tMin: real, tMax: real): Option<HitRecord> {
    var a, b := FirstAxis(rect.plane), SecondAxis(rect.plane);
    if t < tMin || t > tMax then None
    else
      var x := Coord(Get(ray.origin, a), Get(ray.direction, a), t);
      var y := Coord(Get(ray.origin, b), Get(ray.direction, b), t);
      if x < rect.a0 || x > rect.a1 || y < rect.b0 || y > rect.b1 then None
      else
        // The struct literal: `normal` and `front_face` come from
        // `Default::default()` and are overwritten by the orientation.
        var rec := HitRecord(At(ray, t), Zero, t, false,
          Ratio(x - rect.a0, rect.a1 - rect.a0), Ratio(y - rect.b0, rect.b1 - rect.b0), Some(rect.mp));
        Some(FacePlane(rec, ray, rect.plane))
  }

  /** Within the window and both spans the crossing is reported, with the
      oriented record of its point, parameter, material and texture
      coordinates. */
  lemma HitAtRecord(rect: Rect, ray: Ray, t: real, tMin: real, tMax: real, x: real, y: real)
    requires tMin <= t <= tMax
    requires x == Coord(Get(ray.origin, FirstAxis(rect.plane)), Get(ray.direction, FirstAxis(rect.plane)), t)
    requires y == Coord(Get(ray.origin, SecondAxis(rect.plane)), Get(ray.direction, SecondAxis(rect.plane)), t)
    requires rect.a0 <= x <= rect.a1 && rect.b0 <= y <= rect.b1
    ensures HitAt(rect, ray, t, tMin, tMax).Some?
    ensures HitAt(rect, ray, t, tMin, tMax).value == FacePlane(HitRecord(At(ray, t), Zero, t, false,
      Ratio(x - rect.a0, rect.a1 - rect.a0), Ratio(y - rect.b0, rect.b1 - rect.b0), Some(rect.mp)), ray, rect.plane)
  {
    assert !(t < tMin || t > tMax);
    assert !(x < rect.a0 || x > rect.a1 || y < rect.b0 || y > rect.b1);
  }

  /** A reported hit lies in the window, on the ray and on the rectangle; it
      carries the rectangle's material, faces the ray's side of the plane,
      and has texture coordinates in `[0,1]` for a non-degenerate rectangle. */
  lemma HitSound(rect: Rect, ray: Ray, tMin: real, tMax: real)
    ensures Hit(rect, ray, tMin, tMax).Some? ==> Get(ray.direction, NormalAxis(rect.plane)) != 0.0
    ensures Hit(rect, ray, tMin, tMax).Some? ==>
      var r := Hit(rect, ray, tMin, tMax).value;
      tMin <= r.t <= tMax && r.p == At(ray, r.t) && OnRect(rect, r.p) &&
      r.material == Some(rect.mp) &&
      (r.frontFace <==> Get(ray.direction, NormalAxis(rect.plane)) < 0.0) &&
      (r.normal == OutwardNormal(rect.plane) || r.normal == Neg(OutwardNormal(rect.plane)))
    ensures Hit(rect, ray, tMin, tMax).Some? && rect.a0 < rect.a1 && rect.b0 < rect.b1 ==>
      0.0 <= Hit(rect, ray, tMin, tMax).value.u <= 1.0 && 0.0 <= Hit(rect, ray, tMin, tMax).value.v <= 1.0
  {
    var h := Hit(rect, ray, tMin, tMax);
    if h.Some? {
      var a, b := FirstAxis(rect.plane), SecondAxis(rect.plane);
      var t := Crossing(rect, ray);
      CrossingPoint(rect, ray, t);
      var x := Coord(Get(ray.origin, a), Get(ray.direction, a), t);
      var y := Coord(Get(ray.origin, b), Get(ray.direction, b), t);
      assert h.value.t == t && h.value.p == At(ray, t);
      assert Get(At(ray, t), a) == x && Get(At(ray, t), b) == y;
      RatioUnit(x - rect.a0, rect.a1 - rect.a0);
      RatioUnit(y - rect.b0, rect.b1 - rect.b0);
    }
  }

  /** The point at the computed parameter: its coordinates are the ones the
      source computes by hand, and it lies in the plane. */
  lemma CrossingPoint(rect: Rect, ray: Ray, t: real)
    requires Get(ray.direction, NormalAxis(rect.plane)) != 0.0
    requires t == Crossing(rect, ray)
    ensures forall i: nat :: i < 3 ==> Get(At(ray, t), i) == Coord(Get(ray.origin, i), Get(ray.direction, i), t)
    ensures Get(At(ray, t), NormalAxis(rect.plane)) == rect.k
  {
    var n := NormalAxis(rect.plane);
    var o, d := Get(ray.origin, n), Get(ray.direction, n);
    assert t * d == rect.k - o;
  }

  lemma RatioUnit(num: real, den: real)
    ensures 0.0 < den && 0.0 <= num <= den ==> 0.0 <= Ratio(num, den) <= 1.0
  {
    if 0.0 < den && 0.0 <= num <= den {
      var q := num / den;
      assert q * den == num;
      if q < 0.0 {
        RealFacts.MulPos(-q, den, -q * den);
      }
      if q > 1.0 {
        RealFacts.MulPos(q - 1.0, den, (q - 1.0) * den);
      }
    }
  }

  /** Every point of the ray on the rectangle within the window is the
      reported hit: the hit exists exactly when the ray meets the rectangle
      in `[tMin, tMax]`, and it is that meeting point. */
  lemma HitComplete(rect: Rect, ray: Ray, tMin: real, tMax: real, s: real)
    requires tMin <= s <= tMax && OnRect(rect, At(ray, s))
    requires Get(ray.direction, NormalAxis(rect.plane)) != 0.0
    ensures Hit(rect, ray, tMin, tMax).Some? && Hit(rect, ray, tMin, tMax).value.t == s
  {
    PlaneMeetsOnce(rect, ray, s);
    CrossingPoint(rect, ray, s);
  }

  /** A parameter where the ray reaches the plane is the computed crossing. */
  lemma PlaneMeetsOnce(rect: Rect, ray: Ray, s: real)
    requires Get(ray.direction, NormalAxis(rect.plane)) != 0.0
    requires Get(At(ray, s), NormalAxis(rect.plane)) == rect.k
    ensures Crossing(rect, ray) == s
  {
    var n := NormalAxis(rect.plane);
    ComponentwiseSums(ray.origin, Scale(ray.direction, s), s, n);
    ComponentwiseProducts(ray.direction, ray.direction, s, n);
    CrossingUnique(Get(ray.origin, n), Get(ray.direction, n), rect.k, s);
  }

  /** The only parameter at which `o + d * s` reaches `k` is `(k - o) / d`. */
  lemma CrossingUnique(o: real, d: real, k: real, s: real)
    requires d != 0.0 && o + d * s == k
    ensures s == (k - o) / d
  {
  }

  /** A hit keeps the contract every object's hit keeps: shrinking the far
      end of the window keeps the record while it fits and loses it
      otherwise. */
  lemma HitIsNearest()
    ensures Nearest(Hit)
  {
  }

  /** `xy_rect::hit`, `xz_rect::hit`, `yz_rect::hit` (out-parameter
      revision): on a miss `rec` is left untouched; on a hit every field is
      written, and the record is the one the Option revision returns. */
  method HitInto(rect: Rect, ray: Ray, tMin: real, tMax: real, rec: HitRecord)
    returns (hit: bool, rec': HitRecord)
    ensures hit == Hit(rect, ray, tMin, tMax).Some?
    ensures hit ==> rec' == Hit(rect, ray, tMin, tMax).value
    ensures !hit ==> rec' == rec
  {
    rec' := rec;
    var n, a, b := NormalAxis(rect.plane), FirstAxis(rect.plane), SecondAxis(rect.plane);
    var d := Get(ray.direction, n);
    if d == 0.0 {
      return false, rec';
    }
    var t := Crossing(rect, ray);
    assert Hit(rect, ray, tMin, tMax) == HitAt(rect, ray, t, tMin, tMax);
    if t < tMin || t > tMax {
      return false, rec';
    }
    var x := Coord(Get(ray.origin, a), Get(ray.direction, a), t);
    var y := Coord(Get(ray.origin, b), Get(ray.direction, b), t);
    if x < rect.a0 || x > rect.a1 || y < rect.b0 || y > rect.b1 {
      return false, rec';
    }
    rec' := rec'.(u := Ratio(x - rect.a0, rect.a1 - rect.a0));
    rec' := rec'.(v := Ratio(y - rect.b0, rect.b1 - rect.b0));
    rec' := rec'.(t := t);
    rec' := rec'.(material := Some(rect.mp));
    rec' := rec'.(p := At(ray, t));
    ghost var built := HitRecord(At(ray, t), Zero, t, false,
      Ratio(x - rect.a0, rect.a1 - rect.a0), Ratio(y - rect.b0, rect.b1 - rect.b0), Some(rect.mp));
    HitAtRecord(rect, ray, t, tMin, tMax, x, y);
    ghost var written := rec';
    assert FacePlane(written, ray, rect.plane) == FacePlane(built, ray, rect.plane);
    FacePlaneIsFaceNormal(written, ray, rect.plane);
    rec' := SetFaceNormal(rec', ray, OutwardNormal(rect.plane));
    hit := true;
  }

  /** `bounding_box` of all three kinds and both revisions: the rectangle's
      spans, padded by 0.0001 on each side of the plane; it ignores the time
      interval and always reports a box. */
  function BoundingBox(rect: Rect): (box: Aabb)
    ensures Get(box.min, NormalAxis(rect.plane)) < rect.k < Get(box.max, NormalAxis(rect.plane))
    ensures Get(box.max, NormalAxis(rect.plane)) - Get(box.min, NormalAxis(rect.plane)) == 0.0002
    ensures Get(box.min, FirstAxis(rect.plane)) == rect.a0 && Get(box.max, FirstAxis(rect.plane)) == rect.a1
    ensures Get(box.min, SecondAxis(rect.plane)) == rect.b0 && Get(box.max, SecondAxis(rect.plane)) == rect.b1
  {
    match rect.plane
    case XY => Aabb(Vec3(rect.a0, rect.b0, rect.k - 0.0001), Vec3(rect.a1, rect.b1, rect.k + 0.0001))
    case XZ => Aabb(Vec3(rect.a0, rect.k - 0.0001, rect.b0), Vec3(rect.a1, rect.k + 0.0001, rect.b1))
    case YZ => Aabb(Vec3(rect.k - 0.0001, rect.a0, rect.b0), Vec3(rect.k + 0.0001, rect.a1, rect.b1))
  }

  /** The box holds every point of the rectangle, so the ray meets the
      rectangle only where it passes through the box. */
  lemma BoxHoldsRect(rect: Rect, p: Vec3)
    requires OnRect(rect, p)
    ensures ContainsPoint(BoundingBox(rect), p)
  {
    var box := BoundingBox(rect);
    forall i: nat | i < 3
      ensures Get(box.min, i) <= Get(p, i) <= Get(box.max, i)
    {
      assert i == NormalAxis(rect.plane) || i == FirstAxis(rect.plane) || i == SecondAxis(rect.plane);
    }
    assert Get(box.min, 0) <= Get(p, 0) <= Get(box.max, 0);
    assert Get(box.min, 1) <= Get(p, 1) <= Get(box.max, 1);
    assert Get(box.min, 2) <= Get(p, 2) <= Get(box.max, 2);
  }
}
