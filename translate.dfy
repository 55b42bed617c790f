/** `Translate` (src/objects/translate.rs): an object moved by a fixed
    offset. The ray is moved the opposite way, the child is asked, and the
    hit point is moved back; every other field of the child's record is
    kept. */
module Translations {
  import opened Options
  import opened Vectors
  import opened Rays
  import opened Boxes
  import opened Hits

  datatype Translate<T> = Translate(child: T, offset: Vec3)

  /** The ray in the child's frame: origin moved back by the offset. */
  function Moved(ray: Ray, offset: Vec3): Ray {
    Ray(Sub(ray.origin, offset), ray.direction, ray.time)
  }

  /** `Translate::hit`. */
  function Hit<T>(hitOf: HitFn<T>, tr: Translate<T>, ray: Ray, tMin: real, tMax: real): Option<HitRecord> {
    match hitOf(tr.child, Moved(ray, tr.offset), tMin, tMax)
    case None => None
    case Some(rec) => Some(rec.(p := Add(rec.p, tr.offset)))
  }

  /** The translated object is hit exactly when the child is hit by the
      moved ray, at the same parameter and with the same normal, face,
      texture coordinates and material; a point on the moved ray at `t` comes
      back as the point on the original ray at `t`. */
  lemma HitMovesBack<T>(hitOf: HitFn<T>, tr: Translate<T>, ray: Ray, tMin: real, tMax: real)
    ensures Hit(hitOf, tr, ray, tMin, tMax).Some? <==> hitOf(tr.child, Moved(ray, tr.offset), tMin, tMax).Some?
    ensures Hit(hitOf, tr, ray, tMin, tMax).Some? ==>
      var child := hitOf(tr.child, Moved(ray, tr.offset), tMin, tMax).value;
      var r := Hit(hitOf, tr, ray, tMin, tMax).value;
      r.(p := child.p) == child && Sub(r.p, tr.offset) == child.p &&
      (child.p == At(Moved(ray, tr.offset), child.t) ==> r.p == At(ray, r.t))
  {
    var child := hitOf(tr.child, Moved(ray, tr.offset), tMin, tMax);
    if child.Some? {
      MovedPoint(ray, tr.offset, child.value.t);
    }
  }

  /** Moving a ray's origin by `-offset` moves every point on it by
      `-offset`. */
  lemma MovedPoint(ray: Ray, offset: Vec3, t: real)
    ensures Add(At(Moved(ray, offset), t), offset) == At(ray, t)
  {
  }

  /** A translated object keeps the contract of every object's hit. */
  lemma HitIsNearest<T(!new)>(hitOf: HitFn<T>)
    requires Nearest(hitOf)
    ensures Nearest((tr: Translate<T>, ray: Ray, lo: real, hi: real) => Hit(hitOf, tr, ray, lo, hi))
  {
    forall tr: Translate<T>, ray: Ray, lo: real, hi: real, hi': real | hi' <= hi
      ensures InWindow(Hit(hitOf, tr, ray, lo, hi), lo, hi)
      ensures Hit(hitOf, tr, ray, lo, hi') ==
        (if Hit(hitOf, tr, ray, lo, hi).Some? && Hit(hitOf, tr, ray, lo, hi).value.t <= hi'
         then Hit(hitOf, tr, ray, lo, hi) else None)
    {
      Narrow(hitOf, tr.child, Moved(ray, tr.offset), lo, hi, hi');
    }
    forall tr: Translate<T>, ray: Ray, lo: real, hi: real
      ensures InWindow(Hit(hitOf, tr, ray, lo, hi), lo, hi)
    {
      Narrow(hitOf, tr.child, Moved(ray, tr.offset), lo, hi, hi);
    }
  }

  /** `Translate::bounding_box`: the child's box moved by the offset, when
      the child reports one. */
  function BoundingBox<T>(boxOf: BoxFn<T>, tr: Translate<T>, time0: real, time1: real): Option<Aabb> {
    match boxOf(tr.child, time0, time1)
    case None => None
    case Some(box) => Some(Aabb(Add(box.min, tr.offset), Add(box.max, tr.offset)))
  }

  /** The moved box holds exactly the moved points of the child's box. */
  lemma BoxMoves<T>(boxOf: BoxFn<T>, tr: Translate<T>, time0: real, time1: real, q: Vec3)
    ensures BoundingBox(boxOf, tr, time0, time1).Some? <==> boxOf(tr.child, time0, time1).Some?
    ensures BoundingBox(boxOf, tr, time0, time1).Some? ==>
      (ContainsPoint(BoundingBox(boxOf, tr, time0, time1).value, Add(q, tr.offset)) <==>
       ContainsPoint(boxOf(tr.child, time0, time1).value, q))
  {
  }
}
