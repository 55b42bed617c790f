/** Axis-aligned bounding boxes (src/aabb.rs): the union of two boxes and the
    slab test a ray must pass before anything inside the box is tried. */
module Boxes {
  import opened Options
  import opened Vectors
  import opened Rays
  import RealFacts

  datatype Aabb = Aabb(min: Vec3, max: Vec3)

  /** `inner` lies within `outer` on every axis. */
  predicate Contains(outer: Aabb, inner: Aabb) {
    outer.min.x <= inner.min.x && outer.min.y <= inner.min.y && outer.min.z <= inner.min.z &&
    inner.max.x <= outer.max.x && inner.max.y <= outer.max.y && inner.max.z <= outer.max.z
  }

  /** The point `p` lies in the closed box. */
  predicate ContainsPoint(box: Aabb, p: Vec3) {
    box.min.x <= p.x <= box.max.x && box.min.y <= p.y <= box.max.y && box.min.z <= p.z <= box.max.z
  }

  /** `surrounding_box`: the componentwise minimum of the two minima and
      maximum of the two maxima, i.e. the smallest box containing both. */
  function SurroundingBox(box0: Aabb, box1: Aabb): (r: Aabb)
    ensures Contains(r, box0) && Contains(r, box1)
    ensures forall b :: Contains(b, box0) && Contains(b, box1) ==> Contains(b, r)
  {
    Aabb(Vec3(Min(box0.min.x, box1.min.x), Min(box0.min.y, box1.min.y), Min(box0.min.z, box1.min.z)),
         Vec3(Max(box0.max.x, box1.max.x), Max(box0.max.y, box1.max.y), Max(box0.max.z, box1.max.z)))
  }

  /** The union is commutative, associative and idempotent, so the box of a
      group of objects does not depend on how they are grouped. */
  lemma SurroundingBoxAlgebra(a: Aabb, b: Aabb, c: Aabb)
    ensures SurroundingBox(a, b) == SurroundingBox(b, a)
    ensures SurroundingBox(SurroundingBox(a, b), c) == SurroundingBox(a, SurroundingBox(b, c))
    ensures SurroundingBox(a, a) == a
  {
  }

  /** `Hittable::bounding_box` for a box: the box itself, for any interval. */
  function BoundingBox(box: Aabb, time0: real, time1: real): (r: Option<Aabb>)
    ensures r.Some? && Contains(r.value, box) && Contains(box, r.value)
  {
    Some(box)
  }

  // The slab test. The source computes `1.0 / direction` per axis, so a zero
  // component becomes an infinity: the slab is then missed outright when the
  // origin lies outside it, and otherwise never narrows the window (the
  // products that would be NaN are dropped by `f64::max` / `f64::min`).

  /** `1.0 / d`, the inverse direction component the source precomputes. */
  function Inverse(d: real): (r: real)
    requires d != 0.0
    ensures r * d == 1.0
    ensures r < 0.0 <==> d < 0.0
  {
    InverseSign(d);
    1.0 / d
  }

  lemma InverseSign(d: real)
    requires d != 0.0
    ensures (1.0 / d) * d == 1.0
    ensures 1.0 / d < 0.0 <==> d < 0.0
  {
  }

  /** The ray parameter at which the ray crosses the plane `bound` of an axis
      whose origin coordinate is `o` and inverse direction is `invD`. */
  function PlaneParam(bound: real, o: real, invD: real): real {
    (bound - o) * invD
  }

  /** Entry and exit parameters of the slab on axis `a`, ordered as after the
      swap for a negative inverse direction. */
  function SlabParams(box: Aabb, ray: Ray, a: nat): (real, real)
    requires a < 3 && Get(ray.direction, a) != 0.0
  {
    var invD := Inverse(Get(ray.direction, a));
    var t0 := PlaneParam(Get(box.min, a), Get(ray.origin, a), invD);
    var t1 := PlaneParam(Get(box.max, a), Get(ray.origin, a), invD);
    if invD < 0.0 then (t1, t0) else (t0, t1)
  }

  /** One turn of the loop over the axes: the window `w` narrowed by axis `a`,
      or `None` when the loop returns `false` on that axis. */
  function AxisStep(box: Aabb, ray: Ray, a: nat, w: (real, real)): Option<(real, real)>
    requires a < 3
  {
    var d := Get(ray.direction, a);
    var o := Get(ray.origin, a);
    if d == 0.0 then
      if o < Get(box.min, a) || Get(box.max, a) < o then None
      else if w.1 <= w.0 then None
      else Some(w)
    else
      var (t0, t1) := SlabParams(box, ray, a);
      var lo := Max(w.0, t0);
      var hi := Min(w.1, t1);
      if hi <= lo then None else Some((lo, hi))
  }

  /** The window after the first `n` axes. */
  function WindowAfter(box: Aabb, ray: Ray, n: nat, tMin: real, tMax: real): Option<(real, real)>
    requires n <= 3
  {
    if n == 0 then Some((tMin, tMax))
    else
      match WindowAfter(box, ray, n - 1, tMin, tMax)
      case None => None
      case Some(w) => AxisStep(box, ray, n - 1, w)
  }

  /** Once an axis has emptied the window, no later axis restores it. */
  lemma RejectionIsFinal(box: Aabb, ray: Ray, n: nat, tMin: real, tMax: real)
    requires n <= 3 && WindowAfter(box, ray, n, tMin, tMax).None?
    ensures WindowAfter(box, ray, 3, tMin, tMax).None?
    decreases 3 - n
  {
    if n < 3 {
      RejectionIsFinal(box, ray, n + 1, tMin, tMax);
    }
  }

  /** The slab test's verdict. */
  predicate SlabHit(box: Aabb, ray: Ray, tMin: real, tMax: real) {
    WindowAfter(box, ray, 3, tMin, tMax).Some?
  }

  /** `Aabb::hit`: the loop over the three axes, swapping the slab parameters
      for a negative inverse direction and returning `false` as soon as the
      window is empty. */
  method Hit(box: Aabb, ray: Ray, tMin0: real, tMax0: real) returns (hit: bool)
    ensures hit == SlabHit(box, ray, tMin0, tMax0)
  {
    var tMin, tMax := tMin0, tMax0;
    for a := 0 to 3
      invariant WindowAfter(box, ray, a, tMin0, tMax0) == Some((tMin, tMax))
    {
      ghost var w := (tMin, tMax);
      assert WindowAfter(box, ray, a + 1, tMin0, tMax0) == AxisStep(box, ray, a, w);
      var d := Get(ray.direction, a);
      if d == 0.0 {
        var o := Get(ray.origin, a);
        if o < Get(box.min, a) || Get(box.max, a) < o {
          RejectionIsFinal(box, ray, a + 1, tMin0, tMax0);
          return false;
        }
      } else {
        var invD := Inverse(d);
        var t0 := PlaneParam(Get(box.min, a), Get(ray.origin, a), invD);
        var t1 := PlaneParam(Get(box.max, a), Get(ray.origin, a), invD);
        if invD < 0.0 {
          t0, t1 := t1, t0;
        }
        assert (t0, t1) == SlabParams(box, ray, a);
        tMin := Max(tMin, t0);
        tMax := Min(tMax, t1);
      }
      if tMax <= tMin {
        RejectionIsFinal(box, ray, a + 1, tMin0, tMax0);
        return false;
      }
    }
    return true;
  }

  /** The ray parameter `t` lies strictly inside the slab of axis `a`; on an
      axis the ray runs parallel to, the origin must lie in the closed slab. */
  predicate InSlab(box: Aabb, ray: Ray, a: nat, t: real)
    requires a < 3
  {
    if Get(ray.direction, a) == 0.0 then
      Get(box.min, a) <= Get(ray.origin, a) <= Get(box.max, a)
    else
      SlabParams(box, ray, a).0 < t < SlabParams(box, ray, a).1
  }

  predicate InSlabs(box: Aabb, ray: Ray, n: nat, t: real)
    requires n <= 3
  {
    forall a: nat :: a < n ==> InSlab(box, ray, a, t)
  }

  lemma WindowAfterMeaning(box: Aabb, ray: Ray, n: nat, tMin: real, tMax: real)
    requires n <= 3
    ensures WindowAfter(box, ray, n, tMin, tMax).Some? ==>
      var w := WindowAfter(box, ray, n, tMin, tMax).value;
      tMin <= w.0 && w.1 <= tMax && (n > 0 ==> w.0 < w.1) &&
      forall t :: w.0 < t < w.1 ==> InSlabs(box, ray, n, t)
    ensures forall t :: tMin < t < tMax && InSlabs(box, ray, n, t) ==>
      WindowAfter(box, ray, n, tMin, tMax).Some? &&
      WindowAfter(box, ray, n, tMin, tMax).value.0 < t < WindowAfter(box, ray, n, tMin, tMax).value.1
  {
    WindowAfterSound(box, ray, n, tMin, tMax);
    WindowAfterComplete(box, ray, n, tMin, tMax);
  }

  /** Every parameter strictly inside the window lies in the first `n` slabs. */
  lemma {:induction false} WindowAfterSound(box: Aabb, ray: Ray, n: nat, tMin: real, tMax: real)
    requires n <= 3
    ensures WindowAfter(box, ray, n, tMin, tMax).Some? ==>
      var w := WindowAfter(box, ray, n, tMin, tMax).value;
      tMin <= w.0 && w.1 <= tMax && (n > 0 ==> w.0 < w.1) &&
      forall t :: w.0 < t < w.1 ==> InSlabs(box, ray, n, t)
  {
    if n > 0 {
      WindowAfterSound(box, ray, n - 1, tMin, tMax);
      var prev := WindowAfter(box, ray, n - 1, tMin, tMax);
      if prev.Some? {
        AxisStepMeaning(box, ray, n - 1, prev.value);
        if WindowAfter(box, ray, n, tMin, tMax).Some? {
          var w' := WindowAfter(box, ray, n, tMin, tMax).value;
          assert w' == AxisStep(box, ray, n - 1, prev.value).value;
          forall t | w'.0 < t < w'.1
            ensures InSlabs(box, ray, n, t)
          {
            InSlabsExtend(box, ray, n, t);
          }
        }
      }
    }
  }

  /** Every parameter of the window that lies in the first `n` slabs is
      still strictly inside the window after them. */
  lemma {:induction false} WindowAfterComplete(box: Aabb, ray: Ray, n: nat, tMin: real, tMax: real)
    requires n <= 3
    ensures forall t :: tMin < t < tMax && InSlabs(box, ray, n, t) ==>
      WindowAfter(box, ray, n, tMin, tMax).Some? &&
      WindowAfter(box, ray, n, tMin, tMax).value.0 < t < WindowAfter(box, ray, n, tMin, tMax).value.1
  {
    if n > 0 {
      WindowAfterComplete(box, ray, n - 1, tMin, tMax);
      forall t | tMin < t < tMax && InSlabs(box, ray, n, t)
        ensures WindowAfter(box, ray, n, tMin, tMax).Some? &&
          WindowAfter(box, ray, n, tMin, tMax).value.0 < t < WindowAfter(box, ray, n, tMin, tMax).value.1
      {
        InSlabsExtend(box, ray, n, t);
        var prev := WindowAfter(box, ray, n - 1, tMin, tMax);
        AxisStepMeaning(box, ray, n - 1, prev.value);
      }
    }
  }

  lemma InSlabsExtend(box: Aabb, ray: Ray, n: nat, t: real)
    requires 0 < n <= 3
    ensures InSlabs(box, ray, n, t) <==> InSlabs(box, ray, n - 1, t) && InSlab(box, ray, n - 1, t)
  {
  }

  /** One axis narrows the window to the parameters inside its slab. */
  lemma AxisStepMeaning(box: Aabb, ray: Ray, a: nat, w: (real, real))
    requires a < 3
    ensures AxisStep(box, ray, a, w).Some? ==>
      var w' := AxisStep(box, ray, a, w).value;
      w.0 <= w'.0 && w'.1 <= w.1 && w'.0 < w'.1 &&
      forall t :: w'.0 < t < w'.1 ==> InSlab(box, ray, a, t)
    ensures forall t :: w.0 < t < w.1 && InSlab(box, ray, a, t) ==>
      AxisStep(box, ray, a, w).Some? && AxisStep(box, ray, a, w).value.0 < t < AxisStep(box, ray, a, w).value.1
  {
  }

  /** The slab test passes exactly when some parameter strictly inside the
      window lies inside all three slabs. */
  lemma SlabHitMeaning(box: Aabb, ray: Ray, tMin: real, tMax: real)
    ensures SlabHit(box, ray, tMin, tMax) <==>
      exists t :: tMin < t < tMax && InSlabs(box, ray, 3, t)
  {
    WindowAfterMeaning(box, ray, 3, tMin, tMax);
    if SlabHit(box, ray, tMin, tMax) {
      var w := WindowAfter(box, ray, 3, tMin, tMax).value;
      var t := (w.0 + w.1) / 2.0;
      assert tMin < t < tMax && InSlabs(box, ray, 3, t);
    }
  }

  /** On an axis the ray is not parallel to, lying strictly inside the slab
      in parameter space means the point `ray.at(t)` lies strictly between the
      two planes. */
  lemma InSlabMeansBetweenPlanes(box: Aabb, ray: Ray, a: nat, t: real)
    requires a < 3 && Get(ray.direction, a) != 0.0
    ensures InSlab(box, ray, a, t) <==>
      (Get(box.min, a) < Get(At(ray, t), a) < Get(box.max, a))
  {
    Componentwise(ray.origin, Scale(ray.direction, t), t, a);
    Componentwise(ray.direction, ray.direction, t, a);
    CrossingCompare(Get(box.min, a), Get(ray.origin, a), Get(ray.direction, a), t, Get(At(ray, t), a));
    CrossingCompare(Get(box.max, a), Get(ray.origin, a), Get(ray.direction, a), t, Get(At(ray, t), a));
  }

  /** For `d != 0`, comparing `t` with the crossing parameter of the plane
      `bound` compares the coordinate `p = o + d * t` with `bound`; the
      direction of the comparison flips with the sign of `d`. */
  lemma CrossingCompare(bound: real, o: real, d: real, t: real, p: real)
    requires d != 0.0 && p == o + d * t
    ensures d > 0.0 ==> (PlaneParam(bound, o, Inverse(d)) < t <==> bound < p)
    ensures d > 0.0 ==> (t < PlaneParam(bound, o, Inverse(d)) <==> p < bound)
    ensures d < 0.0 ==> (PlaneParam(bound, o, Inverse(d)) < t <==> p < bound)
    ensures d < 0.0 ==> (t < PlaneParam(bound, o, Inverse(d)) <==> bound < p)
  {
    var q := PlaneParam(bound, o, Inverse(d));
    assert q * d == bound - o;
    if d > 0.0 {
      MulMonotone(q, t, d);
      MulMonotone(t, q, d);
    } else {
      MulMonotone(q, t, -d);
      MulMonotone(t, q, -d);
    }
  }

  /** Multiplying by a positive factor keeps a strict order, both ways. */
  lemma MulMonotone(a: real, b: real, c: real)
    requires 0.0 < c
    ensures a < b <==> a * c < b * c
  {
    if a < b {
      RealFacts.MulPos(b - a, c, (b - a) * c);
    } else if b < a {
      RealFacts.MulPos(a - b, c, (a - b) * c);
    }
  }

  /** Widening the far end of the window never turns an accepted ray into a
      rejected one. */
  lemma SlabHitWiden(box: Aabb, ray: Ray, tMin: real, tMax: real, tMax': real)
    requires tMax <= tMax'
    ensures SlabHit(box, ray, tMin, tMax) ==> SlabHit(box, ray, tMin, tMax')
  {
    SlabHitMeaning(box, ray, tMin, tMax);
    SlabHitMeaning(box, ray, tMin, tMax');
  }

  /** A box containing another passes the slab test whenever the smaller one
      does: a parent box in the BVH never rejects a ray its children accept. */
  lemma SlabHitMonotone(small: Aabb, big: Aabb, ray: Ray, tMin: real, tMax: real)
    requires Contains(big, small)
    ensures SlabHit(small, ray, tMin, tMax) ==> SlabHit(big, ray, tMin, tMax)
  {
    SlabHitMeaning(small, ray, tMin, tMax);
    SlabHitMeaning(big, ray, tMin, tMax);
    if SlabHit(small, ray, tMin, tMax) {
      var t :| tMin < t < tMax && InSlabs(small, ray, 3, t);
      forall a: nat | a < 3
        ensures InSlab(big, ray, a, t)
      {
        assert InSlab(small, ray, a, t);
        ContainsByAxis(big, small, a);
        if Get(ray.direction, a) != 0.0 {
          InSlabMeansBetweenPlanes(small, ray, a, t);
          InSlabMeansBetweenPlanes(big, ray, a, t);
        }
      }
      assert InSlabs(big, ray, 3, t);
    }
  }

  lemma ContainsByAxis(outer: Aabb, inner: Aabb, a: nat)
    requires a < 3 && Contains(outer, inner)
    ensures Get(outer.min, a) <= Get(inner.min, a) && Get(inner.max, a) <= Get(outer.max, a)
  {
  }
}
