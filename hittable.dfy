/** The hit protocol (src/hittable.rs): the record an intersection fills in,
    the orientation of its normal, and the closest-so-far scan over a list of
    objects. An object's `hit` is a function from a ray and a closed window
    `[tMin, tMax]` to an optional record. */
module Hits {
  import opened Options
  import opened Vectors
  import opened Rays
  import opened Materials
  import opened Boxes

  datatype HitRecord = HitRecord(
    p: Vec3,
    normal: Vec3,
    t: real,
    frontFace: bool,
    u: real,
    v: real,
    material: Option<Material>)

  /** `HitRecord::default()`. */
  const DefaultRecord: HitRecord := HitRecord(Zero, Zero, 0.0, false, 0.0, 0.0, None)

  /** An object's hit: the nearest intersection in `[tMin, tMax]`, if any. */
  type HitFn<!T> = (T, Ray, real, real) -> Option<HitRecord>

  /** An object's `bounding_box` over the shutter interval `[time0, time1]`:
      the box it writes to `output_box`, when it reports one. */
  type BoxFn<!T> = (T, real, real) -> Option<Aabb>

  /** `set_face_normal` as a value: the record with `frontFace` and `normal`
      set from the outward normal and nothing else changed. */
  function WithFaceNormal(rec: HitRecord, ray: Ray, outward: Vec3): (r: HitRecord)
    ensures r.frontFace <==> Dot(ray.direction, outward) < 0.0
    ensures r.normal == outward || r.normal == Neg(outward)
    ensures r.frontFace ==> r.normal == outward
    ensures !r.frontFace ==> r.normal == Neg(outward)
    ensures Dot(r.normal, ray.direction) <= 0.0
    ensures r.(frontFace := rec.frontFace, normal := rec.normal) == rec
  {
    var frontFace := Dot(ray.direction, outward) < 0.0;
    DotSymmetric(ray.direction, outward);
    DotLinear(outward, Zero, ray.direction, 0.0);
    rec.(frontFace := frontFace, normal := if frontFace then outward else Neg(outward))
  }

  /** `HitRecord::set_face_normal`: writes the two fields in place. */
  method SetFaceNormal(rec: HitRecord, ray: Ray, outward: Vec3) returns (rec': HitRecord)
    ensures rec' == WithFaceNormal(rec, ray, outward)
  {
    rec' := rec;
    rec' := rec'.(frontFace := Dot(ray.direction, outward) < 0.0);
    rec' := rec'.(normal := if rec'.frontFace then outward else Neg(outward));
  }

  /** Only the two written fields of the old record matter: records that
      agree elsewhere come out equal. */
  lemma FaceNormalOverwrites(rec1: HitRecord, rec2: HitRecord, ray: Ray, outward: Vec3)
    requires rec1.(frontFace := rec2.frontFace, normal := rec2.normal) == rec2
    ensures WithFaceNormal(rec1, ray, outward) == WithFaceNormal(rec2, ray, outward)
  {
  }

  /** Orienting an already oriented normal again keeps the normal but marks
      the face as front-facing whenever the ray meets it head-on. */
  lemma FaceNormalReapplied(rec: HitRecord, ray: Ray, outward: Vec3)
    requires Dot(ray.direction, outward) != 0.0
    ensures var r := WithFaceNormal(rec, ray, outward);
      WithFaceNormal(r, ray, r.normal).normal == r.normal &&
      WithFaceNormal(r, ray, r.normal).frontFace
  {
    var r := WithFaceNormal(rec, ray, outward);
    DotSymmetric(ray.direction, outward);
    DotLinear(outward, Zero, ray.direction, 0.0);
    DotSymmetric(r.normal, ray.direction);
  }

  // The closest-so-far scan of `HittableList::hit`.

  /** The record held after the first `n` objects: each object is asked for
      a hit no farther than the closest one found so far. */
  function Scan<T>(objects: seq<T>, hitOf: HitFn<T>, ray: Ray, tMin: real, tMax: real, n: nat): Option<HitRecord>
    requires n <= |objects|
  {
    if n == 0 then None
    else
      var prev := Scan(objects, hitOf, ray, tMin, tMax, n - 1);
      var closest := if prev.Some? then prev.value.t else tMax;
      match hitOf(objects[n - 1], ray, tMin, closest)
      case Some(r) => Some(r)
      case None => prev
  }

  /** `HittableList::hit`: `rec` is overwritten by every object that hits,
      and left as it was when none does. */
  method ListHit<T>(objects: seq<T>, hitOf: HitFn<T>, ray: Ray, tMin: real, tMax: real, rec: HitRecord)
    returns (hitAnything: bool, rec': HitRecord)
    ensures hitAnything == Scan(objects, hitOf, ray, tMin, tMax, |objects|).Some?
    ensures hitAnything ==> rec' == Scan(objects, hitOf, ray, tMin, tMax, |objects|).value
    ensures !hitAnything ==> rec' == rec
  {
    hitAnything := false;
    var closestSoFar := tMax;
    rec' := rec;
    for i := 0 to |objects|
      invariant hitAnything == Scan(objects, hitOf, ray, tMin, tMax, i).Some?
      invariant hitAnything ==> rec' == Scan(objects, hitOf, ray, tMin, tMax, i).value
      invariant !hitAnything ==> rec' == rec
      invariant closestSoFar == if hitAnything then rec'.t else tMax
    {
      var tempRec := hitOf(objects[i], ray, tMin, closestSoFar);
      if tempRec.Some? {
        hitAnything := true;
        rec' := tempRec.value;
        closestSoFar := rec'.t;
      }
    }
  }

  /** A record lies in the closed window. */
  predicate InWindow(h: Option<HitRecord>, lo: real, hi: real) {
    h.Some? ==> lo <= h.value.t <= hi
  }

  /** The contract every object's hit keeps: the record lies in the window,
      and narrowing the far end of the window keeps the same record while it
      still fits and loses it otherwise. This is what "the nearest hit in
      the window" means without naming the surface. */
  ghost predicate Nearest<T(!new)>(hitOf: HitFn<T>) {
    forall o: T, ray: Ray, lo: real, hi: real :: InWindow(hitOf(o, ray, lo, hi), lo, hi) &&
      forall hi': real :: hi' <= hi ==>
        hitOf(o, ray, lo, hi') ==
          (if hitOf(o, ray, lo, hi).Some? && hitOf(o, ray, lo, hi).value.t <= hi'
           then hitOf(o, ray, lo, hi) else None)
  }

  /** Narrowing the far end of the window, for one object: the instance of
      `Nearest` the proofs below use. */
  lemma Narrow<T(!new)>(hitOf: HitFn<T>, o: T, ray: Ray, lo: real, hi: real, hi': real)
    requires Nearest(hitOf) && hi' <= hi
    ensures InWindow(hitOf(o, ray, lo, hi), lo, hi)
    ensures hitOf(o, ray, lo, hi') ==
      (if hitOf(o, ray, lo, hi).Some? && hitOf(o, ray, lo, hi).value.t <= hi'
       then hitOf(o, ray, lo, hi) else None)
  {
  }

  /** `r` is the nearest of the first `n` objects' hits over the whole
      window; ties go to the object that comes last. */
  ghost predicate NearestAmong<T>(r: HitRecord, objects: seq<T>, n: nat, hitOf: HitFn<T>, ray: Ray, tMin: real, tMax: real)
    requires n <= |objects|
  {
    (exists j :: 0 <= j < n && hitOf(objects[j], ray, tMin, tMax) == Some(r) &&
      forall i :: j < i < n && hitOf(objects[i], ray, tMin, tMax).Some? ==>
        r.t < hitOf(objects[i], ray, tMin, tMax).value.t) &&
    forall i :: 0 <= i < n && hitOf(objects[i], ray, tMin, tMax).Some? ==>
      r.t <= hitOf(objects[i], ray, tMin, tMax).value.t
  }

  lemma {:induction false} ScanFindsAny<T(!new)>(objects: seq<T>, hitOf: HitFn<T>, ray: Ray, tMin: real, tMax: real, n: nat)
    requires n <= |objects| && Nearest(hitOf)
    ensures InWindow(Scan(objects, hitOf, ray, tMin, tMax, n), tMin, tMax)
    ensures Scan(objects, hitOf, ray, tMin, tMax, n).Some? <==>
      exists i :: 0 <= i < n && hitOf(objects[i], ray, tMin, tMax).Some?
  {
    if n > 0 {
      ScanFindsAny(objects, hitOf, ray, tMin, tMax, n - 1);
      var prev := Scan(objects, hitOf, ray, tMin, tMax, n - 1);
      var closest := if prev.Some? then prev.value.t else tMax;
      Narrow(hitOf, objects[n - 1], ray, tMin, tMax, closest);
      if prev.Some? {
        var i :| 0 <= i < n - 1 && hitOf(objects[i], ray, tMin, tMax).Some?;
      }
    }
  }

  lemma {:induction false} ScanFindsNearest<T(!new)>(objects: seq<T>, hitOf: HitFn<T>, ray: Ray, tMin: real, tMax: real, n: nat)
    requires n <= |objects| && Nearest(hitOf)
    ensures Scan(objects, hitOf, ray, tMin, tMax, n).Some? ==>
      NearestAmong(Scan(objects, hitOf, ray, tMin, tMax, n).value, objects, n, hitOf, ray, tMin, tMax)
  {
    if n > 0 {
      ScanFindsNearest(objects, hitOf, ray, tMin, tMax, n - 1);
      ScanFindsAny(objects, hitOf, ray, tMin, tMax, n - 1);
      var prev := Scan(objects, hitOf, ray, tMin, tMax, n - 1);
      var closest := if prev.Some? then prev.value.t else tMax;
      var full := hitOf(objects[n - 1], ray, tMin, tMax);
      Narrow(hitOf, objects[n - 1], ray, tMin, tMax, closest);
      var cur := Scan(objects, hitOf, ray, tMin, tMax, n);
      if cur.Some? {
        var r := cur.value;
        if full.Some? && full.value.t <= closest {
          assert r == full.value;
          NearestLast(objects, hitOf, ray, tMin, tMax, n, prev, r);
        } else {
          assert cur == prev && prev.Some? && r == prev.value;
          NearestKept(objects, hitOf, ray, tMin, tMax, n, r);
        }
      }
    }
  }

  /** The last object's hit, no farther than the nearest before it (or the
      only hit), is the nearest of all `n`. */
  lemma NearestLast<T>(objects: seq<T>, hitOf: HitFn<T>, ray: Ray, tMin: real, tMax: real, n: nat,
                       prev: Option<HitRecord>, r: HitRecord)
    requires 0 < n <= |objects|
    requires hitOf(objects[n - 1], ray, tMin, tMax) == Some(r)
    requires prev.Some? ==> NearestAmong(prev.value, objects, n - 1, hitOf, ray, tMin, tMax) && r.t <= prev.value.t
    requires prev.None? ==> forall i :: 0 <= i < n - 1 ==> hitOf(objects[i], ray, tMin, tMax).None?
    ensures NearestAmong(r, objects, n, hitOf, ray, tMin, tMax)
  {
    assert forall i :: 0 <= i < n && hitOf(objects[i], ray, tMin, tMax).Some? ==>
      r.t <= hitOf(objects[i], ray, tMin, tMax).value.t by {
      forall i | 0 <= i < n && hitOf(objects[i], ray, tMin, tMax).Some?
        ensures r.t <= hitOf(objects[i], ray, tMin, tMax).value.t
      {
        if i < n - 1 {
          assert prev.Some?;
        }
      }
    }
    assert hitOf(objects[n - 1], ray, tMin, tMax) == Some(r);
  }

  /** The nearest of the first `n - 1` stays the nearest when the last
      object's hit, if any, is strictly farther. */
  lemma NearestKept<T>(objects: seq<T>, hitOf: HitFn<T>, ray: Ray, tMin: real, tMax: real, n: nat, r: HitRecord)
    requires 0 < n <= |objects|
    requires NearestAmong(r, objects, n - 1, hitOf, ray, tMin, tMax)
    requires hitOf(objects[n - 1], ray, tMin, tMax).Some? ==> r.t < hitOf(objects[n - 1], ray, tMin, tMax).value.t
    ensures NearestAmong(r, objects, n, hitOf, ray, tMin, tMax)
  {
    var j :| 0 <= j < n - 1 && hitOf(objects[j], ray, tMin, tMax) == Some(r) &&
      forall i :: j < i < n - 1 && hitOf(objects[i], ray, tMin, tMax).Some? ==>
        r.t < hitOf(objects[i], ray, tMin, tMax).value.t;
    assert forall i :: j < i < n && hitOf(objects[i], ray, tMin, tMax).Some? ==>
      r.t < hitOf(objects[i], ray, tMin, tMax).value.t;
  }

  /** Shrinking the far end of the window for the whole list keeps its
      record while it still fits and loses it otherwise, just as for one
      object: a list can itself be an object of another list. */
  lemma {:induction false} ScanNarrows<T(!new)>(objects: seq<T>, hitOf: HitFn<T>, ray: Ray, lo: real, hi: real, hi': real, n: nat)
    requires n <= |objects| && Nearest(hitOf) && hi' <= hi
    ensures Scan(objects, hitOf, ray, lo, hi', n) ==
      (if Scan(objects, hitOf, ray, lo, hi, n).Some? && Scan(objects, hitOf, ray, lo, hi, n).value.t <= hi'
       then Scan(objects, hitOf, ray, lo, hi, n) else None)
  {
    if n > 0 {
      ScanNarrows(objects, hitOf, ray, lo, hi, hi', n - 1);
      ScanFindsAny(objects, hitOf, ray, lo, hi, n - 1);
      var prev := Scan(objects, hitOf, ray, lo, hi, n - 1);
      var prev' := Scan(objects, hitOf, ray, lo, hi', n - 1);
      NarrowObject(hitOf, objects[n - 1], ray, lo, hi, hi', prev, prev');
    }
  }

  /** The step of `ScanNarrows` for the object `o` added to the scan, with
      the records so far over both windows. */
  lemma NarrowObject<T(!new)>(hitOf: HitFn<T>, o: T, ray: Ray, lo: real, hi: real, hi': real,
                              prev: Option<HitRecord>, prev': Option<HitRecord>)
    requires Nearest(hitOf) && hi' <= hi && InWindow(prev, lo, hi)
    requires prev' == (if prev.Some? && prev.value.t <= hi' then prev else None)
    ensures var closest := if prev.Some? then prev.value.t else hi;
      var closest' := if prev'.Some? then prev'.value.t else hi';
      var next := if hitOf(o, ray, lo, closest).Some? then hitOf(o, ray, lo, closest) else prev;
      (if hitOf(o, ray, lo, closest').Some? then hitOf(o, ray, lo, closest') else prev') ==
        (if next.Some? && next.value.t <= hi' then next else None)
  {
    var closest := if prev.Some? then prev.value.t else hi;
    var closest' := if prev'.Some? then prev'.value.t else hi';
    Narrow(hitOf, o, ray, lo, hi, closest);
    Narrow(hitOf, o, ray, lo, hi, closest');
    NarrowStep(prev, prev', hitOf(o, ray, lo, hi), hitOf(o, ray, lo, closest), hitOf(o, ray, lo, closest'),
               lo, hi, hi');
  }

  /** One step of `ScanNarrows`, on the values involved: the records so far
      over both windows, and the next object's hits over the whole window
      and up to each window's closest record. */
  lemma NarrowStep(prev: Option<HitRecord>, prev': Option<HitRecord>, whole: Option<HitRecord>,
                   upTo: Option<HitRecord>, upTo': Option<HitRecord>, lo: real, hi: real, hi': real)
    requires hi' <= hi && InWindow(prev, lo, hi) && InWindow(whole, lo, hi)
    requires prev' == (if prev.Some? && prev.value.t <= hi' then prev else None)
    requires var closest := if prev.Some? then prev.value.t else hi;
      upTo == (if whole.Some? && whole.value.t <= closest then whole else None)
    requires var closest' := if prev'.Some? then prev'.value.t else hi';
      upTo' == (if whole.Some? && whole.value.t <= closest' then whole else None)
    ensures var next := if upTo.Some? then upTo else prev;
      (if upTo'.Some? then upTo' else prev') == (if next.Some? && next.value.t <= hi' then next else None)
  {
  }

  /** The list's hit keeps the contract of every object's hit. */
  lemma ListIsNearest<T(!new)>(hitOf: HitFn<T>)
    requires Nearest(hitOf)
    ensures Nearest((objects: seq<T>, ray: Ray, lo: real, hi: real) => Scan(objects, hitOf, ray, lo, hi, |objects|))
  {
    forall objects: seq<T>, ray: Ray, lo: real, hi: real, hi': real | hi' <= hi
      ensures InWindow(Scan(objects, hitOf, ray, lo, hi, |objects|), lo, hi)
      ensures Scan(objects, hitOf, ray, lo, hi', |objects|) ==
        (if Scan(objects, hitOf, ray, lo, hi, |objects|).Some? && Scan(objects, hitOf, ray, lo, hi, |objects|).value.t <= hi'
         then Scan(objects, hitOf, ray, lo, hi, |objects|) else None)
    {
      ScanFindsAny(objects, hitOf, ray, lo, hi, |objects|);
      ScanNarrows(objects, hitOf, ray, lo, hi, hi', |objects|);
    }
    forall objects: seq<T>, ray: Ray, lo: real, hi: real
      ensures InWindow(Scan(objects, hitOf, ray, lo, hi, |objects|), lo, hi)
    {
      ScanFindsAny(objects, hitOf, ray, lo, hi, |objects|);
    }
  }

  /** The list scan returns a hit exactly when some object hits in the whole
      window, and then it is the nearest of them, ties going to the object
      listed last. */
  lemma ListHitIsNearest<T(!new)>(objects: seq<T>, hitOf: HitFn<T>, ray: Ray, tMin: real, tMax: real)
    requires Nearest(hitOf)
    ensures InWindow(Scan(objects, hitOf, ray, tMin, tMax, |objects|), tMin, tMax)
    ensures Scan(objects, hitOf, ray, tMin, tMax, |objects|).Some? <==>
      exists i :: 0 <= i < |objects| && hitOf(objects[i], ray, tMin, tMax).Some?
    ensures Scan(objects, hitOf, ray, tMin, tMax, |objects|).Some? ==>
      NearestAmong(Scan(objects, hitOf, ray, tMin, tMax, |objects|).value, objects, |objects|, hitOf, ray, tMin, tMax)
  {
    ScanFindsAny(objects, hitOf, ray, tMin, tMax, |objects|);
    ScanFindsNearest(objects, hitOf, ray, tMin, tMax, |objects|);
  }
}
