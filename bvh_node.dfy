/** `BvhNode` (src/bvh_node.rs): a bounding volume hierarchy. Each node
    holds two children and the box around both; a ray that misses the box
    skips everything below it. Objects are handles of type `T`, hit through
    `hitOf` and boxed through `boxOf`. */
module BvhNodes {
  import opened Options
  import opened Vectors
  import opened Rays
  import opened Boxes
  import opened Hits

  /** A child of a node: an object of the scene, or a node built over a
      part of them. */
  datatype Bvh<T> = Object(object: T) | Node(left: Bvh<T>, right: Bvh<T>, bbox: Aabb)

  /** The objects at the leaves, left to right. */
  function Leaves<T>(b: Bvh<T>): seq<T> {
    match b
    case Object(o) => [o]
    case Node(l, r, _) => Leaves(l) + Leaves(r)
  }

  /** `bounding_box` of a child: an object's own box, or a node's `bbox`,
      which a node reports for any time interval. */
  function BoxOf<T>(boxOf: BoxFn<T>, b: Bvh<T>, time0: real, time1: real): Option<Aabb> {
    match b
    case Object(o) => boxOf(o, time0, time1)
    case Node(_, _, box) => Some(box)
  }

  /** Every node's box is the union of its children's boxes, and both
      children report one. */
  ghost predicate WellBoxed<T>(boxOf: BoxFn<T>, b: Bvh<T>, time0: real, time1: real) {
    match b
    case Object(_) => true
    case Node(l, r, box) =>
      WellBoxed(boxOf, l, time0, time1) && WellBoxed(boxOf, r, time0, time1) &&
      BoxOf(boxOf, l, time0, time1).Some? && BoxOf(boxOf, r, time0, time1).Some? &&
      box == SurroundingBox(BoxOf(boxOf, l, time0, time1).value, BoxOf(boxOf, r, time0, time1).value)
  }

  // The order `box_compare` sorts by: the derived `PartialOrd` of `Aabb`,
  // lexicographic on `min` then `max`, each lexicographic on x, y, z.

  predicate VecLess(u: Vec3, v: Vec3) {
    u.x < v.x || (u.x == v.x && (u.y < v.y || (u.y == v.y && u.z < v.z)))
  }

  predicate BoxLess(a: Aabb, b: Aabb) {
    VecLess(a.min, b.min) || (a.min == b.min && VecLess(a.max, b.max))
  }

  predicate BoxLe(a: Aabb, b: Aabb) {
    BoxLess(a, b) || a == b
  }

  /** The order is total and transitive, so sorting by it is well defined. */
  lemma BoxOrder(a: Aabb, b: Aabb, c: Aabb)
    ensures BoxLe(a, b) || BoxLe(b, a)
    ensures BoxLe(a, b) && BoxLe(b, a) ==> a == b
    ensures BoxLe(a, b) && BoxLe(b, c) ==> BoxLe(a, c)
  {
  }

  datatype Ordering = Less | Equal | Greater

  /** The key an object is sorted by: its box over the instant `[0, 0]`. */
  function KeyOf<T>(boxOf: BoxFn<T>, o: T): Aabb {
    match boxOf(o, 0.0, 0.0)
    case Some(box) => box
    case None => Aabb(Zero, Zero)
  }

  /** `BvhNode::box_compare`: the boxes of both objects at time 0, compared
      lexicographically; an object without a box makes the source panic. */
  function BoxCompare<T>(boxOf: BoxFn<T>, a: T, b: T): (r: Ordering)
    requires boxOf(a, 0.0, 0.0).Some? && boxOf(b, 0.0, 0.0).Some?
    ensures r == Less <==> BoxLe(KeyOf(boxOf, a), KeyOf(boxOf, b)) && KeyOf(boxOf, a) != KeyOf(boxOf, b)
    ensures r == Equal <==> KeyOf(boxOf, a) == KeyOf(boxOf, b)
    ensures r == Greater <==> BoxLe(KeyOf(boxOf, b), KeyOf(boxOf, a)) && KeyOf(boxOf, a) != KeyOf(boxOf, b)
  {
    var boxA, boxB := boxOf(a, 0.0, 0.0).value, boxOf(b, 0.0, 0.0).value;
    BoxOrder(boxA, boxB, boxA);
    if boxA == boxB then Equal
    else if BoxLess(boxA, boxB) then Less
    else Greater
  }

  ghost predicate SortedByBox<T>(boxOf: BoxFn<T>, s: seq<T>) {
    forall i, j :: 0 <= i < j < |s| ==> BoxLe(KeyOf(boxOf, s[i]), KeyOf(boxOf, s[j]))
  }

  /** `x` inserted into a sorted sequence before the first element it does
      not follow. */
  function Insert<T>(boxOf: BoxFn<T>, x: T, s: seq<T>): (r: seq<T>)
    requires SortedByBox(boxOf, s)
    ensures |r| == |s| + 1
    ensures multiset(r) == multiset(s) + multiset{x}
    ensures SortedByBox(boxOf, r)
  {
    if |s| == 0 then [x]
    else if BoxLe(KeyOf(boxOf, x), KeyOf(boxOf, s[0])) then
      InsertFront(boxOf, x, s);
      [x] + s
    else
      var rest := Insert(boxOf, x, s[1..]);
      InsertBehind(boxOf, x, s, rest);
      [s[0]] + rest
  }

  lemma InsertFront<T>(boxOf: BoxFn<T>, x: T, s: seq<T>)
    requires |s| > 0 && SortedByBox(boxOf, s) && BoxLe(KeyOf(boxOf, x), KeyOf(boxOf, s[0]))
    ensures SortedByBox(boxOf, [x] + s)
  {
    forall j | 0 < j < |[x] + s|
      ensures BoxLe(KeyOf(boxOf, ([x] + s)[0]), KeyOf(boxOf, ([x] + s)[j]))
    {
      if j > 1 {
        BoxOrder(KeyOf(boxOf, x), KeyOf(boxOf, s[0]), KeyOf(boxOf, s[j - 1]));
      }
    }
  }

  lemma InsertBehind<T>(boxOf: BoxFn<T>, x: T, s: seq<T>, rest: seq<T>)
    requires |s| > 0 && SortedByBox(boxOf, s) && !BoxLe(KeyOf(boxOf, x), KeyOf(boxOf, s[0]))
    requires multiset(rest) == multiset(s[1..]) + multiset{x} && SortedByBox(boxOf, rest)
    ensures SortedByBox(boxOf, [s[0]] + rest)
    ensures multiset([s[0]] + rest) == multiset(s) + multiset{x}
  {
    assert s == [s[0]] + s[1..];
    BoxOrder(KeyOf(boxOf, x), KeyOf(boxOf, s[0]), KeyOf(boxOf, x));
    forall j | 0 <= j < |rest|
      ensures BoxLe(KeyOf(boxOf, s[0]), KeyOf(boxOf, rest[j]))
    {
      assert rest[j] in multiset(rest);
      if rest[j] != x {
        assert rest[j] in multiset(s[1..]);
        var k :| 0 <= k < |s[1..]| && s[1..][k] == rest[j];
        assert s[k + 1] == rest[j];
      }
    }
  }

  /** The sort `new` applies to the slice: the objects in `box_compare`
      order. */
  function SortByBox<T>(boxOf: BoxFn<T>, s: seq<T>): (r: seq<T>)
    ensures |r| == |s|
    ensures multiset(r) == multiset(s)
    ensures SortedByBox(boxOf, r)
  {
    if |s| == 0 then []
    else
      assert s == s[..|s| - 1] + [s[|s| - 1]];
      Insert(boxOf, s[|s| - 1], SortByBox(boxOf, s[..|s| - 1]))
  }

  /** `BvhNode::new`: one object fills both children; two objects are put
      in `box_compare` order; more are sorted, split at the middle and
      built into two nodes (`Split`). The node's box surrounds the two
      children's boxes, which every object must report. */
  method New<T(!new)>(boxOf: BoxFn<T>, srcObjects: seq<T>, time0: real, time1: real) returns (node: Bvh<T>)
    requires |srcObjects| >= 1
    requires forall o :: o in srcObjects ==> boxOf(o, time0, time1).Some?
    requires |srcObjects| >= 2 ==> forall o :: o in srcObjects ==> boxOf(o, 0.0, 0.0).Some?
    ensures node.Node? && WellBoxed(boxOf, node, time0, time1)
    ensures forall o :: o in Leaves(node) <==> o in srcObjects
    ensures SortedByBox(boxOf, Leaves(node))
    ensures |srcObjects| == 1 ==> node.left == Object(srcObjects[0]) && node.right == Object(srcObjects[0])
    ensures |srcObjects| == 2 ==>
      (node.left, node.right) ==
        if BoxCompare(boxOf, srcObjects[0], srcObjects[1]) == Less
        then (Object(srcObjects[0]), Object(srcObjects[1]))
        else (Object(srcObjects[1]), Object(srcObjects[0]))
    ensures |srcObjects| >= 3 ==> SplitAtMiddle(boxOf, node, srcObjects)
    decreases |srcObjects|, 1
  {
    var length := |srcObjects|;
    if length >= 3 {
      node := Split(boxOf, srcObjects, time0, time1);
      return;
    }
    var left, right;
    assert srcObjects[0] in srcObjects;
    if length == 1 {
      left, right := Object(srcObjects[0]), Object(srcObjects[0]);
      BoxOrder(KeyOf(boxOf, srcObjects[0]), KeyOf(boxOf, srcObjects[0]), KeyOf(boxOf, srcObjects[0]));
    } else {
      assert srcObjects[1] in srcObjects;
      if BoxCompare(boxOf, srcObjects[0], srcObjects[1]) == Less {
        left, right := Object(srcObjects[0]), Object(srcObjects[1]);
      } else {
        left, right := Object(srcObjects[1]), Object(srcObjects[0]);
      }
      assert srcObjects == [srcObjects[0], srcObjects[1]];
    }
    var boxLeft := BoxOf(boxOf, left, time0, time1).value;
    var boxRight := BoxOf(boxOf, right, time0, time1).value;
    node := Node(left, right, SurroundingBox(boxLeft, boxRight));
  }

  /** The node's two children hold the first and the second half of the
      objects in `box_compare` order, and both are nodes. */
  ghost predicate SplitAtMiddle<T(!new)>(boxOf: BoxFn<T>, node: Bvh<T>, srcObjects: seq<T>)
    requires node.Node?
  {
    var sorted := SortByBox(boxOf, srcObjects);
    node.left.Node? && node.right.Node? &&
    (forall o :: o in Leaves(node.left) <==> o in sorted[..|srcObjects| / 2]) &&
    (forall o :: o in Leaves(node.right) <==> o in sorted[|srcObjects| / 2..])
  }

  /** The branch of `BvhNode::new` for three or more objects: sort, split
      at `length / 2`, and build a node over each half. Both halves are
      non-empty and shorter than the whole, so the recursion ends. */
  method Split<T(!new)>(boxOf: BoxFn<T>, srcObjects: seq<T>, time0: real, time1: real) returns (node: Bvh<T>)
    requires |srcObjects| >= 3
    requires forall o :: o in srcObjects ==> boxOf(o, time0, time1).Some? && boxOf(o, 0.0, 0.0).Some?
    ensures node.Node? && WellBoxed(boxOf, node, time0, time1)
    ensures forall o :: o in Leaves(node) <==> o in srcObjects
    ensures SortedByBox(boxOf, Leaves(node))
    ensures SplitAtMiddle(boxOf, node, srcObjects)
    decreases |srcObjects|, 0
  {
    var sorted := SortByBox(boxOf, srcObjects);
    var length := |srcObjects|;
    var mid := length / 2;
    SortKeepsMembers(boxOf, srcObjects);
    HalvesCover(sorted, mid);
    var newLeft := New(boxOf, sorted[..mid], time0, time1);
    var newRight := New(boxOf, sorted[mid..], time0, time1);
    SplitSorted(boxOf, sorted, mid, Leaves(newLeft), Leaves(newRight));
    node := Node(newLeft, newRight, SurroundingBox(newLeft.bbox, newRight.bbox));
  }

  /** As written, an empty slice is neither of length 1 nor 2, so it takes
      the splitting branch, where `mid = 0`: the left call receives the
      first half of the sorted slice, which is again the whole (empty)
      slice, and the recursion never reaches a base case. For every other
      length of that branch both halves are strictly shorter. `New`
      requires at least one object instead. */
  lemma EmptySliceRecursesOnItself<T>(boxOf: BoxFn<T>, srcObjects: seq<T>)
    requires |srcObjects| != 1 && |srcObjects| != 2
    ensures var sorted, mid := SortByBox(boxOf, srcObjects), |srcObjects| / 2;
      (|sorted[..mid]| < |srcObjects| && |sorted[mid..]| < |srcObjects|) <==> |srcObjects| > 0
    ensures |srcObjects| == 0 ==> SortByBox(boxOf, srcObjects)[..0] == srcObjects
  {
  }

  lemma SortKeepsMembers<T>(boxOf: BoxFn<T>, s: seq<T>)
    ensures forall o :: o in SortByBox(boxOf, s) <==> o in s
  {
    var sorted := SortByBox(boxOf, s);
    forall o
      ensures o in sorted <==> o in s
    {
      assert o in sorted <==> o in multiset(sorted);
      assert o in s <==> o in multiset(s);
    }
  }

  lemma HalvesCover<T>(s: seq<T>, mid: nat)
    requires mid <= |s|
    ensures forall o :: o in s <==> o in s[..mid] || o in s[mid..]
  {
    assert s == s[..mid] + s[mid..];
  }

  /** Leaves drawn from the two halves of a sorted sequence, each in order,
      are in order together. */
  lemma SplitSorted<T>(boxOf: BoxFn<T>, sorted: seq<T>, mid: nat, a: seq<T>, b: seq<T>)
    requires mid <= |sorted| && SortedByBox(boxOf, sorted)
    requires SortedByBox(boxOf, a) && SortedByBox(boxOf, b)
    requires forall o :: o in a ==> o in sorted[..mid]
    requires forall o :: o in b ==> o in sorted[mid..]
    ensures SortedByBox(boxOf, a + b)
  {
    forall i, j | 0 <= i < |a| <= j < |a| + |b|
      ensures BoxLe(KeyOf(boxOf, (a + b)[i]), KeyOf(boxOf, (a + b)[j]))
    {
      assert a[i] in sorted[..mid];
      assert b[j - |a|] in sorted[mid..];
      var p :| 0 <= p < mid && sorted[p] == a[i];
      var q :| mid <= q < |sorted| && sorted[q] == b[j - |a|];
    }
  }

  /** `BvhNode::hit`: nothing when the ray misses the node's box; otherwise
      the left child over the window, the right child up to the left hit,
      and the closer of the two, ties going to the right. */
  function Hit<T>(hitOf: HitFn<T>, b: Bvh<T>, ray: Ray, tMin: real, tMax: real): Option<HitRecord> {
    match b
    case Object(o) => hitOf(o, ray, tMin, tMax)
    case Node(l, r, box) =>
      if !SlabHit(box, ray, tMin, tMax) then None
      else
        var hitLeft := Hit(hitOf, l, ray, tMin, tMax);
        var hitRight := Hit(hitOf, r, ray, tMin, if hitLeft.Some? then hitLeft.value.t else tMax);
        match hitLeft
        case Some(rec) =>
          (match hitRight
           case Some(recRight) => if rec.t < recRight.t then Some(rec) else Some(recRight)
           case None => Some(rec))
        case None => hitRight
  }

  /** A hit of the hierarchy is a leaf's own hit over the whole window. */
  lemma {:induction false} HitIsLeafHit<T(!new)>(hitOf: HitFn<T>, b: Bvh<T>, ray: Ray, tMin: real, tMax: real)
    requires Nearest(hitOf)
    ensures InWindow(Hit(hitOf, b, ray, tMin, tMax), tMin, tMax)
    ensures Hit(hitOf, b, ray, tMin, tMax).Some? ==>
      exists o :: o in Leaves(b) && hitOf(o, ray, tMin, tMax) == Hit(hitOf, b, ray, tMin, tMax)
  {
    match b
    case Object(o) =>
      Narrow(hitOf, o, ray, tMin, tMax, tMax);
      assert o in Leaves(b);
    case Node(l, r, box) =>
      HitIsLeafHit(hitOf, l, ray, tMin, tMax);
      var hitLeft := Hit(hitOf, l, ray, tMin, tMax);
      var closest := if hitLeft.Some? then hitLeft.value.t else tMax;
      HitIsLeafHit(hitOf, r, ray, tMin, closest);
      var hitRight := Hit(hitOf, r, ray, tMin, closest);
      var h := Hit(hitOf, b, ray, tMin, tMax);
      if h.Some? {
        if hitLeft.Some? && h == hitLeft {
          var o :| o in Leaves(l) && hitOf(o, ray, tMin, tMax) == hitLeft;
          assert o in Leaves(b);
        } else {
          assert h == hitRight;
          var o :| o in Leaves(r) && hitOf(o, ray, tMin, closest) == hitRight;
          Narrow(hitOf, o, ray, tMin, tMax, closest);
          assert o in Leaves(b);
        }
      }
  }

  /** The objects' hits stay inside their boxes: whenever an object is hit
      in a window by a ray of the shutter interval, the ray passes the slab
      test of the object's box over that window. */
  ghost predicate BoxesBound<T(!new)>(hitOf: HitFn<T>, boxOf: BoxFn<T>, time0: real, time1: real) {
    forall o: T, ray: Ray, lo: real, hi: real ::
      time0 <= ray.time <= time1 && hitOf(o, ray, lo, hi).Some? && boxOf(o, time0, time1).Some? ==>
        SlabHit(boxOf(o, time0, time1).value, ray, lo, hi)
  }

  /** Every leaf of a well-boxed hierarchy reports a box, and that box lies
      in the box of every node above it. */
  lemma {:induction false} LeafWithinBox<T>(boxOf: BoxFn<T>, b: Bvh<T>, time0: real, time1: real, o: T)
    requires WellBoxed(boxOf, b, time0, time1) && o in Leaves(b) && b.Node?
    ensures boxOf(o, time0, time1).Some?
    ensures Contains(b.bbox, boxOf(o, time0, time1).value)
  {
    var l, r := b.left, b.right;
    var child := if o in Leaves(l) then l else r;
    assert o in Leaves(child);
    if child.Node? {
      LeafWithinBox(boxOf, child, time0, time1, o);
    }
  }

  /** The hierarchy misses nothing: when any leaf is hit in the window, the
      hierarchy reports a hit no farther than it. */
  lemma {:induction false} HitFindsEveryLeaf<T(!new)>(hitOf: HitFn<T>, boxOf: BoxFn<T>, time0: real, time1: real,
                                                      b: Bvh<T>, ray: Ray, tMin: real, tMax: real, o: T)
    requires Nearest(hitOf) && BoxesBound(hitOf, boxOf, time0, time1)
    requires WellBoxed(boxOf, b, time0, time1) && time0 <= ray.time <= time1
    requires o in Leaves(b) && hitOf(o, ray, tMin, tMax).Some?
    ensures Hit(hitOf, b, ray, tMin, tMax).Some?
    ensures Hit(hitOf, b, ray, tMin, tMax).value.t <= hitOf(o, ray, tMin, tMax).value.t
  {
    match b
    case Object(_) =>
    case Node(l, r, box) =>
      LeafWithinBox(boxOf, b, time0, time1, o);
      SlabHitMonotone(boxOf(o, time0, time1).value, box, ray, tMin, tMax);
      var t := hitOf(o, ray, tMin, tMax).value.t;
      Narrow(hitOf, o, ray, tMin, tMax, tMax);
      HitIsLeafHit(hitOf, l, ray, tMin, tMax);
      var hitLeft := Hit(hitOf, l, ray, tMin, tMax);
      var closest := if hitLeft.Some? then hitLeft.value.t else tMax;
      HitIsLeafHit(hitOf, r, ray, tMin, closest);
      if o in Leaves(l) {
        HitFindsEveryLeaf(hitOf, boxOf, time0, time1, l, ray, tMin, tMax, o);
      } else if hitLeft.None? {
        HitFindsEveryLeaf(hitOf, boxOf, time0, time1, r, ray, tMin, tMax, o);
      } else if t <= closest {
        Narrow(hitOf, o, ray, tMin, tMax, closest);
        HitFindsEveryLeaf(hitOf, boxOf, time0, time1, r, ray, tMin, closest, o);
      }
  }

  /** The hierarchy keeps the hit contract for rays of the shutter
      interval: its hit lies in the window, and narrowing the far end of
      the window keeps that hit when it is no farther than the new end and
      drops it otherwise. */
  lemma {:induction false} HitIsNearest<T(!new)>(hitOf: HitFn<T>, boxOf: BoxFn<T>, time0: real, time1: real,
                                                 b: Bvh<T>, ray: Ray, lo: real, hi: real, hi': real)
    requires Nearest(hitOf) && BoxesBound(hitOf, boxOf, time0, time1)
    requires WellBoxed(boxOf, b, time0, time1) && time0 <= ray.time <= time1 && hi' <= hi
    ensures InWindow(Hit(hitOf, b, ray, lo, hi), lo, hi)
    ensures Hit(hitOf, b, ray, lo, hi') ==
      (if Hit(hitOf, b, ray, lo, hi).Some? && Hit(hitOf, b, ray, lo, hi).value.t <= hi'
       then Hit(hitOf, b, ray, lo, hi) else None)
    decreases b, 1
  {
    HitIsLeafHit(hitOf, b, ray, lo, hi);
    match b
    case Object(o) =>
      Narrow(hitOf, o, ray, lo, hi, hi');
    case Node(l, r, box) =>
      var h := Hit(hitOf, b, ray, lo, hi);
      SlabHitWiden(box, ray, lo, hi', hi);
      if SlabHit(box, ray, lo, hi) && !SlabHit(box, ray, lo, hi') && h.Some? && h.value.t <= hi' {
        var o :| o in Leaves(b) && hitOf(o, ray, lo, hi) == h;
        Narrow(hitOf, o, ray, lo, hi, hi');
        LeafWithinBox(boxOf, b, time0, time1, o);
        SlabHitMonotone(boxOf(o, time0, time1).value, box, ray, lo, hi');
      } else if SlabHit(box, ray, lo, hi') {
        HitNodeNarrows(hitOf, boxOf, time0, time1, b, ray, lo, hi, hi');
      }
  }

  /** The `HitIsNearest` step for a node whose box passes the narrower
      test: the left child narrows by induction, and the right child is
      searched up to the left hit, or up to the new end when that hit is
      gone. */
  lemma {:induction false} HitNodeNarrows<T(!new)>(hitOf: HitFn<T>, boxOf: BoxFn<T>, time0: real, time1: real,
                                                   b: Bvh<T>, ray: Ray, lo: real, hi: real, hi': real)
    requires Nearest(hitOf) && BoxesBound(hitOf, boxOf, time0, time1)
    requires WellBoxed(boxOf, b, time0, time1) && time0 <= ray.time <= time1 && hi' <= hi
    requires b.Node? && SlabHit(b.bbox, ray, lo, hi') && SlabHit(b.bbox, ray, lo, hi)
    ensures Hit(hitOf, b, ray, lo, hi') ==
      (if Hit(hitOf, b, ray, lo, hi).Some? && Hit(hitOf, b, ray, lo, hi).value.t <= hi'
       then Hit(hitOf, b, ray, lo, hi) else None)
    decreases b, 0
  {
    var l, r := b.left, b.right;
    HitIsNearest(hitOf, boxOf, time0, time1, l, ray, lo, hi, hi');
    var hitLeft := Hit(hitOf, l, ray, lo, hi);
    var closest := if hitLeft.Some? then hitLeft.value.t else hi;
    HitIsLeafHit(hitOf, r, ray, lo, closest);
    if hitLeft.Some? && hitLeft.value.t <= hi' {
      assert Hit(hitOf, l, ray, lo, hi') == hitLeft;
    } else {
      assert hi' <= closest;
      HitIsNearest(hitOf, boxOf, time0, time1, r, ray, lo, closest, hi');
    }
  }
}
