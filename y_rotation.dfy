/** `YRotation` (src/objects/y_rotation.rs): an object turned by an angle
    about the y axis. `sin_theta` and `cos_theta` come from `f64::sin` /
    `f64::cos` of the angle in radians and enter as inputs. The box is the
    smallest axis-aligned box around the eight turned corners of the
    child's box; the hit turns the ray into the child's frame and turns the
    point and normal back. */
module YRotations {
  import opened Options
  import opened Vectors
  import opened Rays
  import opened Boxes
  import opened Hits
  import RealFacts

  datatype YRotation<T> = YRotation(child: T, sinTheta: real, cosTheta: real, hasBox: bool, bbox: Aabb)

  /** From the child's frame to the world: `(cos x + sin z, y, -sin x + cos z)`. */
  function RotateY(v: Vec3, sinTheta: real, cosTheta: real): Vec3 {
    Vec3(cosTheta * v.x + sinTheta * v.z, v.y, -sinTheta * v.x + cosTheta * v.z)
  }

  /** From the world to the child's frame: `(cos x - sin z, y, sin x + cos z)`. */
  function UnrotateY(v: Vec3, sinTheta: real, cosTheta: real): Vec3 {
    Vec3(cosTheta * v.x - sinTheta * v.z, v.y, sinTheta * v.x + cosTheta * v.z)
  }

  /** For a true angle (`sin^2 + cos^2 = 1`) the two turns undo each other
      and keep lengths. */
  lemma RotationInverse(v: Vec3, sinTheta: real, cosTheta: real)
    requires sinTheta * sinTheta + cosTheta * cosTheta == 1.0
    ensures RotateY(UnrotateY(v, sinTheta, cosTheta), sinTheta, cosTheta) == v
    ensures UnrotateY(RotateY(v, sinTheta, cosTheta), sinTheta, cosTheta) == v
    ensures LengthSquared(RotateY(v, sinTheta, cosTheta)) == LengthSquared(v)
  {
    var s, c := sinTheta, cosTheta;
    assert c * (c * v.x - s * v.z) + s * (s * v.x + c * v.z) == (s * s + c * c) * v.x;
    assert -s * (c * v.x - s * v.z) + c * (s * v.x + c * v.z) == (s * s + c * c) * v.z;
    assert c * (c * v.x + s * v.z) - s * (-s * v.x + c * v.z) == (s * s + c * c) * v.x;
    assert s * (c * v.x + s * v.z) + c * (-s * v.x + c * v.z) == (s * s + c * c) * v.z;
    assert (c * v.x + s * v.z) * (c * v.x + s * v.z) + (-s * v.x + c * v.z) * (-s * v.x + c * v.z) ==
      (s * s + c * c) * (v.x * v.x + v.z * v.z);
  }

  /** Turning one vector forwards is the same, under the dot product, as
      turning the other one back, for any `sin` and `cos`. */
  lemma RotationAdjoint(n: Vec3, d: Vec3, sinTheta: real, cosTheta: real)
    ensures Dot(RotateY(n, sinTheta, cosTheta), d) == Dot(n, UnrotateY(d, sinTheta, cosTheta))
  {
  }

  /** The turn is linear, so points along a ray turn into points along the
      turned ray. */
  lemma RotationLinear(a: Vec3, b: Vec3, t: real, sinTheta: real, cosTheta: real)
    ensures RotateY(Add(a, Scale(b, t)), sinTheta, cosTheta) ==
      Add(RotateY(a, sinTheta, cosTheta), Scale(RotateY(b, sinTheta, cosTheta), t))
  {
    RotationAdditive(a, Scale(b, t), sinTheta, cosTheta);
    RotationHomogeneous(b, t, sinTheta, cosTheta);
  }

  lemma RotationAdditive(u: Vec3, w: Vec3, sinTheta: real, cosTheta: real)
    ensures RotateY(Add(u, w), sinTheta, cosTheta) == Add(RotateY(u, sinTheta, cosTheta), RotateY(w, sinTheta, cosTheta))
  {
  }

  lemma RotationHomogeneous(b: Vec3, t: real, sinTheta: real, cosTheta: real)
    ensures RotateY(Scale(b, t), sinTheta, cosTheta) == Scale(RotateY(b, sinTheta, cosTheta), t)
  {
  }

  // YRotation::new

  /** `i as f64 * hi + (1 - i) as f64 * lo` for a loop index `i` in `0..2`. */
  function Pick(bit: int, lo: real, hi: real): real {
    bit as real * hi + (1 - bit) as real * lo
  }

  /** For an index of `0..2` the blend is one of the two ends. */
  lemma PickEnds(bit: int, lo: real, hi: real)
    requires 0 <= bit < 2
    ensures Pick(bit, lo, hi) == if bit == 1 then hi else lo
  {
  }

  /** The corner of `box` with loop indices `i`, `j`, `k`: index 1 selects
      the box's maximum on that axis, index 0 its minimum. */
  function CornerOf(box: Aabb, i: int, j: int, k: int): Vec3 {
    Vec3(if i == 1 then box.max.x else box.min.x, if j == 1 then box.max.y else box.min.y,
         if k == 1 then box.max.z else box.min.z)
  }

  /** The corners in the order the three nested loops visit them: step
      `4 i + 2 j + k` visits `CornerOf(box, i, j, k)`. */
  function Corners(box: Aabb): (cs: seq<Vec3>)
    ensures |cs| == 8
  {
    [CornerOf(box, 0, 0, 0), CornerOf(box, 0, 0, 1), CornerOf(box, 0, 1, 0), CornerOf(box, 0, 1, 1),
     CornerOf(box, 1, 0, 0), CornerOf(box, 1, 0, 1), CornerOf(box, 1, 1, 0), CornerOf(box, 1, 1, 1)]
  }

  lemma CornerAt(box: Aabb, i: int, j: int, k: int)
    requires 0 <= i < 2 && 0 <= j < 2 && 0 <= k < 2
    ensures Corners(box)[4 * i + 2 * j + k] == CornerOf(box, i, j, k)
  {
    if i == 0 {
      if j == 0 {
        if k == 0 {} else {}
      } else {
        if k == 0 {} else {}
      }
    } else {
      if j == 0 {
        if k == 0 {} else {}
      } else {
        if k == 0 {} else {}
      }
    }
  }

  /** `tester`: the turned corner of step `n`. */
  function Tester(box: Aabb, sinTheta: real, cosTheta: real, n: nat): Vec3
    requires n < 8
  {
    RotateY(Corners(box)[n], sinTheta, cosTheta)
  }

  /** The eight turned corners in visiting order. */
  function Testers(box: Aabb, sinTheta: real, cosTheta: real): (ts: seq<Vec3>)
    ensures |ts| == 8
  {
    seq(8, n requires 0 <= n < 8 => Tester(box, sinTheta, cosTheta, n))
  }

  /** `min` after the first `n` testers: starts at `f64::MAX` on every axis
      and takes the smaller value on each axis. */
  function FoldMin(ts: seq<Vec3>, n: nat): Vec3
    requires n <= |ts|
  {
    if n == 0 then Vec3(F64Max, F64Max, F64Max)
    else
      var m := FoldMin(ts, n - 1);
      Vec3(Min(m.x, ts[n - 1].x), Min(m.y, ts[n - 1].y), Min(m.z, ts[n - 1].z))
  }

  /** `max` after the first `n` testers: starts at `f64::MIN`. */
  function FoldMax(ts: seq<Vec3>, n: nat): Vec3
    requires n <= |ts|
  {
    if n == 0 then Vec3(F64Min, F64Min, F64Min)
    else
      var m := FoldMax(ts, n - 1);
      Vec3(Max(m.x, ts[n - 1].x), Max(m.y, ts[n - 1].y), Max(m.z, ts[n - 1].z))
  }

  function Lower(box: Aabb, sinTheta: real, cosTheta: real): Vec3 {
    FoldMin(Testers(box, sinTheta, cosTheta), 8)
  }

  function Upper(box: Aabb, sinTheta: real, cosTheta: real): Vec3 {
    FoldMax(Testers(box, sinTheta, cosTheta), 8)
  }

  /** The box `new` computes from the child's box (or from the zero box the
      source starts with when the child reports none). */
  function TurnedBox(childBox: Option<Aabb>, sinTheta: real, cosTheta: real): Aabb {
    var box := if childBox.Some? then childBox.value else Aabb(Zero, Zero);
    Aabb(Lower(box, sinTheta, cosTheta), Upper(box, sinTheta, cosTheta))
  }

  /** Two vectors that agree on every index are equal. */
  lemma ByAxes(u: Vec3, v: Vec3)
    requires forall a: nat :: a < 3 ==> Get(u, a) == Get(v, a)
    ensures u == v
  {
    assert Get(u, 0) == Get(v, 0) && Get(u, 1) == Get(v, 1) && Get(u, 2) == Get(v, 2);
  }

  /** The body of the innermost corner loop: the corner `(i, j, k)` blended
      from the box's ends and turned about y. */
  method TurnCorner(bbox: Aabb, sinTheta: real, cosTheta: real, i: int, j: int, k: int) returns (tester: Vec3)
    requires 0 <= i < 2 && 0 <= j < 2 && 0 <= k < 2
    ensures tester == RotateY(CornerOf(bbox, i, j, k), sinTheta, cosTheta)
  {
    var x := i as real * bbox.max.x + (1 - i) as real * bbox.min.x;
    var y := j as real * bbox.max.y + (1 - j) as real * bbox.min.y;
    var z := k as real * bbox.max.z + (1 - k) as real * bbox.min.z;
    PickEnds(i, bbox.min.x, bbox.max.x);
    PickEnds(j, bbox.min.y, bbox.max.y);
    PickEnds(k, bbox.min.z, bbox.max.z);
    assert Vec3(x, y, z) == CornerOf(bbox, i, j, k);
    var newx := cosTheta * x + sinTheta * z;
    var newz := -sinTheta * x + cosTheta * z;
    tester := Vec3(newx, y, newz);
  }

  /** The axis loop `for c in 0..3`: `min` and `max` take the smaller and
      the larger value of each axis, one axis per step. */
  method Widen(min: Vec3, max: Vec3, tester: Vec3) returns (min': Vec3, max': Vec3)
    ensures min' == Vec3(Min(min.x, tester.x), Min(min.y, tester.y), Min(min.z, tester.z))
    ensures max' == Vec3(Max(max.x, tester.x), Max(max.y, tester.y), Max(max.z, tester.z))
  {
    ghost var lower := Vec3(Min(min.x, tester.x), Min(min.y, tester.y), Min(min.z, tester.z));
    ghost var upper := Vec3(Max(max.x, tester.x), Max(max.y, tester.y), Max(max.z, tester.z));
    min', max' := min, max;
    for c := 0 to 3
      invariant forall a: nat :: a < c ==> Get(min', a) == Get(lower, a) && Get(max', a) == Get(upper, a)
      invariant forall a: nat :: c <= a < 3 ==> Get(min', a) == Get(min, a) && Get(max', a) == Get(max, a)
    {
      min' := With(min', c, Min(Get(min', c), Get(tester, c)));
      max' := With(max', c, Max(Get(max', c), Get(tester, c)));
    }
    ByAxes(min', lower);
    ByAxes(max', upper);
  }

  /** `YRotation::new`: asks the child for its box over `[0, 1]`, then
      walks the eight corners in three nested loops (the outer one here,
      the inner two in `VisitFace` and `VisitEdge`) and widens `min` and
      `max` one axis at a time in a fourth (`Widen`). */
  method New<T>(boxOf: BoxFn<T>, child: T, sinTheta: real, cosTheta: real) returns (rot: YRotation<T>)
    ensures rot == YRotation(child, sinTheta, cosTheta, boxOf(child, 0.0, 1.0).Some?,
                             TurnedBox(boxOf(child, 0.0, 1.0), sinTheta, cosTheta))
  {
    var childBox := boxOf(child, 0.0, 1.0);
    var bbox := Aabb(Zero, Zero);
    if childBox.Some? {
      bbox := childBox.value;
    }
    var hasBox := childBox.Some?;
    var min := Vec3(F64Max, F64Max, F64Max);
    var max := Vec3(F64Min, F64Min, F64Min);
    for i := 0 to 2
      invariant min == FoldMin(Testers(bbox, sinTheta, cosTheta), 4 * i)
      invariant max == FoldMax(Testers(bbox, sinTheta, cosTheta), 4 * i)
    {
      min, max := VisitFace(bbox, sinTheta, cosTheta, i, min, max);
    }
    bbox := Aabb(min, max);
    rot := YRotation(child, sinTheta, cosTheta, hasBox, bbox);
  }

  /** The middle loop of `new`: the four corners with first index `i`. */
  method VisitFace(bbox: Aabb, sinTheta: real, cosTheta: real, i: int, min: Vec3, max: Vec3)
    returns (min': Vec3, max': Vec3)
    requires 0 <= i < 2
    requires min == FoldMin(Testers(bbox, sinTheta, cosTheta), 4 * i)
    requires max == FoldMax(Testers(bbox, sinTheta, cosTheta), 4 * i)
    ensures min' == FoldMin(Testers(bbox, sinTheta, cosTheta), 4 * i + 4)
    ensures max' == FoldMax(Testers(bbox, sinTheta, cosTheta), 4 * i + 4)
  {
    min', max' := min, max;
    for j := 0 to 2
      invariant min' == FoldMin(Testers(bbox, sinTheta, cosTheta), 4 * i + 2 * j)
      invariant max' == FoldMax(Testers(bbox, sinTheta, cosTheta), 4 * i + 2 * j)
    {
      min', max' := VisitEdge(bbox, sinTheta, cosTheta, i, j, min', max');
    }
  }

  /** The innermost loop of `new`: the two corners with indices `i`, `j`. */
  method VisitEdge(bbox: Aabb, sinTheta: real, cosTheta: real, i: int, j: int, min: Vec3, max: Vec3)
    returns (min': Vec3, max': Vec3)
    requires 0 <= i < 2 && 0 <= j < 2
    requires min == FoldMin(Testers(bbox, sinTheta, cosTheta), 4 * i + 2 * j)
    requires max == FoldMax(Testers(bbox, sinTheta, cosTheta), 4 * i + 2 * j)
    ensures min' == FoldMin(Testers(bbox, sinTheta, cosTheta), 4 * i + 2 * j + 2)
    ensures max' == FoldMax(Testers(bbox, sinTheta, cosTheta), 4 * i + 2 * j + 2)
  {
    min', max' := min, max;
    for k := 0 to 2
      invariant min' == FoldMin(Testers(bbox, sinTheta, cosTheta), 4 * i + 2 * j + k)
      invariant max' == FoldMax(Testers(bbox, sinTheta, cosTheta), 4 * i + 2 * j + k)
    {
      min', max' := VisitCorner(bbox, sinTheta, cosTheta, i, j, k, min', max');
    }
  }

  /** One pass of the innermost loop of `new`: the corner `(i, j, k)` is
      turned and `min` and `max` are widened to it, which takes both folds
      one step further. */
  method VisitCorner(bbox: Aabb, sinTheta: real, cosTheta: real, i: int, j: int, k: int, min: Vec3, max: Vec3)
    returns (min': Vec3, max': Vec3)
    requires 0 <= i < 2 && 0 <= j < 2 && 0 <= k < 2
    requires min == FoldMin(Testers(bbox, sinTheta, cosTheta), 4 * i + 2 * j + k)
    requires max == FoldMax(Testers(bbox, sinTheta, cosTheta), 4 * i + 2 * j + k)
    ensures min' == FoldMin(Testers(bbox, sinTheta, cosTheta), 4 * i + 2 * j + k + 1)
    ensures max' == FoldMax(Testers(bbox, sinTheta, cosTheta), 4 * i + 2 * j + k + 1)
  {
    var tester := TurnCorner(bbox, sinTheta, cosTheta, i, j, k);
    CornerAt(bbox, i, j, k);
    assert tester == Testers(bbox, sinTheta, cosTheta)[4 * i + 2 * j + k];
    min', max' := Widen(min, max, tester);
  }

  /** Every tester lies between `min` and `max` after `n` steps once it
      has been visited. */
  lemma {:induction false} FoldBounds(ts: seq<Vec3>, n: nat, m: nat)
    requires m < n <= |ts|
    ensures var lo, hi, t := FoldMin(ts, n), FoldMax(ts, n), ts[m];
      lo.x <= t.x <= hi.x && lo.y <= t.y <= hi.y && lo.z <= t.z <= hi.z
  {
    if m < n - 1 {
      FoldBounds(ts, n - 1, m);
    }
  }

  /** The turned corner `(i, j, k)` lies within the turned box. */
  lemma CornerWithin(box: Aabb, sinTheta: real, cosTheta: real, i: int, j: int, k: int)
    requires 0 <= i < 2 && 0 <= j < 2 && 0 <= k < 2
    ensures var lo, hi, t := Lower(box, sinTheta, cosTheta), Upper(box, sinTheta, cosTheta),
        RotateY(CornerOf(box, i, j, k), sinTheta, cosTheta);
      lo.x <= t.x <= hi.x && lo.y <= t.y <= hi.y && lo.z <= t.z <= hi.z
  {
    CornerAt(box, i, j, k);
    FoldBounds(Testers(box, sinTheta, cosTheta), 8, 4 * i + 2 * j + k);
  }

  /** `a x + b z` over a rectangle is bounded by its values at the corners:
      the smallest picks the smaller end on each axis, the largest the
      larger. */
  lemma LinearOnRectangle(a: real, b: real, x0: real, x1: real, z0: real, z1: real, x: real, z: real)
    requires x0 <= x <= x1 && z0 <= z <= z1
    ensures Min(a * x0, a * x1) + Min(b * z0, b * z1) <= a * x + b * z
    ensures a * x + b * z <= Max(a * x0, a * x1) + Max(b * z0, b * z1)
  {
    ScaleBetween(a, x0, x1, x);
    ScaleBetween(b, z0, z1, z);
  }

  lemma ScaleBetween(a: real, x0: real, x1: real, x: real)
    requires x0 <= x <= x1
    ensures Min(a * x0, a * x1) <= a * x <= Max(a * x0, a * x1)
  {
    if 0.0 <= a {
      RealFacts.MulNonNeg(a, x - x0);
      RealFacts.MulNonNeg(a, x1 - x);
    } else {
      RealFacts.MulNonNeg(-a, x - x0);
      RealFacts.MulNonNeg(-a, x1 - x);
    }
  }

  /** The turned box of `new` holds the turned image of every point of the
      child's box: the box is sound for the rotated object. */
  lemma TurnedBoxHolds(box: Aabb, sinTheta: real, cosTheta: real, q: Vec3)
    requires ContainsPoint(box, q)
    ensures ContainsPoint(Aabb(Lower(box, sinTheta, cosTheta), Upper(box, sinTheta, cosTheta)),
                          RotateY(q, sinTheta, cosTheta))
  {
    TurnedAxisX(box, sinTheta, cosTheta, q);
    TurnedAxisY(box, sinTheta, cosTheta, q);
    TurnedAxisZ(box, sinTheta, cosTheta, -sinTheta, q);
    RotatedParts(q, sinTheta, cosTheta, -sinTheta);
  }

  /** The turned point, with `-sin` named `ns`. */
  lemma RotatedParts(q: Vec3, s: real, c: real, ns: real)
    requires ns == -s
    ensures RotateY(q, s, c) == Vec3(c * q.x + s * q.z, q.y, ns * q.x + c * q.z)
  {
  }

  /** The turned `x`, `cos x + sin z`, lies between the box's ends. */
  lemma TurnedAxisX(box: Aabb, s: real, c: real, q: Vec3)
    requires box.min.x <= q.x <= box.max.x && box.min.z <= q.z <= box.max.z
    ensures Lower(box, s, c).x <= c * q.x + s * q.z <= Upper(box, s, c).x
  {
    LinearOnRectangle(c, s, box.min.x, box.max.x, box.min.z, box.max.z, q.x, q.z);
    LowestX(box, s, c);
    HighestX(box, s, c);
  }

  /** `y` is not turned: the corners at `j = 0` and `j = 1` sit at the two
      ends of the child's `y` range. */
  lemma TurnedAxisY(box: Aabb, s: real, c: real, q: Vec3)
    requires ContainsPoint(box, q)
    ensures Lower(box, s, c).y <= RotateY(q, s, c).y <= Upper(box, s, c).y
  {
    CornerWithin(box, s, c, 0, 0, 0);
    CornerWithin(box, s, c, 0, 1, 0);
  }

  /** The turned `z`, `-sin x + cos z`, lies between the box's ends. */
  lemma TurnedAxisZ(box: Aabb, s: real, c: real, ns: real, q: Vec3)
    requires ns == -s
    requires box.min.x <= q.x <= box.max.x && box.min.z <= q.z <= box.max.z
    ensures Lower(box, s, c).z <= ns * q.x + c * q.z <= Upper(box, s, c).z
  {
    LinearOnRectangle(ns, c, box.min.x, box.max.x, box.min.z, box.max.z, q.x, q.z);
    LowestZ(box, s, c, ns);
    HighestZ(box, s, c, ns);
  }

  /** The smallest turned `x = cos x + sin z` over the corners is reached
      at the corner that takes the smaller product on each axis, so `min`
      is at most that sum. */
  lemma LowestX(box: Aabb, s: real, c: real)
    ensures Lower(box, s, c).x <= Min(c * box.min.x, c * box.max.x) + Min(s * box.min.z, s * box.max.z)
  {
    var i, k := PickMin(c * box.min.x, c * box.max.x, s * box.min.z, s * box.max.z);
    LowerXAtMost(box, s, c, i, k);
  }

  /** The same for the largest turned `x` and `max`. */
  lemma HighestX(box: Aabb, s: real, c: real)
    ensures Max(c * box.min.x, c * box.max.x) + Max(s * box.min.z, s * box.max.z) <= Upper(box, s, c).x
  {
    var i, k := PickMax(c * box.min.x, c * box.max.x, s * box.min.z, s * box.max.z);
    UpperXAtLeast(box, s, c, i, k);
  }

  /** The same for the smallest turned `z = -sin x + cos z`. */
  lemma LowestZ(box: Aabb, s: real, c: real, ns: real)
    requires ns == -s
    ensures Lower(box, s, c).z <= Min(ns * box.min.x, ns * box.max.x) + Min(c * box.min.z, c * box.max.z)
  {
    var i, k := PickMin(ns * box.min.x, ns * box.max.x, c * box.min.z, c * box.max.z);
    LowerZAtMost(box, s, c, ns, i, k);
  }

  /** The same for the largest turned `z`. */
  lemma HighestZ(box: Aabb, s: real, c: real, ns: real)
    requires ns == -s
    ensures Max(ns * box.min.x, ns * box.max.x) + Max(c * box.min.z, c * box.max.z) <= Upper(box, s, c).z
  {
    var i, k := PickMax(ns * box.min.x, ns * box.max.x, c * box.min.z, c * box.max.z);
    UpperZAtLeast(box, s, c, ns, i, k);
  }

  /** The lower end of the turned box lies at or below the turned `x` of
      corner `(i, 0, k)`. */
  lemma LowerXAtMost(box: Aabb, s: real, c: real, i: int, k: int)
    requires 0 <= i < 2 && 0 <= k < 2
    ensures Lower(box, s, c).x <= (if i == 1 then c * box.max.x else c * box.min.x) + (if k == 1 then s * box.max.z else s * box.min.z)
  {
    CornerWithin(box, s, c, i, 0, k);
    TurnedCornerX(box, s, c, i, k);
  }

  /** The upper end lies at or above it. */
  lemma UpperXAtLeast(box: Aabb, s: real, c: real, i: int, k: int)
    requires 0 <= i < 2 && 0 <= k < 2
    ensures (if i == 1 then c * box.max.x else c * box.min.x) + (if k == 1 then s * box.max.z else s * box.min.z) <= Upper(box, s, c).x
  {
    CornerWithin(box, s, c, i, 0, k);
    TurnedCornerX(box, s, c, i, k);
  }

  /** The same on the `z` axis, below ... */
  lemma LowerZAtMost(box: Aabb, s: real, c: real, ns: real, i: int, k: int)
    requires ns == -s && 0 <= i < 2 && 0 <= k < 2
    ensures Lower(box, s, c).z <= (if i == 1 then ns * box.max.x else ns * box.min.x) + (if k == 1 then c * box.max.z else c * box.min.z)
  {
    CornerWithin(box, s, c, i, 0, k);
    TurnedCornerZ(box, s, c, ns, i, k);
  }

  /** ... and above. */
  lemma UpperZAtLeast(box: Aabb, s: real, c: real, ns: real, i: int, k: int)
    requires ns == -s && 0 <= i < 2 && 0 <= k < 2
    ensures (if i == 1 then ns * box.max.x else ns * box.min.x) + (if k == 1 then c * box.max.z else c * box.min.z) <= Upper(box, s, c).z
  {
    CornerWithin(box, s, c, i, 0, k);
    TurnedCornerZ(box, s, c, ns, i, k);
  }

  /** Picking the smaller end on each axis gives the sum of the minima. */
  lemma PickMin(a0: real, a1: real, b0: real, b1: real) returns (i: int, k: int)
    ensures 0 <= i < 2 && 0 <= k < 2
    ensures (if i == 1 then a1 else a0) + (if k == 1 then b1 else b0) == Min(a0, a1) + Min(b0, b1)
  {
    i := if a1 < a0 then 1 else 0;
    k := if b1 < b0 then 1 else 0;
  }

  /** Picking the larger end on each axis gives the sum of the maxima. */
  lemma PickMax(a0: real, a1: real, b0: real, b1: real) returns (i: int, k: int)
    ensures 0 <= i < 2 && 0 <= k < 2
    ensures (if i == 1 then a1 else a0) + (if k == 1 then b1 else b0) == Max(a0, a1) + Max(b0, b1)
  {
    i := if a1 > a0 then 1 else 0;
    k := if b1 > b0 then 1 else 0;
  }

  /** The turned `x` of corner `(i, 0, k)`, with the products kept apart. */
  lemma TurnedCornerX(box: Aabb, s: real, c: real, i: int, k: int)
    requires 0 <= i < 2 && 0 <= k < 2
    ensures RotateY(CornerOf(box, i, 0, k), s, c).x ==
      (if i == 1 then c * box.max.x else c * box.min.x) + (if k == 1 then s * box.max.z else s * box.min.z)
  {
    var q := CornerOf(box, i, 0, k);
    if i == 1 { assert q.x == box.max.x; } else { assert q.x == box.min.x; }
    if k == 1 { assert q.z == box.max.z; } else { assert q.z == box.min.z; }
  }

  /** The turned `z` of corner `(i, 0, k)`, with the products kept apart. */
  lemma TurnedCornerZ(box: Aabb, s: real, c: real, ns: real, i: int, k: int)
    requires ns == -s && 0 <= i < 2 && 0 <= k < 2
    ensures RotateY(CornerOf(box, i, 0, k), s, c).z ==
      (if i == 1 then ns * box.max.x else ns * box.min.x) + (if k == 1 then c * box.max.z else c * box.min.z)
  {
    var q := CornerOf(box, i, 0, k);
    if i == 1 { assert q.x == box.max.x; } else { assert q.x == box.min.x; }
    if k == 1 { assert q.z == box.max.z; } else { assert q.z == box.min.z; }
  }

  /** `bounding_box`: the box computed by `new`, reported when the child had
      one, for any time interval. */
  function BoundingBox<T>(rot: YRotation<T>): Option<Aabb> {
    if rot.hasBox then Some(rot.bbox) else None
  }

  // YRotation::hit

  /** The ray turned into the child's frame, at the same time. */
  function RotatedRay(ray: Ray, sinTheta: real, cosTheta: real): Ray {
    Ray(UnrotateY(ray.origin, sinTheta, cosTheta), UnrotateY(ray.direction, sinTheta, cosTheta), ray.time)
  }

  /** The child's record turned back into the world as the source writes
      it: the turned normal is passed to `set_face_normal` together with the
      ray in the child's frame. */
  function PlaceAsWritten(rec: HitRecord, rotated: Ray, sinTheta: real, cosTheta: real): HitRecord {
    WithFaceNormal(rec.(p := RotateY(rec.p, sinTheta, cosTheta)), rotated, RotateY(rec.normal, sinTheta, cosTheta))
  }

  /** `YRotation::hit` as written. */
  function HitAsWritten<T>(hitOf: HitFn<T>, rot: YRotation<T>, ray: Ray, tMin: real, tMax: real): Option<HitRecord> {
    var rotated := RotatedRay(ray, rot.sinTheta, rot.cosTheta);
    match hitOf(rot.child, rotated, tMin, tMax)
    case None => None
    case Some(rec) => Some(PlaceAsWritten(rec, rotated, rot.sinTheta, rot.cosTheta))
  }

  /** Comparing a world-frame normal with a child-frame direction can turn
      the normal the wrong way. Turned by 90 degrees, a world ray along `+x`
      (at any speed `s > 0`) is a child ray along `+z`; a child normal
      `(0, 0, -m)` with `m > 0` faces that ray and turns into `(-m, 0, 0)`,
      which faces the world ray, but it is orthogonal to the child-frame
      direction, so `set_face_normal` flips it to `(m, 0, 0)`, along the world
      ray, and marks the face as a back face. */
  lemma AsWrittenMisorients<T>(hitOf: HitFn<T>, child: T, box: Aabb, origin: Vec3, s: real, m: real,
                               time: real, tMin: real, tMax: real)
    requires s > 0.0 && m > 0.0
    requires var rotated := RotatedRay(Ray(origin, Vec3(s, 0.0, 0.0), time), 1.0, 0.0);
      hitOf(child, rotated, tMin, tMax).Some? && hitOf(child, rotated, tMin, tMax).value.normal == Vec3(0.0, 0.0, -m)
    ensures var ray := Ray(origin, Vec3(s, 0.0, 0.0), time);
      var r := HitAsWritten(hitOf, YRotation(child, 1.0, 0.0, true, box), ray, tMin, tMax);
      r.Some? && r.value.normal == Vec3(m, 0.0, 0.0) && !r.value.frontFace &&
      Dot(r.value.normal, ray.direction) > 0.0
  {
    var ray := Ray(origin, Vec3(s, 0.0, 0.0), time);
    var rotated := RotatedRay(ray, 1.0, 0.0);
    assert rotated.direction == Vec3(0.0, 0.0, s);
    var rec := hitOf(child, rotated, tMin, tMax).value;
    AsWrittenReorients(hitOf, YRotation(child, 1.0, 0.0, true, box), ray, tMin, tMax);
    QuarterTurnFlips(rec, rotated, s, m);
    RealFacts.MulPos(m, s, m * s);
  }

  /** The record-level step of the counterexample: the turned normal
      `(-m, 0, 0)` is orthogonal to the child-frame direction `(0, 0, s)`,
      so it is flipped. */
  lemma QuarterTurnFlips(rec: HitRecord, rotated: Ray, s: real, m: real)
    requires rotated.direction == Vec3(0.0, 0.0, s) && rec.normal == Vec3(0.0, 0.0, -m)
    ensures PlaceAsWritten(rec, rotated, 1.0, 0.0).normal == Vec3(m, 0.0, 0.0)
    ensures !PlaceAsWritten(rec, rotated, 1.0, 0.0).frontFace
  {
    assert RotateY(rec.normal, 1.0, 0.0) == Vec3(-m, 0.0, 0.0);
    FlippedAgainst(rec.(p := RotateY(rec.p, 1.0, 0.0)), rotated, s, m);
  }

  /** `(-m, 0, 0)` is orthogonal to `(0, 0, s)`, so `set_face_normal` flips
      it and marks the face as a back face. */
  lemma FlippedAgainst(rec: HitRecord, rotated: Ray, s: real, m: real)
    requires rotated.direction == Vec3(0.0, 0.0, s)
    ensures WithFaceNormal(rec, rotated, Vec3(-m, 0.0, 0.0)).normal == Vec3(m, 0.0, 0.0)
    ensures !WithFaceNormal(rec, rotated, Vec3(-m, 0.0, 0.0)).frontFace
  {
    assert Dot(rotated.direction, Vec3(-m, 0.0, 0.0)) == 0.0;
  }

  /** The child's record turned back into the world: the point and the
      normal are turned, and the child's orientation is kept. */
  function Place(rec: HitRecord, sinTheta: real, cosTheta: real): HitRecord {
    rec.(p := RotateY(rec.p, sinTheta, cosTheta), normal := RotateY(rec.normal, sinTheta, cosTheta))
  }

  /** `YRotation::hit` with the orientation kept from the child. */
  function Hit<T>(hitOf: HitFn<T>, rot: YRotation<T>, ray: Ray, tMin: real, tMax: real): Option<HitRecord> {
    match hitOf(rot.child, RotatedRay(ray, rot.sinTheta, rot.cosTheta), tMin, tMax)
    case None => None
    case Some(rec) => Some(Place(rec, rot.sinTheta, rot.cosTheta))
  }
  /** The two versions hit at the same time with the same record except for
      the orientation: the source's record is the corrected one oriented
      once more, against the ray in the child's frame. */
  lemma AsWrittenReorients<T>(hitOf: HitFn<T>, rot: YRotation<T>, ray: Ray, tMin: real, tMax: real)
    ensures HitAsWritten(hitOf, rot, ray, tMin, tMax).Some? <==> Hit(hitOf, rot, ray, tMin, tMax).Some?
    ensures Hit(hitOf, rot, ray, tMin, tMax).Some? ==>
      var rotated := RotatedRay(ray, rot.sinTheta, rot.cosTheta);
      var rec := hitOf(rot.child, rotated, tMin, tMax).value;
      var fixed := Hit(hitOf, rot, ray, tMin, tMax).value;
      fixed == Place(rec, rot.sinTheta, rot.cosTheta) &&
      HitAsWritten(hitOf, rot, ray, tMin, tMax).value == PlaceAsWritten(rec, rotated, rot.sinTheta, rot.cosTheta) &&
      PlaceAsWritten(rec, rotated, rot.sinTheta, rot.cosTheta) == WithFaceNormal(fixed, rotated, fixed.normal)
  {
  }


  /** The turned object is hit exactly when the child is hit by the turned
      ray, at the same parameter, face, texture coordinates and material.
      The world normal meets the world ray as the child's normal met the
      child's ray, so a normal that faced the ray still does; for a true
      angle, a point on the turned ray comes back as the point on the world
      ray at the same parameter, and a unit normal stays a unit normal. */
  lemma HitOriented<T>(hitOf: HitFn<T>, rot: YRotation<T>, ray: Ray, tMin: real, tMax: real)
    ensures Hit(hitOf, rot, ray, tMin, tMax).Some? <==>
      hitOf(rot.child, RotatedRay(ray, rot.sinTheta, rot.cosTheta), tMin, tMax).Some?
    ensures Hit(hitOf, rot, ray, tMin, tMax).Some? ==>
      var rotated := RotatedRay(ray, rot.sinTheta, rot.cosTheta);
      var child := hitOf(rot.child, rotated, tMin, tMax).value;
      var r := Hit(hitOf, rot, ray, tMin, tMax).value;
      r.(p := child.p, normal := child.normal) == child &&
      Dot(r.normal, ray.direction) == Dot(child.normal, rotated.direction) &&
      (rot.sinTheta * rot.sinTheta + rot.cosTheta * rot.cosTheta == 1.0 ==>
        LengthSquared(r.normal) == LengthSquared(child.normal) &&
        (child.p == At(rotated, child.t) ==> r.p == At(ray, r.t)))
  {
    var s, c := rot.sinTheta, rot.cosTheta;
    var rotated := RotatedRay(ray, s, c);
    var child := hitOf(rot.child, rotated, tMin, tMax);
    if child.Some? {
      var rec := child.value;
      RotationAdjoint(rec.normal, ray.direction, s, c);
      if s * s + c * c == 1.0 {
        RotationInverse(rec.normal, s, c);
        RotationLinear(rotated.origin, rotated.direction, rec.t, s, c);
        RotationInverse(ray.origin, s, c);
        RotationInverse(ray.direction, s, c);
      }
    }
  }

  /** A turned object keeps the contract of every object's hit. */
  lemma HitIsNearest<T(!new)>(hitOf: HitFn<T>)
    requires Nearest(hitOf)
    ensures Nearest((rot: YRotation<T>, ray: Ray, lo: real, hi: real) => Hit(hitOf, rot, ray, lo, hi))
  {
    forall rot: YRotation<T>, ray: Ray, lo: real, hi: real, hi': real | hi' <= hi
      ensures InWindow(Hit(hitOf, rot, ray, lo, hi), lo, hi)
      ensures Hit(hitOf, rot, ray, lo, hi') ==
        (if Hit(hitOf, rot, ray, lo, hi).Some? && Hit(hitOf, rot, ray, lo, hi).value.t <= hi'
         then Hit(hitOf, rot, ray, lo, hi) else None)
    {
      Narrow(hitOf, rot.child, RotatedRay(ray, rot.sinTheta, rot.cosTheta), lo, hi, hi');
    }
    forall rot: YRotation<T>, ray: Ray, lo: real, hi: real
      ensures InWindow(Hit(hitOf, rot, ray, lo, hi), lo, hi)
    {
      Narrow(hitOf, rot.child, RotatedRay(ray, rot.sinTheta, rot.cosTheta), lo, hi, hi);
    }
  }
}
