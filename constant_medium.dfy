/** `ConstantMedium` (src/objects/constant_medium.rs): a volume of fog of
    constant density inside a boundary object. A ray that crosses the
    boundary scatters at a random free-path distance past its entry point,
    or passes through when that distance is longer than the stretch inside.
    The random draw enters through `lnSample`, the natural logarithm of the
    draw, and the direction's length through `rayLength`. */
module ConstantMedia {
  import opened Options
  import opened Vectors
  import opened Rays
  import opened Boxes
  import opened Materials
  import opened Hits
  import RealFacts

  datatype ConstantMedium<T> = ConstantMedium(boundary: T, phase: Material, negInvDensity: real)

  /** How far past the entry the search for the exit starts. */
  const ExitGap: real := 0.0001

  /** `ConstantMedium::new`: the coefficient `-1 / density` of the free-path
      distance. */
  function New<T>(boundary: T, density: real, phase: Material): (m: ConstantMedium<T>)
    requires density != 0.0
    ensures m.boundary == boundary && m.phase == phase
    ensures m.negInvDensity * density == -1.0
  {
    ConstantMedium(boundary, phase, -1.0 / density)
  }

  /** `hit_distance = neg_inv_density * ln(draw)`. */
  function HitDistance<T>(m: ConstantMedium<T>, lnSample: real): real {
    m.negInvDensity * lnSample
  }

  /** A positive density and a draw in `(0, 1]`, whose logarithm is not
      positive, give a free path that is not negative. */
  lemma HitDistanceNonNeg<T>(boundary: T, density: real, phase: Material, lnSample: real)
    requires 0.0 < density && lnSample <= 0.0
    ensures 0.0 <= HitDistance(New(boundary, density, phase), lnSample)
  {
    var m := New(boundary, density, phase);
    if m.negInvDensity > 0.0 {
      RealFacts.MulPos(m.negInvDensity, density, m.negInvDensity * density);
    }
    RealFacts.MulNonNeg(-m.negInvDensity, -lnSample);
  }

  /** Where the ray crosses the boundary: the entry is the boundary's hit
      over the whole line, and the exit its next hit from `entry + 0.0001`. */
  function Crossing<T>(hitOf: HitFn<T>, m: ConstantMedium<T>, ray: Ray): Option<(real, real)> {
    match hitOf(m.boundary, ray, F64Min, F64Max)
    case None => None
    case Some(rec1) =>
      match hitOf(m.boundary, ray, rec1.t + ExitGap, F64Max)
      case None => None
      case Some(rec2) => Some((rec1.t, rec2.t))
  }

  /** The stretch of the crossing inside the window: the entry raised to
      `tMin`, the exit lowered to `tMax`, none when that leaves nothing,
      and then the entry raised to 0. */
  function Clamped(enter: real, exit: real, tMin: real, tMax: real): Option<(real, real)> {
    var lo := if enter < tMin then tMin else enter;
    var hi := if exit > tMax then tMax else exit;
    if lo >= hi then None
    else Some((if lo < 0.0 then 0.0 else lo, hi))
  }

  /** The record of a scattering event at `t`: the point on the ray, the
      fixed normal `(1, 0, 0)` facing front, the phase function, and every
      other field at its default. */
  function EventAt<T>(m: ConstantMedium<T>, ray: Ray, t: real): HitRecord {
    DefaultRecord.(p := At(ray, t), t := t, normal := Vec3(1.0, 0.0, 0.0), frontFace := true,
                   material := Some(m.phase))
  }

  /** `ConstantMedium::hit` as a value. A zero-length direction makes the
      source divide by zero; it is a miss here. */
  function Hit<T>(hitOf: HitFn<T>, m: ConstantMedium<T>, ray: Ray, tMin: real, tMax: real,
                  rayLength: real, lnSample: real): Option<HitRecord> {
    match Crossing(hitOf, m, ray)
    case None => None
    case Some(crossing) =>
      match Clamped(crossing.0, crossing.1, tMin, tMax)
      case None => None
      case Some(inside) => Scatter(m, ray, inside.0, inside.1, rayLength, lnSample)
  }

  /** The end of `hit` once the stretch `[lo, hi]` inside the window is
      known: a scattering event `hitDistance / rayLength` past `lo`, unless
      the free path is longer than the stretch. */
  function Scatter<T>(m: ConstantMedium<T>, ray: Ray, lo: real, hi: real, rayLength: real, lnSample: real): Option<HitRecord> {
    var hitDistance := HitDistance(m, lnSample);
    if hitDistance > (hi - lo) * rayLength || rayLength == 0.0 then None
    else Some(EventAt(m, ray, lo + hitDistance / rayLength))
  }

  /** `ConstantMedium::hit`: the two boundary records' parameters are
      clamped in place, one `if` at a time. */
  method HitInPlace<T>(hitOf: HitFn<T>, m: ConstantMedium<T>, ray: Ray, tMin: real, tMax: real,
                       rayLength: real, lnSample: real) returns (r: Option<HitRecord>)
    ensures r == Hit(hitOf, m, ray, tMin, tMax, rayLength, lnSample)
  {
    var first := hitOf(m.boundary, ray, F64Min, F64Max);
    if first.None? {
      return None;
    }
    var rec1 := first.value;
    var second := hitOf(m.boundary, ray, rec1.t + ExitGap, F64Max);
    if second.None? {
      return None;
    }
    var rec2 := second.value;
    ghost var enter, exit := rec1.t, rec2.t;
    assert Crossing(hitOf, m, ray) == Some((enter, exit));
    if rec1.t < tMin {
      rec1 := rec1.(t := tMin);
    }
    if rec2.t > tMax {
      rec2 := rec2.(t := tMax);
    }
    if rec1.t >= rec2.t {
      assert Clamped(enter, exit, tMin, tMax) == None;
      HitOutside(hitOf, m, ray, tMin, tMax, rayLength, lnSample, enter, exit);
      return None;
    }
    if rec1.t < 0.0 {
      rec1 := rec1.(t := 0.0);
    }
    assert Clamped(enter, exit, tMin, tMax) == Some((rec1.t, rec2.t));
    assert Hit(hitOf, m, ray, tMin, tMax, rayLength, lnSample) == Scatter(m, ray, rec1.t, rec2.t, rayLength, lnSample);
    r := ScatterFrom(m, ray, rec1.t, rec2.t, rayLength, lnSample);
  }

  /** The tail of `ConstantMedium::hit`, from the clamped parameters
      `lo` and `hi` on. */
  method ScatterFrom<T>(m: ConstantMedium<T>, ray: Ray, lo: real, hi: real, rayLength: real, lnSample: real)
    returns (r: Option<HitRecord>)
    ensures r == Scatter(m, ray, lo, hi, rayLength, lnSample)
  {
    var distanceInsideBoundary := (hi - lo) * rayLength;
    var hitDistance := m.negInvDensity * lnSample;
    if hitDistance > distanceInsideBoundary || rayLength == 0.0 {
      return None;
    }
    var root := lo + hitDistance / rayLength;
    r := Some(EventAt(m, ray, root));
  }

  /** `Hit` once the crossing is known and leaves nothing in the window. */
  lemma HitOutside<T>(hitOf: HitFn<T>, m: ConstantMedium<T>, ray: Ray, tMin: real, tMax: real,
                      rayLength: real, lnSample: real, enter: real, exit: real)
    requires Crossing(hitOf, m, ray) == Some((enter, exit)) && Clamped(enter, exit, tMin, tMax).None?
    ensures Hit(hitOf, m, ray, tMin, tMax, rayLength, lnSample).None?
  {
  }

  /** No boundary crossing, no scattering: a miss on entry or on the exit
      search is a miss of the medium, and so is a crossing that lies
      wholly outside the window. */
  lemma MissesWithoutCrossing<T>(hitOf: HitFn<T>, m: ConstantMedium<T>, ray: Ray, tMin: real, tMax: real,
                                 rayLength: real, lnSample: real)
    ensures hitOf(m.boundary, ray, F64Min, F64Max).None? ==>
      Hit(hitOf, m, ray, tMin, tMax, rayLength, lnSample).None?
    ensures hitOf(m.boundary, ray, F64Min, F64Max).Some? ==>
      var entry := hitOf(m.boundary, ray, F64Min, F64Max).value.t;
      hitOf(m.boundary, ray, entry + ExitGap, F64Max).None? ==>
        Hit(hitOf, m, ray, tMin, tMax, rayLength, lnSample).None?
    ensures Crossing(hitOf, m, ray).Some? ==>
      var c := Crossing(hitOf, m, ray).value;
      (c.1 <= tMin || tMax <= c.0 || tMax <= tMin) ==> Hit(hitOf, m, ray, tMin, tMax, rayLength, lnSample).None?
  {
  }

  /** The clamped stretch lies in the window, in the crossing and at
      non-negative parameters. */
  lemma ClampedWithin(enter: real, exit: real, tMin: real, tMax: real)
    ensures Clamped(enter, exit, tMin, tMax).Some? ==>
      var s := Clamped(enter, exit, tMin, tMax).value;
      tMin <= s.0 && enter <= s.0 && 0.0 <= s.0 && s.1 <= tMax && s.1 <= exit &&
      Max(Max(enter, tMin), 0.0) == s.0 && Min(exit, tMax) == s.1
    ensures Clamped(enter, exit, tMin, tMax).None? <==> Min(exit, tMax) <= Max(enter, tMin)
  {
  }

  /** A scattering event lies `hitDistance / rayLength` past the clamped
      entry: for a free path that is not negative, between the clamped
      entry and the clamped exit, and so inside the window, inside the
      crossing and at a non-negative parameter; the distance travelled
      inside the medium to reach it is the free path. The record carries
      the normal `(1, 0, 0)`, faces front and holds the phase function. */
  lemma EventInside<T>(hitOf: HitFn<T>, m: ConstantMedium<T>, ray: Ray, tMin: real, tMax: real,
                       rayLength: real, lnSample: real)
    requires 0.0 <= HitDistance(m, lnSample) && 0.0 < rayLength
    requires Hit(hitOf, m, ray, tMin, tMax, rayLength, lnSample).Some?
    ensures Crossing(hitOf, m, ray).Some?
    ensures var c := Crossing(hitOf, m, ray).value;
      var s := Clamped(c.0, c.1, tMin, tMax).value;
      var r := Hit(hitOf, m, ray, tMin, tMax, rayLength, lnSample).value;
      s.0 <= r.t <= s.1 &&
      tMin <= r.t <= tMax && c.0 <= r.t <= c.1 && 0.0 <= r.t &&
      (r.t - s.0) * rayLength == HitDistance(m, lnSample) &&
      r.p == At(ray, r.t) && r.normal == Vec3(1.0, 0.0, 0.0) && r.frontFace &&
      r.material == Some(m.phase)
  {
    var c := Crossing(hitOf, m, ray).value;
    ClampedWithin(c.0, c.1, tMin, tMax);
    var s := Clamped(c.0, c.1, tMin, tMax).value;
    var hd := HitDistance(m, lnSample);
    StepWithin(s.0, s.1, rayLength, hd);
  }

  /** A step of `hd / len` from `lo` stays below `hi` when `hd` is at most
      `(hi - lo) * len`. */
  lemma StepWithin(lo: real, hi: real, len: real, hd: real)
    requires 0.0 < len && 0.0 <= hd && hd <= (hi - lo) * len
    ensures lo <= lo + hd / len <= hi
    ensures (hd / len) * len == hd
  {
    RealFacts.MulNonNeg(hd, 1.0 / len);
    var step := hd / len;
    assert step * len == hd;
    if lo + step > hi {
      RealFacts.MulPos(lo + step - hi, len, (lo + step - hi) * len);
    }
  }

  /** The medium scatters whenever the ray crosses the boundary inside the
      window and the free path is no longer than the stretch inside. */
  lemma ScattersWhenShort<T>(hitOf: HitFn<T>, m: ConstantMedium<T>, ray: Ray, tMin: real, tMax: real,
                             rayLength: real, lnSample: real)
    requires 0.0 < rayLength
    requires Crossing(hitOf, m, ray).Some?
    requires var c := Crossing(hitOf, m, ray).value;
      Clamped(c.0, c.1, tMin, tMax).Some? &&
      HitDistance(m, lnSample) <=
        (Clamped(c.0, c.1, tMin, tMax).value.1 - Clamped(c.0, c.1, tMin, tMax).value.0) * rayLength
    ensures Hit(hitOf, m, ray, tMin, tMax, rayLength, lnSample).Some?
  {
  }

  /** `bounding_box`: the boundary's box, unchanged. */
  function BoundingBox<T>(boxOf: BoxFn<T>, m: ConstantMedium<T>, time0: real, time1: real): (r: Option<Aabb>)
    ensures r == boxOf(m.boundary, time0, time1)
  {
    boxOf(m.boundary, time0, time1)
  }
}
