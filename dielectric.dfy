/** `Dielectric` (src/material/dielectric.rs): glass-like material with
    refractive index `ir`. A ray is reflected when Snell's law has no
    solution or, by chance, with the probability the reflectance gives;
    otherwise it is refracted. `dirLen` is the length of the incoming
    direction, `sqrt` the square root the source takes of `1 - cos^2` and
    inside `reflact`, and `sample` the draw compared with the reflectance. */
module Dielectrics {
  import opened Vectors
  import opened Rays
  import opened Materials
  import opened Hits
  import RealFacts

  /** `(1 - refIdx) / (1 + refIdx)` squared: the reflectance at normal
      incidence. */
  function R0(refIdx: real): real
    requires refIdx != -1.0
  {
    var q := (1.0 - refIdx) / (1.0 + refIdx);
    q * q
  }

  function Pow5(x: real): real {
    x * x * x * x * x
  }

  /** `Dielectric::reflactance` as the source writes it:
      `r0 * (1 - r0) * (1 - cosine)^5`. */
  function ReflactanceAsWritten(cosine: real, refIdx: real): real
    requires refIdx != -1.0
  {
    R0(refIdx) * (1.0 - R0(refIdx)) * Pow5(1.0 - cosine)
  }

  /** Schlick's approximation `r0 + (1 - r0) * (1 - cosine)^5`, which the
      material evidently means; `ScatterCorrected` decides with it. */
  function Reflectance(cosine: real, refIdx: real): real
    requires refIdx != -1.0
  {
    R0(refIdx) + (1.0 - R0(refIdx)) * Pow5(1.0 - cosine)
  }

  /** For a non-negative index the normal-incidence reflectance lies in
      `[0, 1]`. */
  lemma R0Within(refIdx: real)
    requires 0.0 <= refIdx
    ensures 0.0 <= R0(refIdx) <= 1.0
  {
    var q := (1.0 - refIdx) / (1.0 + refIdx);
    assert q * (1.0 + refIdx) == 1.0 - refIdx;
    assert -1.0 <= q <= 1.0 by {
      if q > 1.0 {
        RealFacts.MulPos(q - 1.0, 1.0 + refIdx, (q - 1.0) * (1.0 + refIdx));
      } else if q < -1.0 {
        RealFacts.MulPos(-1.0 - q, 1.0 + refIdx, (-1.0 - q) * (1.0 + refIdx));
      }
    }
    RealFacts.SquareNonNeg(q, q * q);
    RealFacts.MulNonNeg(1.0 - q, 1.0 + q);
  }

  lemma Pow5Within(x: real)
    requires 0.0 <= x <= 1.0
    ensures 0.0 <= Pow5(x) <= 1.0
  {
    RealFacts.MulNonNeg(x, x);
    RealFacts.MulNonNeg(x * x, x);
    RealFacts.MulNonNeg(x * x * x, x);
    RealFacts.MulNonNeg(x * x * x * x, x);
    RealFacts.MulNonNeg(x, 1.0 - x);
    RealFacts.MulNonNeg(x * x, 1.0 - x);
    RealFacts.MulNonNeg(x * x * x, 1.0 - x);
    RealFacts.MulNonNeg(x * x * x * x, 1.0 - x);
  }

  /** As written the value lies in `[0, 1/4]` for a cosine in `[0, 1]` and a
      non-negative index, and it is 0 at normal incidence. */
  lemma ReflactanceAsWrittenWithin(cosine: real, refIdx: real)
    requires 0.0 <= cosine <= 1.0 && 0.0 <= refIdx
    ensures 0.0 <= ReflactanceAsWritten(cosine, refIdx) <= 0.25
    ensures cosine == 1.0 ==> ReflactanceAsWritten(cosine, refIdx) == 0.0
  {
    var r0 := R0(refIdx);
    var p := Pow5(1.0 - cosine);
    R0Within(refIdx);
    Pow5Within(1.0 - cosine);
    var a := r0 * (1.0 - r0);
    RealFacts.MulNonNeg(r0, 1.0 - r0);
    RealFacts.SquareNonNeg(r0 - 0.5, (r0 - 0.5) * (r0 - 0.5));
    assert a <= 0.25;
    RealFacts.MulNonNeg(a, p);
    RealFacts.MulNonNeg(0.25 - a, p);
    RealFacts.MulNonNeg(0.25, 1.0 - p);
  }

  /** Schlick's value lies between the normal-incidence reflectance and 1:
      it is `r0` at normal incidence and 1 at grazing incidence. */
  lemma ReflectanceWithin(cosine: real, refIdx: real)
    requires 0.0 <= cosine <= 1.0 && 0.0 <= refIdx
    ensures R0(refIdx) <= Reflectance(cosine, refIdx) <= 1.0
    ensures cosine == 1.0 ==> Reflectance(cosine, refIdx) == R0(refIdx)
    ensures cosine == 0.0 ==> Reflectance(cosine, refIdx) == 1.0
  {
    R0Within(refIdx);
    Pow5Within(1.0 - cosine);
    RealFacts.MulNonNeg(1.0 - R0(refIdx), Pow5(1.0 - cosine));
    RealFacts.MulNonNeg(1.0 - R0(refIdx), 1.0 - Pow5(1.0 - cosine));
  }

  /** The discrepancy: for glass (`ir = 1.5`) at grazing incidence the
      source's value is 0.0384, so such rays are mostly refracted, while
      Schlick's approximation reflects them always. */
  lemma ReflactanceAsWrittenAtGrazing()
    ensures ReflactanceAsWritten(0.0, 1.5) == 0.0384
    ensures Reflectance(0.0, 1.5) == 1.0
  {
    assert R0(1.5) == 0.04;
  }

  /** `1 / ir` entering through the front face, `ir` leaving through the
      back face. */
  function RefractionRatio(ir: real, frontFace: bool): (ratio: real)
    requires ir != 0.0
    ensures frontFace ==> ratio * ir == 1.0
    ensures !frontFace ==> ratio == ir
  {
    if frontFace then 1.0 / ir else ir
  }

  /** `cos_theta`: the cosine of the incidence angle, capped at 1. */
  function CosTheta(unit: Vec3, normal: Vec3): (c: real)
    ensures c <= 1.0
  {
    Min(Dot(Neg(unit), normal), 1.0)
  }

  /** The two square roots the scatter rule takes, given the incoming unit
      direction: `sin_theta = sqrt(1 - cos_theta^2)` and, inside `reflact`,
      the length `sqrt(|1 - length_squared(r_out_perp)|)` of the parallel
      part. */
  ghost predicate TrueRoots(unit: Vec3, normal: Vec3, ratio: real, sinTheta: real, parallelLen: real) {
    var c := CosTheta(unit, normal);
    IsSqrt(1.0 - c * c, sinTheta) &&
    IsSqrt(Abs(1.0 - LengthSquared(RefractPerp(unit, normal, ratio))), parallelLen)
  }

  /** Snell's law has no solution: `ratio * sin_theta > 1`. */
  predicate CannotRefract(ratio: real, sinTheta: real) {
    ratio * sinTheta > 1.0
  }

  /** The reflect-or-refract rule of `Dielectric::scatter` for a given
      reflectance value: it always scatters, with attenuation `(1, 1, 1)`,
      from the hit point at the incoming ray's time. The direction is the
      mirror direction when refraction is impossible
      (`ratio * sin_theta > 1`), whatever the draw, or when the reflectance
      exceeds the draw; it is the refracted direction otherwise. */
  function ScatterWith(reflectance: real, ir: real, rayIn: Ray, rec: HitRecord, dirLen: real,
                       sinTheta: real, parallelLen: real, sample: real): (r: Scattered)
    requires ir != 0.0
    requires IsLength(rayIn.direction, dirLen) && dirLen != 0.0
    ensures r.ok && r.attenuation == Vec3(1.0, 1.0, 1.0)
    ensures r.scattered.origin == rec.p && r.scattered.time == rayIn.time
    ensures var unit := UnitVector(rayIn.direction, dirLen);
      var ratio := RefractionRatio(ir, rec.frontFace);
      (CannotRefract(ratio, sinTheta) ==> r.scattered.direction == Reflect(unit, rec.normal)) &&
      (reflectance > sample ==> r.scattered.direction == Reflect(unit, rec.normal)) &&
      (!CannotRefract(ratio, sinTheta) && reflectance <= sample ==>
        r.scattered.direction == Refract(unit, rec.normal, ratio, parallelLen))
  {
    var ratio := RefractionRatio(ir, rec.frontFace);
    var unit := UnitVector(rayIn.direction, dirLen);
    var direction :=
      if CannotRefract(ratio, sinTheta) || reflectance > sample
      then Reflect(unit, rec.normal)
      else Refract(unit, rec.normal, ratio, parallelLen);
    Scattered(true, Vec3(1.0, 1.0, 1.0), NewRay(rec.p, direction, rayIn.time))
  }

  /** The value `scatter` compares with the draw: the as-written
      coefficient (`asWritten`) or Schlick's, at `cos_theta` and the
      refraction ratio of the hit. */
  function DrawnAgainst(asWritten: bool, ir: real, rayIn: Ray, rec: HitRecord, dirLen: real): real
    requires ir != 0.0 && ir != -1.0
    requires IsLength(rayIn.direction, dirLen) && dirLen != 0.0
  {
    var ratio := RefractionRatio(ir, rec.frontFace);
    var cosTheta := CosTheta(UnitVector(rayIn.direction, dirLen), rec.normal);
    if asWritten then ReflactanceAsWritten(cosTheta, ratio) else Reflectance(cosTheta, ratio)
  }

  /** `Dielectric::scatter` as a value, deciding with `reflactance` as the
      source writes it: a mirror direction when refraction is impossible
      or when that coefficient exceeds the draw, the refracted direction
      otherwise. */
  function Scatter(ir: real, rayIn: Ray, rec: HitRecord, dirLen: real,
                   sinTheta: real, parallelLen: real, sample: real): (r: Scattered)
    requires ir != 0.0 && ir != -1.0
    requires IsLength(rayIn.direction, dirLen) && dirLen != 0.0
    ensures r.ok && r.attenuation == Vec3(1.0, 1.0, 1.0)
    ensures r.scattered.origin == rec.p && r.scattered.time == rayIn.time
    ensures var unit := UnitVector(rayIn.direction, dirLen);
      var cosTheta := CosTheta(unit, rec.normal);
      var ratio := RefractionRatio(ir, rec.frontFace);
      (CannotRefract(ratio, sinTheta) ==> r.scattered.direction == Reflect(unit, rec.normal)) &&
      (ReflactanceAsWritten(cosTheta, ratio) > sample ==> r.scattered.direction == Reflect(unit, rec.normal)) &&
      (!CannotRefract(ratio, sinTheta) && ReflactanceAsWritten(cosTheta, ratio) <= sample ==>
        r.scattered.direction == Refract(unit, rec.normal, ratio, parallelLen))
  {
    ScatterWith(DrawnAgainst(true, ir, rayIn, rec, dirLen), ir, rayIn, rec, dirLen, sinTheta, parallelLen, sample)
  }

  /** The corrected scatter, deciding with Schlick's reflectance: the same
      rule with `Reflectance` in place of the as-written coefficient. */
  function ScatterCorrected(ir: real, rayIn: Ray, rec: HitRecord, dirLen: real,
                            sinTheta: real, parallelLen: real, sample: real): (r: Scattered)
    requires ir != 0.0 && ir != -1.0
    requires IsLength(rayIn.direction, dirLen) && dirLen != 0.0
    ensures r.ok && r.attenuation == Vec3(1.0, 1.0, 1.0)
    ensures r.scattered.origin == rec.p && r.scattered.time == rayIn.time
    ensures var unit := UnitVector(rayIn.direction, dirLen);
      var cosTheta := CosTheta(unit, rec.normal);
      var ratio := RefractionRatio(ir, rec.frontFace);
      (CannotRefract(ratio, sinTheta) ==> r.scattered.direction == Reflect(unit, rec.normal)) &&
      (Reflectance(cosTheta, ratio) > sample ==> r.scattered.direction == Reflect(unit, rec.normal)) &&
      (!CannotRefract(ratio, sinTheta) && Reflectance(cosTheta, ratio) <= sample ==>
        r.scattered.direction == Refract(unit, rec.normal, ratio, parallelLen))
  {
    ScatterWith(DrawnAgainst(false, ir, rayIn, rec, dirLen), ir, rayIn, rec, dirLen, sinTheta, parallelLen, sample)
  }

  /** `Dielectric::scatter`: writes the attenuation, works out the ratio
      and the cosine, and writes the scattered ray. */
  method ScatterInto(ir: real, rayIn: Ray, rec: HitRecord, dirLen: real,
                     sinTheta: real, parallelLen: real, sample: real)
    returns (ok: bool, attenuation: Vec3, scattered: Ray)
    requires ir != 0.0 && ir != -1.0
    requires IsLength(rayIn.direction, dirLen) && dirLen != 0.0
    ensures Scattered(ok, attenuation, scattered) == Scatter(ir, rayIn, rec, dirLen, sinTheta, parallelLen, sample)
  {
    attenuation := Vec3(1.0, 1.0, 1.0);
    var refractionRatio := if rec.frontFace then 1.0 / ir else ir;
    var unitDirection := UnitVector(rayIn.direction, dirLen);
    var cosTheta := Min(Dot(Neg(unitDirection), rec.normal), 1.0);
    var cannotRefract := CannotRefract(refractionRatio, sinTheta);
    var direction;
    if cannotRefract || ReflactanceAsWritten(cosTheta, refractionRatio) > sample {
      direction := Reflect(unitDirection, rec.normal);
    } else {
      direction := Refract(unitDirection, rec.normal, refractionRatio, parallelLen);
    }
    scattered := NewRay(rec.p, direction, rayIn.time);
    ok := true;
  }

  /** The discrepancy in the scatter: for glass entered through the front
      face (`ir = 1.5`) with the direction along the surface, refraction is
      possible and a draw of 0.5 refracts as written but reflects with
      Schlick's reflectance. */
  lemma GrazingGlassDecides(rayIn: Ray, rec: HitRecord, dirLen: real, parallelLen: real)
    requires IsLength(rayIn.direction, dirLen) && dirLen != 0.0
    requires rec.frontFace && Dot(UnitVector(rayIn.direction, dirLen), rec.normal) == 0.0
    ensures var unit := UnitVector(rayIn.direction, dirLen);
      Scatter(1.5, rayIn, rec, dirLen, 1.0, parallelLen, 0.5).scattered.direction ==
        Refract(unit, rec.normal, 1.0 / 1.5, parallelLen) &&
      ScatterCorrected(1.5, rayIn, rec, dirLen, 1.0, parallelLen, 0.5).scattered.direction ==
        Reflect(unit, rec.normal)
  {
    var unit := UnitVector(rayIn.direction, dirLen);
    DotLinear(unit, Zero, rec.normal, -1.0);
    assert Dot(Neg(unit), rec.normal) == 0.0;
    assert CosTheta(unit, rec.normal) == 0.0;
    var ratio := RefractionRatio(1.5, true);
    assert ratio == 1.0 / 1.5;
    assert !CannotRefract(ratio, 1.0);
    assert R0(ratio) == 0.04;
    assert ReflactanceAsWritten(0.0, ratio) == 0.0384;
  }

  /** A unit scattered direction that either mirrors `unit` about `n`,
      keeping the ray on its side, or crosses the surface. */
  predicate UnitScatter(r: Scattered, unit: Vec3, n: Vec3) {
    LengthSquared(r.scattered.direction) == 1.0 &&
    (r.scattered.direction == Reflect(unit, n) ==> Dot(r.scattered.direction, n) == -Dot(unit, n)) &&
    (r.scattered.direction != Reflect(unit, n) ==> Dot(r.scattered.direction, n) <= 0.0)
  }

  /** With a unit normal, a positive index and true square roots, the
      scattered direction is a unit vector: a reflection stays on the side
      the ray came from, mirrored, and a refraction crosses the surface. */
  lemma ScatterWithIsUnit(reflectance: real, ir: real, rayIn: Ray, rec: HitRecord, dirLen: real,
                          sinTheta: real, parallelLen: real, sample: real)
    requires 0.0 < ir
    requires IsLength(rayIn.direction, dirLen) && dirLen != 0.0
    requires LengthSquared(rec.normal) == 1.0
    requires TrueRoots(UnitVector(rayIn.direction, dirLen), rec.normal, RefractionRatio(ir, rec.frontFace),
                       sinTheta, parallelLen)
    ensures UnitScatter(ScatterWith(reflectance, ir, rayIn, rec, dirLen, sinTheta, parallelLen, sample),
                        UnitVector(rayIn.direction, dirLen), rec.normal)
  {
    var unit := UnitVector(rayIn.direction, dirLen);
    var n := rec.normal;
    var ratio := RefractionRatio(ir, rec.frontFace);
    var r := ScatterWith(reflectance, ir, rayIn, rec, dirLen, sinTheta, parallelLen, sample);
    ReflectAboutUnitNormal(unit, n);
    if r.scattered.direction != Reflect(unit, n) {
      var c := CosTheta(unit, n);
      DotWithinUnit(Neg(unit), n);
      assert c == Dot(Neg(unit), n);
      PerpBelowOne(unit, n, ratio, c, sinTheta);
      RefractIsUnit(unit, n, ratio, parallelLen);
      RefractNormalComponent(unit, n, ratio, parallelLen);
    }
  }

  /** The as-written scatter and the corrected one both leave a unit
      direction, as above. */
  lemma ScatterIsUnit(ir: real, rayIn: Ray, rec: HitRecord, dirLen: real,
                      sinTheta: real, parallelLen: real, sample: real)
    requires 0.0 < ir
    requires IsLength(rayIn.direction, dirLen) && dirLen != 0.0
    requires LengthSquared(rec.normal) == 1.0
    requires TrueRoots(UnitVector(rayIn.direction, dirLen), rec.normal, RefractionRatio(ir, rec.frontFace),
                       sinTheta, parallelLen)
    ensures var unit := UnitVector(rayIn.direction, dirLen);
      UnitScatter(Scatter(ir, rayIn, rec, dirLen, sinTheta, parallelLen, sample), unit, rec.normal) &&
      UnitScatter(ScatterCorrected(ir, rayIn, rec, dirLen, sinTheta, parallelLen, sample), unit, rec.normal)
  {
    ScatterWithIsUnit(DrawnAgainst(true, ir, rayIn, rec, dirLen), ir, rayIn, rec, dirLen, sinTheta, parallelLen, sample);
    ScatterWithIsUnit(DrawnAgainst(false, ir, rayIn, rec, dirLen), ir, rayIn, rec, dirLen, sinTheta, parallelLen, sample);
  }

  /** Below the critical angle the perpendicular part of the refracted
      direction is no longer than 1: its squared length is
      `ratio^2 (1 - cos^2) = (ratio * sin)^2`. */
  lemma PerpBelowOne(unit: Vec3, n: Vec3, ratio: real, c: real, sin: real)
    requires LengthSquared(unit) == 1.0 && LengthSquared(n) == 1.0 && 0.0 < ratio
    requires c == Dot(Neg(unit), n)
    requires IsSqrt(1.0 - c * c, sin) && !CannotRefract(ratio, sin)
    ensures LengthSquared(RefractPerp(unit, n, ratio)) <= 1.0
  {
    ScaleLengthSquared(unit, -1.0);
    DotWithinUnit(Neg(unit), n);
    assert c == CosTheta(unit, n);
    var v := Add(unit, Scale(n, c));
    LengthSquaredAdd(unit, Scale(n, c));
    DotSymmetric(unit, Scale(n, c));
    DotLinear(n, Zero, unit, c);
    DotSymmetric(n, unit);
    DotLinear(unit, Zero, n, -1.0);
    assert Dot(unit, n) == -c;
    ScaleLengthSquared(n, c);
    assert LengthSquared(v) == 1.0 - c * c;
    ScaleLengthSquared(v, ratio);
    assert LengthSquared(RefractPerp(unit, n, ratio)) == ratio * ratio * (sin * sin);
    RealFacts.MulNonNeg(ratio, sin);
    RealFacts.MulNonNeg(ratio * sin, 1.0 - ratio * sin);
    assert ratio * ratio * (sin * sin) == (ratio * sin) * (ratio * sin);
  }
}
