/** The path-tracing loop `ray_color_iterative` (src/main.rs): one colour
    sample along a path that starts with the accumulator `(1, 1, 1)` and is
    scattered surface after surface until it escapes, is absorbed, or its
    `i8` depth counter runs out.

    The scene is a list of objects queried over `(f64::MIN_POSITIVE,
    f64::MAX)`. What a material does at a hit comes in as two functions:
    `emittedOf`, the material's `emitted(u, v, p)` at the record, and
    `scatterOf`, its `scatter` at the record. The generator's state before
    each scatter is stood for by the number of scatter steps taken so far. */
module Integrator {
  import opened Options
  import opened Vectors
  import opened Rays
  import opened Materials
  import opened Hits
  import RealFacts

  /** Rust's `i8`. */
  newtype i8 = x: int | -128 <= x < 128

  /** `MAX_DEPTH`, the depth every sample is traced with. */
  const MaxDepth: i8 := 50

  /** `(1, 1, 1)`, the accumulator's start. */
  const White: Vec3 := Vec3(1.0, 1.0, 1.0)

  /** A material's `scatter` at a record, before the given scatter step. */
  type ScatterFn = (Ray, HitRecord, nat) -> Scattered

  /** A material's `emitted(u, v, p)` at a record. */
  type EmitFn = HitRecord -> Vec3

  datatype Scene<!T> = Scene(objects: seq<T>, hitOf: HitFn<T>, scatterOf: ScatterFn, emittedOf: EmitFn)

  /** `hittable_list.hit(ray, f64::MIN_POSITIVE, f64::MAX, &mut rec)`. */
  function WorldHit<T>(scene: Scene<T>, ray: Ray): Option<HitRecord> {
    Scan(scene.objects, scene.hitOf, ray, F64MinPositive, F64Max, |scene.objects|)
  }

  /** `depth_count.checked_sub(1).unwrap_or(0)`: one less, except at
      `i8::MIN`, where the subtraction overflows and gives 0. */
  function NextDepth(d: i8): i8 {
    if d == -128 then 0 else d - 1
  }

  /** How many scatter steps a counter at `d` still allows: `d` for a
      positive counter; a counter at 0 or below runs down to `i8::MIN` and
      then to 0, which is `d + 129` steps. */
  function StepsLeft(d: i8): nat {
    if d > 0 then d as nat else (d as int + 129) as nat
  }

  /** The countdown stops the loop: the next counter is 0 exactly when one
      step is left, and otherwise one step fewer is left. At most 129 steps
      are ever left, and for a positive depth exactly `depth`. */
  lemma Countdown(d: i8)
    ensures 1 <= StepsLeft(d) <= 129
    ensures d > 0 ==> StepsLeft(d) == d as nat
    ensures NextDepth(d) == 0 <==> StepsLeft(d) == 1
    ensures NextDepth(d) != 0 ==> StepsLeft(NextDepth(d)) == StepsLeft(d) - 1
  {
  }

  /** What a sample's path comes to: its colour, the number of scatter steps
      taken once it stops (counted on from the step it started at), and the
      ray held last. */
  datatype PathResult = PathResult(color: Vec3, bounces: nat, last: Ray)

  /** The loop as a value, from the ray `ray`, the accumulator `acc`, the
      counter `d` and the step number `k`: a miss multiplies `acc` by the
      background and stops; a hit whose material does not scatter multiplies
      it by the emitted colour and stops; a scattering hit sets `acc` to
      `acc * attenuation + emitted`, follows the scattered ray and counts
      down, stopping when the counter reaches 0. */
  function Trace<T>(scene: Scene<T>, background: Vec3, ray: Ray, acc: Vec3, d: i8, k: nat): PathResult
    decreases StepsLeft(d)
  {
    match WorldHit(scene, ray)
    case None => PathResult(Mul(acc, background), k, ray)
    case Some(rec) =>
      var emitted := scene.emittedOf(rec);
      var s := scene.scatterOf(ray, rec, k);
      if !s.ok then PathResult(Mul(acc, emitted), k, ray)
      else
        var acc' := Add(Mul(acc, s.attenuation), emitted);
        var next := NextDepth(d);
        if next == 0 then PathResult(acc', k + 1, s.scattered)
        else Trace(scene, background, s.scattered, acc', next, k + 1)
  }

  /** `ray_color_iterative`: the loop itself. `rec`, `attenuation` and
      `scattered` are reused from step to step, `ray` and `scattered` are
      swapped after each scatter, and `ray'` is what `ray` holds at the
      end. */
  method RayColorIterative<T>(scene: Scene<T>, ray: Ray, background: Vec3, depth: i8)
    returns (acc: Vec3, ray': Ray)
    ensures acc == Trace(scene, background, ray, White, depth, 0).color
    ensures ray' == Trace(scene, background, ray, White, depth, 0).last
  {
    acc := White;
    var depthCount := depth;
    var rec := DefaultRecord;
    var attenuation := Zero;
    var scattered := Ray(Zero, Zero, 0.0);
    var step: nat := 0;
    ray' := ray;
    while true
      invariant Trace(scene, background, ray', acc, depthCount, step) == Trace(scene, background, ray, White, depth, 0)
      decreases StepsLeft(depthCount)
    {
      ghost var result := Trace(scene, background, ray', acc, depthCount, step);
      var hitAnything;
      hitAnything, rec := ListHit(scene.objects, scene.hitOf, ray', F64MinPositive, F64Max, rec);
      if hitAnything {
        var emitted := scene.emittedOf(rec);
        var s := scene.scatterOf(ray', rec, step);
        if s.ok {
          attenuation, scattered := s.attenuation, s.scattered;
          acc := Add(Mul(acc, attenuation), emitted);
          ray', scattered := scattered, ray';
          depthCount := NextDepth(depthCount);
          step := step + 1;
          if depthCount == 0 {
            assert result == PathResult(acc, step, ray');
            break;
          }
        } else {
          acc := Mul(acc, emitted);
          assert result == PathResult(acc, step, ray');
          break;
        }
      } else {
        acc := Mul(acc, background);
        assert result == PathResult(acc, step, ray');
        break;
      }
    }
  }

  /** The loop takes at most as many scatter steps as the counter allows:
      at most `depth` for a positive depth and at most 129 otherwise; so it
      always stops, even in a scene that scatters for ever. */
  lemma {:induction false} BouncesBounded<T>(scene: Scene<T>, background: Vec3, ray: Ray, acc: Vec3, d: i8, k: nat)
    ensures k <= Trace(scene, background, ray, acc, d, k).bounces <= k + StepsLeft(d)
    ensures k + StepsLeft(d) <= k + 129
    ensures d > 0 ==> Trace(scene, background, ray, acc, d, k).bounces <= k + d as nat
    decreases StepsLeft(d)
  {
    Countdown(d);
    match WorldHit(scene, ray)
    case None =>
    case Some(rec) =>
      var s := scene.scatterOf(ray, rec, k);
      if s.ok && NextDepth(d) != 0 {
        var acc' := Add(Mul(acc, s.attenuation), scene.emittedOf(rec));
        BouncesBounded(scene, background, s.scattered, acc', NextDepth(d), k + 1);
      }
  }

  /** A path whose first scatter step is step `k` and which reaches a
      scattering surface at every step up to the limit takes exactly the
      allowed number of steps: for `MAX_DEPTH`, 50. */
  lemma {:induction false} AlwaysScattering<T>(scene: Scene<T>, background: Vec3, ray: Ray, acc: Vec3, d: i8, k: nat)
    requires forall r: Ray :: WorldHit(scene, r).Some?
    requires forall r: Ray, rec: HitRecord, n: nat :: scene.scatterOf(r, rec, n).ok
    ensures Trace(scene, background, ray, acc, d, k).bounces == k + StepsLeft(d)
    decreases StepsLeft(d)
  {
    Countdown(d);
    var rec := WorldHit(scene, ray).value;
    var s := scene.scatterOf(ray, rec, k);
    if NextDepth(d) != 0 {
      var acc' := Add(Mul(acc, s.attenuation), scene.emittedOf(rec));
      AlwaysScattering(scene, background, s.scattered, acc', NextDepth(d), k + 1);
    }
  }

  /** The recursive colour the loop stands for: the background on a miss,
      the emitted colour at a surface that does not scatter, and at one that
      does, `emitted + attenuation * (colour further on)`, where a path cut
      by the depth counter continues as `cutoff`. */
  function Radiance<T>(scene: Scene<T>, background: Vec3, cutoff: Vec3, ray: Ray, d: i8, k: nat): Vec3
    decreases StepsLeft(d)
  {
    match WorldHit(scene, ray)
    case None => background
    case Some(rec) =>
      var emitted := scene.emittedOf(rec);
      var s := scene.scatterOf(ray, rec, k);
      if !s.ok then emitted
      else
        var next := NextDepth(d);
        var further := if next == 0 then cutoff else Radiance(scene, background, cutoff, s.scattered, next, k + 1);
        Add(emitted, Mul(s.attenuation, further))
  }

  /** Surfaces that scatter emit nothing: true of every material here, as
      only `DiffuseLight` emits and it never scatters. */
  ghost predicate DarkScatterers<T>(scene: Scene<T>) {
    forall r: Ray, rec: HitRecord, n: nat :: scene.scatterOf(r, rec, n).ok ==> scene.emittedOf(rec) == Zero
  }

  /** The accumulator computes the recursive colour by tail accumulation:
      when scattering surfaces emit nothing, the loop's colour from `acc`
      is `acc` times the recursive colour, and a path cut by the depth
      counter counts as lit by white, `(1, 1, 1)`. */
  lemma {:induction false} TailAccumulation<T>(scene: Scene<T>, background: Vec3, ray: Ray, acc: Vec3, d: i8, k: nat)
    requires DarkScatterers(scene)
    ensures Trace(scene, background, ray, acc, d, k).color == Mul(acc, Radiance(scene, background, White, ray, d, k))
    decreases StepsLeft(d)
  {
    Countdown(d);
    match WorldHit(scene, ray)
    case None =>
    case Some(rec) =>
      var s := scene.scatterOf(ray, rec, k);
      if s.ok {
        assert scene.emittedOf(rec) == Zero;
        var acc' := Add(Mul(acc, s.attenuation), scene.emittedOf(rec));
        assert acc' == Mul(acc, s.attenuation);
        var next := NextDepth(d);
        if next == 0 {
          MulAssoc(acc, s.attenuation, White);
        } else {
          TailAccumulation(scene, background, s.scattered, acc', next, k + 1);
          MulAssoc(acc, s.attenuation, Radiance(scene, background, White, s.scattered, next, k + 1));
        }
      }
  }

  lemma MulAssoc(a: Vec3, b: Vec3, c: Vec3)
    ensures Mul(Mul(a, b), c) == Mul(a, Add(Zero, Mul(b, c)))
  {
  }

  /** The loop differs from the textbook recursion, which gives black for a
      path the depth counter cuts: in a scene where every ray meets a white
      surface that scatters without emitting, under a black sky, the loop
      returns white for depth 1 and the recursion black. */
  lemma CutPathCountsAsWhite()
    ensures var scene := Scene([0], (o: int, r: Ray, lo: real, hi: real) => Some(DefaultRecord.(t := lo)),
                               (r: Ray, rec: HitRecord, n: nat) => Scattered(true, White, r),
                               (rec: HitRecord) => Zero);
      Trace(scene, Zero, Ray(Zero, White, 0.0), White, 1, 0).color == White &&
      Radiance(scene, Zero, Zero, Ray(Zero, White, 0.0), 1, 0) == Zero
  {
    var scene := Scene([0], (o: int, r: Ray, lo: real, hi: real) => Some(DefaultRecord.(t := lo)),
                       (r: Ray, rec: HitRecord, n: nat) => Scattered(true, White, r),
                       (rec: HitRecord) => Zero);
    var ray := Ray(Zero, White, 0.0);
    assert WorldHit(scene, ray) == Some(DefaultRecord.(t := F64MinPositive));
  }

  /** No component is negative. */
  predicate NonNeg(v: Vec3) {
    0.0 <= v.x && 0.0 <= v.y && 0.0 <= v.z
  }

  /** A colour is never negative when the background, every emitted colour
      and every attenuation are not. */
  lemma {:induction false} ColorNonNeg<T>(scene: Scene<T>, background: Vec3, ray: Ray, acc: Vec3, d: i8, k: nat)
    requires NonNeg(acc) && NonNeg(background)
    requires forall rec: HitRecord :: NonNeg(scene.emittedOf(rec))
    requires forall r: Ray, rec: HitRecord, n: nat :: NonNeg(scene.scatterOf(r, rec, n).attenuation)
    ensures NonNeg(Trace(scene, background, ray, acc, d, k).color)
    decreases StepsLeft(d)
  {
    Countdown(d);
    match WorldHit(scene, ray)
    case None =>
      MulNonNegVec(acc, background);
    case Some(rec) =>
      var s := scene.scatterOf(ray, rec, k);
      var emitted := scene.emittedOf(rec);
      if !s.ok {
        MulNonNegVec(acc, emitted);
      } else {
        MulNonNegVec(acc, s.attenuation);
        var acc' := Add(Mul(acc, s.attenuation), emitted);
        if NextDepth(d) != 0 {
          ColorNonNeg(scene, background, s.scattered, acc', NextDepth(d), k + 1);
        }
      }
  }

  lemma MulNonNegVec(a: Vec3, b: Vec3)
    requires NonNeg(a) && NonNeg(b)
    ensures NonNeg(Mul(a, b))
  {
    RealFacts.MulNonNeg(a.x, b.x);
    RealFacts.MulNonNeg(a.y, b.y);
    RealFacts.MulNonNeg(a.z, b.z);
  }
}
