# Ray tracer rendering core, in Dafny

This project models the rendering core of a Monte Carlo ray tracer written
in Rust, in the style of "Ray Tracing in One Weekend" and its sequel. The
core covers:

- the `Vec3` algebra, rays and the mapping from a random sample to a range;
- axis-aligned bounding boxes and their slab test;
- the hit protocol (`HitRecord::set_face_normal`, `HittableList::hit`);
- the scene objects: spheres (two revisions), moving spheres,
  axis-aligned rectangles (two revisions), boxes of six rectangles,
  translation, rotation about the y axis, and volumes of constant density;
- the bounding volume hierarchy, its build and its traversal;
- the five materials: Lambertian, metal, dielectric, isotropic and diffuse
  light;
- solid-colour and image textures;
- the Perlin noise tables, the lattice hashing and turbulence;
- the iterative path-tracing loop `ray_color_iterative`.

Every `f64` is a Dafny `real`. Where the program calls a transcendental
function or a random source, the model takes the result as an input and
states the relation it satisfies:

- `sqrt` is a function `sqrt: real -> real` or a value `sqrtd`, with
  `IsSqrt(x, s)` (`s >= 0 && s * s == x`) where a proof needs it.
- `hypot`-based lengths are values `len` with `IsLength(v, len)`.
- `atan2`/`asin` texture coordinates are a function `uvOf`.
- The `sin`/`cos` of a rotation are the stored `sinTheta`/`cosTheta`.
- The `ln` of a random draw in a constant medium is `lnSample`.
- The smoothstep interpolation of Perlin noise is a function `interp`.
- Uniform draws in `[0, 1)` are `s1`, `s2`, `s3` with `IsSample`.

`Random<f64>` and the Perlin `Random<usize>` are classes holding an infinite
stream of draws and a counter `drawn`. Each `random` call reads one draw and
advances the counter, so a contract can say exactly which draws an operation
consumes.

Objects with `bool` + `&mut HitRecord` hits are methods `HitInto` returning
`(hit, rec')` that leave `rec` unchanged on a miss. The `Option` revision of
each is a function `Hit`. Every `hit` is stated against the object-level
contract `Hits.Nearest`: the reported record lies in the window, and
shrinking the far end of the window keeps the same record or drops it.
`HittableList`, boxes, translations and rotations are proved to keep that
contract whenever their children do; BVH nodes keep it for rays within the
shutter interval when every leaf's hits lie inside its box
(`BvhNodes.HitIsNearest`).

The integrator is `Integrator.RayColorIterative`, a `while` loop over the
program's own `i8` depth counter. The material dispatch it calls is a pair
of scene functions, `scatterOf` and `emittedOf`, with the bounce index
standing in for the generator state. The loop's result is the function
`Integrator.Trace`. The lemmas prove three things about it:

- it always terminates, after at most 129 steps;
- it takes at most `depth` steps for a positive depth;
- when scattering surfaces emit nothing, it equals the recursive textbook
  colour `emitted + attenuation * colour(scattered)`.

In every material of this program only a diffuse light emits, and a diffuse
light never scatters, so that condition holds. One case differs: when the
depth runs out on a path that is still scattering, the loop returns the
attenuation gathered so far. The textbook recursion returns black there.
`Integrator.CutPathCountsAsWhite` shows a scene where the two differ.

## Model

| member | source | states |
|---|---|---|
| Vectors.With | src/vec3.rs:268-277 | `IndexMut` writes exactly the selected component and leaves the other two unchanged |
| Vectors.Componentwise | src/vec3.rs:146-247 | `+`, `-`, `*`, `* f64`, unary `-`, `/ f64` and `+= f64` act on each component separately |
| Vectors.DotSymmetric | src/vec3.rs:37-40 | the dot product is symmetric |
| Vectors.DotLinear | src/vec3.rs:37-40 | the dot product is linear in its first argument (sums, differences, scaling, negation) |
| Vectors.CrossOrthogonal | src/vec3.rs:30-36 | `cross(a, b)` is orthogonal to both `a` and `b` |
| Vectors.LengthSquaredNonNeg | src/vec3.rs:21-28 | the squared length is non-negative, and positive for every non-zero vector |
| Vectors.ScaleLengthSquared | src/vec3.rs:21-28 | scaling by `s` multiplies the squared length by `s * s` |
| Vectors.UnitVector | src/vec3.rs:41-44 | `v / length(v)` has squared length 1 and scales back to `v` |
| Vectors.NearZeroByIndex | src/vec3.rs:97-102 | `near_zero` holds iff every indexed component has magnitude below `f64::MIN_POSITIVE` |
| Vectors.ReflectAboutUnitNormal | src/vec3.rs:103-106 | for a unit normal, the reflection flips the normal component and keeps the length |
| Vectors.DotWithinUnit | src/vec3.rs:108-113 | a vector inside the unit ball has a dot product with a unit normal within `[-1, 1]` |
| Vectors.LengthSquaredAdd | src/vec3.rs:21-28 | the squared length of a sum expands through the dot product |
| Vectors.RefractNormalComponent | src/vec3.rs:108-113 | the perpendicular part of `reflact` is orthogonal to the normal, and the result's normal component is minus the parallel length |
| Vectors.RefractIsUnit | src/vec3.rs:108-113 | when the perpendicular part is inside the unit ball, `reflact` returns a unit vector |
| Vectors.RandomVec | src/vec3.rs:46-55 | with bounds `min <= max`, each component lies in `[min, max]`, and below `max` when `min < max` |
| Vectors.RandomVecFrom | src/vec3.rs:46-55 | `Vec3::random` draws exactly three samples, in x, y, z order, and maps each through the range |
| Vectors.RandomInUnitSphere | src/vec3.rs:57-71 | the point has `abs(x) + abs(y) + abs(z) <= 1`, hence squared length at most 1 |
| Vectors.RandomUnitVector | src/vec3.rs:73-75 | the normalised point in the unit ball has squared length 1 |
| Vectors.RandomInHemisphere | src/vec3.rs:77-84 | the result is the ball point or its negation, lies in the unit ball, and has a non-negative dot product with the normal |
| Vectors.RandomInUnitDisk | src/vec3.rs:86-96 | the point has `z = 0` and `abs(x) + abs(y) <= 1`, hence lies in the unit disk |
| Rays.At | src/ray.rs:11-13 | `at(t) - origin` is `direction * t` |
| Rays.NewRay | src/ray.rs:15-21 | `new` stores origin, direction and time unchanged |
| Rays.AtZero | src/ray.rs:11-13 | `at(0)` is the origin |
| Rays.AtShift | src/ray.rs:11-13 | `at(t + s) = at(t) + direction * s`, and `at` ignores the ray's time |
| Sampling.RangeMap | src/random.rs:33-38 | with both bounds and a sample in `[0, 1)`, the result lies in `[min, max]`, and below `max` when `min < max`; a missing bound gives the raw sample |
| Sampling.RangeMapAtZero | src/random.rs:36 | a sample of 0 gives exactly `min` |
| Sampling.RangeMapAffine | src/random.rs:36 | the mapping is affine in the sample with slope `max - min` |
| Sampling.Random.constructor | src/random.rs:30-32 | a new generator is valid and has drawn nothing |
| Sampling.Random.Random | src/random.rs:33-38 | each call consumes exactly one draw and returns it mapped to the range, within the bounds when `min <= max` |
| Boxes.SurroundingBox | src/aabb.rs:13-25 | the union contains both boxes and is contained in every box that contains both |
| Boxes.SurroundingBoxAlgebra | src/aabb.rs:13-25 | the union is commutative, associative and idempotent |
| Boxes.BoundingBox | src/aabb.rs:51-54 | a box's own bounding box is present and equal to it |
| Boxes.Inverse | src/aabb.rs:32-36 | `1 / d` is the inverse of `d` and has its sign |
| Boxes.Hit | src/aabb.rs:28-50 | the loop over three axes, with its swaps and early rejection, returns the slab test `SlabHit` |
| Boxes.RejectionIsFinal | src/aabb.rs:45-47 | once the narrowed window is empty, the test fails whatever the remaining axes say |
| Boxes.WindowAfterMeaning | src/aabb.rs:39-48 | the narrowed window stays inside the caller's, is non-empty after each accepted axis, and holds exactly the parameters inside every slab checked so far |
| Boxes.SlabHitMeaning | src/aabb.rs:28-50 | the test accepts iff some parameter strictly inside the window puts the ray inside all three slabs |
| Boxes.InSlabMeansBetweenPlanes | src/aabb.rs:37-44 | a parameter lies in an axis' slab iff the ray's point there lies strictly between the box's two planes |
| Boxes.SlabHitMonotone | src/aabb.rs:28-50 | a ray that meets a box also meets every box containing it |
| Boxes.SlabHitWiden | src/aabb.rs:28-50 | a ray accepted over a window is accepted over every window with a farther end |
| Hits.WithFaceNormal | src/hittable.rs:16-23 | `front_face` iff the ray meets the outward normal head-on; the stored normal is the outward normal or its negation and never faces along the ray; no other field changes |
| Hits.SetFaceNormal | src/hittable.rs:16-23 | the in-place update leaves the record `WithFaceNormal` describes |
| Hits.FaceNormalOverwrites | src/hittable.rs:16-23 | the result does not depend on the record's previous normal and face |
| Hits.FaceNormalReapplied | src/hittable.rs:16-23 | orienting again against the stored normal keeps it and reports a front face |
| Hits.ListHit | src/hittable.rs:51-65 | the closest-so-far loop reports a hit iff the scan finds one, writes the scan's record then, and leaves `rec` untouched otherwise |
| Hits.Narrow | src/hittable.rs:57 | for an object keeping the hit contract, querying with a smaller far end keeps the same record or drops it |
| Hits.ScanFindsAny | src/hittable.rs:56-64 | the scan's record lies in the window, and the scan hits iff some object hits over the full window |
| Hits.ScanFindsNearest | src/hittable.rs:54-61 | the scan's record is one object's own hit, no farther than any other object's hit, and strictly nearer than every later object's hit, so ties go to the last object that hit |
| Hits.ScanNarrows | src/hittable.rs:54-61 | a scan over a smaller window is the larger scan's record if that lies within the smaller window, and none otherwise |
| Hits.ListIsNearest | src/hittable.rs:51-65 | a list of objects keeping the hit contract keeps it too |
| Hits.ListHitIsNearest | src/hittable.rs:51-65 | the list hits iff some member hits, within the window, with the nearest of the members' hits |
| Rects.OutwardNormal | src/objects/rect.rs:54-60 | the normal is the unit vector of the rectangle's normal axis, and its dot product with `d` picks that component of `d` |
| Rects.HitSound | src/objects/rect.rs:35-63 | a hit needs a non-zero normal-axis direction; it lies in the closed window, on the ray and on the rectangle, carries the material, faces front iff the direction component is negative, and has `u`, `v` in `[0, 1]` for a proper rectangle |
| Rects.CrossingPoint | src/objects/rect.rs:36-42 | the hand-computed coordinates are the ray's point at `t`, which lies in the plane `k` |
| Rects.RatioUnit | src/objects/rect.rs:49-50 | a coordinate inside a proper span maps into `[0, 1]` |
| Rects.HitComplete | src/objects/rect.rs:35-63 | every parameter in the window at which the ray is on the rectangle is the reported hit |
| Rects.CrossingUnique | src/objects/rect.rs:36 | `(k - o) / d` is the only parameter that reaches the plane |
| Rects.HitIsNearest | src/objects/rect.rs:35-63 | rectangle hits keep the hit contract |
| Rects.HitInto | src/objects/xy_rect.rs:30-47 | the out-parameter revision (`xy_rect`, `xz_rect`, `yz_rect`) reports exactly the Option revision's hit and leaves `rec` untouched on a miss |
| Rects.BoundingBox | src/objects/rect.rs:28-34 | the box spans the rectangle exactly and is padded by 0.0001 on each side of the plane, so it has thickness 0.0002 around `k` |
| Rects.BoxHoldsRect | src/objects/xz_rect.rs:48-54 | every point of the rectangle lies in its bounding box |
| SphereRoots.PickRoot | src/objects/sphere.rs:29-35 | the chosen root is the near one when it is in the closed window, else the far one; none iff neither is in the window |
| SphereRoots.OnSphereQuadratic | src/objects/sphere.rs:16-20 | a parameter puts the ray on the sphere iff it solves `a t^2 + 2 half_b t + c = 0` |
| SphereRoots.RootsSolve | src/objects/sphere.rs:25-31 | both roots built from `sqrtd` solve the quadratic |
| SphereRoots.SolutionIsRoot | src/objects/sphere.rs:25-31 | every solution is one of the two roots, and the near root is the smaller |
| SphereRoots.SphereRootSound | src/objects/sphere.rs:15-43 | a reported parameter lies in the window and puts the ray on the sphere |
| SphereRoots.SphereRootNearest | src/objects/sphere.rs:29-35 | if the ray meets the sphere in the window, a root is reported and it is no farther than that meeting |
| SphereRoots.NegativeDiscriminantMisses | src/objects/sphere.rs:22-24 | a negative discriminant means the ray never meets the sphere |
| Spheres.HitInto | src/objects/sphere.rs:15-43 | the in-place update reports exactly the `Hit` function's record and leaves `rec` untouched on a miss |
| Spheres.HitSound | src/objects/sphere.rs:15-43 | a hit lies in the window, on the ray and on the sphere; its normal is the unit outward normal or its negation, it faces front iff the ray meets the outward normal head-on, and it carries the outward normal's `uv` and the sphere's material |
| Spheres.RecordAtSound | src/objects/sphere.rs:36-41 | the record at a root on the sphere has that `t`, the ray's point there, the unit outward normal `(p - center) / radius` or its negation as the face says, that normal's `uv` and the material |
| Spheres.HitIsNearestPoint | src/objects/sphere.rs:29-35 | every meeting with the sphere in the window is matched by a hit at that parameter or nearer |
| Spheres.HitIsNearest | src/objects/sphere.rs:15-43 | sphere hits keep the hit contract |
| Spheres.BoundingBox | src/objects/sphere.rs:45-51 | the box is `center ± (r, r, r)` |
| Spheres.BoxHoldsSphere | src/objects/sphere.rs:45-51 | every point of the sphere lies in its bounding box |
| BasicSpheres.HitInto | src/sphere.rs:19-46 | the older sphere hits iff a root lies in the window, at the chosen root, on the sphere, with the face normal set from `(p - center) / radius`; a miss leaves `rec` untouched |
| MovingSpheres.CenterAffine | src/objects/moving_sphere.rs:89-92 | `center(time0) = center0`, `center(time1) = center1`, and the centre moves linearly in time |
| MovingSpheres.HitInto | src/objects/moving_sphere.rs:28-55 | the sphere at `center(ray.time)` is hit exactly as a static sphere there, with that centre's normal and the material; a miss leaves `rec` untouched |
| MovingSpheres.BoundingBox | src/objects/moving_sphere.rs:57-68 | the box is the smallest box holding the sphere's boxes at both query times |
| MovingSpheres.BoxHoldsPath | src/objects/moving_sphere.rs:57-68 | the box also holds the sphere's box at every time in between |
| BoxRenders.New | src/objects/box_render.rs:22-77 | exactly six sides, each with the material, two per axis at `p0`'s and `p1`'s coordinate |
| BoxRenders.SidesOnSurface | src/objects/box_render.rs:22-77 | a point on a side lies on a face plane of the box and, for an ordered box, in its bounding box |
| BoxRenders.HitIsNearestSide | src/objects/box_render.rs:81-83 | the box hits iff a side hits, in the window, with the nearest side's record |
| BoxRenders.HitIsNearest | src/objects/box_render.rs:81-83 | box hits keep the hit contract |
| Translations.HitMovesBack | src/objects/translate.rs:18-26 | the child is queried with the origin moved by `-offset`; the translated object hits iff the child does, with the child's record moved by `offset` |
| Translations.MovedPoint | src/objects/translate.rs:19-21 | moving the child's point back gives the world ray's point at the same parameter |
| Translations.HitIsNearest | src/objects/translate.rs:18-26 | a translated object keeps the hit contract |
| Translations.BoxMoves | src/objects/translate.rs:27-34 | the box is present iff the child's is, and it is the child's box shifted by `offset` |
| YRotations.RotationInverse | src/objects/y_rotation.rs:56-69 | for `sin^2 + cos^2 = 1` the world-to-object and object-to-world rotations are inverses and keep lengths |
| YRotations.RotationAdjoint | src/objects/y_rotation.rs:56-69 | rotating the normal forward has the same dot product with a direction as the normal has with the direction rotated back |
| YRotations.TurnCorner | src/objects/y_rotation.rs:27-35 | one step of the corner loop is the rotated corner of the child box |
| YRotations.Widen | src/objects/y_rotation.rs:36-41 | one step widens `min`/`max` component by component to take in the rotated corner |
| YRotations.New | src/objects/y_rotation.rs:19-51 | the triple loop stores the child, the angle, whether the child reports a box over `[0, 1]`, and the componentwise bounds of the eight corners of that box, rotated |
| YRotations.CornerWithin | src/objects/y_rotation.rs:25-43 | each rotated corner lies inside the computed bounds |
| YRotations.TurnedBoxHolds | src/objects/y_rotation.rs:19-51 | every point of the child box, rotated, lies inside the computed box |
| YRotations.TurnedAxisY | src/objects/y_rotation.rs:31-39 | the rotated box keeps the child box's y extent |
| YRotations.AsWrittenMisorients | src/objects/y_rotation.rs:63-73 | as written, a quarter turn hit along +x on a face whose child normal is `(0, 0, -m)` is reported as a back face with normal `(m, 0, 0)`, pointing along the ray |
| YRotations.QuarterTurnFlips | src/objects/y_rotation.rs:70-73 | after a quarter turn, the child normal `(0, 0, -m)` rotated to `(-m, 0, 0)` and oriented against the rotated ray `(0, 0, s)` becomes `(m, 0, 0)` on a back face |
| YRotations.AsWrittenReorients | src/objects/y_rotation.rs:55-77 | the as-written hit and the corrected hit agree on whether and where they hit; the as-written record is the corrected one oriented again against the rotated ray |
| YRotations.HitOriented | src/objects/y_rotation.rs:55-77 | the turned object hits iff the child hits the turned ray, with the child's `t`, face, `uv` and material; its normal meets the world ray as the child's met the turned ray, a unit normal stays unit, and the point is the world ray's point at `t` |
| YRotations.HitIsNearest | src/objects/y_rotation.rs:55-77 | a turned object keeps the hit contract |
| ConstantMedia.New | src/objects/constant_medium.rs:14-20 | `neg_inv_density * density = -1` and the boundary and phase function are stored |
| ConstantMedia.HitDistanceNonNeg | src/objects/constant_medium.rs:42 | a positive density and a draw in `(0, 1]` give a non-negative free path |
| ConstantMedia.HitInPlace | src/objects/constant_medium.rs:24-60 | the in-place clamping of `rec1.t`/`rec2.t` returns the `Hit` function's result |
| ConstantMedia.ScatterFrom | src/objects/constant_medium.rs:39-53 | from the clamped stretch `[lo, hi]` on, the code returns `Scatter`: no event when the free path is longer than `(hi - lo) * ray_length`, else the event `hit_distance / ray_length` past `lo` |
| ConstantMedia.MissesWithoutCrossing | src/objects/constant_medium.rs:25-35 | a boundary miss on entry or on the exit search, or a crossing outside the window, gives no hit |
| ConstantMedia.ClampedWithin | src/objects/constant_medium.rs:27-38 | the clamped stretch is `[max(entry, t_min, 0), min(exit, t_max)]` and is empty iff `min(exit, t_max) <= max(entry, t_min)` |
| ConstantMedia.EventInside | src/objects/constant_medium.rs:39-53 | a scattering event lies inside the clamped stretch, the window and the crossing, at free-path distance from the clamped entry, with normal (1,0,0), a front face and the phase function |
| ConstantMedia.ScattersWhenShort | src/objects/constant_medium.rs:39-46 | a free path no longer than the stretch inside always scatters |
| ConstantMedia.BoundingBox | src/objects/constant_medium.rs:61-63 | the box is the boundary's box |
| BvhNodes.BoxOrder | src/bvh_node.rs:77-89 | the lexicographic order on box corners is total, antisymmetric and transitive |
| BvhNodes.BoxCompare | src/bvh_node.rs:77-89 | `Less`, `Equal`, `Greater` exactly as the lexicographic order on `(min, max)` says |
| BvhNodes.Insert | src/bvh_node.rs:61-63 | inserting into a sorted run keeps it sorted and adds exactly the element |
| BvhNodes.SortByBox | src/bvh_node.rs:61-63 | the sort is a permutation and sorted by `box_compare` |
| BvhNodes.New | src/bvh_node.rs:46-76 | one object is both children; two are ordered by `box_compare`; more are sorted and split at the middle; every node's box is the union of its children's, and the leaves are exactly the objects |
| BvhNodes.Split | src/bvh_node.rs:60-69 | the sorted objects split at `len / 2` give two sorted halves built recursively |
| BvhNodes.EmptySliceRecursesOnItself | src/bvh_node.rs:48-66 | in the splitting branch both halves are shorter exactly when the slice is non-empty; an empty slice passes itself to the left call |
| BvhNodes.SortKeepsMembers | src/bvh_node.rs:61-63 | sorting keeps exactly the same objects |
| BvhNodes.HitIsLeafHit | src/bvh_node.rs:15-37 | the tree's hit lies in the window and is some leaf's own hit |
| BvhNodes.LeafWithinBox | src/bvh_node.rs:90-104 | every leaf has a box and it lies within the node's box |
| BvhNodes.HitFindsEveryLeaf | src/bvh_node.rs:15-37 | whenever any leaf hits, the tree hits, no farther than that leaf |
| BvhNodes.HitIsNearest | src/bvh_node.rs:15-37 | for a ray of the shutter interval, with every leaf's hits inside its box, the tree keeps the hit contract: its hit lies in the window, and narrowing the far end keeps that hit when it is no farther and drops it otherwise |
| Lambertians.Scatter | src/material/lamberian.rs:21-36 | always scatters, from `rec.p` at the ray's time, with the albedo's colour, towards `normal + unit vector` or the normal; never near zero unless the normal is |
| Lambertians.ScatterInto | src/material/lamberian.rs:21-36 | the out-parameter writes give the `Scatter` result |
| Metals.New | src/material/metal.rs:38-43 | the fuzz is kept below 1 and clamped to 1 otherwise |
| Metals.NewIdempotent | src/material/metal.rs:38-43 | clamping an already clamped fuzz changes nothing |
| Metals.Scatter | src/material/metal.rs:18-34 | attenuation is the albedo, the ray starts at `rec.p` at the ray's time, it scatters iff the direction leaves the surface, and the direction is within `fuzz` of the mirror direction |
| Metals.ScatterInto | src/material/metal.rs:18-34 | both out-parameters are written, also on a `false` result, as `Scatter` says |
| Metals.SteepRaysScatter | src/material/metal.rs:26-33 | a ray steeper than the fuzz always scatters |
| Metals.MirrorWithoutFuzz | src/material/metal.rs:26-33 | without fuzz the direction is the unit mirror direction, and it scatters iff the ray came in against the normal |
| Dielectrics.ReflactanceAsWrittenWithin | src/material/dielectric.rs:55-59 | as written the coefficient lies in `[0, 1/4]` and is 0 at normal incidence |
| Dielectrics.ReflectanceWithin | src/material/dielectric.rs:55-59 | Schlick's coefficient lies between `r0` and 1, is `r0` at normal incidence and 1 at grazing incidence |
| Dielectrics.ReflactanceAsWrittenAtGrazing | src/material/dielectric.rs:55-59 | at grazing incidence with index 1.5 the formula as written gives 0.0384 where Schlick's gives 1 |
| Dielectrics.RefractionRatio | src/material/dielectric.rs:26-30 | `1 / ir` on a front face, `ir` on a back face |
| Dielectrics.CosTheta | src/material/dielectric.rs:33 | the cosine is at most 1 |
| Dielectrics.Scatter | src/material/dielectric.rs:17-47 | always scatters with attenuation (1,1,1) from `rec.p` at the ray's time; reflects when it cannot refract or when `reflactance` as written exceeds the draw, refracts otherwise |
| Dielectrics.ScatterCorrected | src/material/dielectric.rs:17-47 | the same rule deciding with Schlick's coefficient: reflects when it cannot refract or when Schlick's reflectance exceeds the draw, refracts otherwise |
| Dielectrics.GrazingGlassDecides | src/material/dielectric.rs:36-43 | glass of index 1.5 hit at grazing incidence with draw 0.5 refracts as written, and reflects with Schlick's coefficient |
| Dielectrics.ScatterInto | src/material/dielectric.rs:17-47 | the out-parameter writes give the `Scatter` result, the as-written rule |
| Dielectrics.ScatterIsUnit | src/material/dielectric.rs:31-43 | with a unit normal and true square roots, the scattered direction of both the as-written and the corrected rule is a unit vector that mirrors, or else crosses the surface |
| Isotropics.Scatter | src/material/isotropic.rs:17-28 | always scatters from `rec.p` at the ray's time into a point of the unit ball, with the albedo's colour |
| Isotropics.ScatterInto | src/material/isotropic.rs:17-28 | the out-parameter writes give the `Scatter` result |
| Isotropics.ScatterIgnoresOrientation | src/material/isotropic.rs:17-28 | the result depends only on the point, `uv`, the ray's time and the draws |
| DiffuseLights.New | src/material/diffuse_light.rs:11-15 | the emission texture is stored |
| DiffuseLights.Scatter | src/material/diffuse_light.rs:18-27 | never scatters and leaves both out-parameters as they were |
| DiffuseLights.Emitted | src/material/diffuse_light.rs:28-30 | the emission is the texture's colour at `(u, v, p)` |
| DiffuseLights.SolidLightIsUniform | src/material/diffuse_light.rs:28-30 | a solid-colour light emits the same everywhere |
| SolidColors.New | src/texture/solid_color.rs:11-13 | the colour is stored unchanged |
| SolidColors.Color | src/texture/solid_color.rs:17-19 | the colour is the stored colour |
| SolidColors.ColorIsConstant | src/texture/solid_color.rs:17-19 | the colour does not depend on `u`, `v` or `p` |
| Textures.Color | src/texture.rs:7-9 | dispatch: a solid colour gives its colour, an image gives the image texture's colour, which is (255, 0, 0) without data |
| ImageTextures.Clamp | src/texture/image_texture.rs:36-37 | the clamped value lies in the bounds and is unchanged inside them |
| ImageTextures.PixelIndex | src/texture/image_texture.rs:39-47 | the index is below `n`, is `n - 1` at 1, and is the integer part of `w * n` below 1 |
| ImageTextures.Column | src/texture/image_texture.rs:36-44 | the column is below the width, the last at `u >= 1` and the first at `u <= 0` |
| ImageTextures.Row | src/texture/image_texture.rs:37-47 | the row is below the height, the last at `v <= 0` and the first at `v >= 1` |
| ImageTextures.ColumnContainsU | src/texture/image_texture.rs:39 | inside `[0, 1)` the column is the pixel whose span contains `u * width` |
| ImageTextures.RowContainsV | src/texture/image_texture.rs:37-41 | inside `(0, 1]` the row is the pixel whose span contains `(1 - v) * height` |
| ImageTextures.Color | src/texture/image_texture.rs:34-53 | no data gives (255, 0, 0); otherwise the colour is the channels of the pixel at `Row(v)` and `Column(u)`, in bounds and unchanged |
| Perlins.FloorToI64 | src/perlin.rs:47-49 | the saturating `as i64` cast of the floor lies in the `i64` range and is the floor when that fits |
| Perlins.Fraction | src/perlin.rs:43-45 | `x - floor(x)` lies in `[0, 1)` |
| Perlins.AndLowBits | src/perlin.rs:57-59 | `& 255` (and any `& (2^k - 1)`) is the remainder modulo `2^k` |
| Perlins.XorBelow | src/perlin.rs:56-59 | the XOR of two values below `2^k` is below `2^k` |
| Perlins.LatticeIndex | src/perlin.rs:57-59 | `(i + di) as usize & 255` is below 256 and equals `(i + di) mod 256`, negative `i` included |
| Perlins.Identity | src/perlin.rs:29-32 | the initial table holds `0, 1, …, n-1` in order |
| Perlins.Hash | src/perlin.rs:56-59 | the XOR of three table entries indexes `ran_vec` in bounds |
| Perlins.CornerPeriodic | src/perlin.rs:56-59 | the lattice vector repeats every 256 cells on each axis |
| Perlins.CornerCube | src/perlin.rs:51-62 | the cube holds the lattice vector of each of the eight corners |
| Perlins.Corners | src/perlin.rs:51-62 | the triple loop fills the cube `CornerCube` describes |
| Perlins.NoiseAt | src/perlin.rs:42-65 | `noise` interpolates the corner cube at the fractional position |
| Perlins.NoisePeriodic | src/perlin.rs:42-65 | noise repeats under shifts by 256 on every axis |
| Perlins.CubePeriodic | src/perlin.rs:51-62 | the corner cube repeats every 256 cells |
| Perlins.Weight | src/perlin.rs:88-92 | the octave weight lies in `(0, 1]` (it halves each octave) |
| Perlins.Turb | src/perlin.rs:85-96 | `turb` is the absolute value of the weighted octave sum; it is non-negative and 0 for `depth <= 0` |
| Perlins.TurbBounded | src/perlin.rs:85-96 | with noise bounded by `b`, the octave sum is bounded by `(2 - 2 w_n) b <= 2b` |
| Perlins.IntRangeMapOvershoots | src/random.rs:33-38 | the integer draw `min + sample * (max - min)` leaves the range: 255 on `[0, 255]` gives 65025 |
| Perlins.IndexRandom.constructor | src/perlin.rs:17 | the `usize` generator starts with no draws and draws below 256 |
| Perlins.IndexRandom.Random | src/random.rs:33-38 | the as-written integer draw consumes one draw and scales it |
| Perlins.IndexRandom.RandomIndex | src/perlin.rs:38 | the corrected draw consumes one draw and returns an index in `[0, hi]` |
| Perlins.RangeUp | src/perlin.rs:37 | Rust's `lo..hi` lists `lo, …, hi-1` and is empty when `lo >= hi` |
| Perlins.RangeDown | src/perlin.rs:37 | `(lo..hi).rev()` lists `hi-1, …, lo` |
| Perlins.SwapEach | src/perlin.rs:37-40 | the swap loop consumes one draw per index, keeps the table's elements, and the first swap takes the drawn entry |
| Perlins.PermuteAsWritten | src/perlin.rs:36-41 | as written the loop over `(n - 1)..0` neither swaps nor draws |
| Perlins.PermuteRangeIsEmpty | src/perlin.rs:37 | `255..0` is empty, while the intended descending range has 255 indices |
| Perlins.Permute | src/perlin.rs:36-41 | the corrected shuffle consumes `n - 1` draws, keeps the elements, and puts the drawn entry at `n - 1` |
| Perlins.GeneratePermAsWritten | src/perlin.rs:28-35 | as written the table is the identity and no draw is consumed |
| Perlins.GeneratePerm | src/perlin.rs:28-35 | the corrected table is a permutation of `0..256`, consumes 255 draws, and indexes in bounds |
| Perlins.ArrangementIsTable | src/perlin.rs:28-35 | every permutation of `0..256` has entries below 256 |
| Perlins.RandomVectors | src/perlin.rs:13-16 | 256 vectors from consecutive triples of draws, each component in `[-1, 1)`, consuming 768 draws |
| Perlins.New | src/perlin.rs:12-27 | as written `ran_vec` is 256 vectors from consecutive triples of draws, each component in `[-1, 1)`, and the three tables are each `0, 1, …, 255` with no index drawn |
| Perlins.NewCorrected | src/perlin.rs:12-27 | with the corrected shuffle the same vectors, and three tables that are each a permutation of `0..256`, drawing 255 indices apiece |
| Integrator.Countdown | src/main.rs:176-179 | the `i8` counter with `checked_sub(1).unwrap_or(0)` reaches 0 after at most 129 steps, after `depth` steps when positive |
| Integrator.RayColorIterative | src/main.rs:153-190 | the loop returns the colour and final ray of the path `Trace` describes |
| Integrator.BouncesBounded | src/main.rs:161-188 | the loop scatters at most `depth` times for a positive depth and at most 129 times for any |
| Integrator.AlwaysScattering | src/main.rs:174-179 | in a scene where every ray hits and scatters, the loop runs exactly the counter's full count |
| Integrator.TailAccumulation | src/main.rs:160-188 | when scattering surfaces emit nothing, the loop's colour is the accumulator times the recursive colour `emitted + attenuation * colour(scattered)` with a cut path counted as white |
| Integrator.CutPathCountsAsWhite | src/main.rs:176-179 | on a path cut by the depth limit the loop gives the accumulated attenuation, where the textbook recursion gives black |
| Integrator.ColorNonNeg | src/main.rs:160-187 | non-negative backgrounds, emissions and attenuations give a non-negative colour |

## Left out

- The camera, the scene catalogs, `main`, `work`, progress display, the
  image buffer, PNG encoding and file I/O: outside the rendering core.
- Rayon parallelism (`rayon::join`, `par_sort_unstable_by`, the parallel
  sample reduction): the model is sequential.
- `BvhNodes.SortByBox`: models the unstable parallel sort as a stable
  insertion sort; any sort by the same order gives the same multiset of
  leaves, but objects with equal boxes may be arranged differently.
- The checker and noise textures: colour choice by `sin` of the position and
  by turbulence, which is floating-point trigonometry.
- The smoothstep body of `perlin_interp`: an input function `interp`.
- The internals of `sqrt`, `hypot`, `atan2`, `asin`, `sin`, `cos`,
  `to_radians` and `ln`: inputs with stated relations, as above.
- IEEE-754 rounding, NaN and infinities. Where the source relies on an
  infinity, the model writes out the IEEE outcome instead: a zero direction
  component in the slab test or in a rectangle hit. The NaN cases are
  listed one by one below.
- `Rects.HitAt`, `Rects.HitInto`: on a degenerate span (`a0 == a1` or
  `b0 == b1`) the source stores `u` or `v` as `0 / 0`, a NaN; the model's
  `Ratio` stores 0 there.
- `Rects.Hit`, `Rects.HitInto`: a ray parallel to the plane whose origin
  lies in it (normal-axis direction 0, origin at `k`) makes the source
  compute `t = 0 / 0` (src/objects/rect.rs:36). That NaN passes both range
  tests (src/objects/rect.rs:37, 42), so the source reports a hit with NaN
  `t`, point, `u` and `v`, a back face and the negated axis normal; the
  model reports a miss.
- `MovingSpheres.BoundingBox`: for equal shutter times the source divides
  by zero and returns `true` with NaN corners; the model returns no box.
- `MovingSpheres.HitInto`, `MovingSpheres.Center`: for equal shutter times
  the source's centre is NaN and no comparison with it succeeds; the model
  requires distinct times for the centre and reports a miss for the hit.
- `BvhNodes.New`: the requires stand in for two panics and one
  non-terminating case. An object without a box at times `(0, 0)` makes
  `box_compare` panic (src/bvh_node.rs:84-86), a child without a box over
  the shutter interval makes `get_surrounding_box` panic
  (src/bvh_node.rs:101-103), and an empty slice recurses without end (see
  Findings); the model requires every box to exist and at least one
  object.
- `Spheres.Hit`, `Spheres.HitInto`, `BasicSpheres.HitInto`,
  `MovingSpheres.HitInto`: a zero radius or a zero direction makes the source divide by zero and
  produce NaN; the model reports a miss.
- `ConstantMedia.Hit`: a zero-length direction makes the source divide by
  zero; the model reports a miss.
- `ConstantMedia.New`: requires a non-zero density, where the source would
  store an infinity.
- `Perlins.FloorToI64`: models the saturating `f64 as i64` cast; the
  `i64` overflow of `i + di` at `i64::MAX` is computed on unbounded
  integers before the `usize` reinterpretation.
- `Vectors.RandomUnitVector`, `Lambertians.Scatter`: require a non-zero
  draw in the unit ball (otherwise `unit_vector` divides by zero).
- `Metals.Scatter`, `Dielectrics.Scatter`: require the incoming direction
  to have a non-zero length, for the same reason.
- `Vectors.Get`, `Vectors.With`: require an index below 3, where
  `Index` and `IndexMut` panic with "Index out of bounds"
  (src/vec3.rs:263, 274); the core indexes only with 0, 1 and 2.
- `Vec3::length_squared` is `hypot(...)^2` in the source; the model uses
  `x^2 + y^2 + z^2`, its exact value.
- The `f64` to `Rgb<u8>` conversion and back: output and input encoding.
- `ImageTexture::new`: file I/O and image decoding; the image data is a
  sequence of pixel rows.
- The trait declarations in material.rs, objects.rs and texture.rs: the
  model uses the `Material` and `Texture` datatypes and the `HitFn`/`BoxFn`
  function types in their place. The `Material` trait there lacks
  `emitted`, which the implementing files define.
- The `temp_rec` of `HittableList::hit`: the child methods are functions,
  so a missed child cannot leave a half-written record behind.
- `Integrator.RayColorIterative`: the `&mut Random` passed to each
  material is replaced by the bounce index, and the material dispatch is a
  pair of scene functions; it returns the final ray value (the source
  swaps it into the caller's `ray`).
- `ThreadRng` and `Uniform`: the draws are an infinite input stream.

## Findings

| source | as written | input that shows it | evidently intended | confidence | as-written member | corrected member |
|---|---|---|---|---|---|---|
| src/material/dielectric.rs:55-59 | `reflactance` returns `r0 * (1 - r0) * (1 - cosine)^5` | `cosine = 0`, `ref_idx = 1.5`: 0.0384 instead of 1 | Schlick's approximation `r0 + (1 - r0) * (1 - cosine)^5` | high, not executed | Dielectrics.ReflactanceAsWrittenAtGrazing | Dielectrics.ReflectanceWithin |
| src/objects/y_rotation.rs:63-73 | `set_face_normal` is called with the ray in the child's frame and the normal in world space | quarter turn (`sin = 1`, `cos = 0`), ray along +x hitting a face whose child normal is (0, 0, -m) for any `m > 0`: reported as a back face with normal (m, 0, 0), pointing along the ray | keep the child's orientation and rotate the normal to world space | high, not executed | YRotations.AsWrittenMisorients | YRotations.HitOriented |
| src/perlin.rs:36-41 | `for i in (n - 1)..0` is an empty range | `n = 256`: no swap, every table stays `0, 1, …, 255` | `for i in (1..n).rev()`, a Fisher-Yates shuffle | high, not executed | Perlins.PermuteAsWritten | Perlins.Permute |
| src/perlin.rs:38 | `rng.random(Some(0), Some(i))` on `Random<usize>` computes `0 + sample * i`, a product, not a draw in `[0, i]` | sample 255 with `i = 255`: 65025, far past the table (hidden today by the empty loop) | a draw in `[0, i]` | medium, not executed | Perlins.IntRangeMapOvershoots | Perlins.IndexRandom.RandomIndex |
| src/bvh_node.rs:48-66 | an empty slice is neither of length 1 nor 2, so it is sorted and split at `mid = 0`, and the left call gets the empty slice again | `BvhNode::new(&mut [], t0, t1)`: unbounded recursion until the stack overflows | reject an empty slice (or return an empty node) before splitting | medium, not executed | BvhNodes.EmptySliceRecursesOnItself | BvhNodes.New |
