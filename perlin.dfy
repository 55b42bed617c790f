/** `Perlin` (src/perlin.rs): lattice noise. A table of 256 random vectors
    is indexed through three tables of the numbers `0..256`; a lattice point
    `(i, j, k)` picks the vector at `perm_x[i & 255] ^ perm_y[j & 255] ^
    perm_z[k & 255]`. The smoothing `perlin_interp` of the eight corner
    vectors is a floating-point polynomial and enters as the input
    `interp`. */
module Perlins {
  import opened Options
  import opened Vectors
  import opened Sampling
  import RealFacts

  // ---------------------------------------------------------------------
  // `usize` bit operations on natural numbers

  function Pow2(k: nat): (r: nat)
    ensures r >= 1
  {
    if k == 0 then 1 else 2 * Pow2(k - 1)
  }

  /** Bitwise `&`, one bit at a time from the lowest. */
  function BitAnd(a: nat, b: nat): nat
    decreases a
  {
    if a == 0 || b == 0 then 0 else 2 * BitAnd(a / 2, b / 2) + (a % 2) * (b % 2)
  }

  /** Bitwise `^`, one bit at a time from the lowest. */
  function BitXor(a: nat, b: nat): nat
    decreases a + b
  {
    if a == 0 && b == 0 then 0 else 2 * BitXor(a / 2, b / 2) + (a % 2 + b % 2) % 2
  }

  /** Masking with `2^k - 1` keeps the remainder modulo `2^k`. */
  lemma {:induction false} AndLowBits(a: nat, k: nat)
    ensures BitAnd(a, Pow2(k) - 1) == a % Pow2(k)
  {
    var m := Pow2(k) - 1;
    if k == 0 {
      assert m == 0;
    } else if a == 0 {
      assert 0 % Pow2(k) == 0;
    } else {
      var p := Pow2(k - 1);
      MaskHalves(k);
      LowBitStep(a, m);
      AndLowBits(a / 2, k - 1);
      HalfMod(a, p);
    }
  }

  /** `2^k - 1` is odd and halves to `2^(k-1) - 1`. */
  lemma MaskHalves(k: nat)
    requires k > 0
    ensures Pow2(k) - 1 != 0 && (Pow2(k) - 1) / 2 == Pow2(k - 1) - 1 && (Pow2(k) - 1) % 2 == 1
  {
    assert Pow2(k) - 1 == 2 * (Pow2(k - 1) - 1) + 1;
  }

  /** One step of `&` with an odd mask keeps the lowest bit of `a`. */
  lemma LowBitStep(a: nat, m: nat)
    requires a != 0 && m != 0 && m % 2 == 1
    ensures BitAnd(a, m) == 2 * BitAnd(a / 2, m / 2) + a % 2
  {
  }

  /** `a mod 2p` is twice `(a / 2) mod p` plus the lowest bit of `a`. */
  lemma HalfMod(a: nat, p: nat)
    requires p >= 1
    ensures a % (2 * p) == 2 * ((a / 2) % p) + a % 2
  {
    var q, r := (a / 2) / p, (a / 2) % p;
    assert a / 2 == p * q + r;
    assert a == (2 * p) * q + (2 * r + a % 2);
    ModUnique(a, 2 * p, q, 2 * r + a % 2);
  }

  lemma ModUnique(a: int, d: int, q: int, r: int)
    requires 0 < d && a == d * q + r && 0 <= r < d
    ensures a % d == r
  {
    var q', r' := a / d, a % d;
    assert d * q' + r' == d * q + r;
    if q' > q {
      assert d * (q' - q) == r - r';
      MulAtLeast(d, q' - q);
    } else if q' < q {
      assert d * (q - q') == r' - r;
      MulAtLeast(d, q - q');
    }
  }

  lemma MulAtLeast(d: int, n: int)
    requires 0 < d && 1 <= n
    ensures d <= d * n
  {
    assert d * n == d + d * (n - 1);
    assert 0 <= d * (n - 1);
  }

  /** The XOR of numbers below `2^k` stays below `2^k`. */
  lemma {:induction false} XorBelow(a: nat, b: nat, k: nat)
    requires a < Pow2(k) && b < Pow2(k)
    ensures BitXor(a, b) < Pow2(k)
  {
    if k > 0 && !(a == 0 && b == 0) {
      XorBelow(a / 2, b / 2, k - 1);
    }
  }

  /** `x mod 2^64` keeps `x mod 256`, since 256 divides 2^64. */
  lemma ModOfMod(x: int)
    ensures (x % UsizeModulus) % 256 == x % 256
  {
    var q, r := x / UsizeModulus, x % UsizeModulus;
    assert x == 256 * (0x100_0000_0000_0000 * q) + r;
    ModUnique(r, 256, r / 256, r % 256);
    ModUnique(x, 256, 0x100_0000_0000_0000 * q + r / 256, r % 256);
  }

  /** Adding a multiple of 256 keeps the remainder modulo 256. */
  lemma ModShift(x: int, a: int)
    ensures (x + 256 * a) % 256 == x % 256
  {
    ModUnique(x + 256 * a, 256, x / 256 + a, x % 256);
  }

  // ---------------------------------------------------------------------
  // Integer casts and the lattice

  const I64Min: int := -0x8000_0000_0000_0000
  const I64Max: int := 0x7FFF_FFFF_FFFF_FFFF
  const UsizeModulus: nat := 0x1_0000_0000_0000_0000

  /** The number of lattice vectors and the length of each table. */
  const PointCount: nat := 256

  /** `x.floor() as i64`: the floor, saturated at the ends of `i64`. */
  function FloorToI64(x: real): (r: int)
    ensures I64Min <= r <= I64Max
    ensures I64Min <= x.Floor <= I64Max ==> r == x.Floor
  {
    if x.Floor < I64Min then I64Min else if x.Floor > I64Max then I64Max else x.Floor
  }

  /** The fractional part `x - x.floor()`. */
  function Fraction(x: real): (r: real)
    ensures 0.0 <= r < 1.0
  {
    x - x.Floor as real
  }

  /** `as usize` of a 64-bit two's complement value: its value modulo 2^64. */
  function AsUsize(x: int): nat {
    x % UsizeModulus
  }

  /** `(i + di) as usize & 255`: below 256 and equal to `i + di` modulo 256,
      negative values included. */
  function LatticeIndex(x: int): (r: nat)
    ensures r < PointCount && r == x % PointCount
  {
    AndLowBits(AsUsize(x), 8);
    assert Pow2(8) == 256;
    ModOfMod(x);
    BitAnd(AsUsize(x), 255)
  }

  // ---------------------------------------------------------------------
  // The noise generator

  datatype Perlin = Perlin(ranVec: seq<Vec3>, permX: seq<nat>, permY: seq<nat>, permZ: seq<nat>)

  /** A table of indices into `ran_vec`. */
  predicate IndexTable(p: seq<nat>) {
    |p| == PointCount && forall n :: 0 <= n < |p| ==> p[n] < PointCount
  }

  predicate Valid(perlin: Perlin) {
    |perlin.ranVec| == PointCount &&
    IndexTable(perlin.permX) && IndexTable(perlin.permY) && IndexTable(perlin.permZ)
  }

  /** `[0, 1, ..., n - 1]`, the table `perlin_generate_perm` starts from. */
  function Identity(n: nat): (r: seq<nat>)
    ensures |r| == n && forall m :: 0 <= m < n ==> r[m] == m
  {
    seq(n, m => m)
  }

  /** `perm_x[i & 255] ^ perm_y[j & 255] ^ perm_z[k & 255]`: always an index
      of `ran_vec`. */
  function Hash(perlin: Perlin, i: int, j: int, k: int): (r: nat)
    requires Valid(perlin)
    ensures r < PointCount
  {
    var a := perlin.permX[LatticeIndex(i)];
    var b := perlin.permY[LatticeIndex(j)];
    var c := perlin.permZ[LatticeIndex(k)];
    assert Pow2(8) == PointCount;
    XorBelow(a, b, 8);
    XorBelow(BitXor(a, b), c, 8);
    BitXor(BitXor(a, b), c)
  }

  /** The lattice vector at `(i, j, k)`. */
  function Corner(perlin: Perlin, i: int, j: int, k: int): Vec3
    requires Valid(perlin)
  {
    perlin.ranVec[Hash(perlin, i, j, k)]
  }

  /** The lattice repeats every 256 steps along each axis. */
  lemma CornerPeriodic(perlin: Perlin, i: int, j: int, k: int, a: int, b: int, c: int)
    requires Valid(perlin)
    ensures Corner(perlin, i + 256 * a, j + 256 * b, k + 256 * c) == Corner(perlin, i, j, k)
  {
    ModShift(i, a);
    ModShift(j, b);
    ModShift(k, c);
  }

  /** `[[[Vec3; 2]; 2]; 2]`: the eight corner vectors of a lattice cell. */
  type Cube = seq<seq<seq<Vec3>>>

  predicate IsCube(c: Cube) {
    |c| == 2 && forall a :: 0 <= a < 2 ==> |c[a]| == 2 && forall b :: 0 <= b < 2 ==> |c[a][b]| == 2
  }

  /** The cell at `(i, j, k)`: entry `[di][dj][dk]` is the lattice vector at
      `(i + di, j + dj, k + dk)`. */
  function CornerCube(perlin: Perlin, i: int, j: int, k: int): (c: Cube)
    requires Valid(perlin)
    ensures IsCube(c)
    ensures forall a, b, d :: 0 <= a < 2 && 0 <= b < 2 && 0 <= d < 2 ==>
      c[a][b][d] == Corner(perlin, i + a, j + b, k + d)
  {
    seq(2, a => seq(2, b => seq(2, d => Corner(perlin, i + a, j + b, k + d))))
  }

  /** Two cubes with the same eight entries are equal. */
  lemma SameCube(c: Cube, e: Cube)
    requires IsCube(c) && IsCube(e)
    requires forall a, b, d :: 0 <= a < 2 && 0 <= b < 2 && 0 <= d < 2 ==> c[a][b][d] == e[a][b][d]
    ensures c == e
  {
    forall a | 0 <= a < 2
      ensures c[a] == e[a]
    {
      forall b | 0 <= b < 2
        ensures c[a][b] == e[a][b]
      {
      }
    }
  }

  /** The triple loop of `noise` that fills the cell's corner vectors (the
      outer loop here, the inner two in `FillFace` and `FillEdge`). */
  method Corners(perlin: Perlin, i: int, j: int, k: int) returns (c: Cube)
    requires Valid(perlin)
    ensures c == CornerCube(perlin, i, j, k)
  {
    var zero := Vec3(0.0, 0.0, 0.0);
    c := [[[zero, zero], [zero, zero]], [[zero, zero], [zero, zero]]];
    for di := 0 to 2
      invariant IsCube(c)
      invariant forall a, b, d :: 0 <= a < di && 0 <= b < 2 && 0 <= d < 2 ==>
        c[a][b][d] == Corner(perlin, i + a, j + b, k + d)
    {
      c := FillFace(perlin, i, j, k, di, c);
    }
    SameCube(c, CornerCube(perlin, i, j, k));
  }

  /** The middle loop of the corner fill: the four entries `[di][_][_]`. */
  method FillFace(perlin: Perlin, i: int, j: int, k: int, di: int, c: Cube) returns (c': Cube)
    requires Valid(perlin) && IsCube(c) && 0 <= di < 2
    ensures IsCube(c') && c'[1 - di] == c[1 - di]
    ensures forall b, d :: 0 <= b < 2 && 0 <= d < 2 ==> c'[di][b][d] == Corner(perlin, i + di, j + b, k + d)
  {
    c' := c;
    for dj := 0 to 2
      invariant IsCube(c') && c'[1 - di] == c[1 - di]
      invariant forall b, d :: 0 <= b < dj && 0 <= d < 2 ==> c'[di][b][d] == Corner(perlin, i + di, j + b, k + d)
    {
      c' := FillEdge(perlin, i, j, k, di, dj, c');
    }
  }

  /** The innermost loop of the corner fill: the two entries `[di][dj][_]`. */
  method FillEdge(perlin: Perlin, i: int, j: int, k: int, di: int, dj: int, c: Cube) returns (c': Cube)
    requires Valid(perlin) && IsCube(c) && 0 <= di < 2 && 0 <= dj < 2
    ensures IsCube(c') && c'[1 - di] == c[1 - di] && c'[di][1 - dj] == c[di][1 - dj]
    ensures forall d :: 0 <= d < 2 ==> c'[di][dj][d] == Corner(perlin, i + di, j + dj, k + d)
  {
    c' := c;
    for dk := 0 to 2
      invariant IsCube(c') && c'[1 - di] == c[1 - di] && c'[di][1 - dj] == c[di][1 - dj]
      invariant forall d :: 0 <= d < dk ==> c'[di][dj][d] == Corner(perlin, i + di, j + dj, k + d)
    {
      c' := c'[di := c'[di][dj := c'[di][dj][dk := Corner(perlin, i + di, j + dj, k + dk)]]];
    }
  }

  /** `Perlin::noise` as a value: the cell of the point's floors and the
      fractional parts, smoothed by `interp`. */
  function Noise(perlin: Perlin, p: Vec3, interp: (Cube, real, real, real) -> real): real
    requires Valid(perlin)
  {
    var cube := CornerCube(perlin, FloorToI64(p.x), FloorToI64(p.y), FloorToI64(p.z));
    interp(cube, Fraction(p.x), Fraction(p.y), Fraction(p.z))
  }

  /** `Perlin::noise`. */
  method NoiseAt(perlin: Perlin, p: Vec3, interp: (Cube, real, real, real) -> real) returns (n: real)
    requires Valid(perlin)
    ensures n == Noise(perlin, p, interp)
  {
    var u := p.x - p.x.Floor as real;
    var v := p.y - p.y.Floor as real;
    var w := p.z - p.z.Floor as real;
    var i := FloorToI64(p.x);
    var j := FloorToI64(p.y);
    var k := FloorToI64(p.z);
    var c := Corners(perlin, i, j, k);
    n := interp(c, u, v, w);
  }

  /** The point's floors lie in `i64`, so the casts do not saturate. */
  predicate FloorsInI64(p: Vec3) {
    I64Min <= p.x.Floor <= I64Max && I64Min <= p.y.Floor <= I64Max && I64Min <= p.z.Floor <= I64Max
  }

  /** The noise repeats every 256 units along each axis (as long as the
      floors stay inside `i64`). */
  lemma NoisePeriodic(perlin: Perlin, p: Vec3, interp: (Cube, real, real, real) -> real, a: int, b: int, c: int)
    requires Valid(perlin)
    requires FloorsInI64(p) && FloorsInI64(Add(p, Vec3((256 * a) as real, (256 * b) as real, (256 * c) as real)))
    ensures Noise(perlin, Add(p, Vec3((256 * a) as real, (256 * b) as real, (256 * c) as real)), interp) ==
            Noise(perlin, p, interp)
  {
    var q := Add(p, Vec3((256 * a) as real, (256 * b) as real, (256 * c) as real));
    FloorShift(p.x, 256 * a);
    FloorShift(p.y, 256 * b);
    FloorShift(p.z, 256 * c);
    CubePeriodic(perlin, p.x.Floor, p.y.Floor, p.z.Floor, a, b, c);
  }

  lemma FloorShift(x: real, n: int)
    ensures (x + n as real).Floor == x.Floor + n
    ensures Fraction(x + n as real) == Fraction(x)
  {
  }

  /** Cells 256 steps apart along each axis have the same corners. */
  lemma CubePeriodic(perlin: Perlin, i: int, j: int, k: int, a: int, b: int, c: int)
    requires Valid(perlin)
    ensures CornerCube(perlin, i + 256 * a, j + 256 * b, k + 256 * c) == CornerCube(perlin, i, j, k)
  {
    var shifted, cube := CornerCube(perlin, i + 256 * a, j + 256 * b, k + 256 * c), CornerCube(perlin, i, j, k);
    forall x, y, z | 0 <= x < 2 && 0 <= y < 2 && 0 <= z < 2
      ensures shifted[x][y][z] == cube[x][y][z]
    {
      CornerPeriodic(perlin, i + x, j + y, k + z, a, b, c);
      assert i + 256 * a + x == (i + x) + 256 * a;
    }
    SameCube(shifted, cube);
  }

  // ---------------------------------------------------------------------
  // Turbulence

  /** The weight of octave `o`: `1 / 2^o`, halved from one octave to the
      next. */
  function Weight(o: nat): (w: real)
    ensures 0.0 < w <= 1.0
  {
    if o == 0 then 1.0 else 0.5 * Weight(o - 1)
  }

  /** The point of octave `o`: `p` doubled `o` times. */
  function Octave(p: Vec3, o: nat): Vec3 {
    if o == 0 then p else Scale(Octave(p, o - 1), 2.0)
  }

  /** The sum `turb` accumulates over the first `n` octaves of `noise`. */
  function OctaveSum(noise: Vec3 -> real, p: Vec3, n: nat): real {
    if n == 0 then 0.0
    else OctaveSum(noise, p, n - 1) + Weight(n - 1) * noise(Octave(p, n - 1))
  }

  /** The generator's noise as a function of the point. */
  function NoiseOf(perlin: Perlin, interp: (Cube, real, real, real) -> real): Vec3 -> real
    requires Valid(perlin)
  {
    q => Noise(perlin, q, interp)
  }

  /** `Perlin::turb`: `depth` octaves (none when `depth <= 0`), each at half
      the weight and twice the frequency of the one before; the absolute
      value of the sum, so never negative. */
  method Turb(perlin: Perlin, p: Vec3, depth: int, interp: (Cube, real, real, real) -> real) returns (r: real)
    requires Valid(perlin)
    ensures r == Abs(OctaveSum(NoiseOf(perlin, interp), p, if depth <= 0 then 0 else depth))
    ensures 0.0 <= r
    ensures depth <= 0 ==> r == 0.0
  {
    var accum := 0.0;
    var tempP := p;
    var weight := 1.0;
    var o := 0;
    ghost var noise := NoiseOf(perlin, interp);
    while o < depth
      invariant 0 <= o && (o <= depth || o == 0)
      invariant accum == OctaveSum(noise, p, o)
      invariant tempP == Octave(p, o) && weight == Weight(o)
      decreases depth - o
    {
      accum, tempP, weight := AddOctave(perlin, p, interp, o, accum, tempP, weight);
      o := o + 1;
    }
    assert o == (if depth <= 0 then 0 else depth);
    r := Abs(accum);
  }

  /** One turn of the loop of `turb`: the noise at the current point joins
      the sum at the current weight, the weight halves and the point
      doubles. */
  method AddOctave(perlin: Perlin, p: Vec3, interp: (Cube, real, real, real) -> real, o: nat,
                   accum: real, tempP: Vec3, weight: real) returns (accum': real, tempP': Vec3, weight': real)
    requires Valid(perlin)
    requires accum == OctaveSum(NoiseOf(perlin, interp), p, o) && tempP == Octave(p, o) && weight == Weight(o)
    ensures accum' == OctaveSum(NoiseOf(perlin, interp), p, o + 1)
    ensures tempP' == Octave(p, o + 1) && weight' == Weight(o + 1)
  {
    var n := NoiseAt(perlin, tempP, interp);
    OctaveAdvance(NoiseOf(perlin, interp), p, o, accum, tempP, weight, n);
    accum' := accum + weight * n;
    weight' := weight * 0.5;
    tempP' := Scale(tempP, 2.0);
  }

  /** When the noise never exceeds `bound` in magnitude, `n` octaves sum to
      at most `(2 - 2 / 2^n) * bound`, below twice the bound. */
  lemma {:induction false} TurbBounded(noise: Vec3 -> real, p: Vec3, n: nat, bound: real)
    requires 0.0 <= bound
    requires forall q :: Abs(noise(q)) <= bound
    ensures Abs(OctaveSum(noise, p, n)) <= (2.0 - 2.0 * Weight(n)) * bound <= 2.0 * bound
  {
    WeightedBelowTwice(Weight(n), bound);
    if n > 0 {
      TurbBounded(noise, p, n - 1, bound);
      TurbStep(noise, p, n, bound);
    }
  }

  /** The step from `n - 1` octaves to `n`. */
  lemma TurbStep(noise: Vec3 -> real, p: Vec3, n: nat, bound: real)
    requires 0.0 <= bound && n > 0
    requires Abs(noise(Octave(p, n - 1))) <= bound
    requires Abs(OctaveSum(noise, p, n - 1)) <= (2.0 - 2.0 * Weight(n - 1)) * bound
    ensures Abs(OctaveSum(noise, p, n)) <= (2.0 - 2.0 * Weight(n)) * bound
  {
    OctaveSumStep(noise, p, n);
    OctaveBound(OctaveSum(noise, p, n - 1), Weight(n - 1), Weight(n), noise(Octave(p, n - 1)), bound,
                OctaveSum(noise, p, n));
  }

  /** One turn of the loop of `turb` moves every accumulator to the next
      octave. */
  lemma OctaveAdvance(noise: Vec3 -> real, p: Vec3, o: nat, accum: real, tempP: Vec3, weight: real, n: real)
    requires accum == OctaveSum(noise, p, o) && tempP == Octave(p, o) && weight == Weight(o)
    requires n == noise(tempP)
    ensures accum + weight * n == OctaveSum(noise, p, o + 1)
    ensures weight * 0.5 == Weight(o + 1) && Scale(tempP, 2.0) == Octave(p, o + 1)
  {
    OctaveSumStep(noise, p, o + 1);
  }

  lemma OctaveSumStep(noise: Vec3 -> real, p: Vec3, n: nat)
    requires n > 0
    ensures OctaveSum(noise, p, n) == OctaveSum(noise, p, n - 1) + Weight(n - 1) * noise(Octave(p, n - 1))
    ensures Weight(n) == 0.5 * Weight(n - 1)
  {
  }

  lemma WeightedBelowTwice(w: real, bound: real)
    requires 0.0 < w && 0.0 <= bound
    ensures (2.0 - 2.0 * w) * bound <= 2.0 * bound
  {
    RealFacts.MulNonNeg(2.0 * w, bound);
    assert (2.0 - 2.0 * w) * bound == 2.0 * bound - (2.0 * w) * bound;
  }

  /** One more octave of weight `w` keeps the running bound. */
  lemma OctaveBound(prev: real, w: real, wNext: real, noise: real, bound: real, next: real)
    requires 0.0 < w && wNext == 0.5 * w && 0.0 <= bound && Abs(noise) <= bound
    requires Abs(prev) <= (2.0 - 2.0 * w) * bound && next == prev + w * noise
    ensures Abs(next) <= (2.0 - 2.0 * wNext) * bound
  {
    var wb, wa := w * bound, w * Abs(noise);
    assert w * (bound - Abs(noise)) == wb - wa;
    RealFacts.MulNonNeg(w, bound - Abs(noise));
    ScaledAbs(w, noise, wa);
    assert (2.0 - 2.0 * w) * bound == 2.0 * bound - 2.0 * wb;
    assert (2.0 - 2.0 * wNext) * bound == 2.0 * bound - wb;
  }

  lemma ScaledAbs(w: real, x: real, wa: real)
    requires 0.0 < w && wa == w * Abs(x)
    ensures Abs(w * x) == wa
  {
    if x < 0.0 {
      assert w * x == -(w * -x);
      RealFacts.MulNonNeg(w, -x);
    } else {
      RealFacts.MulNonNeg(w, x);
    }
  }

  // ---------------------------------------------------------------------
  // The permutation tables

  /** `Random::random` for `usize` as written: `min + sample * (max - min)`
      with both bounds, the bare sample otherwise. */
  function IntRangeMap(sample: int, min: Option<int>, max: Option<int>): int {
    if min.Some? && max.Some? then min.value + sample * (max.value - min.value) else sample
  }

  /** The generator `Perlin::new` builds for the tables samples
      `Uniform::new(0, 256)`, so a draw is a whole number below 256 and the
      map above scales it instead of confining it: asked for `[0, 255]`, a
      draw of 255 gives 65025, far past the table's end. */
  lemma IntRangeMapOvershoots()
    ensures IntRangeMap(255, Some(0), Some(255)) == 65025
    ensures IntRangeMap(2, Some(0), Some(1)) > 1
  {
  }

  /** `Random<usize>` over `Uniform::new(0, 256)`: an endless stream of
      draws below 256; `drawn` counts those taken. */
  class IndexRandom {
    const stream: nat -> nat
    var drawn: nat

    ghost predicate Valid() {
      forall n: nat :: stream(n) < PointCount
    }

    constructor (stream: nat -> nat)
      requires forall n: nat :: stream(n) < PointCount
      ensures Valid() && this.stream == stream && drawn == 0
    {
      this.stream := stream;
      drawn := 0;
    }

    /** `Random::random`, as written. */
    method Random(min: Option<int>, max: Option<int>) returns (r: int)
      modifies this
      ensures drawn == old(drawn) + 1
      ensures r == IntRangeMap(stream(old(drawn)), min, max)
    {
      var sample := stream(drawn);
      drawn := drawn + 1;
      r := IntRangeMap(sample, min, max);
    }

    /** One draw confined to `[0, hi]`, which a shuffle step at `hi`
        needs: the draw reduced modulo `hi + 1`. */
    method RandomIndex(hi: nat) returns (r: nat)
      modifies this
      ensures drawn == old(drawn) + 1
      ensures r == stream(old(drawn)) % (hi + 1) && r <= hi
    {
      var sample := stream(drawn);
      drawn := drawn + 1;
      r := sample % (hi + 1);
    }
  }

  /** The values the range `lo..hi` yields: none when `lo >= hi`. */
  function RangeUp(lo: int, hi: int): (r: seq<int>)
    ensures |r| == if lo < hi then hi - lo else 0
    ensures forall n :: 0 <= n < |r| ==> r[n] == lo + n
    decreases hi - lo
  {
    if lo < hi then [lo] + RangeUp(lo + 1, hi) else []
  }

  /** The values `(lo..hi).rev()` yields: from `hi - 1` down to `lo`. */
  function RangeDown(lo: int, hi: int): (r: seq<int>)
    ensures |r| == if lo < hi then hi - lo else 0
    ensures forall n :: 0 <= n < |r| ==> r[n] == hi - 1 - n
    decreases hi - lo
  {
    if lo < hi then [hi - 1] + RangeDown(lo, hi - 1) else []
  }

  /** The loop of `permute` over the indices `order`: each `i` draws a
      target in `[0, i]` and swaps `array[i]` with `array[target]`. The
      table keeps its elements; when the first index is the largest, it
      ends up holding the element the first draw picked. */
  method SwapEach(rng: IndexRandom, table: array<nat>, order: seq<int>)
    requires forall n :: 0 <= n < |order| ==> 0 <= order[n] < table.Length
    modifies rng, table
    ensures rng.drawn == old(rng.drawn) + |order|
    ensures multiset(table[..]) == multiset(old(table[..]))
    ensures |order| == 0 ==> table[..] == old(table[..])
    ensures 0 < |order| && (forall n :: 0 < n < |order| ==> order[n] < order[0]) ==>
      table[order[0]] == old(table[..])[rng.stream(old(rng.drawn)) % (order[0] + 1)]
  {
    for n := 0 to |order|
      invariant rng.drawn == old(rng.drawn) + n
      invariant multiset(table[..]) == multiset(old(table[..]))
      invariant n == 0 ==> table[..] == old(table[..])
      invariant 0 < n && (forall m :: 0 < m < |order| ==> order[m] < order[0]) ==>
        table[order[0]] == old(table[..])[rng.stream(old(rng.drawn)) % (order[0] + 1)]
    {
      var i := order[n];
      var target := rng.RandomIndex(i);
      ghost var before := table[..];
      table[i], table[target] := table[target], table[i];
      SwapKeepsElements(before, table[..], i, target);
    }
  }

  lemma SwapKeepsElements(before: seq<nat>, after: seq<nat>, i: nat, j: nat)
    requires i < |before| && j < |before|
    requires after == before[i := before[j]][j := before[i]]
    ensures multiset(after) == multiset(before)
  {
  }

  /** `Perlin::permute` as written: the range `(n - 1)..0` is empty for
      every `n >= 1`, so nothing is drawn and nothing moves. (`n = 0` would
      underflow `n - 1`.) */
  method PermuteAsWritten(rng: IndexRandom, table: array<nat>, n: nat)
    requires 1 <= n <= table.Length
    modifies rng, table
    ensures table[..] == old(table[..]) && rng.drawn == old(rng.drawn)
  {
    SwapEach(rng, table, RangeUp(n - 1, 0));
  }

  /** The shuffle of the 256 entries: the loop as written runs over no
      index at all, while the descending range the shuffle needs has 255. */
  lemma PermuteRangeIsEmpty()
    ensures RangeUp(PointCount - 1, 0) == []
    ensures |RangeDown(1, PointCount)| == PointCount - 1
  {
  }

  /** `permute` with the loop the shuffle needs, `i` from `n - 1` down to 1,
      each step swapping in an element drawn from `[0, i]`: the table keeps
      its elements, and its last entry is the one the first draw picked. */
  method Permute(rng: IndexRandom, table: array<nat>, n: nat)
    requires 1 <= n <= table.Length
    modifies rng, table
    ensures rng.drawn == old(rng.drawn) + (n - 1)
    ensures multiset(table[..]) == multiset(old(table[..]))
    ensures 2 <= n ==> table[n - 1] == old(table[..])[rng.stream(old(rng.drawn)) % n]
  {
    SwapEach(rng, table, RangeDown(1, n));
  }

  /** `perlin_generate_perm` as written: `[0, 1, ..., 255]`, left as it is
      by `PermuteAsWritten`. */
  method GeneratePermAsWritten(rng: IndexRandom) returns (p: seq<nat>)
    modifies rng
    ensures p == Identity(PointCount) && rng.drawn == old(rng.drawn)
  {
    var a := new nat[PointCount];
    for i := 0 to PointCount
      invariant a[..i] == Identity(i) && rng.drawn == old(rng.drawn)
    {
      a[i] := i;
    }
    assert a[..] == a[..PointCount];
    PermuteAsWritten(rng, a, PointCount);
    p := a[..];
  }

  /** `perlin_generate_perm` with the shuffle: an arrangement of the numbers
      below 256, so a table of indices of `ran_vec`. */
  method GeneratePerm(rng: IndexRandom) returns (p: seq<nat>)
    modifies rng
    ensures rng.drawn == old(rng.drawn) + (PointCount - 1)
    ensures multiset(p) == multiset(Identity(PointCount))
    ensures IndexTable(p)
  {
    var a := new nat[PointCount];
    for i := 0 to PointCount
      invariant a[..i] == Identity(i) && rng.drawn == old(rng.drawn)
    {
      a[i] := i;
    }
    assert a[..] == a[..PointCount];
    Permute(rng, a, PointCount);
    p := a[..];
    ArrangementIsTable(p);
  }

  lemma ArrangementIsTable(p: seq<nat>)
    requires multiset(p) == multiset(Identity(PointCount))
    ensures IndexTable(p)
  {
    assert |p| == |multiset(p)| == PointCount;
    forall n | 0 <= n < |p|
      ensures p[n] < PointCount
    {
      assert p[n] in multiset(Identity(PointCount));
    }
  }

  /** The first loop of `Perlin::new`: 256 vectors with components in
      `[-1, 1)`, three consecutive draws each. */
  method RandomVectors(random: Random) returns (ranvec: seq<Vec3>)
    requires random.Valid()
    modifies random
    ensures random.Valid() && random.drawn == old(random.drawn) + 3 * PointCount
    ensures |ranvec| == PointCount
    ensures forall n :: 0 <= n < PointCount ==>
      var d := old(random.drawn) + 3 * n;
      ranvec[n] == RandomVec(random.stream(d), random.stream(d + 1), random.stream(d + 2), Some(-1.0), Some(1.0))
    ensures forall n :: 0 <= n < PointCount ==>
      -1.0 <= ranvec[n].x < 1.0 && -1.0 <= ranvec[n].y < 1.0 && -1.0 <= ranvec[n].z < 1.0
  {
    ranvec := [];
    for i := 0 to PointCount
      invariant random.Valid() && random.drawn == old(random.drawn) + 3 * i && |ranvec| == i
      invariant forall n :: 0 <= n < i ==>
        var d := old(random.drawn) + 3 * n;
        ranvec[n] == RandomVec(random.stream(d), random.stream(d + 1), random.stream(d + 2), Some(-1.0), Some(1.0))
    {
      var v := RandomVecFrom(random, Some(-1.0), Some(1.0));
      ranvec := ranvec + [v];
    }
  }

  /** `Perlin::new` as written: the 256 random vectors, then three tables
      from `perlin_generate_perm`, whose shuffle never runs, so every table
      is `0, 1, ..., 255` and the index generator is never drawn from. */
  method New(random: Random, rng: IndexRandom) returns (perlin: Perlin)
    requires random.Valid()
    modifies random, rng
    ensures Valid(perlin)
    ensures random.drawn == old(random.drawn) + 3 * PointCount
    ensures forall n :: 0 <= n < PointCount ==>
      var d := old(random.drawn) + 3 * n;
      perlin.ranVec[n] == RandomVec(random.stream(d), random.stream(d + 1), random.stream(d + 2), Some(-1.0), Some(1.0))
    ensures forall n :: 0 <= n < PointCount ==>
      -1.0 <= perlin.ranVec[n].x < 1.0 && -1.0 <= perlin.ranVec[n].y < 1.0 && -1.0 <= perlin.ranVec[n].z < 1.0
    ensures perlin.permX == Identity(PointCount) && perlin.permY == Identity(PointCount) &&
            perlin.permZ == Identity(PointCount)
    ensures rng.drawn == old(rng.drawn)
  {
    var ranvec := RandomVectors(random);
    var permX := GeneratePermAsWritten(rng);
    var permY := GeneratePermAsWritten(rng);
    var permZ := GeneratePermAsWritten(rng);
    ArrangementIsTable(Identity(PointCount));
    perlin := Perlin(ranvec, permX, permY, permZ);
  }

  /** `Perlin::new` with the corrected shuffle: the same vectors, then three
      tables that are each a permutation of `0..256`, drawing 255 indices
      apiece. */
  method NewCorrected(random: Random, rng: IndexRandom) returns (perlin: Perlin)
    requires random.Valid()
    modifies random, rng
    ensures Valid(perlin)
    ensures random.drawn == old(random.drawn) + 3 * PointCount
    ensures forall n :: 0 <= n < PointCount ==>
      var d := old(random.drawn) + 3 * n;
      perlin.ranVec[n] == RandomVec(random.stream(d), random.stream(d + 1), random.stream(d + 2), Some(-1.0), Some(1.0))
    ensures multiset(perlin.permX) == multiset(Identity(PointCount))
    ensures multiset(perlin.permY) == multiset(Identity(PointCount))
    ensures multiset(perlin.permZ) == multiset(Identity(PointCount))
    ensures rng.drawn == old(rng.drawn) + 3 * (PointCount - 1)
  {
    var ranvec := RandomVectors(random);
    var permX := GeneratePerm(rng);
    var permY := GeneratePerm(rng);
    var permZ := GeneratePerm(rng);
    perlin := Perlin(ranvec, permX, permY, permZ);
  }
}
