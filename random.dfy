/** `Random` (src/random.rs): a source of uniform samples in [0,1) and the
    affine map that turns a sample into a value of a requested range. */
module Sampling {
  import opened Options
  import RealFacts

  /** What `Uniform::new(0.0, 1.0)` produces. */
  predicate IsSample(s: real) {
    0.0 <= s < 1.0
  }

  /** The value `Random::random` returns for a drawn `sample`: with both bounds
      present it is `min + sample * (max - min)`, otherwise the bare sample. */
  function RangeMap(sample: real, min: Option<real>, max: Option<real>): (r: real)
    ensures IsSample(sample) && min.Some? && max.Some? && min.value <= max.value ==>
              min.value <= r <= max.value
    ensures IsSample(sample) && min.Some? && max.Some? && min.value < max.value ==> r < max.value
    ensures !(min.Some? && max.Some?) ==> r == sample
  {
    if min.Some? && max.Some? then
      var w := max.value - min.value;
      if IsSample(sample) && 0.0 <= w then
        RealFacts.ScaleWithin(sample, w);
        min.value + sample * w
      else
        min.value + sample * w
    else
      sample
  }

  /** A sample of zero lands exactly on the lower bound. */
  lemma RangeMapAtZero(lo: real, hi: real)
    ensures RangeMap(0.0, Some(lo), Some(hi)) == lo
  {
  }

  /** The map is affine in the sample: moving the sample by `ds` moves the
      result by `ds * (hi - lo)`. */
  lemma RangeMapAffine(s: real, ds: real, lo: real, hi: real)
    ensures RangeMap(s + ds, Some(lo), Some(hi)) == RangeMap(s, Some(lo), Some(hi)) + ds * (hi - lo)
  {
  }

  /** The generator: `rng.sample(uniform)` reads the next value of an endless
      stream of samples. `drawn` counts the samples taken so far. */
  class Random {
    const stream: nat -> real
    var drawn: nat

    ghost predicate Valid() {
      forall n: nat :: IsSample(stream(n))
    }

    constructor (stream: nat -> real)
      requires forall n: nat :: IsSample(stream(n))
      ensures Valid() && this.stream == stream && drawn == 0
    {
      this.stream := stream;
      drawn := 0;
    }

    /** `Random::random`: exactly one sample is drawn per call, and it is
        mapped into `[min, max]` when both bounds are given. */
    method Random(min: Option<real>, max: Option<real>) returns (r: real)
      requires Valid()
      modifies this
      ensures Valid()
      ensures drawn == old(drawn) + 1
      ensures r == RangeMap(stream(old(drawn)), min, max)
      ensures min.Some? && max.Some? && min.value <= max.value ==> min.value <= r <= max.value
    {
      var sample := stream(drawn);
      drawn := drawn + 1;
      r := RangeMap(sample, min, max);
    }
  }
}
