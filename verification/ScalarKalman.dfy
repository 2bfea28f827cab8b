/**
 The scalar filter with adaptive noise that tracks how much a policy interferes with others.
 Every reachable state keeps its estimate in [0, 1] and its noise between fixed bounds, and
 a step never takes the branch for a vanishing innovation variance nor the variance floor.
 */
module ScalarKalman {
  import opened Bounds
  import opened NoiseSchedule

  const DEFAULT_ESTIMATE: real := 0.0
  const DEFAULT_VARIANCE: real := 0.10
  const DEFAULT_Q: real := 0.0001
  const DEFAULT_R: real := 0.02
  const Q_FLOOR: real := 0.000001
  const Q_CEIL: real := 0.05
  const R_FLOOR: real := 0.002
  const R_CEIL: real := 0.15

  /** 10^-12, the least variance a state may store. */
  const VARIANCE_FLOOR: real := 0.000000000001

  /** 10^-15, below which an innovation variance counts as zero. */
  const VANISHING: real := 0.000000000000001

  function FloorAt(floor: real, maturity: real): real { floor * (1.0 - maturity) + floor * maturity }

  function CeilAt(ceil: real, maturity: real): real { ceil * (1.0 - maturity * 0.5) + ceil * 0.5 }

  /** The floor does not move with maturity; the ceiling falls from 1.5 times its constant to the constant. */
  lemma NoiseBounds(floor: real, ceil: real, maturity: real)
    requires 0.0 <= maturity <= 1.0 && 0.0 < floor < ceil
    ensures FloorAt(floor, maturity) == floor
    ensures ceil <= CeilAt(ceil, maturity) <= 1.5 * ceil
  {
    assert FloorAt(floor, maturity) == floor * (1.0 - maturity + maturity);
    var x := ceil * maturity;
    assert 0.0 <= x;
    assert ceil - x == ceil * (1.0 - maturity) >= 0.0;
    assert CeilAt(ceil, maturity) == 1.5 * ceil - 0.5 * x;
  }

  /** The noise after one adaptation step. */
  function AdaptedNoise(noise: real, update: real, count: nat, floor: real, ceil: real): (r: real)
    requires count >= MIN_OBSERVATIONS && 0.0 < floor < ceil
    ensures floor <= r <= 1.5 * ceil
  {
    var alpha := Alpha(count);
    NoiseBounds(floor, ceil, Maturity(count));
    ClampReal((1.0 - alpha) * noise + alpha * update, FloorAt(floor, Maturity(count)), CeilAt(ceil, Maturity(count)))
  }

  lemma Blended(x: real, y: real, alpha: real, low: real, high: real)
    requires 0.0 <= alpha <= 1.0 && low <= x <= high && low <= y <= high
    ensures low <= (1.0 - alpha) * x + alpha * y <= high
  {
    ProductNonNegative(1.0 - alpha, x - low);
    ProductNonNegative(alpha, y - low);
    ProductNonNegative(1.0 - alpha, high - x);
    ProductNonNegative(alpha, high - y);
  }

  /** Between floor and ceiling the noise goes part of the way to the update: a half at first, a twentieth in the end. */
  lemma NoiseStep(noise: real, update: real, count: nat, floor: real, ceil: real)
    requires count >= MIN_OBSERVATIONS && 0.0 < floor < ceil && floor <= noise <= ceil && floor <= update <= ceil
    ensures var adapted := AdaptedNoise(noise, update, count, floor, ceil);
            (if count <= 21 then (count - 1) as real else 20.0) * (adapted - noise) == update - noise
  {
    var alpha := Alpha(count);
    NoiseBounds(floor, ceil, Maturity(count));
    var n := if count <= 21 then (count - 1) as real else 20.0;
    assert alpha * n == 1.0;
    var blend := (1.0 - alpha) * noise + alpha * update;
    Blended(noise, update, alpha, floor, ceil);
    assert blend - noise == alpha * (update - noise);
    assert n * (alpha * (update - noise)) == (n * alpha) * (update - noise);
  }

  datatype Scalar = Scalar(estimate: real, variance: real, q: real, r: real, count: nat)

  const INITIAL: Scalar := Scalar(DEFAULT_ESTIMATE, DEFAULT_VARIANCE, DEFAULT_Q, DEFAULT_R, 0)

  /** What every reachable state satisfies. */
  predicate Sound(s: Scalar) {
    && 0.0 <= s.estimate <= 1.0
    && VARIANCE_FLOOR <= s.variance
    && Q_FLOOR <= s.q <= 1.5 * Q_CEIL
    && R_FLOOR <= s.r <= 1.5 * R_CEIL
    && s.count <= COUNT_MAX
  }

  // -------------------------------------------------------------------------- one step

  function Predicted(s: Scalar): real { s.variance + s.q }

  function Gain(s: Scalar): real
    requires Sound(s)
  {
    Predicted(s) / (Predicted(s) + s.r)
  }

  /** The posterior variance before any floor. */
  function Posterior(s: Scalar): real
    requires Sound(s)
  {
    Remaining(Gain(s), Predicted(s))
  }

  function Remaining(k: real, p: real): real { (1.0 - k) * p }

  function Corrected(x: real, k: real, innovation: real): real { x + k * innovation }

  /** What one innovation says about the measurement noise. */
  function UpdateR(innovation: real, predicted: real): real { innovation * innovation - predicted }

  /** What one innovation says about the process noise. */
  function UpdateQ(k: real, innovation: real, posterior: real, variance: real): real {
    (k * innovation) * (k * innovation) + posterior - variance
  }

  lemma Ratio(p: real, r: real)
    requires p > 0.0 && r > 0.0
    ensures var k := p / (p + r); 0.0 < k < 1.0 && k * (p + r) == p && (1.0 - k) * p == k * r
  {
    var k := p / (p + r);
    assert k * (p + r) == p;
    assert (1.0 - k) * (p + r) == r;
    PositiveFactor(k, p + r);
    PositiveFactor(1.0 - k, p + r);
    assert k * (p + r) == k * p + k * r;
  }

  lemma PositiveFactor(a: real, b: real)
    requires b > 0.0 && a * b > 0.0
    ensures a > 0.0
  {
  }

  /** The gain is a proper fraction, and the posterior stays below both sources of variance. */
  lemma GainProper(s: Scalar)
    requires Sound(s)
    ensures 0.0 < Gain(s) < 1.0
    ensures Posterior(s) < Predicted(s) && Posterior(s) < s.r
    ensures Posterior(s) == Gain(s) * s.r
  {
    Ratio(Predicted(s), s.r);
    Shrinks(Gain(s), Predicted(s));
    Shrinks(1.0 - Gain(s), s.r);
  }

  lemma Shrinks(k: real, p: real)
    requires 0.0 < k < 1.0 && p > 0.0
    ensures 0.0 < (1.0 - k) * p < p
  {
    assert k * p > 0.0;
    assert (1.0 - k) * p == p - k * p;
    assert (1.0 - k) * p > 0.0;
  }

  /** The posterior never comes near the floor: it is at least a fifth of a millionth. */
  lemma PosteriorAboveFloor(s: Scalar)
    requires Sound(s)
    ensures Posterior(s) > VARIANCE_FLOOR
  {
    var p, r := Predicted(s), s.r;
    var k := Gain(s);
    GainProper(s);
    Ratio(p, r);
    assert p >= Q_FLOOR;
    // k r = p r / (p + r), which grows with p and with r.
    if k * r <= VARIANCE_FLOOR {
      assert k <= 0.0000000005 by {
        if k > 0.0000000005 {
          Grows(0.0000000005, k, R_FLOOR, r);
        }
      }
      assert (1.0 - k) * p >= 0.5 * p by {
        Grows(0.5, 1.0 - k, p, p);
      }
    }
  }

  lemma Grows(a: real, b: real, x: real, y: real)
    requires 0.0 <= a <= b && 0.0 <= x <= y
    ensures a * x <= b * y
    ensures a < b && 0.0 < x ==> a * x < b * y
  {
    var over, more := b * (y - x), (b - a) * x;
    assert over >= 0.0 && more >= 0.0;
    assert a < b && 0.0 < x ==> more > 0.0;
    assert b * y - a * x == over + more;
  }

  lemma PartOf(k: real, d: real)
    requires 0.0 < k < 1.0 && d > 0.0
    ensures 0.0 < k * d < d
  {
    Shrinks(1.0 - k, d);
    assert (1.0 - (1.0 - k)) == k;
  }

  /** The step k d, on the side of d and shorter than d. */
  lemma StepTowards(k: real, d: real) returns (step: real)
    requires 0.0 < k < 1.0
    ensures step == k * d
    ensures (d > 0.0 ==> 0.0 < step < d) && (d < 0.0 ==> d < step < 0.0) && (d == 0.0 ==> step == 0.0)
  {
    if d > 0.0 {
      PartOf(k, d);
      step := k * d;
    } else if d < 0.0 {
      PartOf(k, -d);
      step := -(k * -d);
      assert k * d == step;
    } else {
      step := 0.0;
    }
  }

  /** The estimate moves towards the measurement without passing it. */
  lemma Between(x: real, z: real, k: real)
    requires 0.0 < k < 1.0
    ensures var e := Corrected(x, k, z - x);
            MinReal(x, z) <= e <= MaxReal(x, z) && (x != z ==> e != x && e != z)
  {
    var d := z - x;
    var step := StepTowards(k, d);
    assert Corrected(x, k, d) == x + step;
  }

  // -------------------------------------------------------------------------- the state

  class ScalarKalmanState {
    var estimate: real
    var variance: real
    var adaptiveQ: real
    var adaptiveR: real
    var observationCount: nat

    function Value(): Scalar
      reads this
    {
      Scalar(estimate, variance, adaptiveQ, adaptiveR, observationCount)
    }

    ghost predicate Valid()
      reads this
    {
      Sound(Value())
    }

    constructor ()
      ensures Valid() && Value() == INITIAL
    {
      estimate := DEFAULT_ESTIMATE;
      variance := DEFAULT_VARIANCE;
      adaptiveQ := DEFAULT_Q;
      adaptiveR := DEFAULT_R;
      observationCount := 0;
    }

    /** Takes one measurement into account; none of the guards of the update acts. */
    method Observe(measurement: real)
      requires Valid()
      modifies this
      ensures Valid() && Value() == Next(old(Value()), ClampReal(measurement, 0.0, 1.0))
      ensures observationCount == SaturatingIncrement(old(observationCount))
    {
      var z := ClampReal(measurement, 0.0, 1.0);
      NextSound(Value(), z);
      if observationCount == 0 {
        estimate, variance, observationCount := z, DEFAULT_R, 1;
      } else {
        GuardsIdle(Value(), z);
        Update(z);
      }
    }

    /** The update with all its guards, from any state whatever. */
    method Update(z: real)
      modifies this
      ensures Value() == Guarded(old(Value()), z)
    {
      var pPred := variance + adaptiveQ;
      var innovation := z - estimate;
      var s := pPred + adaptiveR;
      if -VANISHING < s < VANISHING {
        observationCount := SaturatingIncrement(observationCount);
        return;
      }
      var k := pPred / s;
      var newEstimate := ClampReal(Corrected(estimate, k, innovation), 0.0, 1.0);
      var newVariance := MaxReal(Remaining(k, pPred), VARIANCE_FLOOR);
      if observationCount >= MIN_OBSERVATIONS {
        Adapt(k, innovation, pPred, newVariance);
      }
      estimate, variance := newEstimate, newVariance;
      observationCount := SaturatingIncrement(observationCount);
    }

    /** Moves the noise towards what the last innovation suggests, within its bounds. */
    method Adapt(k: real, innovation: real, pPred: real, newVariance: real)
      requires observationCount >= MIN_OBSERVATIONS
      modifies `adaptiveQ, `adaptiveR
      ensures adaptiveR == AdaptedNoise(old(adaptiveR), UpdateR(innovation, pPred), observationCount, R_FLOOR, R_CEIL)
      ensures adaptiveQ == AdaptedNoise(old(adaptiveQ), UpdateQ(k, innovation, newVariance, variance), observationCount, Q_FLOOR, Q_CEIL)
    {
      adaptiveR := AdaptedNoise(adaptiveR, UpdateR(innovation, pPred), observationCount, R_FLOOR, R_CEIL);
      adaptiveQ := AdaptedNoise(adaptiveQ, UpdateQ(k, innovation, newVariance, variance), observationCount, Q_FLOOR, Q_CEIL);
    }
  }

  /** The noise a step leaves behind. */
  function WithNoise(s: Scalar, k: real, innovation: real, posterior: real): (s': Scalar)
    ensures s'.estimate == s.estimate && s'.variance == s.variance && s'.count == s.count
    ensures Q_FLOOR <= s.q <= 1.5 * Q_CEIL ==> Q_FLOOR <= s'.q <= 1.5 * Q_CEIL
    ensures R_FLOOR <= s.r <= 1.5 * R_CEIL ==> R_FLOOR <= s'.r <= 1.5 * R_CEIL
  {
    if s.count < MIN_OBSERVATIONS then s else
      s.(q := AdaptedNoise(s.q, UpdateQ(k, innovation, posterior, s.variance), s.count, Q_FLOOR, Q_CEIL),
         r := AdaptedNoise(s.r, UpdateR(innovation, Predicted(s)), s.count, R_FLOOR, R_CEIL))
  }

  /** One step that is not the first, from any state whatever: the guards included. */
  function Guarded(s: Scalar, z: real): Scalar {
    var total := Predicted(s) + s.r;
    if -VANISHING < total < VANISHING then s.(count := SaturatingIncrement(s.count)) else
      var k := Predicted(s) / total;
      var innovation := z - s.estimate;
      var posterior := MaxReal(Remaining(k, Predicted(s)), VARIANCE_FLOOR);
      WithNoise(s, k, innovation, posterior).(
        estimate := ClampReal(Corrected(s.estimate, k, innovation), 0.0, 1.0),
        variance := posterior,
        count := SaturatingIncrement(s.count))
  }

  /** One step in a sound state: no clamp, no variance floor, no special branch. */
  function Next(s: Scalar, z: real): Scalar
    requires Sound(s)
  {
    if s.count == 0 then Scalar(z, DEFAULT_R, s.q, s.r, 1) else
      var k := Gain(s);
      var innovation := z - s.estimate;
      WithNoise(s, k, innovation, Posterior(s)).(
        estimate := Corrected(s.estimate, k, innovation),
        variance := Posterior(s),
        count := SaturatingIncrement(s.count))
  }

  /** In a sound state the guards of a step never act. */
  lemma GuardsIdle(s: Scalar, z: real)
    requires Sound(s) && s.count > 0 && 0.0 <= z <= 1.0
    ensures Predicted(s) + s.r >= VANISHING && Posterior(s) > VARIANCE_FLOOR
    ensures Guarded(s, z) == Next(s, z)
  {
    GainProper(s);
    Between(s.estimate, z, Gain(s));
    PosteriorAboveFloor(s);
  }

  lemma NextSound(s: Scalar, z: real)
    requires Sound(s) && 0.0 <= z <= 1.0
    ensures Sound(Next(s, z))
    ensures s.count > 0 ==> Next(s, z).variance < Predicted(s) && Next(s, z).variance < s.r
    ensures MinReal(s.estimate, z) <= Next(s, z).estimate <= MaxReal(s.estimate, z)
  {
    GainProper(s);
    Between(s.estimate, z, Gain(s));
    PosteriorAboveFloor(s);
  }

  /** The way from x to e is to the way from e to z as p is to r. */
  predicate Divides(x: real, z: real, e: real, p: real, r: real) { r * (e - x) == p * (z - e) }

  /** The first measurement is taken over; each later one divides the way as predicted variance and noise stand. */
  lemma NextDivides(s: Scalar, z: real)
    requires Sound(s) && 0.0 <= z <= 1.0
    ensures s.count == 0 ==> Next(s, z).estimate == z && Next(s, z).variance == DEFAULT_R && Next(s, z).count == 1
    ensures s.count > 0 ==> Divides(s.estimate, z, Next(s, z).estimate, Predicted(s), s.r)
  {
    if s.count > 0 {
      WayDivided(s.estimate, z, Predicted(s), s.r);
    }
  }

  lemma WayDivided(x: real, z: real, p: real, r: real)
    requires p > 0.0 && r > 0.0
    ensures Divides(x, z, Corrected(x, p / (p + r), z - x), p, r)
  {
    var k, d := p / (p + r), z - x;
    Ratio(p, r);
    assert k * r == (1.0 - k) * p;
    assert r * (k * d) == (k * r) * d && p * (d - k * d) == ((1.0 - k) * p) * d;
  }

  /** An innovation as large as expected leaves the measurement noise as it is, and the correction it causes the process noise. */
  lemma ExpectedInnovationKeepsNoise(s: Scalar, innovation: real)
    requires Sound(s) && innovation * innovation == Predicted(s) + s.r
    ensures UpdateR(innovation, Predicted(s)) == s.r
    ensures UpdateQ(Gain(s), innovation, Posterior(s), s.variance) == s.q
  {
    var k, p := Gain(s), Predicted(s);
    Ratio(p, s.r);
    assert (k * innovation) * (k * innovation) == k * (k * (innovation * innovation));
    assert k * (p + s.r) == p;
    assert (1.0 - k) * p == p - k * p;
  }

  // --------------------------------------------------------------------------- whole runs

  /** The state after a list of measurements. */
  function Run(s: Scalar, zs: seq<real>): Scalar
    requires Sound(s)
    decreases |zs|
  {
    if |zs| == 0 then s else
      var z := ClampReal(zs[0], 0.0, 1.0);
      NextSound(s, z);
      Run(Next(s, z), zs[1..])
  }

  /** Every run is sound, counts its measurements and stays within the range it has seen. */
  lemma {:induction false} RunSound(s: Scalar, zs: seq<real>, low: real, high: real)
    requires Sound(s) && 0.0 <= low <= high <= 1.0
    requires s.count > 0 ==> low <= s.estimate <= high
    requires s.count == 0 ==> |zs| > 0
    requires forall i :: 0 <= i < |zs| ==> low <= ClampReal(zs[i], 0.0, 1.0) <= high
    ensures Sound(Run(s, zs)) && low <= Run(s, zs).estimate <= high
    ensures Run(s, zs).count == (if s.count + |zs| < COUNT_MAX then s.count + |zs| else COUNT_MAX)
    decreases |zs|
  {
    if |zs| > 0 {
      var z := ClampReal(zs[0], 0.0, 1.0);
      NextSound(s, z);
      assert low <= Next(s, z).estimate <= high;
      RunSound(Next(s, z), zs[1..], low, high);
    }
  }

  lemma InitialSound()
    ensures Sound(INITIAL)
  {
  }

  /** Every run from a fresh state is sound and within the range it has measured, whatever the measurements. */
  lemma RunFromStart(zs: seq<real>, low: real, high: real)
    requires |zs| > 0 && 0.0 <= low <= high <= 1.0
    requires forall i :: 0 <= i < |zs| ==> low <= ClampReal(zs[i], 0.0, 1.0) <= high
    ensures Sound(INITIAL) && Sound(Run(INITIAL, zs)) && low <= Run(INITIAL, zs).estimate <= high
    ensures Run(INITIAL, zs).count == MinNat(|zs|, COUNT_MAX)
  {
    InitialSound();
    RunSound(INITIAL, zs, low, high);
  }

  // ------------------------------------------------------------------------------ merging

  function TotalCount(shards: seq<Scalar>): nat {
    if |shards| == 0 then 0 else TotalCount(shards[..|shards| - 1]) + shards[|shards| - 1].count
  }

  /** The sum of a quantity over the shards, each weighted by its share of the observations. */
  function Weighted(shards: seq<Scalar>, f: Scalar -> real, total: real): real
    requires total > 0.0
  {
    if |shards| == 0 then 0.0 else
      var last := shards[|shards| - 1];
      Weighted(shards[..|shards| - 1], f, total) + Portion(last.count, total, f(last))
  }

  /** What x contributes when it carries that many of the observations. */
  function Portion(count: nat, total: real, x: real): real
    requires total > 0.0
  {
    ((count as real) / total) * x
  }

  lemma PortionGrows(count: nat, total: real, x: real, y: real)
    requires total > 0.0 && x <= y
    ensures Portion(count, total, x) <= Portion(count, total, y)
  {
    var w := (count as real) / total;
    assert w >= 0.0;
    assert w * (y - x) >= 0.0;
    assert w * y == w * x + w * (y - x);
  }

  /** A weighted mean lies between common bounds of what is averaged. */
  lemma {:induction false} WeightedBounds(shards: seq<Scalar>, f: Scalar -> real, total: real, low: real, high: real)
    requires total > 0.0 && forall k :: 0 <= k < |shards| ==> low <= f(shards[k]) <= high
    ensures Portion(TotalCount(shards), total, low) <= Weighted(shards, f, total) <= Portion(TotalCount(shards), total, high)
  {
    if |shards| > 0 {
      var before, last := shards[..|shards| - 1], shards[|shards| - 1];
      WeightedBounds(before, f, total, low, high);
      PortionGrows(last.count, total, low, f(last));
      PortionGrows(last.count, total, f(last), high);
      PortionSplits(TotalCount(before), last.count, total, low);
      PortionSplits(TotalCount(before), last.count, total, high);
    }
  }

  lemma PortionSplits(a: nat, b: nat, total: real, x: real)
    requires total > 0.0
    ensures Portion(a + b, total, x) == Portion(a, total, x) + Portion(b, total, x)
  {
    assert ((a + b) as real) / total == (a as real) / total + (b as real) / total;
  }

  /** The merge without its guards. */
  function Merged(shards: seq<Scalar>): Scalar {
    var total := TotalCount(shards);
    if total == 0 then INITIAL else
      Scalar(
        Weighted(shards, (s: Scalar) => s.estimate, total as real),
        Weighted(shards, (s: Scalar) => s.variance, total as real),
        DEFAULT_Q, DEFAULT_R,
        if total < COUNT_MAX then total else COUNT_MAX)
  }

  lemma WholeShare(total: nat, x: real)
    requires total > 0
    ensures Portion(total, total as real, x) == x
  {
  }

  /** Merging sound shards gives a sound state within the range of the shards' estimates. */
  lemma MergedSound(shards: seq<Scalar>, low: real, high: real)
    requires forall k :: 0 <= k < |shards| ==> Sound(shards[k]) && low <= shards[k].estimate <= high
    requires TotalCount(shards) > 0
    ensures Sound(Merged(shards)) && low <= Merged(shards).estimate <= high
  {
    var total := TotalCount(shards);
    WeightedBounds(shards, (s: Scalar) => s.estimate, total as real, low, high);
    WeightedBounds(shards, (s: Scalar) => s.estimate, total as real, 0.0, 1.0);
    var top := MaxVariance(shards);
    WeightedBounds(shards, (s: Scalar) => s.variance, total as real, VARIANCE_FLOOR, top);
    WholeShare(total, low);
    WholeShare(total, high);
    WholeShare(total, 1.0);
    WholeShare(total, VARIANCE_FLOOR);
  }

  ghost function MaxVariance(shards: seq<Scalar>): (top: real)
    ensures forall k :: 0 <= k < |shards| ==> shards[k].variance <= top
  {
    if |shards| == 0 then 0.0 else
      var rest := MaxVariance(shards[1..]);
      assert forall k :: 1 <= k < |shards| ==> shards[k] == shards[1..][k - 1];
      MaxReal(rest, shards[0].variance)
  }

  /** Merges shard states; its clamp and floor never act on sound shards. */
  method MergeScalarShards(shards: seq<Scalar>) returns (merged: ScalarKalmanState)
    requires forall k :: 0 <= k < |shards| ==> Sound(shards[k])
    ensures fresh(merged) && merged.Valid() && merged.Value() == Merged(shards)
  {
    merged := new ScalarKalmanState();
    var total := TotalCount(shards);
    if total == 0 {
      return;
    }
    var est, variance := 0.0, 0.0;
    for k := 0 to |shards|
      invariant est == Weighted(shards[..k], (s: Scalar) => s.estimate, total as real)
      invariant variance == Weighted(shards[..k], (s: Scalar) => s.variance, total as real)
    {
      assert shards[..k + 1][..k] == shards[..k];
      est := est + Portion(shards[k].count, total as real, shards[k].estimate);
      variance := variance + Portion(shards[k].count, total as real, shards[k].variance);
    }
    assert shards[..|shards|] == shards;
    MergedSound(shards, 0.0, 1.0);
    merged.estimate := ClampReal(est, 0.0, 1.0);
    merged.variance := MaxReal(variance, VARIANCE_FLOOR);
    merged.observationCount := if total < COUNT_MAX then total else COUNT_MAX;
  }
}
