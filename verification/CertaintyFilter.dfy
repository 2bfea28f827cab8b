/**
 The five-dimensional certainty filter: observe, adaptive noise and shard merging. Every
 reachable state has a symmetric positive semidefinite covariance and noise matrices that
 Cholesky accepts, so the identity that replaces a failed inversion is never used.
 */
module CertaintyFilter {
  import opened Bounds
  import opened NoiseSchedule
  import opened RealSums
  import opened Matrices
  import opened Cholesky
  import opened PositiveDefiniteness
  import opened SpdInverse
  import opened SpdRepair
  import opened KalmanUpdate

  const DIMS: nat := 5

  function FromList(values: seq<real>): Vec {
    i => if 0 <= i < |values| then values[i] else 0.0
  }

  function Diagonal(d: Vec): Mat { (i, j) => if i == j then d(i) else 0.0 }

  const DEFAULT_ESTIMATES: Vec := FromList([0.85, 0.50, 0.50, 0.50, 0.85])
  const DEFAULT_COV: Vec := FromList([0.05, 0.10, 0.10, 0.10, 0.05])
  const DEFAULT_Q: Vec := FromList([0.0001, 0.0001, 0.00005, 0.00005, 0.001])
  const DEFAULT_R: Vec := FromList([0.002, 0.002, 0.003, 0.005, 0.02])
  const Q_FLOOR: Vec := FromList([0.000001, 0.000001, 0.000001, 0.000001, 0.00001])
  const Q_CEIL: Vec := FromList([0.05, 0.05, 0.04, 0.04, 0.08])
  const R_FLOOR: Vec := DEFAULT_R
  const R_CEIL: Vec := FromList([0.10, 0.10, 0.08, 0.08, 0.15])

  function Lerp(a: Mat, b: Mat, t: real): Mat { (i, j) => a(i, j) + t * (b(i, j) - a(i, j)) }

  function AddSub(a: Mat, b: Mat, c: Mat): Mat { (i, j) => a(i, j) + b(i, j) - c(i, j) }

  function AddClamp(x: Vec, y: Vec): Vec { i => ClampReal(x(i) + y(i), 0.0, 1.0) }

  /** A value clamped between bounds that tighten with maturity. */
  function MatureClamp(x: real, floor: real, ceil: real, maturity: real): real {
    ClampReal(x, floor * (1.0 - 0.5 * maturity), ceil * (1.0 + 2.0 * (1.0 - maturity)))
  }

  ghost function ClampedDiagonal(a: Mat, floor: Vec, ceil: Vec, maturity: real): Mat {
    (i, j) => if i == j then MatureClamp(a(i, i), floor(i), ceil(i), maturity) else a(i, j)
  }

  ghost predicate Noise(a: Mat) {
    Symmetric(a, DIMS) && Factorable(a, DIMS)
  }

  ghost predicate Covariance(a: Mat) {
    Symmetric(a, DIMS) && PositiveSemidefinite(a, DIMS)
  }

  ghost predicate UnitRange(x: Vec) {
    forall i :: 0 <= i < DIMS ==> 0.0 <= x(i) <= 1.0
  }

  // ------------------------------------------------------------------------- the update

  datatype KalmanResult = KalmanResult(estimates: Vec, covariance: Mat, predicted: Mat, gain: Mat, innovation: Vec)

  /** The update with the gain built from a given inverse. */
  function UpdateWith(est: Vec, cov: Mat, z: Vec, q: Mat, r: Mat, sInv: Mat): KalmanResult {
    var predicted := Add(cov, q);
    var innovation := Minus(z, est);
    var k := Mul(predicted, sInv, DIMS);
    KalmanResult(AddClamp(est, MatVec(k, innovation, DIMS)), Joseph(k, predicted, r, DIMS), predicted, k, innovation)
  }

  lemma NoiseIsCovariance(a: Mat)
    requires Noise(a)
    ensures Covariance(a)
  {
    FactorableDefinite(a, DIMS);
  }

  lemma PredictedCovariance(cov: Mat, q: Mat)
    requires Covariance(cov) && Noise(q)
    ensures Covariance(Add(cov, q))
  {
    NoiseIsCovariance(q);
    AddSemidefinite(cov, q, DIMS);
  }

  /** The innovation covariance of a reachable state is always invertible by Cholesky. */
  lemma InnovationFactorable(cov: Mat, q: Mat, r: Mat, sqrt: real -> real)
    requires Covariance(cov) && Noise(q) && Noise(r) && IsSqrt(sqrt)
    ensures Factorable(Add(Add(cov, q), r), DIMS) && Symmetric(Add(Add(cov, q), r), DIMS)
  {
    PredictedCovariance(cov, q);
    SemidefinitePlusFactorable(Add(cov, q), r, DIMS, sqrt);
    SymmetricSum(Add(cov, q), r);
  }

  lemma SymmetricSum(a: Mat, b: Mat)
    requires Symmetric(a, DIMS) && Symmetric(b, DIMS)
    ensures Symmetric(Add(a, b), DIMS)
  {
    forall i, j | 0 <= i < DIMS && 0 <= j < DIMS
      ensures Add(a, b)(i, j) == Add(a, b)(j, i)
    {
      assert a(i, j) == a(j, i) && b(i, j) == b(j, i);
    }
  }

  /** A buffer filled with a matrix. */
  method ToBuffer(a: Mat) returns (m: array2<real>)
    ensures fresh(m) && Holds(m, a, DIMS)
  {
    m := new real[DIMS, DIMS]((i, j) => a(i, j));
  }

  /** The matrix a buffer holds, as a value. */
  method FromBuffer(m: array2<real>) returns (a: Mat)
    requires Square(m, DIMS)
    ensures Holds(m, a, DIMS)
  {
    a := View(m);
  }

  /** What stands in for the inverse of the innovation covariance: the identity when the factoring fails. */
  ghost predicate StandsForInverse(s: Mat, sInv: Mat) {
    if Factorable(s, DIMS) then IsInverse(Mirrored(s), sInv, DIMS) else sInv == Identity()
  }

  lemma MirroredSame(a: Mat, b: Mat)
    requires Same(a, b, DIMS)
    ensures Same(Mirrored(a), Mirrored(b), DIMS)
  {
  }

  /** The inverse, or the identity in its place. */
  method InverseOrIdentity(s: Mat, sqrt: real -> real) returns (inv: Mat)
    requires IsSqrt(sqrt)
    ensures StandsForInverse(s, inv)
  {
    var buffer := ToBuffer(s);
    ghost var held := View(buffer);
    var ok, inverse := InverseSpd(buffer, sqrt);
    if ok {
      inv := View(inverse);
      SameFactorable(held, s, DIMS);
      MirroredSame(held, s);
      InverseSame(Mirrored(held), Mirrored(s), inv, inv, DIMS);
    } else {
      inv := Identity();
      if Factorable(s, DIMS) {
        SameFactorable(s, held, DIMS);
      }
    }
  }

  lemma InverseStands(s: Mat, sInv: Mat)
    requires StandsForInverse(s, sInv) && Factorable(s, DIMS) && Symmetric(s, DIMS)
    ensures IsInverse(s, sInv, DIMS)
  {
    MirroredSymmetric(s, DIMS);
    InverseSame(Mirrored(s), s, sInv, sInv, DIMS);
  }

  /** The update for any matrices; in states that satisfy the invariant the inversion succeeds. */
  method KalmanUpdateFull(est: Vec, cov: Mat, z: Vec, q: Mat, r: Mat, sqrt: real -> real) returns (result: KalmanResult, ghost sInv: Mat)
    requires IsSqrt(sqrt)
    ensures StandsForInverse(Add(Add(cov, q), r), sInv)
    ensures result == UpdateWith(est, cov, z, q, r, sInv)
    ensures Covariance(cov) && Noise(q) && Noise(r) ==>
              && IsInverse(Add(Add(cov, q), r), sInv, DIMS)
              && Covariance(result.covariance) && Covariance(result.predicted)
  {
    var inv := InverseOrIdentity(Add(Add(cov, q), r), sqrt);
    sInv := inv;
    result := UpdateWith(est, cov, z, q, r, inv);
    if Covariance(cov) && Noise(q) && Noise(r) {
      UpdateSound(est, cov, z, q, r, inv, sqrt);
    }
  }

  lemma UpdateSound(est: Vec, cov: Mat, z: Vec, q: Mat, r: Mat, sInv: Mat, sqrt: real -> real)
    requires Covariance(cov) && Noise(q) && Noise(r) && IsSqrt(sqrt) && StandsForInverse(Add(Add(cov, q), r), sInv)
    ensures IsInverse(Add(Add(cov, q), r), sInv, DIMS)
    ensures Covariance(UpdateWith(est, cov, z, q, r, sInv).covariance) && Covariance(Add(cov, q))
  {
    InnovationFactorable(cov, q, r, sqrt);
    InverseStands(Add(Add(cov, q), r), sInv);
    PredictedCovariance(cov, q);
    NoiseIsCovariance(r);
    JosephSemidefinite(Mul(Add(cov, q), sInv, DIMS), Add(cov, q), r, DIMS);
  }

  // --------------------------------------------------------------------- adaptive noise

  method ClampDiagonalWithMaturity(m: array2<real>, ghost a: Mat, floor: Vec, ceil: Vec, maturity: real)
    requires Holds(m, a, DIMS)
    modifies m
    ensures Holds(m, ClampedDiagonal(a, floor, ceil, maturity), DIMS)
  {
    ghost var c := ClampedDiagonal(a, floor, ceil, maturity);
    for d := 0 to DIMS
      invariant forall p, q :: 0 <= p < DIMS && 0 <= q < DIMS ==> m[p, q] == if p < d then c(p, q) else a(p, q)
    {
      var entry := MatureClamp(m[d, d], floor(d), ceil(d), maturity);
      assert c(d, d) == entry;
      m[d, d] := entry;
    }
  }

  /** Which noise matrix the adaptation leads to. */
  ghost predicate Adapted(before: Mat, update: Mat, alpha: real, floor: Vec, ceil: Vec, maturity: real, after: Mat) {
    IsRepair(ClampedDiagonal(Lerp(before, update, alpha), floor, ceil, maturity), after, DIMS)
  }

  /** One adaptive noise step: blend, clamp the diagonal, repair. */
  method AdaptNoise(before: Mat, update: Mat, alpha: real, floor: Vec, ceil: Vec, maturity: real, sqrt: real -> real) returns (after: Mat)
    requires Symmetric(before, DIMS) && Symmetric(update, DIMS) && IsSqrt(sqrt)
    ensures Noise(after) && Adapted(before, update, alpha, floor, ceil, maturity, after)
  {
    var blended := Lerp(before, update, alpha);
    ghost var clamped := ClampedDiagonal(blended, floor, ceil, maturity);
    var buffer := ToBuffer(blended);
    ClampDiagonalWithMaturity(buffer, blended, floor, ceil, maturity);
    ghost var b := EnforceSpd(buffer, clamped, DIMS, sqrt);
    after := FromBuffer(buffer);
    ClampedSymmetric(before, update, alpha, floor, ceil, maturity);
    RepairIsNoise(clamped, b, after);
  }

  lemma ClampedSymmetric(before: Mat, update: Mat, alpha: real, floor: Vec, ceil: Vec, maturity: real)
    requires Symmetric(before, DIMS) && Symmetric(update, DIMS)
    ensures Symmetric(ClampedDiagonal(Lerp(before, update, alpha), floor, ceil, maturity), DIMS)
  {
    var blended := Lerp(before, update, alpha);
    forall i, j | 0 <= i < DIMS && 0 <= j < DIMS
      ensures blended(i, j) == blended(j, i)
    {
      assert before(i, j) == before(j, i) && update(i, j) == update(j, i);
    }
    KeepsSymmetry(blended, floor, ceil, maturity);
  }

  lemma KeepsSymmetry(a: Mat, floor: Vec, ceil: Vec, maturity: real)
    requires Symmetric(a, DIMS)
    ensures Symmetric(ClampedDiagonal(a, floor, ceil, maturity), DIMS)
  {
  }

  lemma RepairIsNoise(a: Mat, b: Mat, c: Mat)
    requires Symmetric(a, DIMS) && IsRepair(a, b, DIMS) && Factorable(b, DIMS) && Same(b, c, DIMS)
    ensures Noise(c) && IsRepair(a, c, DIMS)
  {
    RepairSymmetric(a, b, DIMS);
    SameFactorable(b, c, DIMS);
    RepairSame(a, b, c);
  }

  lemma RepairSame(a: Mat, b: Mat, c: Mat)
    requires IsRepair(a, b, DIMS) && Same(b, c, DIMS)
    ensures IsRepair(a, c, DIMS)
  {
    var s := Symmetrized(a);
    if !Factorable(a, DIMS) && !Factorable(s, DIMS) && !RoundsFail(s, DIMS, ROUNDS) {
      var k :| 1 <= k <= ROUNDS && RoundsFail(s, DIMS, k - 1) && Same(b, AfterRounds(s, DIMS, k), DIMS);
      assert Same(c, AfterRounds(s, DIMS, k), DIMS);
    }
  }

  // -------------------------------------------------------------------------- the state

  datatype Shard = Shard(estimates: Vec, covariance: Mat, count: nat)

  class FilterState {
    var estimates: Vec
    var covariance: Mat
    var adaptiveQ: Mat
    var adaptiveR: Mat
    var observationCount: nat

    /** What every reachable state satisfies. */
    ghost predicate Valid()
      reads this
    {
      && Covariance(covariance) && Noise(adaptiveQ) && Noise(adaptiveR)
      && observationCount <= COUNT_MAX
      && (observationCount != 1 ==> UnitRange(estimates))
    }

    /** What merging reads of a state. */
    function Snapshot(): Shard
      reads this
    {
      Shard(estimates, covariance, observationCount)
    }

    constructor (sqrt: real -> real)
      requires IsSqrt(sqrt)
      ensures Valid() && observationCount == 0
      ensures estimates == DEFAULT_ESTIMATES && covariance == Diagonal(DEFAULT_COV)
      ensures adaptiveQ == Diagonal(DEFAULT_Q) && adaptiveR == Diagonal(DEFAULT_R)
    {
      estimates := DEFAULT_ESTIMATES;
      covariance := Diagonal(DEFAULT_COV);
      adaptiveQ := Diagonal(DEFAULT_Q);
      adaptiveR := Diagonal(DEFAULT_R);
      observationCount := 0;
      new;
      DefaultsValid(sqrt);
    }

    /** Takes one measurement vector into account; the inversion it needs always succeeds. */
    method Observe(z: Vec, sqrt: real -> real) returns (ghost sInv: Mat)
      requires Valid() && IsSqrt(sqrt)
      modifies this
      ensures Valid()
      ensures UnitRange(old(estimates)) && UnitRange(z) ==> UnitRange(estimates)
      ensures old(observationCount) == 0 ==>
                estimates == z && covariance == Diagonal(DEFAULT_R) && observationCount == 1
                && adaptiveQ == old(adaptiveQ) && adaptiveR == old(adaptiveR)
      ensures old(observationCount) > 0 ==>
                && IsInverse(Add(Add(old(covariance), old(adaptiveQ)), old(adaptiveR)), sInv, DIMS)
                && Stepped(old(estimates), old(covariance), old(adaptiveQ), old(adaptiveR), old(observationCount), z, sInv,
                           estimates, covariance, adaptiveQ, adaptiveR, observationCount)
    {
      if observationCount == 0 {
        First(z, sqrt);
        sInv := Identity();
      } else {
        sInv := Later(z, sqrt);
      }
    }

    /** The first measurement is taken over as it is. */
    method First(z: Vec, sqrt: real -> real)
      requires Valid() && IsSqrt(sqrt)
      modifies this
      ensures Valid()
      ensures estimates == z && covariance == Diagonal(DEFAULT_R) && observationCount == 1
      ensures adaptiveQ == old(adaptiveQ) && adaptiveR == old(adaptiveR)
    {
      estimates := z;
      covariance := Diagonal(DEFAULT_R);
      observationCount := 1;
      DefaultsValid(sqrt);
    }

    /** A full update, with noise adaptation once enough measurements are in. */
    method Later(z: Vec, sqrt: real -> real) returns (ghost sInv: Mat)
      requires Valid() && IsSqrt(sqrt) && observationCount > 0
      modifies this
      ensures Valid()
      ensures IsInverse(Add(Add(old(covariance), old(adaptiveQ)), old(adaptiveR)), sInv, DIMS)
      ensures Stepped(old(estimates), old(covariance), old(adaptiveQ), old(adaptiveR), old(observationCount), z, sInv,
                      estimates, covariance, adaptiveQ, adaptiveR, observationCount)
    {
      var result;
      result, sInv := KalmanUpdateFull(estimates, covariance, z, adaptiveQ, adaptiveR, sqrt);
      if observationCount >= MIN_OBSERVATIONS {
        Adapt(result, sqrt);
      }
      Store(result);
    }

    method Store(result: KalmanResult)
      requires Covariance(result.covariance) && Noise(adaptiveQ) && Noise(adaptiveR)
      requires 0 < observationCount <= COUNT_MAX
      modifies this
      ensures Valid()
      ensures estimates == ClampUnit(result.estimates) && covariance == result.covariance
      ensures observationCount == SaturatingIncrement(old(observationCount))
      ensures adaptiveQ == old(adaptiveQ) && adaptiveR == old(adaptiveR)
    {
      ClampedInUnit(result.estimates);
      estimates := ClampUnit(result.estimates);
      covariance := result.covariance;
      observationCount := SaturatingIncrement(observationCount);
    }

    /** Takes over merged estimates; the noise stays as it is. */
    method Adopt(est: Vec, cov: Mat, count: nat)
      requires Valid() && Covariance(cov) && count <= COUNT_MAX
      modifies `estimates, `covariance, `observationCount
      ensures estimates == est && covariance == cov && observationCount == count
      ensures UnitRange(est) ==> Valid()
    {
      estimates := est;
      covariance := cov;
      observationCount := count;
    }

    /** Moves both noise matrices towards what the last innovation suggests. */
    method Adapt(result: KalmanResult, sqrt: real -> real)
      requires Covariance(covariance) && Noise(adaptiveQ) && Noise(adaptiveR) && IsSqrt(sqrt)
      requires Symmetric(result.predicted, DIMS) && Symmetric(result.covariance, DIMS)
      requires observationCount >= MIN_OBSERVATIONS
      modifies `adaptiveQ, `adaptiveR
      ensures Noise(adaptiveQ) && Noise(adaptiveR)
      ensures Adapted(old(adaptiveR), NoiseUpdateR(result), Alpha(observationCount), R_FLOOR, R_CEIL, Maturity(observationCount), adaptiveR)
      ensures Adapted(old(adaptiveQ), NoiseUpdateQ(result, covariance), Alpha(observationCount), Q_FLOOR, Q_CEIL, Maturity(observationCount), adaptiveQ)
    {
      var alpha := Alpha(observationCount);
      var maturity := Maturity(observationCount);
      NoiseUpdatesSymmetric(result, covariance);
      adaptiveR := AdaptNoise(adaptiveR, NoiseUpdateR(result), alpha, R_FLOOR, R_CEIL, maturity, sqrt);
      adaptiveQ := AdaptNoise(adaptiveQ, NoiseUpdateQ(result, covariance), alpha, Q_FLOOR, Q_CEIL, maturity, sqrt);
    }
  }

  lemma OuterSymmetric(v: Vec)
    ensures Symmetric(Outer(v), DIMS)
  {
  }

  lemma NoiseUpdatesSymmetric(result: KalmanResult, covariance: Mat)
    requires Symmetric(result.predicted, DIMS) && Symmetric(result.covariance, DIMS) && Symmetric(covariance, DIMS)
    ensures Symmetric(NoiseUpdateR(result), DIMS) && Symmetric(NoiseUpdateQ(result, covariance), DIMS)
  {
    OuterSymmetric(result.innovation);
    OuterSymmetric(MatVec(result.gain, result.innovation, DIMS));
  }

  function ClampUnit(x: Vec): Vec { i => ClampReal(x(i), 0.0, 1.0) }

  lemma ClampedInUnit(x: Vec)
    ensures UnitRange(ClampUnit(x))
  {
    forall i | 0 <= i < DIMS
      ensures 0.0 <= ClampUnit(x)(i) <= 1.0
    {
      assert ClampUnit(x)(i) == ClampReal(x(i), 0.0, 1.0);
    }
  }

  function NoiseUpdateR(result: KalmanResult): Mat {
    Sub(Outer(result.innovation), result.predicted)
  }

  function NoiseUpdateQ(result: KalmanResult, covariance: Mat): Mat {
    AddSub(Outer(MatVec(result.gain, result.innovation, DIMS)), result.covariance, covariance)
  }

  /** The state after an observation that is not the first, in terms of the state before it. */
  ghost predicate Stepped(est: Vec, cov: Mat, q: Mat, r: Mat, count: nat, z: Vec, sInv: Mat,
                          est': Vec, cov': Mat, q': Mat, r': Mat, count': nat) {
    var result := UpdateWith(est, cov, z, q, r, sInv);
    && est' == ClampUnit(result.estimates) && cov' == result.covariance
    && count' == SaturatingIncrement(count)
    && (count < MIN_OBSERVATIONS ==> q' == q && r' == r)
    && (count >= MIN_OBSERVATIONS ==>
          && Adapted(r, NoiseUpdateR(result), Alpha(count), R_FLOOR, R_CEIL, Maturity(count), r')
          && Adapted(q, NoiseUpdateQ(result, cov), Alpha(count), Q_FLOOR, Q_CEIL, Maturity(count), q'))
  }

  lemma DiagonalNoise(d: Vec, sqrt: real -> real)
    requires IsSqrt(sqrt) && forall i :: 0 <= i < DIMS ==> d(i) >= 0.00001
    ensures Noise(Diagonal(d)) && Covariance(Diagonal(d))
  {
    DiagonalFactorable(Diagonal(d), DIMS, sqrt);
    NoiseIsCovariance(Diagonal(d));
  }

  lemma DefaultsValid(sqrt: real -> real)
    requires IsSqrt(sqrt)
    ensures Covariance(Diagonal(DEFAULT_COV)) && Covariance(Diagonal(DEFAULT_R))
    ensures Noise(Diagonal(DEFAULT_Q)) && Noise(Diagonal(DEFAULT_R))
    ensures UnitRange(DEFAULT_ESTIMATES)
  {
    DiagonalNoise(DEFAULT_COV, sqrt);
    DiagonalNoise(DEFAULT_Q, sqrt);
    DiagonalNoise(DEFAULT_R, sqrt);
  }

  /**
   The posterior of a step never exceeds the predicted covariance nor the measurement
   noise, in any direction x.
   */
  lemma StepShrinks(est: Vec, cov: Mat, q: Mat, r: Mat, z: Vec, sInv: Mat, x: Vec)
    requires Covariance(cov) && Noise(q) && Noise(r)
    requires IsInverse(Add(Add(cov, q), r), sInv, DIMS)
    ensures var result := UpdateWith(est, cov, z, q, r, sInv);
            Quad(result.covariance, x, DIMS) <= Quad(Add(cov, q), x, DIMS)
            && Quad(result.covariance, x, DIMS) <= Quad(r, x, DIMS)
  {
    PredictedCovariance(cov, q);
    NoiseIsCovariance(r);
    PosteriorShrinks(Add(cov, q), r, sInv, x, DIMS);
  }
}
