/**
 Where an observation moves the estimates, and what it says about the noise. Before the
 clamp to the unit range the new estimates balance prediction and measurement: the way from
 the old ones is the predicted covariance, the way left to the measurement is the
 measurement noise, both applied to one and the same vector.
 */
module EstimateLaws {
  import opened Bounds
  import opened NoiseSchedule
  import opened RealSums
  import opened Matrices
  import opened Cholesky
  import opened SpdInverse
  import opened KalmanUpdate
  import opened CertaintyFilter

  lemma InverseSolves(s: Mat, sInv: Mat, y: Vec, n: nat, i: nat)
    requires IsInverse(s, sInv, n) && i < n
    ensures MatVec(s, MatVec(sInv, y, n), n)(i) == y(i)
  {
    MulVec(s, sInv, y, n, i);
    MatVecSame(Mul(s, sInv, n), Identity(), y, y, n, i);
    SumSingle(Product(Row(Identity(), i), y), i, n);
  }

  lemma MatVecAdd(a: Mat, b: Mat, x: Vec, n: nat, i: int)
    ensures MatVec(Add(a, b), x, n)(i) == MatVec(a, x, n)(i) + MatVec(b, x, n)(i)
  {
    DotEqual(Row(Add(a, b), i), x, Plus(Row(a, i), Row(b, i)), x, n);
    DotCommutes(Plus(Row(a, i), Row(b, i)), x, n);
    DotPlus(x, Row(a, i), Row(b, i), n);
    DotCommutes(x, Row(a, i), n);
    DotCommutes(x, Row(b, i), n);
  }

  /** Old estimates, measurement, estimates before the clamp, and the vector that both ways come from. */
  ghost predicate Balanced(est: Vec, p: Mat, z: Vec, r: Mat, raw: Vec, w: Vec) {
    forall i :: 0 <= i < DIMS ==> BalancedAt(est, p, z, r, raw, w, i)
  }

  ghost predicate BalancedAt(est: Vec, p: Mat, z: Vec, r: Mat, raw: Vec, w: Vec, i: int) {
    && MatVec(Add(p, r), w, DIMS)(i) == z(i) - est(i)
    && raw(i) - est(i) == MatVec(p, w, DIMS)(i)
    && z(i) - raw(i) == MatVec(r, w, DIMS)(i)
  }

  /** The estimates of an update are the balance of prediction and measurement, clamped to the unit range. */
  lemma UpdateBalances(est: Vec, cov: Mat, z: Vec, q: Mat, r: Mat, sInv: Mat) returns (raw: Vec, w: Vec)
    requires IsInverse(Add(Add(cov, q), r), sInv, DIMS)
    ensures Balanced(est, Add(cov, q), z, r, raw, w)
    ensures forall i :: 0 <= i < DIMS ==> UpdateWith(est, cov, z, q, r, sInv).estimates(i) == ClampReal(raw(i), 0.0, 1.0)
  {
    var p, y := Add(cov, q), Minus(z, est);
    w := MatVec(sInv, y, DIMS);
    raw := Plus(est, MatVec(Mul(p, sInv, DIMS), y, DIMS));
    forall i | 0 <= i < DIMS
      ensures BalancedAt(est, p, z, r, raw, w, i)
    {
      EntryBalances(p, r, sInv, y, i);
      BalanceFrom(est, p, z, r, raw, w, MatVec(Mul(p, sInv, DIMS), y, DIMS), i);
    }
    EstimatesClamped(est, cov, z, q, r, sInv, raw);
  }

  lemma BalanceFrom(est: Vec, p: Mat, z: Vec, r: Mat, raw: Vec, w: Vec, step: Vec, i: int)
    requires raw == Plus(est, step)
    requires MatVec(Add(p, r), w, DIMS)(i) == Minus(z, est)(i)
    requires step(i) == MatVec(p, w, DIMS)(i) && MatVec(p, w, DIMS)(i) + MatVec(r, w, DIMS)(i) == Minus(z, est)(i)
    ensures BalancedAt(est, p, z, r, raw, w, i)
  {
  }

  lemma EntryBalances(p: Mat, r: Mat, sInv: Mat, y: Vec, i: nat)
    requires IsInverse(Add(p, r), sInv, DIMS) && i < DIMS
    ensures var w := MatVec(sInv, y, DIMS);
            && MatVec(Add(p, r), w, DIMS)(i) == y(i)
            && MatVec(Mul(p, sInv, DIMS), y, DIMS)(i) == MatVec(p, w, DIMS)(i)
            && MatVec(p, w, DIMS)(i) + MatVec(r, w, DIMS)(i) == y(i)
  {
    InverseSolves(Add(p, r), sInv, y, DIMS, i);
    MulVec(p, sInv, y, DIMS, i);
    MatVecAdd(p, r, MatVec(sInv, y, DIMS), DIMS, i);
  }

  lemma EstimatesClamped(est: Vec, cov: Mat, z: Vec, q: Mat, r: Mat, sInv: Mat, raw: Vec)
    requires raw == Plus(est, MatVec(Mul(Add(cov, q), sInv, DIMS), Minus(z, est), DIMS))
    ensures forall i :: UpdateWith(est, cov, z, q, r, sInv).estimates(i) == ClampReal(raw(i), 0.0, 1.0)
  {
  }

  lemma MatVecOfZero(a: Mat, x: Vec, n: nat, i: int)
    requires forall k :: 0 <= k < n ==> x(k) == 0.0
    ensures MatVec(a, x, n)(i) == 0.0
  {
    forall k | 0 <= k < n
      ensures Product(Row(a, i), x)(k) == 0.0
    {
      ProductZero(Row(a, i), x, k);
    }
    SumZero(Product(Row(a, i), x), n);
  }

  /** How the filter's estimates change in an observation that is not the first. */
  ghost predicate Observed(est: Vec, cov: Mat, q: Mat, r: Mat, z: Vec, est': Vec) {
    exists sInv: Mat :: IsInverse(Add(Add(cov, q), r), sInv, DIMS) && est' == ClampUnit(UpdateWith(est, cov, z, q, r, sInv).estimates)
  }

  lemma ClampedTwice(x: real)
    ensures ClampReal(ClampReal(x, 0.0, 1.0), 0.0, 1.0) == ClampReal(x, 0.0, 1.0)
  {
  }

  lemma ObservedBalances(est: Vec, cov: Mat, q: Mat, r: Mat, z: Vec, est': Vec) returns (raw: Vec, w: Vec)
    requires Observed(est, cov, q, r, z, est')
    ensures Balanced(est, Add(cov, q), z, r, raw, w)
    ensures forall i :: 0 <= i < DIMS ==> est'(i) == ClampReal(raw(i), 0.0, 1.0)
  {
    var sInv: Mat :| IsInverse(Add(Add(cov, q), r), sInv, DIMS) && est' == ClampUnit(UpdateWith(est, cov, z, q, r, sInv).estimates);
    raw, w := UpdateBalances(est, cov, z, q, r, sInv);
    forall i | 0 <= i < DIMS
      ensures est'(i) == ClampReal(raw(i), 0.0, 1.0)
    {
      ClampedTwice(raw(i));
    }
  }

  /** Measuring what is estimated already leaves the estimates where they are. */
  lemma AgreeingMeasurement(est: Vec, cov: Mat, q: Mat, r: Mat, z: Vec, est': Vec)
    requires UnitRange(est) && Observed(est, cov, q, r, z, est')
    requires forall i :: 0 <= i < DIMS ==> z(i) == est(i)
    ensures forall i :: 0 <= i < DIMS ==> est'(i) == est(i)
  {
    var sInv: Mat :| IsInverse(Add(Add(cov, q), r), sInv, DIMS) && est' == ClampUnit(UpdateWith(est, cov, z, q, r, sInv).estimates);
    NoInnovation(est, cov, z, q, r, sInv);
    UnitClamped(est, UpdateWith(est, cov, z, q, r, sInv).estimates);
  }

  lemma UnitClamped(est: Vec, x: Vec)
    requires UnitRange(est) && forall i :: 0 <= i < DIMS ==> x(i) == est(i)
    ensures forall i :: 0 <= i < DIMS ==> ClampUnit(x)(i) == est(i)
  {
  }

  lemma NoInnovation(est: Vec, cov: Mat, z: Vec, q: Mat, r: Mat, sInv: Mat)
    requires UnitRange(est) && forall i :: 0 <= i < DIMS ==> z(i) == est(i)
    ensures forall i :: 0 <= i < DIMS ==> UpdateWith(est, cov, z, q, r, sInv).estimates(i) == est(i)
  {
    var gain, y := Mul(Add(cov, q), sInv, DIMS), Minus(z, est);
    var raw := Plus(est, MatVec(gain, y, DIMS));
    EstimatesClamped(est, cov, z, q, r, sInv, raw);
    forall i | 0 <= i < DIMS
      ensures raw(i) == est(i)
    {
      MatVecOfZero(gain, y, DIMS, i);
    }
  }

  ghost predicate DiagonalOnly(a: Mat) {
    forall i, j :: 0 <= i < DIMS && 0 <= j < DIMS && i != j ==> a(i, j) == 0.0
  }

  lemma DiagonalVec(a: Mat, x: Vec, i: nat)
    requires DiagonalOnly(a) && i < DIMS
    ensures MatVec(a, x, DIMS)(i) == a(i, i) * x(i)
  {
    forall k | 0 <= k < DIMS && k != i
      ensures Product(Row(a, i), x)(k) == 0.0
    {
      ProductZero(Row(a, i), x, k);
    }
    SumSingle(Product(Row(a, i), x), i, DIMS);
  }

  /** e lies between x and z and divides the way from x to z as p and r stand. */
  ghost predicate Divides(x: real, z: real, e: real, p: real, r: real) {
    MinReal(x, z) <= e <= MaxReal(x, z) && r * (e - x) == p * (z - e)
  }

  lemma Shared(x: real, z: real, raw: real, p: real, r: real, w: real)
    requires p >= 0.0 && r >= 0.0 && raw - x == p * w && z - raw == r * w
    ensures Divides(x, z, raw, p, r)
  {
    if w >= 0.0 {
      ProductNonNegative(p, w);
      ProductNonNegative(r, w);
    } else {
      ProductNonNegative(p, -w);
      ProductNonNegative(r, -w);
      assert p * -w == -(p * w) && r * -w == -(r * w);
    }
    assert r * (p * w) == p * (r * w);
  }

  lemma InsideUnit(x: real, z: real, raw: real, p: real, r: real)
    requires 0.0 <= x <= 1.0 && 0.0 <= z <= 1.0 && Divides(x, z, raw, p, r)
    ensures Divides(x, z, ClampReal(raw, 0.0, 1.0), p, r)
  {
    assert ClampReal(raw, 0.0, 1.0) == raw;
  }

  lemma AddDiagonalOnly(a: Mat, b: Mat)
    requires DiagonalOnly(a) && DiagonalOnly(b)
    ensures DiagonalOnly(Add(a, b))
  {
  }

  lemma DiagonalEntry(est: Vec, p: Mat, z: Vec, r: Mat, raw: Vec, w: Vec, i: nat)
    requires BalancedAt(est, p, z, r, raw, w, i) && DiagonalOnly(p) && DiagonalOnly(r) && i < DIMS
    requires p(i, i) >= 0.0 && r(i, i) >= 0.0
    ensures Divides(est(i), z(i), raw(i), p(i, i), r(i, i))
  {
    DiagonalVec(p, w, i);
    DiagonalVec(r, w, i);
    Shared(est(i), z(i), raw(i), p(i, i), r(i, i), w(i));
  }

  /**
   With diagonal covariance and noise every estimate moves towards its measurement and not
   past it, dividing the way as the predicted variance and the measurement noise stand.
   */
  lemma BetweenOldAndMeasured(est: Vec, cov: Mat, q: Mat, r: Mat, z: Vec, est': Vec)
    requires UnitRange(est) && UnitRange(z) && Observed(est, cov, q, r, z, est')
    requires DiagonalOnly(cov) && DiagonalOnly(q) && DiagonalOnly(r)
    requires forall i :: 0 <= i < DIMS ==> Add(cov, q)(i, i) >= 0.0 && r(i, i) >= 0.0
    ensures forall i :: 0 <= i < DIMS ==> Divides(est(i), z(i), est'(i), Add(cov, q)(i, i), r(i, i))
  {
    var raw, w := ObservedBalances(est, cov, q, r, z, est');
    var p := Add(cov, q);
    AddDiagonalOnly(cov, q);
    forall i | 0 <= i < DIMS
      ensures Divides(est(i), z(i), est'(i), p(i, i), r(i, i))
    {
      assert BalancedAt(est, p, z, r, raw, w, i);
      DiagonalEntry(est, p, z, r, raw, w, i);
      InsideUnit(est(i), z(i), raw(i), p(i, i), r(i, i));
    }
  }

  /** What the filter does on every observation after the first is such a step. */
  method ObserveBalances(f: FilterState, z: Vec, sqrt: real -> real)
    requires f.Valid() && f.observationCount > 0 && IsSqrt(sqrt)
    modifies f
    ensures f.Valid()
    ensures Observed(old(f.estimates), old(f.covariance), old(f.adaptiveQ), old(f.adaptiveR), z, f.estimates)
  {
    ghost var est, cov, q, r := f.estimates, f.covariance, f.adaptiveQ, f.adaptiveR;
    ghost var sInv := f.Observe(z, sqrt);
    assert IsInverse(Add(Add(cov, q), r), sInv, DIMS);
  }

  // ------------------------------------------------------------------------------ noise

  /** An innovation as large as prediction and noise let expect leaves the measurement noise as it is. */
  lemma ExpectedInnovationKeepsR(result: KalmanResult, r: Mat, i: int, j: int)
    requires result.innovation(i) * result.innovation(j) == result.predicted(i, j) + r(i, j)
    ensures NoiseUpdateR(result)(i, j) == r(i, j)
  {
  }

  /** A correction as large as the covariance has shrunk leaves the process noise as it is. */
  lemma ExpectedCorrectionKeepsQ(result: KalmanResult, covariance: Mat, q: Mat, i: int, j: int)
    requires result.predicted(i, j) == covariance(i, j) + q(i, j)
    requires var k := MatVec(result.gain, result.innovation, DIMS); k(i) * k(j) == result.predicted(i, j) - result.covariance(i, j)
    ensures NoiseUpdateQ(result, covariance)(i, j) == q(i, j)
  {
  }

  /** Larger innovations ask for more measurement noise, larger predictions for less. */
  lemma NoiseFollowsInnovation(a: KalmanResult, b: KalmanResult, i: int)
    requires a.innovation(i) * a.innovation(i) >= b.innovation(i) * b.innovation(i) && a.predicted(i, i) <= b.predicted(i, i)
    ensures NoiseUpdateR(a)(i, i) >= NoiseUpdateR(b)(i, i)
  {
  }

  lemma PartWay(x: real, y: real, t: real)
    requires 0.0 <= t <= 1.0
    ensures MinReal(x, y) <= x + t * (y - x) <= MaxReal(x, y)
  {
    if x <= y {
      ProductNonNegative(t, y - x);
      ProductNonNegative(1.0 - t, y - x);
      assert (1.0 - t) * (y - x) == (y - x) - t * (y - x);
    } else {
      ProductNonNegative(t, x - y);
      ProductNonNegative(1.0 - t, x - y);
      assert (1.0 - t) * (x - y) == (x - y) - t * (x - y) && t * (x - y) == -(t * (y - x));
    }
  }

  /** Blending goes from the old matrix to the update and stays between them. */
  lemma LerpBetween(a: Mat, b: Mat, t: real, i: int, j: int)
    requires 0.0 <= t <= 1.0
    ensures MinReal(a(i, j), b(i, j)) <= Lerp(a, b, t)(i, j) <= MaxReal(a(i, j), b(i, j))
    ensures t == 0.0 ==> Lerp(a, b, t)(i, j) == a(i, j)
    ensures t == 1.0 ==> Lerp(a, b, t)(i, j) == b(i, j)
  {
    PartWay(a(i, j), b(i, j), t);
  }

  /** Noise within its floor and ceiling is left alone; what is clamped ends up within bounds that tighten with maturity. */
  lemma MatureClampBounds(x: real, floor: real, ceil: real, maturity: real)
    requires 0.0 <= maturity <= 1.0 && 0.0 < floor < ceil
    ensures floor <= x <= ceil ==> MatureClamp(x, floor, ceil, maturity) == x
    ensures 0.5 * floor <= MatureClamp(x, floor, ceil, maturity) <= 3.0 * ceil
    ensures maturity == 1.0 ==> MatureClamp(x, floor, ceil, maturity) <= ceil
    ensures maturity == 0.0 ==> MatureClamp(x, floor, ceil, maturity) >= floor
  {
    ProductNonNegative(floor, maturity);
    ProductNonNegative(floor, 1.0 - maturity);
    ProductNonNegative(ceil, maturity);
    ProductNonNegative(ceil, 1.0 - maturity);
    assert floor * (1.0 - maturity) == floor - floor * maturity && ceil * (1.0 - maturity) == ceil - ceil * maturity;
    assert floor * (1.0 - 0.5 * maturity) == floor - 0.5 * (floor * maturity);
    assert ceil * (1.0 + 2.0 * (1.0 - maturity)) == ceil + 2.0 * (ceil * (1.0 - maturity));
  }

  /** The adaptation slows down: by half at the third observation, by a twentieth from the twenty-first on. */
  lemma AdaptationSlows(count: nat)
    requires count >= MIN_OBSERVATIONS
    ensures Alpha(MIN_OBSERVATIONS) == 0.5 && Alpha(count + 1) <= Alpha(count)
    ensures count >= 21 ==> Alpha(count) == 0.05
    ensures count <= 21 ==> Alpha(count) * ((count - 1) as real) == 1.0
  {
    var a, b := MinReal((count - 1) as real, WINDOW), MinReal(count as real, WINDOW);
    assert 0.0 < a <= b;
    ReciprocalFalls(a, b);
  }

  lemma ReciprocalFalls(a: real, b: real)
    requires 0.0 < a <= b
    ensures 1.0 / b <= 1.0 / a
  {
    var x, y := 1.0 / a, 1.0 / b;
    assert x * a == 1.0 && y * b == 1.0;
    assert x - y == (x * y) * (b - a);
    assert x > 0.0 && y > 0.0;
    ProductNonNegative(x * y, b - a);
  }

  /** A twentieth of maturity for each observation, up to one. */
  lemma MaturityGrows(count: nat)
    ensures Maturity(0) == 0.0 && Maturity(count) <= Maturity(count + 1)
    ensures count <= 20 ==> Maturity(count) * 20.0 == count as real
    ensures count >= 20 ==> Maturity(count) == 1.0
  {
  }
}
