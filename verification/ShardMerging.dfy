/**
 Merging the filter states of several workers. Each shard is weighted by its share of the
 observations, so the merged covariance is a convex combination of covariances and the
 merged state satisfies the filter's invariant again.
 */
module ShardMerging {
  import opened Bounds
  import opened RealSums
  import opened Matrices
  import opened Cholesky
  import opened CertaintyFilter
  import opened NoiseSchedule

  function TotalCount(shards: seq<Shard>): nat {
    if |shards| == 0 then 0 else TotalCount(shards[..|shards| - 1]) + shards[|shards| - 1].count
  }

  function Share(shard: Shard, total: real): real
    requires total > 0.0
  {
    (shard.count as real) / total
  }

  function NoEstimates(): Vec { _ => 0.0 }

  function NoCovariance(): Mat { (_, _) => 0.0 }

  /** The covariance collected so far. */
  function WeightedCovariance(shards: seq<Shard>, total: real): Mat
    requires total > 0.0
  {
    if |shards| == 0 then NoCovariance() else
      var last := shards[|shards| - 1];
      Add(WeightedCovariance(shards[..|shards| - 1], total), Scale(Share(last, total), last.covariance))
  }

  function WeightedEstimates(shards: seq<Shard>, total: real): Vec
    requires total > 0.0
  {
    if |shards| == 0 then NoEstimates() else
      var last := shards[|shards| - 1];
      Plus(WeightedEstimates(shards[..|shards| - 1], total), Times(Share(last, total), last.estimates))
  }

  /** What a shard of a reachable state satisfies. */
  ghost predicate SoundShard(shard: Shard) {
    Covariance(shard.covariance) && (shard.count != 1 ==> UnitRange(shard.estimates))
  }

  ghost predicate AllSound(shards: seq<Shard>) {
    forall k :: 0 <= k < |shards| ==> SoundShard(shards[k])
  }

  /** No shard stopped right after its first, unclamped measurement. */
  predicate NoneSingle(shards: seq<Shard>) {
    forall k :: 0 <= k < |shards| ==> shards[k].count != 1
  }

  /** All estimates are in the unit range. */
  ghost predicate AllUnit(shards: seq<Shard>) {
    forall k :: 0 <= k < |shards| ==> UnitRange(shards[k].estimates)
  }

  // --------------------------------------------------------------------------- covariance

  lemma ZeroCovariance()
    ensures Covariance(NoCovariance())
  {
    var zero := NoCovariance();
    forall x: Vec
      ensures Quad(zero, x, DIMS) >= 0.0
    {
      forall i | 0 <= i < DIMS
        ensures Product(x, MatVec(zero, x, DIMS))(i) == 0.0
      {
        forall j | 0 <= j < DIMS
          ensures Product(Row(zero, i), x)(j) == 0.0
        {
          ProductZero(Row(zero, i), x, j);
        }
        SumZero(Product(Row(zero, i), x), DIMS);
        ProductZero(x, MatVec(zero, x, DIMS), i);
      }
      SumZero(Product(x, MatVec(zero, x, DIMS)), DIMS);
    }
  }

  lemma WeightedStep(acc: Mat, w: real, c: Mat)
    requires Covariance(acc) && Covariance(c) && w >= 0.0
    ensures Covariance(Add(acc, Scale(w, c)))
  {
    ScaleSemidefinite(w, c, DIMS);
    AddSemidefinite(acc, Scale(w, c), DIMS);
    forall i, j | 0 <= i < DIMS && 0 <= j < DIMS
      ensures Add(acc, Scale(w, c))(i, j) == Add(acc, Scale(w, c))(j, i)
    {
      assert c(i, j) == c(j, i) && acc(i, j) == acc(j, i);
    }
  }

  lemma ShareNonNegative(shard: Shard, total: real)
    requires total > 0.0
    ensures Share(shard, total) >= 0.0
    ensures Share(shard, total) * total == shard.count as real
  {
  }

  lemma {:induction false} MergedCovariance(shards: seq<Shard>, total: real)
    requires AllSound(shards) && total > 0.0
    ensures Covariance(WeightedCovariance(shards, total))
  {
    ZeroCovariance();
    if |shards| > 0 {
      var last := shards[|shards| - 1];
      assert SoundShard(last);
      MergedCovariance(shards[..|shards| - 1], total);
      ShareNonNegative(last, total);
      WeightedStep(WeightedCovariance(shards[..|shards| - 1], total), Share(last, total), last.covariance);
    }
  }

  // ---------------------------------------------------------------------------- estimates

  /** The estimates collected so far lie between zero and the share of observations seen. */
  ghost predicate WithinShare(x: Vec, share: real) {
    forall i :: 0 <= i < DIMS ==> 0.0 <= x(i) <= share
  }

  lemma UnitProduct(w: real, e: real)
    requires w >= 0.0 && 0.0 <= e <= 1.0
    ensures 0.0 <= w * e <= w
  {
    assert w * (1.0 - e) >= 0.0;
  }

  lemma ShareEntry(x: real, e: real, share: real, w: real)
    requires 0.0 <= x <= share && w >= 0.0 && 0.0 <= e <= 1.0
    ensures 0.0 <= x + w * e <= share + w
  {
    UnitProduct(w, e);
  }

  lemma ShareStep(x: Vec, e: Vec, share: real, w: real)
    requires WithinShare(x, share) && w >= 0.0 && UnitRange(e)
    ensures WithinShare(Plus(x, Times(w, e)), share + w)
  {
    forall i | 0 <= i < DIMS
      ensures 0.0 <= Plus(x, Times(w, e))(i) <= share + w
    {
      ShareEntry(x(i), e(i), share, w);
    }
  }

  lemma ShareAdds(count: nat, last: nat, total: real)
    requires total > 0.0
    ensures (count as real) / total + (last as real) / total == ((count + last) as real) / total
  {
  }

  lemma {:induction false} MergedEstimates(shards: seq<Shard>, total: real)
    requires AllUnit(shards) && total > 0.0
    ensures WithinShare(WeightedEstimates(shards, total), (TotalCount(shards) as real) / total)
  {
    if |shards| > 0 {
      var before := shards[..|shards| - 1];
      var last := shards[|shards| - 1];
      MergedEstimates(before, total);
      ShareNonNegative(last, total);
      ShareStep(WeightedEstimates(before, total), last.estimates, (TotalCount(before) as real) / total, Share(last, total));
      ShareAdds(TotalCount(before), last.count, total);
    }
  }

  lemma WholeShare(total: real)
    requires total > 0.0
    ensures total / total == 1.0
  {
  }

  /** The weighted mean of estimates in the unit range is in the unit range. */
  lemma MergedInRange(shards: seq<Shard>)
    requires AllUnit(shards) && TotalCount(shards) > 0
    ensures UnitRange(WeightedEstimates(shards, TotalCount(shards) as real))
  {
    MergedEstimates(shards, TotalCount(shards) as real);
    WholeShare(TotalCount(shards) as real);
  }

  // ------------------------------------------------------ when the range is guaranteed

  function SumCounts(counts: seq<nat>): nat {
    if |counts| == 0 then 0 else SumCounts(counts[..|counts| - 1]) + counts[|counts| - 1]
  }

  /** Sound shards that have seen these numbers of measurements. */
  ghost predicate Counted(shards: seq<Shard>, counts: seq<nat>) {
    && |shards| == |counts| && AllSound(shards)
    && forall k :: 0 <= k < |shards| ==> shards[k].count == counts[k]
  }

  lemma {:induction false} CountsAgree(shards: seq<Shard>, counts: seq<nat>)
    requires |shards| == |counts| && forall k :: 0 <= k < |shards| ==> shards[k].count == counts[k]
    ensures TotalCount(shards) == SumCounts(counts)
    decreases |shards|
  {
    if |shards| > 0 {
      CountsAgree(shards[..|shards| - 1], counts[..|counts| - 1]);
    }
  }

  /** One shard far out of range, all others at zero. */
  function Outlier(counts: seq<nat>, k: nat, size: real): (shards: seq<Shard>)
    ensures |shards| == |counts|
    ensures forall i :: 0 <= i < |shards| ==>
              shards[i] == Shard(if i == k then (_ => size) else NoEstimates(), NoCovariance(), counts[i])
  {
    seq(|counts|, i requires 0 <= i < |counts| => Shard(if i == k then (_ => size) else NoEstimates(), NoCovariance(), counts[i]))
  }

  lemma {:induction false} OutlierMean(counts: seq<nat>, k: nat, size: real, m: nat, total: real)
    requires k < |counts| && counts[k] == 1 && m <= |counts| && total > 0.0
    ensures WeightedEstimates(Outlier(counts, k, size)[..m], total)(0) == if k < m then (1.0 / total) * size else 0.0
  {
    if m > 0 {
      var shards := Outlier(counts, k, size);
      OutlierMean(counts, k, size, m - 1, total);
      assert shards[..m][..m - 1] == shards[..m - 1];
      var last, before := shards[m - 1], WeightedEstimates(shards[..m - 1], total);
      assert WeightedEstimates(shards[..m], total)(0) == before(0) + Share(last, total) * last.estimates(0);
      if m - 1 != k {
        assert last.estimates(0) == 0.0;
      }
    }
  }

  lemma OutlierEscapes(counts: seq<nat>, k: nat) returns (shards: seq<Shard>)
    requires k < |counts| && counts[k] == 1 && SumCounts(counts) > 0
    ensures Counted(shards, counts) && !UnitRange(WeightedEstimates(shards, SumCounts(counts) as real))
  {
    var total := SumCounts(counts) as real;
    var size := 2.0 * total;
    shards := Outlier(counts, k, size);
    ZeroCovariance();
    forall i | 0 <= i < |shards|
      ensures SoundShard(shards[i])
    {
    }
    OutlierMean(counts, k, size, |counts|, total);
    assert shards[..|counts|] == shards;
    assert (1.0 / total) * (2.0 * total) == 2.0;
  }

  /**
   The exact condition on the counts: whatever sound shards with these numbers of
   measurements hold, the merged estimates are in the unit range, if and only if no shard
   has seen exactly one measurement.
   */
  lemma RangeIffNoneSingle(counts: seq<nat>)
    requires SumCounts(counts) > 0
    ensures (forall k :: 0 <= k < |counts| ==> counts[k] != 1) <==>
            forall shards :: Counted(shards, counts) ==> UnitRange(WeightedEstimates(shards, SumCounts(counts) as real))
  {
    if forall k :: 0 <= k < |counts| ==> counts[k] != 1 {
      forall shards | Counted(shards, counts)
        ensures UnitRange(WeightedEstimates(shards, SumCounts(counts) as real))
      {
        CountsAgree(shards, counts);
        NoneSingleUnit(shards);
        MergedInRange(shards);
      }
    } else {
      var k :| 0 <= k < |counts| && counts[k] == 1;
      var shards := OutlierEscapes(counts, k);
    }
  }

  lemma NoneSingleUnit(shards: seq<Shard>)
    requires AllSound(shards) && NoneSingle(shards)
    ensures AllUnit(shards)
  {
    forall k | 0 <= k < |shards|
      ensures UnitRange(shards[k].estimates)
    {
      assert SoundShard(shards[k]);
    }
  }

  // -------------------------------------------------------------------------------- merging

  /** The totals over all shards. */
  method Accumulate(shards: seq<Shard>, total: real) returns (est: Vec, cov: Mat)
    requires total > 0.0
    ensures est == WeightedEstimates(shards, total) && cov == WeightedCovariance(shards, total)
  {
    est, cov := NoEstimates(), NoCovariance();
    for k := 0 to |shards|
      invariant est == WeightedEstimates(shards[..k], total)
      invariant cov == WeightedCovariance(shards[..k], total)
    {
      var shard := shards[k];
      assert shards[..k + 1][..k] == shards[..k];
      var w := Share(shard, total);
      est := Plus(est, Times(w, shard.estimates));
      cov := Add(cov, Scale(w, shard.covariance));
    }
    assert shards[..|shards|] == shards;
  }

  function CappedCount(total: nat): nat {
    if total < COUNT_MAX then total else COUNT_MAX
  }

  /**
   Merges shard states. The merged noise starts over from the defaults and the merged
   covariance is a covariance. When all estimates are in the unit range, or no shard has
   seen exactly one measurement, the merged state satisfies the filter's invariant.
   */
  method MergeShards(shards: seq<Shard>, sqrt: real -> real) returns (merged: FilterState)
    requires AllSound(shards) && IsSqrt(sqrt)
    ensures fresh(merged)
    ensures Covariance(merged.covariance) && merged.observationCount == CappedCount(TotalCount(shards))
    ensures merged.adaptiveQ == Diagonal(DEFAULT_Q) && merged.adaptiveR == Diagonal(DEFAULT_R)
    ensures AllUnit(shards) || NoneSingle(shards) ==> merged.Valid() && UnitRange(merged.estimates)
    ensures TotalCount(shards) == 0 ==>
              merged.estimates == DEFAULT_ESTIMATES && merged.covariance == Diagonal(DEFAULT_COV)
    ensures TotalCount(shards) > 0 ==>
              (merged.estimates == WeightedEstimates(shards, TotalCount(shards) as real)
               && merged.covariance == WeightedCovariance(shards, TotalCount(shards) as real))
  {
    merged := new FilterState(sqrt);
    var total := TotalCount(shards);
    if total > 0 {
      var est, cov := Accumulate(shards, total as real);
      MergedCovariance(shards, total as real);
      if NoneSingle(shards) {
        NoneSingleUnit(shards);
      }
      if AllUnit(shards) {
        MergedInRange(shards);
      }
      merged.Adopt(est, cov, CappedCount(total));
    }
  }

  /** A filter after n observations of the same vector. */
  method ObserveTimes(n: nat, z: Vec, sqrt: real -> real) returns (f: FilterState)
    requires IsSqrt(sqrt) && n <= COUNT_MAX
    ensures fresh(f) && f.Valid() && f.observationCount == n && (n == 1 ==> f.estimates == z)
  {
    f := new FilterState(sqrt);
    for i := 0 to n
      invariant f.Valid() && f.observationCount == i && (i == 1 ==> f.estimates == z)
    {
      ghost var sInv := f.Observe(z, sqrt);
    }
  }

  lemma {:induction false} MeanAtLeast(shards: seq<Shard>, k: nat, m: nat, total: real)
    requires k < |shards| && m <= |shards| && total > 0.0
    requires forall i :: 0 <= i < |shards| ==> shards[i].estimates(0) >= 0.0
    ensures WeightedEstimates(shards[..m], total)(0) >= if k < m then Share(shards[k], total) * shards[k].estimates(0) else 0.0
  {
    if m > 0 {
      MeanAtLeast(shards, k, m - 1, total);
      assert shards[..m][..m - 1] == shards[..m - 1];
      var last, before := shards[m - 1], WeightedEstimates(shards[..m - 1], total);
      assert WeightedEstimates(shards[..m], total)(0) == before(0) + Share(last, total) * last.estimates(0);
      ShareNonNegative(last, total);
      ProductNonNegative(Share(last, total), last.estimates(0));
    }
  }

  lemma ShareOfDouble(shard: Shard, total: real)
    requires total > 0.0 && shard.count == 1 && shard.estimates(0) == 2.0 * total
    ensures Share(shard, total) * shard.estimates(0) == 2.0
  {
    var w := Share(shard, total);
    ShareNonNegative(shard, total);
    assert w * (2.0 * total) == 2.0 * (w * total);
  }

  lemma FirstEntryTooLarge(x: Vec)
    requires x(0) >= 2.0
    ensures !UnitRange(x)
  {
  }

  /** What merging reads of a filter that has observed the same number in all dimensions that often. */
  method ObservedShard(count: nat, size: real, sqrt: real -> real) returns (shard: Shard)
    requires IsSqrt(sqrt) && count <= COUNT_MAX && size >= 0.0
    ensures SoundShard(shard) && shard.count == count && (count == 1 ==> shard.estimates(0) == size)
    ensures shard.estimates(0) >= 0.0
  {
    var f := ObserveTimes(count, _ => size, sqrt);
    shard := f.Snapshot();
  }

  lemma TooLarge(shards: seq<Shard>, k: nat, total: real)
    requires k < |shards| && total > 0.0 && shards[k].count == 1 && shards[k].estimates(0) == 2.0 * total
    requires forall i :: 0 <= i < |shards| ==> shards[i].estimates(0) >= 0.0
    ensures !UnitRange(WeightedEstimates(shards, total))
  {
    MeanAtLeast(shards, k, |shards|, total);
    assert shards[..|shards|] == shards;
    ShareOfDouble(shards[k], total);
    FirstEntryTooLarge(WeightedEstimates(shards, total));
  }

  /**
   For all counts one of which is one, filters that observe that many measurements, all zero
   but for the single one, merge to estimates outside the unit range.
   */
  method ObservedOutlier(counts: seq<nat>, k: nat, sqrt: real -> real) returns (shards: seq<Shard>, merged: FilterState)
    requires k < |counts| && counts[k] == 1 && IsSqrt(sqrt)
    requires forall i :: 0 <= i < |counts| ==> counts[i] <= COUNT_MAX
    ensures Counted(shards, counts) && !UnitRange(merged.estimates)
  {
    var size := 2.0 * (SumCounts(counts) as real);
    shards := [];
    for i := 0 to |counts|
      invariant |shards| == i
      invariant forall j :: 0 <= j < i ==> SoundShard(shards[j]) && shards[j].count == counts[j] && shards[j].estimates(0) >= 0.0
      invariant k < i ==> shards[k].estimates(0) == size
    {
      var shard := ObservedShard(counts[i], if i == k then size else 0.0, sqrt);
      shards := shards + [shard];
    }
    CountsAgree(shards, counts);
    CountPositive(counts, k);
    TooLarge(shards, k, SumCounts(counts) as real);
    merged := MergeShards(shards, sqrt);
  }

  lemma {:induction false} CountPositive(counts: seq<nat>, k: nat)
    requires k < |counts|
    ensures SumCounts(counts) >= counts[k]
  {
    if k < |counts| - 1 {
      CountPositive(counts[..|counts| - 1], k);
    }
  }

  /** A filter that has taken over one measurement of 2 leaves the unit range when it is merged. */
  method FirstMeasurementEscapes(sqrt: real -> real) returns (shard: FilterState, merged: FilterState)
    requires IsSqrt(sqrt)
    ensures shard.Valid() && shard.observationCount == 1
    ensures merged.observationCount == 1 && merged.estimates(0) == 2.0
  {
    shard := new FilterState(sqrt);
    ghost var sInv := shard.Observe(_ => 2.0, sqrt);
    var snapshot := shard.Snapshot();
    merged := MergeShards([snapshot], sqrt);
    assert [snapshot][..0] == [];
    assert Share(snapshot, 1.0) == 1.0;
    assert merged.estimates(0) == 0.0 + 1.0 * snapshot.estimates(0);
  }
}
