/**
 When two candidates conflict, which ones a hard clause rules out, and which of two for a
 line is preferred, condition by condition.
 */
module ConflictLaws {
  import opened Bounds
  import opened ExactSearch
  import opened ConflictSolver

  // ---------------------------------------------------------------------------- ranges

  ghost predicate Covers(ranges: seq<(nat, nat)>, point: nat) {
    exists i :: 0 <= i < |ranges| && ranges[i].0 <= point <= ranges[i].1
  }

  ghost predicate StartBeforeEnd(ranges: seq<(nat, nat)>) {
    forall i :: 0 <= i < |ranges| ==> ranges[i].0 <= ranges[i].1
  }

  /** Footprints overlap exactly when they share a point. */
  lemma OverlapSharesPoint(left: seq<(nat, nat)>, right: seq<(nat, nat)>)
    requires StartBeforeEnd(left) && StartBeforeEnd(right)
    ensures RangesOverlap(left, right) <==> exists point: nat :: Covers(left, point) && Covers(right, point)
  {
    if RangesOverlap(left, right) {
      var i, j :| 0 <= i < |left| && 0 <= j < |right| && left[i].0 <= right[j].1 && right[j].0 <= left[i].1;
      var point := MaxNat(left[i].0, right[j].0);
      assert left[i].0 <= point <= left[i].1 && right[j].0 <= point <= right[j].1;
      assert Covers(left, point) && Covers(right, point);
    }
    if point: nat :| Covers(left, point) && Covers(right, point) {
      var i :| 0 <= i < |left| && left[i].0 <= point <= left[i].1;
      var j :| 0 <= j < |right| && right[j].0 <= point <= right[j].1;
      assert left[i].0 <= right[j].1 && right[j].0 <= left[i].1;
    }
  }

  // -------------------------------------------------------------------------- conflicts

  /** Different policies, neither of which bypasses conflicts. */
  predicate Rivals(a: Candidate, b: Candidate, ctx: Context) {
    a.policy != b.policy && a.policy !in ctx.bypassing && b.policy !in ctx.bypassing
  }

  /** Candidates of one policy conflict on one line only; a bypassing policy conflicts with no other. */
  lemma NoRivals(a: Candidate, b: Candidate, ctx: Context)
    ensures a.policy == b.policy ==> (Conflicts(a, b, ctx) <==> a.line == b.line)
    ensures a.policy != b.policy && !Rivals(a, b, ctx) ==> !Conflicts(a, b, ctx)
  {
  }

  /** Rivals conflict on one line, on a shared point, and on a shared symbol at most one line apart. */
  lemma RivalsClash(a: Candidate, b: Candidate, ctx: Context)
    requires Rivals(a, b, ctx)
    ensures a.line == b.line || RangesOverlap(a.ranges, b.ranges) ==> Conflicts(a, b, ctx)
    ensures (exists s :: s in a.symbols && s in b.symbols) && a.line <= b.line + 1 && b.line <= a.line + 1 ==> Conflicts(a, b, ctx)
  {
  }

  /** A shared symbol reaches as far as the larger impact radius, or for risky and rewriting policies at least as far as the context says. */
  lemma SymbolsReach(a: Candidate, b: Candidate, ctx: Context, gap: nat)
    requires Rivals(a, b, ctx) && a.zone == b.zone == Zone.Code && !RangesOverlap(a.ranges, b.ranges) && b.line == a.line + gap && gap > 0
    ensures var shared := exists s :: s in a.symbols && s in b.symbols;
            var sensitive := a.riskTier == High || b.riskTier == High || a.policy in ctx.rewriting || b.policy in ctx.rewriting;
            Conflicts(a, b, ctx) <==>
              shared && (gap <= a.impactRadius || gap <= b.impactRadius || gap <= 1 || (sensitive && gap <= FuzzyMinSemantic(ctx)))
  {
    FuzzyBounds(ctx);
  }

  /** Different texts near a preprocessor line conflict as far as the larger impact radius. */
  lemma PreprocessorReach(a: Candidate, b: Candidate, ctx: Context, gap: nat)
    requires Rivals(a, b, ctx) && a.symbols == [] && !RangesOverlap(a.ranges, b.ranges) && b.line == a.line + gap && gap > 0
    ensures Conflicts(a, b, ctx) <==>
              (a.zone == Preprocessor || b.zone == Preprocessor) && a.afterFingerprint != b.afterFingerprint
              && (gap <= a.impactRadius || gap <= b.impactRadius)
  {
    assert !SymbolsOverlap(a.symbols, b.symbols);
  }

  /** A larger impact radius loses no conflict. */
  lemma WiderImpact(a: Candidate, b: Candidate, ctx: Context, radius: nat)
    requires Conflicts(a, b, ctx) && radius >= a.impactRadius
    ensures Conflicts(a.(impactRadius := radius), b, ctx)
  {
  }

  lemma FloorWithin(x: real, low: nat, high: nat)
    requires (low as real) <= x <= (high as real)
    ensures low <= x.Floor <= high && (x.Floor as real) <= x < (x.Floor as real) + 1.0
  {
  }

  /** Between 1 and 8 lines. */
  lemma FuzzyBounds(ctx: Context)
    ensures 1 <= FuzzyMinSemantic(ctx) <= 8
    ensures 1.0 <= ctx.semanticVariance * 30.0 <= 8.0 ==>
              (FuzzyMinSemantic(ctx) as real) <= ctx.semanticVariance * 30.0 < (FuzzyMinSemantic(ctx) as real) + 1.0
  {
    FloorWithin(ClampReal(ctx.semanticVariance * 30.0, 1.0, 8.0), 1, 8);
  }

  /** Components of at most 8 nodes are always solved exactly, and none of more than 64. */
  lemma ThresholdBounds(ctx: Context)
    ensures 8 <= ComponentThreshold(ctx) <= 64
    ensures 8.0 <= ctx.richness * 32.0 <= 64.0 ==>
              (ComponentThreshold(ctx) as real) <= ctx.richness * 32.0 < (ComponentThreshold(ctx) as real) + 1.0
  {
    FloorWithin(ClampReal(ctx.richness * 32.0, 8.0, 64.0), 8, 64);
  }

  // ------------------------------------------------------------------------ hard clauses

  /** Bit k is set. */
  predicate Touches(bits: bv16, k: nat)
    requires k < 16
  {
    bits & ((1 as bv16) << (k as bv5)) != 0
  }

  /** A candidate is ruled out by touching any of the eight clauses but the macro regions, which is number 5. */
  lemma RuledOutExactly(c: Candidate)
    ensures ViolatesHard(c) <==>
            || Touches(c.hardTouched, 0) || Touches(c.hardTouched, 1) || Touches(c.hardTouched, 2) || Touches(c.hardTouched, 3)
            || Touches(c.hardTouched, 4) || Touches(c.hardTouched, 6) || Touches(c.hardTouched, 7)
  {
  }

  // -------------------------------------------------------------------- who gets a line

  /** Clearly more useful is preferred, clearly less useful is not. */
  lemma UsefulPreferred(a: Candidate, b: Candidate, ctx: Context)
    ensures Utility(a, ctx) > Utility(b, ctx) + TOLERANCE ==> ChooseNew(a, b, ctx)
    ensures Utility(a, ctx) < Utility(b, ctx) - TOLERANCE ==> !ChooseNew(a, b, ctx)
  {
  }

  /** Among equally useful ones confidence decides, and among equally confident ones the lower risk; a full tie keeps the holder. */
  lemma TiesForALine(a: Candidate, b: Candidate, ctx: Context)
    requires Utility(a, ctx) == Utility(b, ctx)
    ensures a.confidence > b.confidence + 0.001 ==> ChooseNew(a, b, ctx)
    ensures a.confidence < b.confidence - 0.001 ==> !ChooseNew(a, b, ctx)
    ensures a.confidence == b.confidence ==>
              (ChooseNew(a, b, ctx) <==> (a.riskTier == Low && b.riskTier != Low) || (a.riskTier == Medium && b.riskTier == High))
  {
  }
}
