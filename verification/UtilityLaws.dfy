/**
 What makes a candidate useful, and what that means for what the solver accepts: confidence
 and style gain count in full, riskier and wider candidates never count for more, and the
 more useful of two rivals holds the line or is accepted.
 */
module UtilityLaws {
  import opened Bounds
  import opened SeqFacts
  import opened CandidateOrder
  import opened ExactSearch
  import opened ExactSearchOptimality
  import opened ConflictGraph
  import opened ConflictSelection
  import opened ComponentSolver
  import opened ConflictSolver
  import opened GlobalSolver

  /** The estimates the utility reads lie in the unit range and the variance is not negative. */
  predicate Plausible(ctx: Context) {
    && 0.0 <= ctx.structural <= 1.0 && 0.0 <= ctx.coverage <= 1.0 && 0.0 <= ctx.editSuccess <= 1.0
    && 0.0 <= ctx.richnessVariance
  }

  /** More confidence and more style gain add to the utility as they are. */
  lemma GainsCountInFull(c: Candidate, ctx: Context, confidence: real, gain: real)
    ensures Utility(c.(confidence := c.confidence + confidence, styleGain := c.styleGain + gain), ctx)
            == Utility(c, ctx) + confidence + gain
  {
  }

  lemma RiskTerms(ctx: Context)
    requires Plausible(ctx)
    ensures StabilizerBonus(Low, ctx) >= StabilizerBonus(Medium, ctx) >= StabilizerBonus(High, ctx)
    ensures ScopeBonus(Low, ctx) >= ScopeBonus(Medium, ctx) == ScopeBonus(High, ctx) >= 0.0
    ensures RiskPenalty(Low, ctx) <= RiskPenalty(Medium, ctx) <= RiskPenalty(High, ctx)
  {
  }

  /** All else equal, less risk is never less useful. */
  lemma LessRiskCounts(c: Candidate, ctx: Context)
    requires Plausible(ctx)
    ensures Utility(c.(riskTier := Low), ctx) >= Utility(c.(riskTier := Medium), ctx) >= Utility(c.(riskTier := High), ctx)
  {
    RiskTerms(ctx);
    ProductGrows(Narrowness(ctx.stage), ScopeBonus(Medium, ctx), ScopeBonus(Low, ctx));
  }

  function InStage(ctx: Context, stage: Stage): Context { ctx.(stage := stage) }

  /** All else equal, a narrower stage is never less useful, in two equal steps, and more useful when anything is covered. */
  lemma NarrowerCounts(c: Candidate, ctx: Context)
    requires Plausible(ctx)
    ensures Utility(c, InStage(ctx, Full)) <= Utility(c, InStage(ctx, CulpritRegion)) <= Utility(c, InStage(ctx, NodeLocal))
    ensures Utility(c, InStage(ctx, NodeLocal)) == Utility(c, InStage(ctx, LineLocal))
    ensures Utility(c, InStage(ctx, CulpritRegion)) - Utility(c, InStage(ctx, Full)) == Utility(c, InStage(ctx, NodeLocal)) - Utility(c, InStage(ctx, CulpritRegion))
    ensures ctx.coverage > 0.0 ==> Utility(c, InStage(ctx, Full)) < Utility(c, InStage(ctx, CulpritRegion)) < Utility(c, InStage(ctx, NodeLocal))
  {
    RiskTerms(ctx);
    StageTerm(c, ctx, Full);
    StageTerm(c, ctx, CulpritRegion);
    StageTerm(c, ctx, NodeLocal);
    StageTerm(c, ctx, LineLocal);
  }

  lemma StageTerm(c: Candidate, ctx: Context, stage: Stage)
    ensures Utility(c, InStage(ctx, stage))
            == c.styleGain + c.confidence + StabilizerBonus(c.riskTier, ctx) + Narrowness(stage) * ScopeBonus(c.riskTier, ctx)
               - RiskPenalty(c.riskTier, ctx) - FootprintPenalty(|c.ranges|, |c.symbols|, ctx)
  {
  }

  function Bare(c: Candidate): Candidate { c.(ranges := [], symbols := []) }

  /** A range costs a fifth of the variance and a symbol a tenth. */
  lemma CostForm(ranges: nat, symbols: nat, ctx: Context)
    ensures FootprintCost(ranges, symbols, ctx) == ctx.richnessVariance * ((ranges as real) * 0.2 + (symbols as real) * 0.1)
    ensures FootprintCost(0, 0, ctx) == 0.0
  {
    var r, s, v := ranges as real, symbols as real, ctx.richnessVariance;
    assert r * (v * 0.2) + s * (v * 0.1) == v * (r * 0.2 + s * 0.1);
  }

  lemma CostGrows(ranges: nat, symbols: nat, moreRanges: nat, moreSymbols: nat, ctx: Context)
    requires Plausible(ctx) && ranges <= moreRanges && symbols <= moreSymbols
    ensures 0.0 <= FootprintCost(ranges, symbols, ctx) <= FootprintCost(moreRanges, moreSymbols, ctx)
  {
    var v := ctx.richnessVariance;
    ProductGrows(v * 0.2, ranges as real, moreRanges as real);
    ProductGrows(v * 0.1, symbols as real, moreSymbols as real);
    ProductNonNegative(v * 0.2, ranges as real);
    ProductNonNegative(v * 0.1, symbols as real);
  }

  /** The footprint costs that much, but never more than 0.30. */
  lemma FootprintCosts(c: Candidate, ctx: Context)
    requires Plausible(ctx)
    ensures Utility(Bare(c), ctx) - Utility(c, ctx) == MinReal(0.30, FootprintCost(|c.ranges|, |c.symbols|, ctx))
    ensures 0.0 <= Utility(Bare(c), ctx) - Utility(c, ctx) <= 0.30
  {
    CostForm(0, 0, ctx);
    CostGrows(0, 0, |c.ranges|, |c.symbols|, ctx);
  }

  /** A larger footprint is never more useful. */
  lemma LargerCostsMore(c: Candidate, d: Candidate, ctx: Context)
    requires Plausible(ctx) && Bare(c) == Bare(d) && |c.ranges| <= |d.ranges| && |c.symbols| <= |d.symbols|
    ensures Utility(c, ctx) >= Utility(d, ctx)
  {
    CostGrows(|c.ranges|, |c.symbols|, |d.ranges|, |d.symbols|, ctx);
    assert Bare(c).styleGain == c.styleGain && Bare(c).confidence == c.confidence && Bare(c).riskTier == c.riskTier;
    assert Bare(d).styleGain == d.styleGain && Bare(d).confidence == d.confidence && Bare(d).riskTier == d.riskTier;
  }

  // ------------------------------------------------------------------ who holds a line

  /** A candidate more useful than every other for its line by more than the tolerance holds the line. */
  lemma {:induction false} ClearWinnerHolds(incoming: seq<Candidate>, a: Candidate, ctx: Context)
    requires a in incoming
    requires forall c :: c in incoming && c.line == a.line && c != a ==> Utility(c, ctx) + TOLERANCE < Utility(a, ctx)
    ensures LineBest(incoming, a.line, ctx) == Held(a)
  {
    var front, last := incoming[..|incoming| - 1], incoming[|incoming| - 1];
    assert incoming == front + [last];
    if a in front {
      ClearWinnerHolds(front, a, ctx);
    } else {
      LineBestFacts(front, a.line, ctx);
    }
  }

  /** Of two candidates for a line alike but for confidence, by more than the tolerance, the more confident one holds it. */
  lemma MoreConfidentHolds(incoming: seq<Candidate>, a: Candidate, b: Candidate, ctx: Context)
    requires a in incoming && b == a.(policy := b.policy, confidence := b.confidence)
    requires a.confidence > b.confidence + TOLERANCE
    requires forall c :: c in incoming && c.line == a.line ==> c == a || c == b
    ensures LineBest(incoming, a.line, ctx) == Held(a)
  {
    GainsCountInFull(b, ctx, a.confidence - b.confidence, 0.0);
    ClearWinnerHolds(incoming, a, ctx);
  }

  // ------------------------------------------------------------------ who is accepted

  /** Node x conflicts with node y and nothing else, and the other way round. */
  ghost predicate OnlyRivals(adj: Graph, x: nat, y: nat) {
    && x < |adj| && y < |adj| && x != y
    && (forall v :: Edge(adj, x, v) <==> v == y) && (forall v :: Edge(adj, y, v) <==> v == x)
  }

  lemma RivalsComponent(adj: Graph, component: seq<nat>, x: nat, y: nat)
    requires WellFormed(adj) && IsClass(adj, component) && OnlyRivals(adj, x, y) && x in component
    ensures ToSet(component) == {x, y}
  {
    ReachableSymmetric(adj, component[0], x);
    forall v | v in component
      ensures v in {x, y}
    {
      ReachableTransitive(adj, x, component[0], v);
      var path :| IsPath(adj, path, x, v);
      ClosedHoldsPath(adj, {x, y}, path, x, v);
    }
    assert Edge(adj, x, y);
    ReachableStep(adj, component[0], x, y);
  }

  lemma SubsetsOfTwo(s: set<nat>, x: nat, y: nat)
    requires s <= {x, y} && !(x in s && y in s)
    ensures s == {} || s == {x} || s == {y}
  {
    if x in s {
      assert s == {x};
    } else if y in s {
      assert s == {y};
    }
  }

  /** What independent choices among two rivals weigh. */
  lemma RivalTotals(adj: Graph, weights: seq<real>, s: set<nat>, x: nat, y: nat)
    requires OnlyRivals(adj, x, y) && |weights| == |adj| && s <= {x, y} && Independent(adj, s)
    ensures (s == {} && Total(weights, s) == 0.0) || (s == {x} && Total(weights, s) == weights[x]) || (s == {y} && Total(weights, s) == weights[y])
  {
    assert Edge(adj, x, y);
    SubsetsOfTwo(s, x, y);
    TotalBelowEmpty(weights, |weights|);
    TotalBelowSingle(weights, x, |weights|);
    TotalBelowSingle(weights, y, |weights|);
  }

  /** Rivals further apart than the tolerance, and the heavier one worth more than it, leave a gap. */
  lemma RivalsGap(adj: Graph, weights: seq<real>, keys: seq<Key>, ordered: seq<nat>, x: nat, y: nat)
    requires ValidOrder(adj, weights, keys, ordered) && OnlyRivals(adj, x, y) && ToSet(ordered) == {x, y}
    requires weights[x] > TOLERANCE && weights[x] > weights[y] + TOLERANCE
    ensures TopGap(ComponentInstance(adj, weights, keys, ordered))
  {
    var inst := ComponentInstance(adj, weights, keys, ordered);
    assert Independent(adj, {x});
    var top := NodesToChoice(adj, weights, keys, ordered, {x});
    ScoreIsTotal(adj, weights, keys, ordered, top);
    RivalTotals(adj, weights, {x}, x, y);
    forall t, o | ConflictFree(inst, t) && Optimal(inst, o)
      ensures !(Score(inst, o) - TOLERANCE <= Score(inst, t) < Score(inst, o))
    {
      RivalScore(adj, weights, keys, ordered, x, y, t);
      RivalScore(adj, weights, keys, ordered, x, y, o);
      assert Score(inst, top) <= Score(inst, o);
    }
  }

  lemma RivalScore(adj: Graph, weights: seq<real>, keys: seq<Key>, ordered: seq<nat>, x: nat, y: nat, t: seq<nat>)
    requires ValidOrder(adj, weights, keys, ordered) && OnlyRivals(adj, x, y) && ToSet(ordered) == {x, y}
    requires ConflictFree(ComponentInstance(adj, weights, keys, ordered), t)
    ensures var score := Score(ComponentInstance(adj, weights, keys, ordered), t);
            score == 0.0 || score == weights[x] || score == weights[y]
  {
    ChoiceIndependent(adj, weights, keys, ordered, t);
    ScoreIsTotal(adj, weights, keys, ordered, t);
    var nodes := NodesAt(ordered, t);
    forall v | v in ToSet(nodes)
      ensures v in ToSet(ordered)
    {
    }
    RivalTotals(adj, weights, ToSet(nodes), x, y);
  }

  /**
   Of two admissible candidates that conflict with each other and nothing else, the one more
   useful by more than the tolerance, and worth more than it, is selected and the other is not.
   */
  lemma BetterRivalSelected(admissible: seq<Candidate>, ctx: Context, components: seq<seq<nat>>, answers: seq<seq<nat>>, indexes: seq<nat>, x: nat, y: nat)
    requires Selected(admissible, ctx, components, answers, indexes) && OnlyRivals(GraphOf(admissible, ctx), x, y)
    requires Utility(admissible[x], ctx) > TOLERANCE && Utility(admissible[x], ctx) > Utility(admissible[y], ctx) + TOLERANCE
    ensures x in indexes && y !in indexes
  {
    GraphEdges(admissible, ctx);
    var adj := GraphOf(admissible, ctx);
    var i := ComponentWith(admissible, ctx, components, x);
    assert Answered(admissible, ctx, components[i], answers[i]);
    RivalsComponent(adj, components[i], x, y);
    RivalAnswered(admissible, ctx, components[i], answers[i], x, y);
    assert x in ToSet(answers[i]);
    assert InSome(answers, x);
    SelectedIndependent(admissible, ctx, components, answers, indexes);
    NotBoth(adj, indexes, x, y);
  }

  lemma ComponentWith(admissible: seq<Candidate>, ctx: Context, components: seq<seq<nat>>, x: nat) returns (i: nat)
    requires Partition(GraphOf(admissible, ctx), components, Range(|admissible|)) && x < |admissible|
    ensures i < |components| && x in components[i] && ComponentOf(admissible, ctx, components[i])
  {
    assert x in Range(|admissible|);
    assert InSome(components, x);
    i :| 0 <= i < |components| && x in components[i];
  }

  lemma NotBoth(adj: Graph, indexes: seq<nat>, x: nat, y: nat)
    requires Independent(adj, ToSet(indexes)) && Edge(adj, x, y)
    ensures !(x in indexes && y in indexes)
  {
    assert x in indexes && y in indexes ==> x in ToSet(indexes) && y in ToSet(indexes);
  }

  lemma TwoNodes(component: seq<nat>, x: nat, y: nat)
    requires Ascending(component) && ToSet(component) == {x, y} && x != y
    ensures |component| == 2
  {
    DistinctSize(component);
  }

  lemma RivalAnswered(candidates: seq<Candidate>, ctx: Context, component: seq<nat>, answer: seq<nat>, x: nat, y: nat)
    requires ComponentOf(candidates, ctx, component) && Answered(candidates, ctx, component, answer)
    requires OnlyRivals(GraphOf(candidates, ctx), x, y) && ToSet(component) == {x, y}
    requires Utility(candidates[x], ctx) > TOLERANCE && Utility(candidates[x], ctx) > Utility(candidates[y], ctx) + TOLERANCE
    ensures ToSet(answer) == {x}
  {
    var adj, weights := GraphOf(candidates, ctx), Weights(candidates, ctx);
    TwoNodes(component, x, y);
    ComponentValid(candidates, ctx, component);
    RivalsGap(adj, weights, Keys(candidates), SortNodes(candidates, Utilities(candidates, ctx), component), x, y);
    ExactAnswerHeaviest(candidates, ctx, component);
    assert Independent(adj, {x});
    RivalTotals(adj, weights, {x}, x, y);
    RivalTotals(adj, weights, ToSet(answer), x, y);
  }

  /** The same for candidates alike but for policy, line and confidence. */
  lemma MoreConfidentSelected(admissible: seq<Candidate>, ctx: Context, components: seq<seq<nat>>, answers: seq<seq<nat>>, indexes: seq<nat>, x: nat, y: nat)
    requires Selected(admissible, ctx, components, answers, indexes) && OnlyRivals(GraphOf(admissible, ctx), x, y)
    requires admissible[y] == admissible[x].(policy := admissible[y].policy, line := admissible[y].line, confidence := admissible[y].confidence)
    requires Utility(admissible[x], ctx) > TOLERANCE && admissible[x].confidence > admissible[y].confidence + TOLERANCE
    ensures x in indexes && y !in indexes
  {
    MoreConfidentWorth(admissible[x], admissible[y], ctx);
    BetterRivalSelected(admissible, ctx, components, answers, indexes, x, y);
  }

  /** Policy and line do not count, confidence does. */
  lemma MoreConfidentWorth(a: Candidate, b: Candidate, ctx: Context)
    requires b == a.(policy := b.policy, line := b.line, confidence := b.confidence)
    ensures Utility(a, ctx) - Utility(b, ctx) == a.confidence - b.confidence
  {
  }

  // ------------------------------------------------------------- candidates by themselves

  ghost predicate Alone(adj: Graph, x: nat) {
    x < |adj| && forall v :: !Edge(adj, x, v)
  }

  lemma AloneComponent(adj: Graph, component: seq<nat>, x: nat)
    requires WellFormed(adj) && IsClass(adj, component) && Alone(adj, x) && x in component
    ensures component == [x]
  {
    ReachableSymmetric(adj, component[0], x);
    forall v | v in component
      ensures v == x
    {
      ReachableTransitive(adj, x, component[0], v);
      var path :| IsPath(adj, path, x, v);
      ClosedHoldsPath(adj, {x}, path, x, v);
    }
    AscendingUnique(component, [x]);
  }

  lemma LeafAtEnd(inst: Instance, chosen: seq<nat>)
    ensures Leaves(inst, |inst.weights|, chosen) == [chosen]
  {
  }

  lemma OneLeaf(inst: Instance)
    requires inst.Valid() && |inst.weights| == 1
    ensures Leaves(inst, 0, []) == [[0], []]
    ensures Score(inst, [0]) == inst.weights[0]
  {
    assert !Blocked(inst, [], 0);
    assert [] + [0] == [0];
    LeafAtEnd(inst, [0]);
    LeafAtEnd(inst, []);
    ScoreSnoc(inst, [], 0);
  }

  /** A single position is taken exactly when it weighs more than the tolerance. */
  lemma OneAnswer(inst: Instance)
    requires inst.Valid() && |inst.weights| == 1
    ensures Answer(inst) == if inst.weights[0] > TOLERANCE then [0] else []
  {
    OneLeaf(inst);
    var first := Consider(inst, NoBest, [0]);
    var none: seq<seq<nat>> := [[]];
    assert [[0], []][1..] == none && none[1..] == [];
    assert Fold(inst, NoBest, [[0], []]) == Fold(inst, first, none) == Consider(inst, first, []);
    assert KeysOf(inst, []) == [] by {
      assert RawKeys(inst, []) == [];
    }
    assert KeysOf(inst, [0]) != [] by {
      assert |multiset(KeysOf(inst, [0]))| == |multiset(RawKeys(inst, [0]))|;
    }
  }

  /** A candidate that conflicts with nothing is selected exactly when it is worth more than the tolerance. */
  lemma AloneSelectedExactly(admissible: seq<Candidate>, ctx: Context, components: seq<seq<nat>>, answers: seq<seq<nat>>, indexes: seq<nat>, x: nat)
    requires Selected(admissible, ctx, components, answers, indexes) && Alone(GraphOf(admissible, ctx), x)
    ensures x in indexes <==> Utility(admissible[x], ctx) > TOLERANCE
  {
    GraphEdges(admissible, ctx);
    var i := ComponentWith(admissible, ctx, components, x);
    assert Answered(admissible, ctx, components[i], answers[i]);
    AloneComponent(GraphOf(admissible, ctx), components[i], x);
    AloneAnswered(admissible, ctx, x);
    if x in indexes {
      assert InSome(answers, x);
      var k :| 0 <= k < |answers| && x in answers[k];
      AnsweredSound(admissible, ctx, components[k], answers[k]);
      assert x in ToSet(answers[k]) && x in ToSet(components[k]);
      ClassUnique(GraphOf(admissible, ctx), components[i], components[k], x);
    }
    if x in answers[i] {
      assert InSome(answers, x);
    }
  }

  lemma AloneAnswered(candidates: seq<Candidate>, ctx: Context, x: nat)
    requires ComponentOf(candidates, ctx, [x])
    ensures x < |candidates| && (x in ComponentAnswer(candidates, ctx, [x]) <==> Utility(candidates[x], ctx) > TOLERANCE)
  {
    ComponentValid(candidates, ctx, [x]);
    SortedNodes(candidates, Utilities(candidates, ctx), [x]);
    var sorted := SortNodes(candidates, Utilities(candidates, ctx), [x]);
    assert |sorted| == 1 && sorted[0] in ToSet(sorted);
    assert sorted == [x];
    var inst := InstanceOf(candidates, ctx, [x]);
    assert inst.weights[0] == Weights(candidates, ctx)[x];
    OneAnswer(inst);
    var answer := ComponentAnswer(candidates, ctx, [x]);
    assert |answer| == |Answer(inst)| && (|answer| == 1 ==> answer[0] == x);
  }
}
