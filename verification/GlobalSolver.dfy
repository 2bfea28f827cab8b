/**
 The top of the conflict solver: selection over all components, and `Solve`, which splits
 the incoming lines into accepted and dropped ones.
 */
module GlobalSolver {
  import opened SeqFacts
  import opened Sorting
  import opened CandidateOrder
  import opened ExactSearch
  import opened ExactSearchOptimality
  import opened ExactSearchTolerance
  import opened ConflictGraph
  import opened ConflictSelection
  import opened ComponentSolver
  import opened ConflictSolver

  ghost function Weights(candidates: seq<Candidate>, ctx: Context): (weights: seq<real>)
    ensures |weights| == |candidates|
  {
    Clamped(Utilities(candidates, ctx))
  }

  ghost predicate ComponentOf(candidates: seq<Candidate>, ctx: Context, component: seq<nat>) {
    IsClass(GraphOf(candidates, ctx), component)
  }

  lemma ComponentValid(candidates: seq<Candidate>, ctx: Context, component: seq<nat>)
    requires ComponentOf(candidates, ctx, component)
    ensures forall i :: 0 <= i < |component| ==> component[i] < |candidates|
    ensures ValidOrder(GraphOf(candidates, ctx), Weights(candidates, ctx), Keys(candidates), SortNodes(candidates, Utilities(candidates, ctx), component))
    ensures ToSet(SortNodes(candidates, Utilities(candidates, ctx), component)) == ToSet(component)
  {
    GraphEdges(candidates, ctx);
    forall i | 0 <= i < |component|
      ensures component[i] < |candidates|
    {
      assert component[i] in component;
    }
    SortedNodes(candidates, Utilities(candidates, ctx), component);
    var sorted := SortNodes(candidates, Utilities(candidates, ctx), component);
    forall p | 0 <= p < |sorted|
      ensures sorted[p] < |candidates|
    {
      assert sorted[p] in sorted;
    }
  }

  /** The search instance the exact solver builds for a component. */
  ghost function InstanceOf(candidates: seq<Candidate>, ctx: Context, component: seq<nat>): (inst: Instance)
    requires ComponentOf(candidates, ctx, component)
  {
    ComponentValid(candidates, ctx, component);
    ComponentInstance(GraphOf(candidates, ctx), Weights(candidates, ctx), Keys(candidates), SortNodes(candidates, Utilities(candidates, ctx), component))
  }

  /**
   The instance built for a component of line-consolidated candidates has descending
   weights and distinct keys, so the exact condition for optimality applies to it.
   */
  lemma InstanceDescends(candidates: seq<Candidate>, ctx: Context, component: seq<nat>)
    requires LinesAscending(candidates) && ComponentOf(candidates, ctx, component)
    ensures Descending(InstanceOf(candidates, ctx, component).weights)
    ensures Distinct(InstanceOf(candidates, ctx, component).keys)
  {
    ComponentValid(candidates, ctx, component);
    SortedNodes(candidates, Utilities(candidates, ctx), component);
    var sorted := SortNodes(candidates, Utilities(candidates, ctx), component);
    var inst := InstanceOf(candidates, ctx, component);
    forall i, j | 0 <= i < j < |sorted|
      ensures inst.weights[i] >= inst.weights[j] && inst.keys[i] != inst.keys[j]
    {
      assert sorted[i] != sorted[j];
      assert Utilities(candidates, ctx)[sorted[i]] >= Utilities(candidates, ctx)[sorted[j]];
      assert candidates[sorted[i]].line != candidates[sorted[j]].line;
    }
  }

  // --------------------------------------------------------- what each component is given

  /** The nodes the exact solver returns for a component: the search's answer on its sorted instance. */
  ghost function ComponentAnswer(candidates: seq<Candidate>, ctx: Context, component: seq<nat>): (answer: seq<nat>)
    requires ComponentOf(candidates, ctx, component)
  {
    ComponentValid(candidates, ctx, component);
    var sorted := SortNodes(candidates, Utilities(candidates, ctx), component);
    AnswerSound(GraphOf(candidates, ctx), Weights(candidates, ctx), Keys(candidates), sorted);
    NodesAt(sorted, Answer(InstanceOf(candidates, ctx, component)))
  }

  /** What one component is answered with: the search's answer up to the threshold, a dominating greedy one above it. */
  ghost predicate Answered(candidates: seq<Candidate>, ctx: Context, component: seq<nat>, answer: seq<nat>)
    requires ComponentOf(candidates, ctx, component)
  {
    if |component| <= ComponentThreshold(ctx) then answer == ComponentAnswer(candidates, ctx, component) else
      && Distinct(answer) && ToSet(answer) <= ToSet(component) && Independent(GraphOf(candidates, ctx), ToSet(answer))
      && forall v :: v in component ==> Dominated(GraphOf(candidates, ctx), Utilities(candidates, ctx), answer, v)
  }

  /** Every answer is a conflict-free list of members of its component. */
  lemma AnsweredSound(candidates: seq<Candidate>, ctx: Context, component: seq<nat>, answer: seq<nat>)
    requires ComponentOf(candidates, ctx, component) && Answered(candidates, ctx, component, answer)
    ensures Distinct(answer) && ToSet(answer) <= ToSet(component) && Independent(GraphOf(candidates, ctx), ToSet(answer))
  {
    ComponentValid(candidates, ctx, component);
    AnswerSound(GraphOf(candidates, ctx), Weights(candidates, ctx), Keys(candidates),
                SortNodes(candidates, Utilities(candidates, ctx), component));
  }

  /** With a gap the exact answer is a heaviest conflict-free subset of its component. */
  lemma ExactAnswerHeaviest(candidates: seq<Candidate>, ctx: Context, component: seq<nat>)
    requires ComponentOf(candidates, ctx, component) && TopGap(InstanceOf(candidates, ctx, component))
    ensures HeaviestIn(GraphOf(candidates, ctx), Weights(candidates, ctx), ToSet(component), ToSet(ComponentAnswer(candidates, ctx, component)))
  {
    ComponentValid(candidates, ctx, component);
    AnswerHeaviest(GraphOf(candidates, ctx), Weights(candidates, ctx), Keys(candidates),
                   SortNodes(candidates, Utilities(candidates, ctx), component));
  }

  /** With a gap every other heaviest subset has a larger sorted (line, policy) list than the exact answer. */
  lemma ExactAnswerLeast(candidates: seq<Candidate>, ctx: Context, component: seq<nat>, other: seq<nat>)
    requires LinesAscending(candidates)
    requires ComponentOf(candidates, ctx, component) && TopGap(InstanceOf(candidates, ctx, component))
    requires Distinct(other) && HeaviestIn(GraphOf(candidates, ctx), Weights(candidates, ctx), ToSet(component), ToSet(other))
    ensures var answer := ComponentAnswer(candidates, ctx, component);
            && (forall i :: 0 <= i < |answer| ==> answer[i] < |candidates|)
            && (forall i :: 0 <= i < |other| ==> other[i] < |candidates|)
            && (ToSet(other) != ToSet(answer) ==>
                  KeyListLess(SortKeys(NodeKeys(Keys(candidates), answer)), SortKeys(NodeKeys(Keys(candidates), other))))
  {
    ComponentValid(candidates, ctx, component);
    var keys := Keys(candidates);
    assert LinesDiffer(keys) by {
      forall i, j | 0 <= i < j < |keys| ensures keys[i].line != keys[j].line {
        assert candidates[i].line < candidates[j].line;
      }
    }
    AnswerLeast(GraphOf(candidates, ctx), Weights(candidates, ctx), keys,
                SortNodes(candidates, Utilities(candidates, ctx), component), other);
  }

  /** Gap or not, no conflict-free subset outweighs the exact answer by more than one tolerance per leaf of the search. */
  lemma ExactAnswerLoss(candidates: seq<Candidate>, ctx: Context, component: seq<nat>, s: set<nat>)
    requires ComponentOf(candidates, ctx, component)
    requires s <= ToSet(component) && Independent(GraphOf(candidates, ctx), s)
    ensures Total(Weights(candidates, ctx), s) <= Total(Weights(candidates, ctx), ToSet(ComponentAnswer(candidates, ctx, component)))
              + TOLERANCE * (|Leaves(InstanceOf(candidates, ctx, component), 0, [])| as real)
  {
    ComponentValid(candidates, ctx, component);
    AnswerLossBounded(GraphOf(candidates, ctx), Weights(candidates, ctx), Keys(candidates),
                      SortNodes(candidates, Utilities(candidates, ctx), component), s);
  }

  method SolveComponentExact(admissible: seq<Candidate>, ctx: Context, adj: Graph, component: seq<nat>) returns (selected: seq<nat>)
    requires adj == GraphOf(admissible, ctx) && ComponentOf(admissible, ctx, component)
    requires |component| <= ComponentThreshold(ctx)
    ensures Answered(admissible, ctx, component, selected)
  {
    ComponentValid(admissible, ctx, component);
    var ordered := SortNodes(admissible, Utilities(admissible, ctx), component);
    selected := SolveSorted(adj, Clamped(Utilities(admissible, ctx)), Keys(admissible), ordered);
  }

  method SolveComponentGreedy(admissible: seq<Candidate>, ctx: Context, adj: Graph, component: seq<nat>) returns (selected: seq<nat>)
    requires adj == GraphOf(admissible, ctx) && ComponentOf(admissible, ctx, component)
    requires |component| > ComponentThreshold(ctx)
    ensures Answered(admissible, ctx, component, selected)
  {
    ComponentValid(admissible, ctx, component);
    SortedNodes(admissible, Utilities(admissible, ctx), component);
    GraphEdges(admissible, ctx);
    var ordered := SortNodes(admissible, Utilities(admissible, ctx), component);
    selected := SelectGreedy(adj, Utilities(admissible, ctx), ordered);
    assert forall v :: v in component ==> v in ToSet(ordered);
  }

  // ---------------------------------------------------------------------------- selection

  /** `indexes` lists, in ascending order, the union of the guaranteed answers to all components. */
  ghost predicate Selected(candidates: seq<Candidate>, ctx: Context, components: seq<seq<nat>>, answers: seq<seq<nat>>, indexes: seq<nat>) {
    && Partition(GraphOf(candidates, ctx), components, Range(|candidates|))
    && |answers| == |components|
    && (forall i :: 0 <= i < |components| ==> Answered(candidates, ctx, components[i], answers[i]))
    && Ascending(indexes)
    && (forall v :: v in indexes <==> InSome(answers, v))
  }

  ghost predicate AnswersCollected(answers: seq<seq<nat>>, indexes: seq<nat>) {
    && Distinct(indexes)
    && (forall v :: v in indexes <==> InSome(answers, v))
  }

  lemma CollectAnswer(answers: seq<seq<nat>>, indexes: seq<nat>, answer: seq<nat>)
    requires AnswersCollected(answers, indexes) && Distinct(answer)
    requires forall v :: v in answer ==> v !in indexes
    ensures AnswersCollected(answers + [answer], indexes + answer)
  {
    var more := answers + [answer];
    forall v
      ensures v in indexes + answer <==> InSome(more, v)
    {
      if v in indexes {
        assert InSome(answers, v);
        var i :| 0 <= i < |answers| && v in answers[i];
        assert v in more[i];
      }
      if v in answer {
        assert v in more[|answers|];
      }
      if InSome(more, v) && v !in answer {
        var i :| 0 <= i < |more| && v in more[i];
        assert v in answers[i];
        assert InSome(answers, v);
      }
    }
    forall i, j | 0 <= i < j < |indexes + answer|
      ensures (indexes + answer)[i] != (indexes + answer)[j]
    {
      if i < |indexes| <= j {
        assert (indexes + answer)[i] in indexes;
        assert answer[j - |indexes|] in answer;
      }
    }
  }

  function Pick(candidates: seq<Candidate>, indexes: seq<nat>): (picked: seq<Candidate>)
    requires forall i :: 0 <= i < |indexes| ==> indexes[i] < |candidates|
    ensures |picked| == |indexes| && forall i :: 0 <= i < |indexes| ==> picked[i] == candidates[indexes[i]]
  {
    seq(|indexes|, i requires 0 <= i < |indexes| => candidates[indexes[i]])
  }

  /** Each of the answers is one to its component. */
  ghost predicate AnsweredFirst(admissible: seq<Candidate>, ctx: Context, parts: seq<seq<nat>>, answers: seq<seq<nat>>) {
    && |answers| <= |parts|
    && forall i :: 0 <= i < |answers| ==> ComponentOf(admissible, ctx, parts[i]) && Answered(admissible, ctx, parts[i], answers[i])
  }

  /** The answers to the first k components, collected in `found`. */
  ghost predicate Collected(admissible: seq<Candidate>, ctx: Context, parts: seq<seq<nat>>, answers: seq<seq<nat>>, found: seq<nat>, k: nat) {
    && |answers| == k <= |parts| && AnsweredFirst(admissible, ctx, parts, answers)
    && Within(answers, parts) && AnswersCollected(answers, found)
  }

  lemma OneMoreAnswered(admissible: seq<Candidate>, ctx: Context, parts: seq<seq<nat>>, answers: seq<seq<nat>>, selected: seq<nat>)
    requires AnsweredFirst(admissible, ctx, parts, answers) && |answers| < |parts|
    requires ComponentOf(admissible, ctx, parts[|answers|]) && Answered(admissible, ctx, parts[|answers|], selected)
    ensures AnsweredFirst(admissible, ctx, parts, answers + [selected])
  {
    var more := answers + [selected];
    forall i | 0 <= i < |more|
      ensures ComponentOf(admissible, ctx, parts[i]) && Answered(admissible, ctx, parts[i], more[i])
    {
      assert more[i] == if i < |answers| then answers[i] else selected;
    }
  }

  lemma OneMoreWithin(answers: seq<seq<nat>>, parts: seq<seq<nat>>, selected: seq<nat>)
    requires Within(answers, parts) && |answers| < |parts| && ToSet(selected) <= ToSet(parts[|answers|])
    ensures Within(answers + [selected], parts)
  {
  }

  lemma CollectStep(admissible: seq<Candidate>, ctx: Context, parts: seq<seq<nat>>, answers: seq<seq<nat>>, found: seq<nat>, k: nat, selected: seq<nat>)
    requires Collected(admissible, ctx, parts, answers, found, k) && k < |parts|
    requires forall i :: 0 <= i < k ==> ToSet(parts[i]) !! ToSet(parts[k])
    requires ComponentOf(admissible, ctx, parts[k]) && Answered(admissible, ctx, parts[k], selected)
    ensures Collected(admissible, ctx, parts, answers + [selected], found + selected, k + 1)
  {
    AnsweredSound(admissible, ctx, parts[k], selected);
    AnswersApart(parts, answers, found, k, selected);
    CollectAnswer(answers, found, selected);
    OneMoreAnswered(admissible, ctx, parts, answers, selected);
    OneMoreWithin(answers, parts, selected);
  }

  lemma CollectedAll(admissible: seq<Candidate>, ctx: Context, parts: seq<seq<nat>>, answers: seq<seq<nat>>, found: seq<nat>)
    requires Partition(GraphOf(admissible, ctx), parts, Range(|admissible|))
    requires Collected(admissible, ctx, parts, answers, found, |parts|)
    ensures Selected(admissible, ctx, parts, answers, SortNats(found))
    ensures forall i :: 0 <= i < |SortNats(found)| ==> SortNats(found)[i] < |admissible|
  {
    SortedAscending(found);
    IndexesInRange(parts, answers, found, SortNats(found), |admissible|);
  }

  method SolveComponent(admissible: seq<Candidate>, ctx: Context, adj: Graph, component: seq<nat>) returns (selected: seq<nat>)
    requires adj == GraphOf(admissible, ctx) && ComponentOf(admissible, ctx, component)
    ensures Answered(admissible, ctx, component, selected)
  {
    if |component| <= ComponentThreshold(ctx) {
      selected := SolveComponentExact(admissible, ctx, adj, component);
    } else {
      selected := SolveComponentGreedy(admissible, ctx, adj, component);
    }
  }

  /** Solves every component and collects the chosen nodes. */
  method SolveComponents(admissible: seq<Candidate>, ctx: Context, adj: Graph, components: seq<seq<nat>>)
    returns (found: seq<nat>, ghost answers: seq<seq<nat>>)
    requires adj == GraphOf(admissible, ctx)
    requires Partition(adj, components, Range(|admissible|))
    ensures Collected(admissible, ctx, components, answers, found, |components|)
  {
    answers, found := [], [];
    for k := 0 to |components|
      invariant Collected(admissible, ctx, components, answers, found, k)
    {
      assert ComponentOf(admissible, ctx, components[k]);
      var selected := SolveComponent(admissible, ctx, adj, components[k]);
      CollectStep(admissible, ctx, components, answers, found, k, selected);
      answers := answers + [selected];
      found := found + selected;
    }
  }

  method SelectConflictOptimal(admissible: seq<Candidate>, ctx: Context)
    returns (accepted: seq<Candidate>, ghost components: seq<seq<nat>>, ghost answers: seq<seq<nat>>, ghost indexes: seq<nat>)
    ensures Selected(admissible, ctx, components, answers, indexes)
    ensures forall i :: 0 <= i < |indexes| ==> indexes[i] < |admissible|
    ensures accepted == Pick(admissible, indexes)
  {
    var adj := BuildConflictAdjacency(admissible, ctx);
    GraphEdges(admissible, ctx);
    var parts := ConnectedComponents(adj);
    components := parts;
    var found;
    found, answers := SolveComponents(admissible, ctx, adj, parts);
    CollectedAll(admissible, ctx, parts, answers, found);
    indexes := SortNats(found);
    accepted := Pick(admissible, SortNats(found));
  }

  /** Each answer lies within its part. */
  ghost predicate Within(answers: seq<seq<nat>>, parts: seq<seq<nat>>) {
    |answers| <= |parts| && forall i :: 0 <= i < |answers| ==> ToSet(answers[i]) <= ToSet(parts[i])
  }

  lemma AnswersApart(parts: seq<seq<nat>>, answers: seq<seq<nat>>, found: seq<nat>, k: nat, selected: seq<nat>)
    requires |answers| == k < |parts| && Within(answers, parts) && AnswersCollected(answers, found)
    requires forall i :: 0 <= i < k ==> ToSet(parts[i]) !! ToSet(parts[k])
    requires ToSet(selected) <= ToSet(parts[k])
    ensures forall v :: v in selected ==> v !in found
  {
    forall v | v in selected
      ensures v !in found
    {
      assert v in ToSet(selected);
      forall i | 0 <= i < k
        ensures v !in answers[i]
      {
        assert v !in ToSet(answers[i]);
      }
    }
  }

  lemma IndexesInRange(parts: seq<seq<nat>>, answers: seq<seq<nat>>, found: seq<nat>, sorted: seq<nat>, n: nat)
    requires Within(answers, parts) && forall i :: 0 <= i < |parts| ==> ToSet(parts[i]) <= Range(n)
    requires AnswersCollected(answers, found) && ToSet(sorted) == ToSet(found)
    ensures forall v :: v in sorted <==> InSome(answers, v)
    ensures forall i :: 0 <= i < |sorted| ==> sorted[i] < n
  {
    forall v
      ensures v in sorted <==> v in found
    {
      assert v in ToSet(sorted) <==> v in ToSet(found);
    }
    forall i | 0 <= i < |sorted|
      ensures sorted[i] < n
    {
      assert sorted[i] in found;
      assert InSome(answers, sorted[i]);
      var k :| 0 <= k < |answers| && sorted[i] in answers[k];
      assert sorted[i] in ToSet(answers[k]);
      assert sorted[i] in ToSet(parts[k]);
    }
  }

  // ------------------------------------------------------- what the selection guarantees

  lemma SelectedUnion(answers: seq<seq<nat>>, indexes: seq<nat>)
    requires forall v :: v in indexes <==> InSome(answers, v)
    ensures UnionOf(PartsOf(answers)) == ToSet(indexes)
  {
    var sets := PartsOf(answers);
    forall v | v in ToSet(indexes)
      ensures v in UnionOf(sets)
    {
      assert InSome(answers, v);
      var i :| 0 <= i < |answers| && v in answers[i];
      assert v in sets[i];
      UnionMember(sets, i);
    }
    forall v | v in UnionOf(sets)
      ensures v in ToSet(indexes)
    {
      var i := UnionSource(sets, v);
      assert v in answers[i];
      assert InSome(answers, v);
    }
  }

  /** The selected candidates do not conflict with each other. */
  lemma SelectedIndependent(candidates: seq<Candidate>, ctx: Context, components: seq<seq<nat>>, answers: seq<seq<nat>>, indexes: seq<nat>)
    requires Selected(candidates, ctx, components, answers, indexes)
    ensures Independent(GraphOf(candidates, ctx), ToSet(indexes))
  {
    var adj := GraphOf(candidates, ctx);
    var parts, sets := PartsOf(components), PartsOf(answers);
    PartitionDisjoint(adj, components, parts, Range(|candidates|));
    forall i | 0 <= i < |parts|
      ensures sets[i] <= parts[i] && Independent(adj, sets[i])
    {
      assert Answered(candidates, ctx, components[i], answers[i]);
      AnsweredSound(candidates, ctx, components[i], answers[i]);
    }
    UnionIndependent(adj, parts, sets);
    SelectedUnion(answers, indexes);
  }

  /** Every component is small enough for the exact solver and has a gap at the top. */
  ghost predicate AllExact(candidates: seq<Candidate>, ctx: Context) {
    forall component :: ComponentOf(candidates, ctx, component) ==>
      |component| <= ComponentThreshold(ctx) && TopGap(InstanceOf(candidates, ctx, component))
  }

  /** When every component is solved exactly, the selection is a heaviest conflict-free set of all candidates. */
  lemma SelectedHeaviest(candidates: seq<Candidate>, ctx: Context, components: seq<seq<nat>>, answers: seq<seq<nat>>, indexes: seq<nat>)
    requires Selected(candidates, ctx, components, answers, indexes)
    requires AllExact(candidates, ctx)
    ensures HeaviestIn(GraphOf(candidates, ctx), Weights(candidates, ctx), Range(|candidates|), ToSet(indexes))
  {
    var adj, weights := GraphOf(candidates, ctx), Weights(candidates, ctx);
    var sets := PartsOf(answers);
    forall i | 0 <= i < |components|
      ensures HeaviestIn(adj, weights, ToSet(components[i]), sets[i])
    {
      assert Answered(candidates, ctx, components[i], answers[i]);
      assert ComponentOf(candidates, ctx, components[i]);
      ExactAnswerHeaviest(candidates, ctx, components[i]);
    }
    DecompositionOptimal(adj, weights, components, sets);
    SelectedUnion(answers, indexes);
  }

  ghost function Factor(degree: nat): nat { if degree == 0 then 1 else degree }

  ghost predicate DegreesUpTo(adj: Graph, nodes: seq<nat>, degree: nat) {
    forall u :: u in nodes ==> u < |adj| && |adj[u]| <= degree
  }

  /**
   In a component above the threshold, no conflict-free set outweighs the selected members
   by more than a factor of max(1, degree).
   */
  lemma GreedyAnswerBound(candidates: seq<Candidate>, ctx: Context, component: seq<nat>, answer: seq<nat>, s: set<nat>, degree: nat)
    requires ComponentOf(candidates, ctx, component) && Answered(candidates, ctx, component, answer)
    requires |component| > ComponentThreshold(ctx)
    requires s <= ToSet(component) && Independent(GraphOf(candidates, ctx), s)
    requires DegreesUpTo(GraphOf(candidates, ctx), component, degree)
    ensures Total(Weights(candidates, ctx), s) <= Times(Factor(degree), Total(Weights(candidates, ctx), ToSet(answer)))
  {
    GraphEdges(candidates, ctx);
    var adj := GraphOf(candidates, ctx);
    forall u | u in answer
      ensures u < |adj| && |adj[u]| <= degree
    {
      assert u in ToSet(answer);
    }
    GreedyBound(adj, Utilities(candidates, ctx), component, answer, s, degree);
  }

  /** What the tolerance may cost in one component: nothing with a gap or above the threshold. */
  ghost function Slack(candidates: seq<Candidate>, ctx: Context, component: seq<nat>): real
    requires ComponentOf(candidates, ctx, component)
  {
    if |component| > ComponentThreshold(ctx) || TopGap(InstanceOf(candidates, ctx, component)) then 0.0
    else TOLERANCE * (|Leaves(InstanceOf(candidates, ctx, component), 0, [])| as real)
  }

  lemma AnswerBounded(candidates: seq<Candidate>, ctx: Context, component: seq<nat>, answer: seq<nat>, degree: nat)
    requires ComponentOf(candidates, ctx, component) && Answered(candidates, ctx, component, answer)
    requires DegreesUpTo(GraphOf(candidates, ctx), component, degree)
    ensures BoundedIn(GraphOf(candidates, ctx), Weights(candidates, ctx), ToSet(component), ToSet(answer), Factor(degree), Slack(candidates, ctx, component))
  {
    var adj, weights := GraphOf(candidates, ctx), Weights(candidates, ctx);
    forall s | s <= ToSet(component) && Independent(adj, s)
      ensures Total(weights, s) <= Times(Factor(degree), Total(weights, ToSet(answer))) + Slack(candidates, ctx, component)
    {
      if |component| > ComponentThreshold(ctx) {
        GreedyAnswerBound(candidates, ctx, component, answer, s, degree);
      } else {
        if TopGap(InstanceOf(candidates, ctx, component)) {
          ExactAnswerHeaviest(candidates, ctx, component);
        } else {
          ExactAnswerLoss(candidates, ctx, component, s);
        }
        TotalBelowNonNegative(weights, ToSet(answer), |weights|);
        TimesMonotone(1, Factor(degree), Total(weights, ToSet(answer)));
      }
    }
  }

  ghost predicate AreComponents(candidates: seq<Candidate>, ctx: Context, components: seq<seq<nat>>) {
    forall i :: 0 <= i < |components| ==> ComponentOf(candidates, ctx, components[i])
  }

  /** What the tolerance may cost in each component. */
  ghost function Slacks(candidates: seq<Candidate>, ctx: Context, components: seq<seq<nat>>): (slacks: seq<real>)
    requires AreComponents(candidates, ctx, components)
    ensures |slacks| == |components| && forall i :: 0 <= i < |slacks| ==> slacks[i] == Slack(candidates, ctx, components[i])
  {
    seq(|components|, i requires 0 <= i < |components| => Slack(candidates, ctx, components[i]))
  }

  lemma AnswersBounded(candidates: seq<Candidate>, ctx: Context, components: seq<seq<nat>>, answers: seq<seq<nat>>, indexes: seq<nat>, degree: nat)
    requires Selected(candidates, ctx, components, answers, indexes) && AreComponents(candidates, ctx, components)
    requires forall u :: 0 <= u < |candidates| ==> |GraphOf(candidates, ctx)[u]| <= degree
    ensures forall i :: 0 <= i < |components| ==>
              && PartsOf(answers)[i] <= PartsOf(components)[i]
              && BoundedIn(GraphOf(candidates, ctx), Weights(candidates, ctx), PartsOf(components)[i], PartsOf(answers)[i], Factor(degree),
                           Slacks(candidates, ctx, components)[i])
  {
    forall i | 0 <= i < |components|
      ensures PartsOf(answers)[i] <= PartsOf(components)[i]
      ensures BoundedIn(GraphOf(candidates, ctx), Weights(candidates, ctx), PartsOf(components)[i], PartsOf(answers)[i], Factor(degree),
                        Slacks(candidates, ctx, components)[i])
    {
      assert Answered(candidates, ctx, components[i], answers[i]);
      AnsweredSound(candidates, ctx, components[i], answers[i]);
      AnswerBounded(candidates, ctx, components[i], answers[i], degree);
    }
  }

  /**
   For all candidates whatever: no conflict-free set outweighs max(1, degree) times the
   selection by more than what the tolerance costs in the small components without a gap.
   */
  lemma SelectedBound(candidates: seq<Candidate>, ctx: Context, components: seq<seq<nat>>, answers: seq<seq<nat>>, indexes: seq<nat>,
                      s: set<nat>, degree: nat)
    requires Selected(candidates, ctx, components, answers, indexes)
    requires s <= Range(|candidates|) && Independent(GraphOf(candidates, ctx), s)
    requires forall u :: 0 <= u < |candidates| ==> |GraphOf(candidates, ctx)[u]| <= degree
    ensures AreComponents(candidates, ctx, components)
    ensures Total(Weights(candidates, ctx), s) <=
            Times(Factor(degree), Total(Weights(candidates, ctx), ToSet(indexes))) + SumOf(Slacks(candidates, ctx, components))
  {
    var adj := GraphOf(candidates, ctx);
    var parts, sets := PartsOf(components), PartsOf(answers);
    assert AreComponents(candidates, ctx, components);
    PartitionDisjoint(adj, components, parts, Range(|candidates|));
    PartitionUnion(adj, components, parts, Range(|candidates|));
    AnswersBounded(candidates, ctx, components, answers, indexes, degree);
    UnionBounded(adj, Weights(candidates, ctx), parts, sets, Factor(degree), Slacks(candidates, ctx, components), s);
    SelectedUnion(answers, indexes);
  }

  /** Every component is solved greedily or has a gap at the top. */
  ghost predicate GreedyOrGapped(candidates: seq<Candidate>, ctx: Context) {
    forall component :: ComponentOf(candidates, ctx, component) ==>
      |component| > ComponentThreshold(ctx) || TopGap(InstanceOf(candidates, ctx, component))
  }

  lemma NoSlack(candidates: seq<Candidate>, ctx: Context, components: seq<seq<nat>>)
    requires GreedyOrGapped(candidates, ctx) && AreComponents(candidates, ctx, components)
    ensures SumOf(Slacks(candidates, ctx, components)) == 0.0
  {
    SumOfZeros(Slacks(candidates, ctx, components));
  }

  /** When every component is greedy or has a gap, max(1, degree) times the selection bounds every conflict-free set. */
  lemma SelectedGreedyBound(candidates: seq<Candidate>, ctx: Context, components: seq<seq<nat>>, answers: seq<seq<nat>>, indexes: seq<nat>, s: set<nat>, degree: nat)
    requires Selected(candidates, ctx, components, answers, indexes) && GreedyOrGapped(candidates, ctx)
    requires s <= Range(|candidates|) && Independent(GraphOf(candidates, ctx), s)
    requires forall u :: 0 <= u < |candidates| ==> |GraphOf(candidates, ctx)[u]| <= degree
    ensures Total(Weights(candidates, ctx), s) <= Times(Factor(degree), Total(Weights(candidates, ctx), ToSet(indexes)))
  {
    SelectedBound(candidates, ctx, components, answers, indexes, s, degree);
    NoSlack(candidates, ctx, components);
  }

  // --------------------------------------------------------------------------------- solve

  /** The first hurdles a line's candidate has to pass. */
  ghost predicate Passes(c: Candidate, alreadySelected: seq<Candidate>, ctx: Context) {
    !ViolatesHard(c) && forall e :: e in alreadySelected ==> !Conflicts(c, e, ctx)
  }

  /** The holders of the incoming lines that pass the first hurdles, in line order. */
  ghost predicate AdmissibleOf(incoming: seq<Candidate>, alreadySelected: seq<Candidate>, ctx: Context, admissible: seq<Candidate>) {
    && LinesAscending(admissible)
    && forall c :: c in admissible <==> LineBest(incoming, c.line, ctx) == Held(c) && Passes(c, alreadySelected, ctx)
  }

  ghost function LinesOf(candidates: seq<Candidate>): set<nat> {
    set c | c in candidates :: c.line
  }

  ghost predicate HardBlockedLines(incoming: seq<Candidate>, ctx: Context, hardBlocked: set<nat>) {
    forall line :: line in hardBlocked <==>
      LineBest(incoming, line, ctx).Held? && ViolatesHard(LineBest(incoming, line, ctx).candidate)
  }

  method Solve(incoming: seq<Candidate>, alreadySelected: seq<Candidate>, ctx: Context)
    returns (accepted: seq<Candidate>, dropped: set<nat>, hardBlocked: set<nat>,
             ghost admissible: seq<Candidate>, ghost components: seq<seq<nat>>, ghost answers: seq<seq<nat>>, ghost indexes: seq<nat>)
    ensures LinesOf(accepted) !! dropped && LinesOf(accepted) + dropped == LinesOf(incoming)
    ensures hardBlocked <= dropped && HardBlockedLines(incoming, ctx, hardBlocked)
    ensures forall c :: c in accepted ==> c in incoming && Passes(c, alreadySelected, ctx)
    ensures forall i, j :: 0 <= i < |accepted| && 0 <= j < |accepted| && i != j ==> !Conflicts(accepted[i], accepted[j], ctx)
    ensures AdmissibleOf(incoming, alreadySelected, ctx, admissible)
    ensures Selected(admissible, ctx, components, answers, indexes)
    ensures (forall i :: 0 <= i < |indexes| ==> indexes[i] < |admissible|) && accepted == Pick(admissible, indexes)
    ensures AllExact(admissible, ctx) ==>
              HeaviestIn(GraphOf(admissible, ctx), Weights(admissible, ctx), Range(|admissible|), ToSet(indexes))
  {
    var consolidated := ConsolidateByLine(incoming, ctx);
    var kept: seq<Candidate>;
    kept, dropped, hardBlocked := SplitAdmissible(incoming, consolidated, alreadySelected, ctx);
    admissible := kept;
    accepted, components, answers, indexes := SelectConflictOptimal(kept, ctx);
    SelectedIndependent(kept, ctx, components, answers, indexes);
    if AllExact(kept, ctx) {
      SelectedHeaviest(kept, ctx, components, answers, indexes);
    }
    ghost var early := dropped;
    var late := LinesNotAccepted(kept, indexes, accepted);
    dropped := dropped + late;
    LinesSplit(incoming, alreadySelected, ctx, kept, indexes, accepted, early, dropped);
    AcceptedApart(kept, ctx, indexes, accepted);
    AcceptedPass(incoming, alreadySelected, ctx, kept, accepted);
  }

  lemma AcceptedPass(incoming: seq<Candidate>, alreadySelected: seq<Candidate>, ctx: Context, kept: seq<Candidate>, accepted: seq<Candidate>)
    requires AdmissibleOf(incoming, alreadySelected, ctx, kept) && forall c :: c in accepted ==> c in kept
    ensures forall c :: c in accepted ==> c in incoming && Passes(c, alreadySelected, ctx)
  {
    forall c | c in accepted
      ensures c in incoming && Passes(c, alreadySelected, ctx)
    {
      LineBestFacts(incoming, c.line, ctx);
    }
  }

  /** Whether an accepted candidate has the line and policy of this one. */
  method IsAccepted(accepted: seq<Candidate>, candidate: Candidate) returns (found: bool)
    ensures found <==> exists i :: 0 <= i < |accepted| && accepted[i].line == candidate.line && accepted[i].policy == candidate.policy
  {
    found := false;
    for m := 0 to |accepted|
      invariant found <==> exists i :: 0 <= i < m && accepted[i].line == candidate.line && accepted[i].policy == candidate.policy
    {
      if accepted[m].line == candidate.line && accepted[m].policy == candidate.policy {
        found := true;
      }
    }
  }

  /** The second pass: the lines of admissible candidates that were not selected. */
  method LinesNotAccepted(kept: seq<Candidate>, ghost indexes: seq<nat>, accepted: seq<Candidate>) returns (lines: set<nat>)
    requires LinesAscending(kept)
    requires (forall i :: 0 <= i < |indexes| ==> indexes[i] < |kept|) && accepted == Pick(kept, indexes)
    ensures forall line :: line in lines <==> exists i :: 0 <= i < |kept| && kept[i].line == line && kept[i] !in accepted
  {
    lines := {};
    for k := 0 to |kept|
      invariant forall line :: line in lines <==> exists i :: 0 <= i < k && kept[i].line == line && kept[i] !in accepted
    {
      FoundIsAccepted(kept, indexes, accepted, k);
      var found := IsAccepted(accepted, kept[k]);
      if !found {
        lines := lines + {kept[k].line};
      }
    }
  }

  /** How the first candidates have been split. */
  ghost predicate SplitSoFar(front: seq<Candidate>, alreadySelected: seq<Candidate>, ctx: Context,
                             admissible: seq<Candidate>, dropped: set<nat>, hardBlocked: set<nat>) {
    && LinesAscending(admissible)
    && (forall c :: c in admissible <==> c in front && Passes(c, alreadySelected, ctx))
    && (forall line :: line in dropped <==> exists c :: c in front && c.line == line && !Passes(c, alreadySelected, ctx))
    && (forall line :: line in hardBlocked <==> exists c :: c in front && c.line == line && ViolatesHard(c))
  }

  lemma SplitAdmits(front: seq<Candidate>, c: Candidate, alreadySelected: seq<Candidate>, ctx: Context,
                    admissible: seq<Candidate>, dropped: set<nat>, hardBlocked: set<nat>)
    requires SplitSoFar(front, alreadySelected, ctx, admissible, dropped, hardBlocked)
    requires forall k :: k in front ==> k.line < c.line
    requires Passes(c, alreadySelected, ctx)
    ensures SplitSoFar(front + [c], alreadySelected, ctx, admissible + [c], dropped, hardBlocked)
  {
    forall i | 0 <= i < |admissible|
      ensures admissible[i].line < c.line
    {
      assert admissible[i] in admissible;
    }
  }

  lemma SplitDrops(front: seq<Candidate>, c: Candidate, alreadySelected: seq<Candidate>, ctx: Context,
                   admissible: seq<Candidate>, dropped: set<nat>, hardBlocked: set<nat>)
    requires SplitSoFar(front, alreadySelected, ctx, admissible, dropped, hardBlocked)
    requires !Passes(c, alreadySelected, ctx)
    ensures SplitSoFar(front + [c], alreadySelected, ctx, admissible, dropped + {c.line},
                       if ViolatesHard(c) then hardBlocked + {c.line} else hardBlocked)
  {
    assert c in front + [c];
  }

  /** Whether a candidate conflicts with one already selected. */
  method ConflictsWithSelected(candidate: Candidate, alreadySelected: seq<Candidate>, ctx: Context) returns (clash: bool)
    ensures clash <==> exists e :: e in alreadySelected && Conflicts(candidate, e, ctx)
  {
    clash := false;
    for i := 0 to |alreadySelected|
      invariant clash <==> exists k :: 0 <= k < i && Conflicts(candidate, alreadySelected[k], ctx)
    {
      if Conflicts(candidate, alreadySelected[i], ctx) {
        clash := true;
      }
    }
  }

  /** The first pass over the consolidated candidates. */
  method SplitAdmissible(incoming: seq<Candidate>, consolidated: seq<Candidate>, alreadySelected: seq<Candidate>, ctx: Context)
    returns (admissible: seq<Candidate>, dropped: set<nat>, hardBlocked: set<nat>)
    requires Consolidated(incoming, consolidated, ctx)
    ensures AdmissibleOf(incoming, alreadySelected, ctx, admissible)
    ensures dropped !! LinesOf(admissible) && dropped + LinesOf(admissible) == LinesOf(incoming)
    ensures hardBlocked <= dropped && HardBlockedLines(incoming, ctx, hardBlocked)
  {
    admissible, dropped, hardBlocked := [], {}, {};
    for k := 0 to |consolidated|
      invariant SplitSoFar(consolidated[..k], alreadySelected, ctx, admissible, dropped, hardBlocked)
    {
      var candidate := consolidated[k];
      assert consolidated[..k + 1] == consolidated[..k] + [candidate];
      var clash := ConflictsWithSelected(candidate, alreadySelected, ctx);
      if ViolatesHard(candidate) {
        SplitDrops(consolidated[..k], candidate, alreadySelected, ctx, admissible, dropped, hardBlocked);
        hardBlocked := hardBlocked + {candidate.line};
        dropped := dropped + {candidate.line};
      } else if clash {
        SplitDrops(consolidated[..k], candidate, alreadySelected, ctx, admissible, dropped, hardBlocked);
        dropped := dropped + {candidate.line};
      } else {
        SplitAdmits(consolidated[..k], candidate, alreadySelected, ctx, admissible, dropped, hardBlocked);
        admissible := admissible + [candidate];
      }
    }
    assert consolidated[..|consolidated|] == consolidated;
    SplitComplete(incoming, consolidated, alreadySelected, ctx, admissible, dropped, hardBlocked);
  }

  lemma SplitComplete(incoming: seq<Candidate>, consolidated: seq<Candidate>, alreadySelected: seq<Candidate>, ctx: Context,
                      admissible: seq<Candidate>, dropped: set<nat>, hardBlocked: set<nat>)
    requires Consolidated(incoming, consolidated, ctx)
    requires SplitSoFar(consolidated, alreadySelected, ctx, admissible, dropped, hardBlocked)
    ensures AdmissibleOf(incoming, alreadySelected, ctx, admissible)
    ensures dropped !! LinesOf(admissible) && dropped + LinesOf(admissible) == LinesOf(incoming)
    ensures hardBlocked <= dropped && HardBlockedLines(incoming, ctx, hardBlocked)
  {
    forall c
      ensures c in consolidated <==> LineBest(incoming, c.line, ctx) == Held(c)
    {
      if LineBest(incoming, c.line, ctx) == Held(c) {
        LineBestFacts(incoming, c.line, ctx);
        var k :| k in consolidated && k.line == c.line;
      }
    }
    forall line
      ensures line in LinesOf(incoming) <==> exists c :: c in consolidated && c.line == line
      ensures LineBest(incoming, line, ctx).Held? <==> exists c :: c in consolidated && c.line == line
    {
      LineBestFacts(incoming, line, ctx);
    }
    forall line | line in dropped
      ensures line !in LinesOf(admissible)
    {
      var c :| c in consolidated && c.line == line && !Passes(c, alreadySelected, ctx);
      assert LineBest(incoming, line, ctx) == Held(c);
    }
  }

  lemma FoundIsAccepted(kept: seq<Candidate>, indexes: seq<nat>, accepted: seq<Candidate>, k: nat)
    requires LinesAscending(kept) && k < |kept|
    requires (forall i :: 0 <= i < |indexes| ==> indexes[i] < |kept|) && accepted == Pick(kept, indexes)
    ensures (exists i :: 0 <= i < |accepted| && accepted[i].line == kept[k].line && accepted[i].policy == kept[k].policy)
            <==> kept[k] in accepted
  {
    forall i | 0 <= i < |accepted| && accepted[i].line == kept[k].line
      ensures accepted[i] == kept[k]
    {
      assert kept[indexes[i]].line == kept[k].line;
      assert indexes[i] == k;
    }
  }

  lemma LinesSplit(incoming: seq<Candidate>, alreadySelected: seq<Candidate>, ctx: Context, kept: seq<Candidate>,
                   indexes: seq<nat>, accepted: seq<Candidate>, early: set<nat>, dropped: set<nat>)
    requires LinesAscending(kept)
    requires (forall i :: 0 <= i < |indexes| ==> indexes[i] < |kept|) && accepted == Pick(kept, indexes)
    requires early !! LinesOf(kept) && early + LinesOf(kept) == LinesOf(incoming)
    requires forall line :: line in dropped <==>
               line in early || exists i :: 0 <= i < |kept| && kept[i].line == line && kept[i] !in accepted
    ensures LinesOf(accepted) !! dropped && LinesOf(accepted) + dropped == LinesOf(incoming)
    ensures early <= dropped && forall c :: c in accepted ==> c in kept
  {
    forall c | c in accepted
      ensures c in kept
    {
    }
    forall line | line in LinesOf(accepted)
      ensures line !in dropped
    {
      var c :| c in accepted && c.line == line;
      assert line in LinesOf(kept);
    }
    forall line | line in LinesOf(kept)
      ensures line in LinesOf(accepted) || line in dropped
    {
      var c :| c in kept && c.line == line;
      var i :| 0 <= i < |kept| && kept[i] == c;
    }
  }

  lemma AcceptedApart(kept: seq<Candidate>, ctx: Context, indexes: seq<nat>, accepted: seq<Candidate>)
    requires Ascending(indexes) && Independent(GraphOf(kept, ctx), ToSet(indexes))
    requires (forall i :: 0 <= i < |indexes| ==> indexes[i] < |kept|) && accepted == Pick(kept, indexes)
    ensures forall i, j :: 0 <= i < |accepted| && 0 <= j < |accepted| && i != j ==> !Conflicts(accepted[i], accepted[j], ctx)
  {
    GraphEdges(kept, ctx);
    forall i, j | 0 <= i < |accepted| && 0 <= j < |accepted| && i != j
      ensures !Conflicts(accepted[i], accepted[j], ctx)
    {
      assert indexes[i] in ToSet(indexes) && indexes[j] in ToSet(indexes);
      assert !Edge(GraphOf(kept, ctx), indexes[i], indexes[j]);
      assert indexes[i] != indexes[j];
    }
  }
}
