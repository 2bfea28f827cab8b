/**
 The exact condition carried through the whole solver: small components of given weights and
 conflicts always get a heaviest answer from it, whatever the candidates around them, if and
 only if their totals leave a gap at the top.
 */
module SolverExactness {
  import opened SeqFacts
  import opened Sorting
  import opened ExactSearch
  import opened ExactSearchOptimality
  import opened ExactSearchTolerance
  import opened ConflictGraph
  import opened ConflictSelection
  import opened ComponentSolver
  import opened ConflictSolver
  import opened GlobalSolver
  import opened ComponentExactness

  /** An outcome of the solver: what passed the first hurdles, its components, their answers and what was selected. */
  datatype Outcome = Outcome(admissible: seq<Candidate>, components: seq<seq<nat>>, answers: seq<seq<nat>>, indexes: seq<nat>)

  /** What the solver's contract says about incoming and already selected candidates. */
  ghost predicate SolvedAs(incoming: seq<Candidate>, alreadySelected: seq<Candidate>, ctx: Context, o: Outcome) {
    && AdmissibleOf(incoming, alreadySelected, ctx, o.admissible)
    && Selected(o.admissible, ctx, o.components, o.answers, o.indexes)
  }

  /** The answer the outcome has for a component is a heaviest conflict-free subset of it. */
  ghost predicate AnsweredExactly(ctx: Context, o: Outcome, i: nat)
    requires i < |o.components| == |o.answers|
  {
    HeaviestIn(GraphOf(o.admissible, ctx), Weights(o.admissible, ctx), ToSet(o.components[i]), ToSet(o.answers[i]))
  }

  ghost predicate HasShape(ctx: Context, o: Outcome, i: nat, shape: Instance)
    requires i < |o.components|
  {
    ComponentOf(o.admissible, ctx, o.components[i]) && SameShape(InstanceOf(o.admissible, ctx, o.components[i]), shape)
  }

  /** In every outcome of the solver, components with these weights and conflicts are answered exactly. */
  ghost predicate SolverExact(shape: Instance, ctx: Context) {
    forall incoming, alreadySelected, o, i: nat ::
      SolvedAs(incoming, alreadySelected, ctx, o) && i < |o.components| && HasShape(ctx, o, i, shape) ==> AnsweredExactly(ctx, o, i)
  }

  // ------------------------------------------------------- candidates alone in their lines

  /** With one candidate per line each of them holds its line. */
  lemma HoldsItsLine(incoming: seq<Candidate>, ctx: Context, c: Candidate)
    requires LinesAscending(incoming)
    ensures c in incoming <==> LineBest(incoming, c.line, ctx) == Held(c)
  {
    LineBestFacts(incoming, c.line, ctx);
    if c in incoming {
      var held := LineBest(incoming, c.line, ctx).candidate;
      var i :| 0 <= i < |incoming| && incoming[i] == c;
      var j :| 0 <= j < |incoming| && incoming[j] == held;
    }
  }

  /** Candidates that touch no hard clause are all admissible when nothing is selected yet. */
  lemma AllAdmissible(incoming: seq<Candidate>, ctx: Context)
    requires LinesAscending(incoming) && forall c :: c in incoming ==> c.hardTouched == 0
    ensures AdmissibleOf(incoming, [], ctx, incoming)
  {
    forall c
      ensures c in incoming <==> LineBest(incoming, c.line, ctx) == Held(c) && Passes(c, [], ctx)
    {
      HoldsItsLine(incoming, ctx, c);
      assert c.hardTouched == 0 ==> !ViolatesHard(c);
    }
  }

  // --------------------------------------------------------- one component and no more

  lemma OnlyClass(adj: Graph, components: seq<seq<nat>>, all: set<nat>)
    requires |components| == 1 && IsClass(adj, components[0]) && ToSet(components[0]) == all
    ensures Partition(adj, components, all)
  {
    forall v | v in all
      ensures InSome(components, v)
    {
      assert v in components[0];
    }
  }

  lemma HoldsEveryNode(adj: Graph, component: seq<nat>)
    requires IsClass(adj, component) && |component| == |adj|
    ensures ToSet(component) == Range(|adj|)
  {
    forall i | 0 <= i < |component|
      ensures component[i] < |adj|
    {
      assert component[i] in component;
    }
    AllPlaces(component, |adj|);
    forall v: nat | v < |adj|
      ensures v in component
    {
      assert component[v] == v;
    }
  }

  /** A component of all nodes is the only one. */
  lemma WholeComponent(adj: Graph, component: seq<nat>)
    requires IsClass(adj, component) && |component| == |adj|
    ensures Partition(adj, [component], Range(|adj|))
  {
    HoldsEveryNode(adj, component);
    OnlyClass(adj, [component], Range(|adj|));
  }

  /** The outcome for candidates that form one small component. */
  lemma OneComponentOutcome(candidates: seq<Candidate>, ctx: Context, component: seq<nat>) returns (o: Outcome)
    requires LinesAscending(candidates) && forall c :: c in candidates ==> c.hardTouched == 0
    requires ComponentOf(candidates, ctx, component) && |component| == |candidates| <= ComponentThreshold(ctx)
    ensures SolvedAs(candidates, [], ctx, o)
    ensures o.admissible == candidates && o.components == [component] && o.answers == [ComponentAnswer(candidates, ctx, component)]
  {
    var answer := ComponentAnswer(candidates, ctx, component);
    AllAdmissible(candidates, ctx);
    WholeComponent(GraphOf(candidates, ctx), component);
    AnsweredSound(candidates, ctx, component, answer);
    SortedAscending(answer);
    InOne(answer, SortNats(answer));
    o := Outcome(candidates, [component], [answer], SortNats(answer));
  }

  lemma InOne(answer: seq<nat>, indexes: seq<nat>)
    requires ToSet(indexes) == ToSet(answer)
    ensures forall v :: v in indexes <==> InSome([answer], v)
  {
    forall v
      ensures v in indexes <==> InSome([answer], v)
    {
      assert v in ToSet(indexes) <==> v in ToSet(answer);
      assert [answer][0] == answer;
    }
  }

  // ---------------------------------------------------------------------- the condition

  lemma GapSolves(shape: Instance, ctx: Context, o: Outcome, i: nat)
    requires TopGap(shape) && |shape.weights| <= ComponentThreshold(ctx)
    requires Selected(o.admissible, ctx, o.components, o.answers, o.indexes) && i < |o.components| && HasShape(ctx, o, i, shape)
    ensures AnsweredExactly(ctx, o, i)
  {
    ComponentShape(o.admissible, ctx, o.components[i]);
    SameTopGap(shape, InstanceOf(o.admissible, ctx, o.components[i]));
    assert Answered(o.admissible, ctx, o.components[i], o.answers[i]);
    ExactAnswerHeaviest(o.admissible, ctx, o.components[i]);
  }

  /** Without the gap the solver, given suitable candidates, returns less than the heaviest selection. */
  lemma SolverLoses(shape: Instance, ctx: Context) returns (incoming: seq<Candidate>, o: Outcome)
    requires shape.Valid() && Descending(shape.weights) && Connected(shape) && RowsAscend(shape)
    requires !TopGap(shape) && |shape.weights| <= ComponentThreshold(ctx)
    ensures OnePerLine(incoming) && SolvedAs(incoming, [], ctx, o) && |o.components| == 1 && HasShape(ctx, o, 0, shape)
    ensures !AnsweredExactly(ctx, o, 0)
  {
    var component;
    incoming, component := NoGapLoses(shape, ctx);
    o := OneComponentOutcome(incoming, ctx, component);
  }

  /**
   The exact condition for the solver. For a component within the threshold, the solver gives
   every component of the same weights and conflicts, in whatever candidates, a heaviest
   answer if and only if no conflict-free total in it lies within the tolerance below the best.
   */
  lemma SolverExactIffGap(candidates: seq<Candidate>, ctx: Context, component: seq<nat>)
    requires LinesAscending(candidates) && ComponentOf(candidates, ctx, component) && |component| <= ComponentThreshold(ctx)
    ensures TopGap(InstanceOf(candidates, ctx, component)) <==> SolverExact(InstanceOf(candidates, ctx, component), ctx)
  {
    var shape := InstanceOf(candidates, ctx, component);
    ComponentShape(candidates, ctx, component);
    InstanceDescends(candidates, ctx, component);
    if TopGap(shape) {
      forall incoming, alreadySelected, o, i: nat | SolvedAs(incoming, alreadySelected, ctx, o) && i < |o.components| && HasShape(ctx, o, i, shape)
        ensures AnsweredExactly(ctx, o, i)
      {
        GapSolves(shape, ctx, o, i);
      }
    } else {
      var incoming, o := SolverLoses(shape, ctx);
    }
  }
}
