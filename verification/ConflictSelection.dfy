/**
 Selecting conflict-free nodes of maximum weight: totals over node sets, the reduction of
 the whole problem to its components, and the greedy selection with its guarantee.
 */
module ConflictSelection {
  import opened SeqFacts
  import opened ConflictGraph

  // ------------------------------------------------------------------------- totals

  ghost predicate NonNegative(weights: seq<real>) {
    forall i :: 0 <= i < |weights| ==> weights[i] >= 0.0
  }

  /** The weight of the nodes below `k` that belong to `nodes`. */
  ghost function TotalBelow(weights: seq<real>, nodes: set<nat>, k: nat): real
    requires k <= |weights|
  {
    if k == 0 then 0.0
    else TotalBelow(weights, nodes, k - 1) + (if k - 1 in nodes then weights[k - 1] else 0.0)
  }

  ghost function Total(weights: seq<real>, nodes: set<nat>): real {
    TotalBelow(weights, nodes, |weights|)
  }

  lemma {:induction false} TotalBelowUnion(weights: seq<real>, a: set<nat>, b: set<nat>, k: nat)
    requires k <= |weights|
    ensures a !! b ==> TotalBelow(weights, a + b, k) == TotalBelow(weights, a, k) + TotalBelow(weights, b, k)
    ensures NonNegative(weights) ==> TotalBelow(weights, a + b, k) <= TotalBelow(weights, a, k) + TotalBelow(weights, b, k)
  {
    if k > 0 {
      TotalBelowUnion(weights, a, b, k - 1);
    }
  }

  /** Totals add up over disjoint sets and never exceed the sum over overlapping ones. */
  lemma TotalUnion(weights: seq<real>, a: set<nat>, b: set<nat>)
    ensures a !! b ==> Total(weights, a + b) == Total(weights, a) + Total(weights, b)
    ensures NonNegative(weights) ==> Total(weights, a + b) <= Total(weights, a) + Total(weights, b)
  {
    TotalBelowUnion(weights, a, b, |weights|);
  }

  lemma {:induction false} TotalBelowSingle(weights: seq<real>, node: nat, k: nat)
    requires k <= |weights|
    ensures TotalBelow(weights, {node}, k) == if node < k then weights[node] else 0.0
  {
    if k > 0 {
      TotalBelowSingle(weights, node, k - 1);
    }
  }

  lemma {:induction false} TotalBelowNonNegative(weights: seq<real>, nodes: set<nat>, k: nat)
    requires k <= |weights| && NonNegative(weights)
    ensures TotalBelow(weights, nodes, k) >= 0.0
  {
    if k > 0 {
      TotalBelowNonNegative(weights, nodes, k - 1);
    }
  }

  lemma {:induction false} TotalBelowEmpty(weights: seq<real>, k: nat)
    requires k <= |weights|
    ensures TotalBelow(weights, {}, k) == 0.0
  {
    if k > 0 {
      TotalBelowEmpty(weights, k - 1);
    }
  }

  // ---------------------------------------------------------------- decomposition

  ghost function UnionOf(parts: seq<set<nat>>): set<nat> {
    if parts == [] then {} else UnionOf(parts[..|parts| - 1]) + parts[|parts| - 1]
  }

  lemma {:induction false} UnionMember(parts: seq<set<nat>>, i: nat)
    requires i < |parts|
    ensures parts[i] <= UnionOf(parts)
  {
    if i < |parts| - 1 {
      UnionMember(parts[..|parts| - 1], i);
    }
  }

  lemma {:induction false} UnionSource(parts: seq<set<nat>>, v: nat) returns (i: nat)
    requires v in UnionOf(parts)
    ensures i < |parts| && v in parts[i]
  {
    if v in parts[|parts| - 1] {
      i := |parts| - 1;
    } else {
      i := UnionSource(parts[..|parts| - 1], v);
    }
  }

  ghost predicate PairwiseDisjoint(parts: seq<set<nat>>) {
    forall i, j :: 0 <= i < j < |parts| ==> parts[i] !! parts[j]
  }

  /** `best` is a heaviest conflict-free subset of `part`. */
  ghost predicate HeaviestIn(adj: Graph, weights: seq<real>, part: set<nat>, best: set<nat>) {
    && best <= part && Independent(adj, best)
    && forall s :: s <= part && Independent(adj, s) ==> Total(weights, s) <= Total(weights, best)
  }

  /**
   Heaviest answers to disjoint parts add up: no conflict-free choice within the union of
   the parts outweighs the union of the answers.
   */
  lemma {:induction false} UnionOutweighs(adj: Graph, weights: seq<real>, parts: seq<set<nat>>, answers: seq<set<nat>>, s: set<nat>)
    requires |parts| == |answers| && PairwiseDisjoint(parts)
    requires forall i :: 0 <= i < |parts| ==> HeaviestIn(adj, weights, parts[i], answers[i])
    requires s <= UnionOf(parts) && Independent(adj, s)
    ensures Total(weights, s) <= Total(weights, UnionOf(answers))
    ensures UnionOf(answers) <= UnionOf(parts)
    decreases |parts|
  {
    if parts == [] {
      assert s == {};
      TotalBelowEmpty(weights, |weights|);
    } else {
      var m := |parts| - 1;
      var inside, outside := s * parts[m], s - parts[m];
      forall v | v in UnionOf(parts[..m])
        ensures v !in parts[m]
      {
        var i := UnionSource(parts[..m], v);
        assert parts[i] !! parts[m];
      }
      UnionOutweighs(adj, weights, parts[..m], answers[..m], outside);
      assert HeaviestIn(adj, weights, parts[m], answers[m]);
      TotalUnion(weights, outside, inside);
      assert s == outside + inside;
      TotalUnion(weights, UnionOf(answers[..m]), answers[m]);
    }
  }

  /** Answers to classes without crossing edges do not conflict with each other. */
  lemma UnionIndependent(adj: Graph, parts: seq<set<nat>>, answers: seq<set<nat>>)
    requires |parts| == |answers| && PairwiseDisjoint(parts)
    requires forall i :: 0 <= i < |parts| ==> Closed(adj, parts[i])
    requires forall i :: 0 <= i < |parts| ==> answers[i] <= parts[i] && Independent(adj, answers[i])
    ensures Independent(adj, UnionOf(answers))
  {
    forall u, v | u in UnionOf(answers) && v in UnionOf(answers)
      ensures !Edge(adj, u, v)
    {
      var i := UnionSource(answers, u);
      var j := UnionSource(answers, v);
      assert Closed(adj, parts[i]) && u in parts[i] && v in parts[j];
      if i < j {
        assert parts[i] !! parts[j];
      } else if j < i {
        assert parts[j] !! parts[i];
      } else {
        assert Independent(adj, answers[i]);
      }
    }
  }

  lemma ClassClosed(adj: Graph, component: seq<nat>)
    requires IsClass(adj, component)
    ensures Closed(adj, ToSet(component))
  {
    forall u, v | u in ToSet(component) && Edge(adj, u, v)
      ensures v in ToSet(component)
    {
      ReachableStep(adj, component[0], u, v);
    }
  }

  /** The sets of a list of components. */
  ghost predicate SetsOf(components: seq<seq<nat>>, parts: seq<set<nat>>) {
    |parts| == |components| && forall i :: 0 <= i < |parts| ==> parts[i] == ToSet(components[i])
  }

  ghost function PartsOf(components: seq<seq<nat>>): (parts: seq<set<nat>>)
    ensures SetsOf(components, parts)
  {
    if components == [] then [] else [ToSet(components[0])] + PartsOf(components[1..])
  }

  lemma PartsHeaviest(adj: Graph, weights: seq<real>, components: seq<seq<nat>>, parts: seq<set<nat>>, answers: seq<set<nat>>)
    requires SetsOf(components, parts) && |answers| == |components|
    requires forall i :: 0 <= i < |components| ==> HeaviestIn(adj, weights, ToSet(components[i]), answers[i])
    ensures forall i :: 0 <= i < |parts| ==> HeaviestIn(adj, weights, parts[i], answers[i])
  {
  }

  lemma PartitionUnion(adj: Graph, components: seq<seq<nat>>, parts: seq<set<nat>>, all: set<nat>)
    requires Partition(adj, components, all) && SetsOf(components, parts)
    ensures UnionOf(parts) == all
  {
    forall v | v in all
      ensures v in UnionOf(parts)
    {
      assert InSome(components, v);
      var i :| 0 <= i < |components| && v in components[i];
      assert v in parts[i];
      UnionMember(parts, i);
    }
    forall v | v in UnionOf(parts)
      ensures v in all
    {
      var i := UnionSource(parts, v);
      assert ToSet(components[i]) <= all;
    }
  }

  lemma PartitionDisjoint(adj: Graph, components: seq<seq<nat>>, parts: seq<set<nat>>, all: set<nat>)
    requires Partition(adj, components, all) && SetsOf(components, parts)
    ensures PairwiseDisjoint(parts)
    ensures forall i :: 0 <= i < |parts| ==> Closed(adj, parts[i])
  {
    forall i | 0 <= i < |parts|
      ensures Closed(adj, parts[i])
    {
      ClassClosed(adj, components[i]);
    }
    forall i, j | 0 <= i < j < |parts|
      ensures parts[i] !! parts[j]
    {
      assert ToSet(components[i]) !! ToSet(components[j]);
    }
  }

  lemma PartsOptimal(adj: Graph, weights: seq<real>, parts: seq<set<nat>>, answers: seq<set<nat>>)
    requires |answers| == |parts| && PairwiseDisjoint(parts)
    requires forall i :: 0 <= i < |parts| ==> Closed(adj, parts[i])
    requires forall i :: 0 <= i < |parts| ==> HeaviestIn(adj, weights, parts[i], answers[i])
    ensures HeaviestIn(adj, weights, UnionOf(parts), UnionOf(answers))
  {
    UnionIndependent(adj, parts, answers);
    assert Independent(adj, {});
    UnionOutweighs(adj, weights, parts, answers, {});
    forall s | s <= UnionOf(parts) && Independent(adj, s)
      ensures Total(weights, s) <= Total(weights, UnionOf(answers))
    {
      UnionOutweighs(adj, weights, parts, answers, s);
    }
  }

  /**
   Decomposition preserves the optimum: heaviest answers to the connected components,
   taken together, are a heaviest conflict-free set of the whole graph.
   */
  lemma DecompositionOptimal(adj: Graph, weights: seq<real>, components: seq<seq<nat>>, answers: seq<set<nat>>)
    requires Partition(adj, components, Range(|adj|)) && |answers| == |components|
    requires forall i :: 0 <= i < |components| ==> HeaviestIn(adj, weights, ToSet(components[i]), answers[i])
    ensures HeaviestIn(adj, weights, Range(|adj|), UnionOf(answers))
  {
    var parts := PartsOf(components);
    PartitionUnion(adj, components, parts, Range(|adj|));
    PartitionDisjoint(adj, components, parts, Range(|adj|));
    PartsHeaviest(adj, weights, components, parts, answers);
    PartsOptimal(adj, weights, parts, answers);
  }

  // --------------------------------------------------------------------- the greedy pass

  /** Node v is kept, or some kept neighbour is at least as useful. */
  ghost predicate Dominated(adj: Graph, utilities: seq<real>, kept: seq<nat>, v: nat) {
    v in kept || exists u :: u in kept && Edge(adj, u, v) && u < |utilities| && v < |utilities| && utilities[u] >= utilities[v]
  }

  ghost predicate UtilityDescends(utilities: seq<real>, ordered: seq<nat>) {
    forall i, j :: 0 <= i < j < |ordered| && ordered[i] < |utilities| && ordered[j] < |utilities| ==>
      utilities[ordered[i]] >= utilities[ordered[j]]
  }

  /** Walks the nodes in order, keeps each one that is not blocked and blocks its neighbours. */
  method SelectGreedy(adj: Graph, utilities: seq<real>, ordered: seq<nat>) returns (selected: seq<nat>)
    requires WellFormed(adj) && |utilities| == |adj|
    requires Distinct(ordered) && forall v :: v in ordered ==> v < |adj|
    requires UtilityDescends(utilities, ordered)
    ensures ToSet(selected) <= ToSet(ordered) && Distinct(selected)
    ensures Independent(adj, ToSet(selected))
    ensures forall v :: v in ordered ==> Dominated(adj, utilities, selected, v)
  {
    selected := [];
    var blocked: set<nat> := {};
    for i := 0 to |ordered|
      invariant forall v :: v in selected ==> v in ordered[..i]
      invariant Distinct(selected)
      invariant Blocks(adj, selected, blocked)
      invariant Independent(adj, ToSet(selected))
      invariant forall v :: v in ordered[..i] ==> Dominated(adj, utilities, selected, v)
    {
      var node := ordered[i];
      assert node in ordered;
      assert ordered[..i + 1] == ordered[..i] + [node];
      if node !in blocked {
        GreedyStep(adj, utilities, ordered, i, selected);
        BlockMore(adj, selected, blocked, node);
        selected := selected + [node];
        blocked := blocked + {node} + (set v | v in adj[node]);
      } else {
        BlockedDominated(adj, utilities, ordered, i, selected);
      }
    }
    assert ordered[..|ordered|] == ordered;
  }

  /** A node is blocked just when it is kept or next to a kept node. */
  ghost predicate Blocks(adj: Graph, selected: seq<nat>, blocked: set<nat>) {
    forall v: nat :: v in blocked <==> v in selected || exists u :: u in selected && Edge(adj, u, v)
  }

  lemma BlockMore(adj: Graph, selected: seq<nat>, blocked: set<nat>, node: nat)
    requires Blocks(adj, selected, blocked) && node < |adj|
    ensures Blocks(adj, selected + [node], blocked + {node} + (set v | v in adj[node]))
  {
    var longer, more := selected + [node], blocked + {node} + (set v | v in adj[node]);
    forall v: nat
      ensures v in more <==> v in longer || exists u :: u in longer && Edge(adj, u, v)
    {
      if v in blocked && v !in selected {
        var u :| u in selected && Edge(adj, u, v);
        assert u in longer;
      }
      if v in adj[node] {
        assert node in longer && Edge(adj, node, v);
      }
    }
  }

  lemma GreedyStep(adj: Graph, utilities: seq<real>, ordered: seq<nat>, i: nat, selected: seq<nat>)
    requires WellFormed(adj) && i < |ordered|
    requires ordered[i] !in selected && forall u :: u in selected ==> !Edge(adj, u, ordered[i])
    requires Independent(adj, ToSet(selected))
    requires forall v :: v in ordered[..i] ==> Dominated(adj, utilities, selected, v)
    ensures Independent(adj, ToSet(selected + [ordered[i]]))
    ensures forall v :: v in ordered[..i + 1] ==> Dominated(adj, utilities, selected + [ordered[i]], v)
  {
    var node := ordered[i];
    var longer := selected + [node];
    forall u, v | u in ToSet(longer) && v in ToSet(longer)
      ensures !Edge(adj, u, v)
    {
      if u in selected && v in selected {
        assert u in ToSet(selected) && v in ToSet(selected);
      } else if v in selected {
        assert u == node;
        assert !Edge(adj, v, u);
      }
    }
    forall v | v in ordered[..i + 1]
      ensures Dominated(adj, utilities, longer, v)
    {
      if v != node {
        assert v in ordered[..i];
        assert Dominated(adj, utilities, selected, v);
        if v !in selected {
          var u :| u in selected && Edge(adj, u, v) && u < |utilities| && v < |utilities| && utilities[u] >= utilities[v];
          assert u in longer;
        }
      }
    }
  }

  lemma BlockedDominated(adj: Graph, utilities: seq<real>, ordered: seq<nat>, i: nat, selected: seq<nat>)
    requires i < |ordered| && ordered[i] < |utilities|
    requires |utilities| == |adj| && forall v :: v in ordered ==> v < |adj|
    requires UtilityDescends(utilities, ordered)
    requires forall v :: v in selected ==> v in ordered[..i]
    requires ordered[i] in selected || exists u :: u in selected && Edge(adj, u, ordered[i])
    ensures Dominated(adj, utilities, selected, ordered[i])
  {
    if ordered[i] !in selected {
      var u :| u in selected && Edge(adj, u, ordered[i]);
      var k :| 0 <= k < i && ordered[k] == u;
      assert ordered[k] in ordered;
      assert utilities[ordered[k]] >= utilities[ordered[i]];
    }
  }

  // ------------------------------------------------------------------ the greedy bound

  ghost predicate DegreesWithin(adj: Graph, selected: seq<nat>, degree: nat) {
    forall u :: u in selected ==> u < |adj| && |adj[u]| <= degree
  }

  /** The members of `s` that a kept node u can answer for: itself, or neighbours no heavier. */
  ghost function Charged(adj: Graph, weights: seq<real>, s: set<nat>, u: nat): set<nat> {
    set v | v in s && (v == u || (Edge(adj, u, v) && u < |weights| && v < |weights| && weights[v] <= weights[u]))
  }

  ghost function Times(k: nat, x: real): real {
    (k as real) * x
  }

  lemma TimesStep(k: nat, x: real)
    ensures Times(k + 1, x) == Times(k, x) + x
  {
  }

  lemma TimesMonotone(k: nat, m: nat, x: real)
    requires k <= m && x >= 0.0
    ensures Times(k, x) <= Times(m, x)
  {
    assert ((m - k) as real) * x >= 0.0;
    assert (m as real) == (k as real) + ((m - k) as real);
  }

  /** The nodes of a list no heavier than a bound weigh at most length times the bound. */
  lemma {:induction false} ListTotal(weights: seq<real>, list: seq<nat>, s: set<nat>, bound: real)
    requires NonNegative(weights) && bound >= 0.0
    requires forall v :: v in s ==> v in list && v < |weights| && weights[v] <= bound
    ensures Total(weights, s) <= Times(|list|, bound)
    decreases |list|
  {
    if list == [] {
      assert s == {};
      TotalBelowEmpty(weights, |weights|);
    } else {
      var head := list[0];
      assert list == [head] + list[1..];
      ListTotal(weights, list[1..], s - {head}, bound);
      TimesStep(|list| - 1, bound);
      if head in s {
        TotalUnion(weights, s - {head}, {head});
        TotalBelowSingle(weights, head, |weights|);
        assert s == (s - {head}) + {head};
      } else {
        assert s - {head} == s;
      }
    }
  }

  lemma ChargedBound(adj: Graph, weights: seq<real>, s: set<nat>, u: nat, degree: nat)
    requires WellFormed(adj) && NonNegative(weights) && |weights| == |adj| && u < |adj|
    requires Independent(adj, s) && |adj[u]| <= degree
    ensures Total(weights, Charged(adj, weights, s, u)) <= Times(if degree == 0 then 1 else degree, weights[u])
  {
    var charged := Charged(adj, weights, s, u);
    if u in s {
      forall v | v in charged
        ensures v == u
      {
        assert !Edge(adj, u, v);
      }
      TotalBelowSingle(weights, u, |weights|);
      assert charged == {u};
      TimesMonotone(1, if degree == 0 then 1 else degree, weights[u]);
    } else {
      ListTotal(weights, adj[u], charged, weights[u]);
      TimesMonotone(|adj[u]|, if degree == 0 then 1 else degree, weights[u]);
    }
  }

  /** What the kept nodes answer for in turn weighs at most their own weight times the factor. */
  lemma {:induction false} ChargesCover(adj: Graph, weights: seq<real>, s: set<nat>, kept: seq<nat>, degree: nat)
    requires WellFormed(adj) && NonNegative(weights) && |weights| == |adj|
    requires Independent(adj, s) && DegreesWithin(adj, kept, degree) && Distinct(kept)
    requires forall v :: v in s ==> exists u :: u in kept && v in Charged(adj, weights, s, u)
    ensures Total(weights, s) <= Times(if degree == 0 then 1 else degree, Total(weights, ToSet(kept)))
    decreases |kept|
  {
    var factor := if degree == 0 then 1 else degree;
    if kept == [] {
      assert s == {};
      TotalBelowEmpty(weights, |weights|);
      assert ToSet(kept) == {};
    } else {
      var m := |kept| - 1;
      var last := kept[m];
      var rest := kept[..m];
      assert kept == rest + [last];
      assert last in kept;
      var mine := Charged(adj, weights, s, last);
      var others := s - mine;
      forall v | v in others
        ensures exists u :: u in rest && v in Charged(adj, weights, others, u)
      {
        var u :| u in kept && v in Charged(adj, weights, s, u);
        assert u in rest;
        assert v in Charged(adj, weights, others, u);
      }
      assert forall u :: u in rest ==> u in kept;
      ChargesCover(adj, weights, others, rest, degree);
      ChargedBound(adj, weights, s, last, degree);
      assert s == others + mine;
      TotalUnion(weights, others, mine);
      assert last !in rest;
      TotalUnion(weights, ToSet(rest), {last});
      TotalBelowSingle(weights, last, |weights|);
      assert ToSet(kept) == ToSet(rest) + {last};
      TimesAdds(factor, Total(weights, ToSet(rest)), weights[last]);
    }
  }

  lemma TimesAdds(k: nat, x: real, y: real)
    ensures Times(k, x + y) == Times(k, x) + Times(k, y)
  {
  }

  /** The clamped utilities used as weights. */
  function Clamped(utilities: seq<real>): (weights: seq<real>)
    ensures |weights| == |utilities|
  {
    seq(|utilities|, i requires 0 <= i < |utilities| => if utilities[i] > 0.0 then utilities[i] else 0.0)
  }

  /**
   The greedy guarantee: any conflict-free set of dominated nodes weighs, in clamped
   utilities, at most max(1, degree) times the kept nodes.
   */
  lemma GreedyBound(adj: Graph, utilities: seq<real>, part: seq<nat>, kept: seq<nat>, s: set<nat>, degree: nat)
    requires WellFormed(adj) && |utilities| == |adj|
    requires forall v :: v in part ==> v < |adj|
    requires Distinct(kept) && ToSet(kept) <= ToSet(part) && DegreesWithin(adj, kept, degree)
    requires forall v :: v in part ==> Dominated(adj, utilities, kept, v)
    requires s <= ToSet(part) && Independent(adj, s)
    ensures Total(Clamped(utilities), s) <= Times(if degree == 0 then 1 else degree, Total(Clamped(utilities), ToSet(kept)))
  {
    var weights := Clamped(utilities);
    forall v | v in s
      ensures exists u :: u in kept && v in Charged(adj, weights, s, u)
    {
      assert v in part;
      assert Dominated(adj, utilities, kept, v);
      if v in kept {
        assert v in Charged(adj, weights, s, v);
      } else {
        var u :| u in kept && Edge(adj, u, v) && u < |utilities| && v < |utilities| && utilities[u] >= utilities[v];
        assert v in Charged(adj, weights, s, u);
      }
    }
    ChargesCover(adj, weights, s, kept, degree);
  }

  // --------------------------------------------------------------- bounds add up

  /** No conflict-free subset of the part outweighs the answer by more than the factor and the slack. */
  ghost predicate BoundedIn(adj: Graph, weights: seq<real>, part: set<nat>, answer: set<nat>, factor: nat, slack: real) {
    forall s :: s <= part && Independent(adj, s) ==> Total(weights, s) <= Times(factor, Total(weights, answer)) + slack
  }

  ghost function SumOf(slacks: seq<real>): real {
    if slacks == [] then 0.0 else SumOf(slacks[..|slacks| - 1]) + slacks[|slacks| - 1]
  }

  lemma {:induction false} SumOfZeros(slacks: seq<real>)
    requires forall i :: 0 <= i < |slacks| ==> slacks[i] == 0.0
    ensures SumOf(slacks) == 0.0
  {
    if slacks != [] {
      SumOfZeros(slacks[..|slacks| - 1]);
    }
  }

  lemma {:induction false} UnionBounded(adj: Graph, weights: seq<real>, parts: seq<set<nat>>, answers: seq<set<nat>>,
                                        factor: nat, slacks: seq<real>, s: set<nat>)
    requires |parts| == |answers| == |slacks| && PairwiseDisjoint(parts)
    requires forall i :: 0 <= i < |parts| ==> answers[i] <= parts[i] && BoundedIn(adj, weights, parts[i], answers[i], factor, slacks[i])
    requires s <= UnionOf(parts) && Independent(adj, s)
    ensures Total(weights, s) <= Times(factor, Total(weights, UnionOf(answers))) + SumOf(slacks)
    ensures UnionOf(answers) <= UnionOf(parts)
    decreases |parts|
  {
    if parts == [] {
      assert s == {} && UnionOf(answers) == {};
      TotalBelowEmpty(weights, |weights|);
      TimesAdds(factor, 0.0, 0.0);
    } else {
      var m := |parts| - 1;
      var inside, outside := s * parts[m], s - parts[m];
      forall v | v in UnionOf(parts[..m])
        ensures v !in parts[m]
      {
        var i := UnionSource(parts[..m], v);
        assert parts[i] !! parts[m];
      }
      UnionBounded(adj, weights, parts[..m], answers[..m], factor, slacks[..m], outside);
      assert BoundedIn(adj, weights, parts[m], answers[m], factor, slacks[m]);
      TotalUnion(weights, outside, inside);
      assert s == outside + inside;
      TotalUnion(weights, UnionOf(answers[..m]), answers[m]);
      TimesAdds(factor, Total(weights, UnionOf(answers[..m])), Total(weights, answers[m]));
    }
  }
}
