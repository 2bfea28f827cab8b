/**
 From nodes of the conflict graph to positions of the exact search and back: a component
 is sorted, turned into a search instance, searched, and the answer mapped to nodes.
 */
module ComponentSolver {
  import opened SeqFacts
  import opened CandidateOrder
  import opened ExactSearch
  import opened ExactSearchOptimality
  import opened ExactSearchTolerance
  import opened ConflictGraph
  import opened ConflictSelection

  /** The positions q >= from whose node conflicts with the node at p, ascending. */
  function LaterPositions(adj: Graph, ordered: seq<nat>, p: nat, from: nat): (later: seq<nat>)
    requires p < |ordered|
    ensures Ascending(later)
    ensures forall q :: q in later <==> from <= q < |ordered| && Edge(adj, ordered[p], ordered[q])
    decreases |ordered| - from
  {
    if from >= |ordered| then [] else
      var rest := LaterPositions(adj, ordered, p, from + 1);
      if Edge(adj, ordered[p], ordered[from]) then
        assert forall k :: 0 <= k < |rest| ==> rest[k] in rest;
        [from] + rest
      else rest
  }

  ghost predicate ValidOrder(adj: Graph, weights: seq<real>, keys: seq<Key>, ordered: seq<nat>) {
    && WellFormed(adj) && |weights| == |keys| == |adj| && NonNegative(weights)
    && Distinct(ordered) && forall p :: 0 <= p < |ordered| ==> ordered[p] < |adj|
  }

  /** The search instance of a sorted component. */
  function ComponentInstance(adj: Graph, weights: seq<real>, keys: seq<Key>, ordered: seq<nat>): (inst: Instance)
    requires ValidOrder(adj, weights, keys, ordered)
    ensures inst.Valid() && |inst.weights| == |ordered|
  {
    var n := |ordered|;
    Instance(
      seq(n, p requires 0 <= p < n => weights[ordered[p]]),
      seq(n, p requires 0 <= p < n => LaterPositions(adj, ordered, p, p + 1)),
      seq(n, p requires 0 <= p < n => keys[ordered[p]]))
  }

  /** The nodes at the chosen positions, in the order chosen. */
  function NodesAt(ordered: seq<nat>, chosen: seq<nat>): (nodes: seq<nat>)
    requires forall i :: 0 <= i < |chosen| ==> chosen[i] < |ordered|
    ensures |nodes| == |chosen| && forall i :: 0 <= i < |chosen| ==> nodes[i] == ordered[chosen[i]]
  {
    seq(|chosen|, i requires 0 <= i < |chosen| => ordered[chosen[i]])
  }

  lemma NodesDistinct(ordered: seq<nat>, chosen: seq<nat>)
    requires Distinct(ordered) && Ascending(chosen)
    requires forall i :: 0 <= i < |chosen| ==> chosen[i] < |ordered|
    ensures Distinct(NodesAt(ordered, chosen))
  {
  }

  lemma {:induction false} TotalOfList(weights: seq<real>, nodes: seq<nat>, node: nat)
    requires Distinct(nodes + [node]) && node < |weights|
    ensures Total(weights, ToSet(nodes + [node])) == Total(weights, ToSet(nodes)) + weights[node]
  {
    var all := nodes + [node];
    assert node !in nodes by {
      forall i | 0 <= i < |nodes| ensures nodes[i] != node {
        assert all[i] != all[|nodes|];
      }
    }
    assert ToSet(all) == ToSet(nodes) + {node};
    TotalUnion(weights, ToSet(nodes), {node});
    TotalBelowSingle(weights, node, |weights|);
  }

  /** A choice of positions scores what its nodes weigh. */
  lemma {:induction false} ScoreIsTotal(adj: Graph, weights: seq<real>, keys: seq<Key>, ordered: seq<nat>, chosen: seq<nat>)
    requires ValidOrder(adj, weights, keys, ordered) && Ascending(chosen)
    requires forall i :: 0 <= i < |chosen| ==> chosen[i] < |ordered|
    ensures Score(ComponentInstance(adj, weights, keys, ordered), chosen) == Total(weights, ToSet(NodesAt(ordered, chosen)))
    decreases |chosen|
  {
    if chosen == [] {
      assert ToSet(NodesAt(ordered, chosen)) == {};
      TotalBelowEmpty(weights, |weights|);
    } else {
      var m := |chosen| - 1;
      ScoreIsTotal(adj, weights, keys, ordered, chosen[..m]);
      var nodes := NodesAt(ordered, chosen[..m]);
      NodesDistinct(ordered, chosen);
      assert NodesAt(ordered, chosen) == nodes + [ordered[chosen[m]]];
      TotalOfList(weights, nodes, ordered[chosen[m]]);
    }
  }

  lemma RulesIsEdge(adj: Graph, weights: seq<real>, keys: seq<Key>, ordered: seq<nat>, p: nat, q: nat)
    requires ValidOrder(adj, weights, keys, ordered) && p < q < |ordered|
    ensures Rules(ComponentInstance(adj, weights, keys, ordered), p, q) <==> Edge(adj, ordered[p], ordered[q])
  {
    assert ComponentInstance(adj, weights, keys, ordered).later[p] == LaterPositions(adj, ordered, p, p + 1);
  }

  /** A conflict-free choice of positions is a conflict-free set of nodes. */
  lemma ChoiceIndependent(adj: Graph, weights: seq<real>, keys: seq<Key>, ordered: seq<nat>, chosen: seq<nat>)
    requires ValidOrder(adj, weights, keys, ordered)
    requires ConflictFree(ComponentInstance(adj, weights, keys, ordered), chosen)
    ensures Independent(adj, ToSet(NodesAt(ordered, chosen)))
  {
    var inst := ComponentInstance(adj, weights, keys, ordered);
    var nodes := NodesAt(ordered, chosen);
    forall u, v | u in ToSet(nodes) && v in ToSet(nodes)
      ensures !Edge(adj, u, v)
    {
      var i :| 0 <= i < |nodes| && nodes[i] == u;
      var j :| 0 <= j < |nodes| && nodes[j] == v;
      if i < j {
        EarlierDoesNotRule(inst, chosen, i, j);
        RulesIsEdge(adj, weights, keys, ordered, chosen[i], chosen[j]);
      } else if j < i {
        EarlierDoesNotRule(inst, chosen, j, i);
        RulesIsEdge(adj, weights, keys, ordered, chosen[j], chosen[i]);
        assert !Edge(adj, v, u);
      }
    }
  }

  lemma EarlierDoesNotRule(inst: Instance, chosen: seq<nat>, i: nat, j: nat)
    requires ConflictFree(inst, chosen) && i < j < |chosen|
    ensures !Rules(inst, chosen[i], chosen[j])
  {
    assert !Blocked(inst, chosen[..j], chosen[j]);
    assert chosen[..j][i] == chosen[i];
  }

  /** The positions from `from` on whose nodes belong to `s`. */
  ghost function PositionsOf(ordered: seq<nat>, s: set<nat>, from: nat): (chosen: seq<nat>)
    ensures Ascending(chosen)
    ensures forall q :: q in chosen <==> from <= q < |ordered| && ordered[q] in s
    decreases |ordered| - from
  {
    if from >= |ordered| then [] else
      var rest := PositionsOf(ordered, s, from + 1);
      if ordered[from] in s then
        assert forall k :: 0 <= k < |rest| ==> rest[k] in rest;
        [from] + rest
      else rest
  }

  /** Every conflict-free set of component nodes is a conflict-free choice of positions. */
  lemma NodesToChoice(adj: Graph, weights: seq<real>, keys: seq<Key>, ordered: seq<nat>, s: set<nat>) returns (chosen: seq<nat>)
    requires ValidOrder(adj, weights, keys, ordered)
    requires s <= ToSet(ordered) && Independent(adj, s)
    ensures ConflictFree(ComponentInstance(adj, weights, keys, ordered), chosen)
    ensures forall i :: 0 <= i < |chosen| ==> chosen[i] < |ordered|
    ensures ToSet(NodesAt(ordered, chosen)) == s
  {
    var inst := ComponentInstance(adj, weights, keys, ordered);
    chosen := PositionsOf(ordered, s, 0);
    forall i | 0 <= i < |chosen|
      ensures chosen[i] < |ordered| && ordered[chosen[i]] in s
    {
      assert chosen[i] in chosen;
    }
    forall j | 0 <= j < |chosen|
      ensures !Blocked(inst, chosen[..j], chosen[j])
    {
      forall i | 0 <= i < j
        ensures !Rules(inst, chosen[..j][i], chosen[j])
      {
        RulesIsEdge(adj, weights, keys, ordered, chosen[i], chosen[j]);
      }
    }
    var nodes := NodesAt(ordered, chosen);
    forall v | v in s
      ensures v in ToSet(nodes)
    {
      var q :| 0 <= q < |ordered| && ordered[q] == v;
      assert q in chosen;
      var i :| 0 <= i < |chosen| && chosen[i] == q;
      assert nodes[i] == v;
    }
  }

  /** Whatever the weights, the nodes of the answer are conflict-free members of the component. */
  lemma AnswerSound(adj: Graph, weights: seq<real>, keys: seq<Key>, ordered: seq<nat>)
    requires ValidOrder(adj, weights, keys, ordered)
    ensures var chosen := Answer(ComponentInstance(adj, weights, keys, ordered));
            && (forall i :: 0 <= i < |chosen| ==> chosen[i] < |ordered|)
            && Distinct(NodesAt(ordered, chosen))
            && Independent(adj, ToSet(NodesAt(ordered, chosen)))
            && ToSet(NodesAt(ordered, chosen)) <= ToSet(ordered)
  {
    var inst := ComponentInstance(adj, weights, keys, ordered);
    AnswerConflictFree(inst);
    ChoiceIndependent(adj, weights, keys, ordered, Answer(inst));
    NodesDistinct(ordered, Answer(inst));
  }

  /** A choice of positions is optimal exactly when its nodes are a heaviest conflict-free subset. */
  lemma OptimalIsHeaviest(adj: Graph, weights: seq<real>, keys: seq<Key>, ordered: seq<nat>, chosen: seq<nat>)
    requires ValidOrder(adj, weights, keys, ordered)
    requires ConflictFree(ComponentInstance(adj, weights, keys, ordered), chosen)
    ensures Optimal(ComponentInstance(adj, weights, keys, ordered), chosen) <==>
            HeaviestIn(adj, weights, ToSet(ordered), ToSet(NodesAt(ordered, chosen)))
  {
    var inst := ComponentInstance(adj, weights, keys, ordered);
    ChoiceIndependent(adj, weights, keys, ordered, chosen);
    ScoreIsTotal(adj, weights, keys, ordered, chosen);
    if Optimal(inst, chosen) {
      forall s | s <= ToSet(ordered) && Independent(adj, s)
        ensures Total(weights, s) <= Total(weights, ToSet(NodesAt(ordered, chosen)))
      {
        var other := NodesToChoice(adj, weights, keys, ordered, s);
        ScoreIsTotal(adj, weights, keys, ordered, other);
      }
    }
    if HeaviestIn(adj, weights, ToSet(ordered), ToSet(NodesAt(ordered, chosen))) {
      forall other | ConflictFree(inst, other)
        ensures Score(inst, other) <= Score(inst, chosen)
      {
        ChoiceIndependent(adj, weights, keys, ordered, other);
        ScoreIsTotal(adj, weights, keys, ordered, other);
      }
    }
  }

  /** With a gap at the top of the component's instance, the answer is a heaviest conflict-free subset. */
  lemma AnswerHeaviest(adj: Graph, weights: seq<real>, keys: seq<Key>, ordered: seq<nat>)
    requires ValidOrder(adj, weights, keys, ordered)
    requires TopGap(ComponentInstance(adj, weights, keys, ordered))
    ensures var chosen := Answer(ComponentInstance(adj, weights, keys, ordered));
            && (forall i :: 0 <= i < |chosen| ==> chosen[i] < |ordered|)
            && HeaviestIn(adj, weights, ToSet(ordered), ToSet(NodesAt(ordered, chosen)))
  {
    var inst := ComponentInstance(adj, weights, keys, ordered);
    AnswerConflictFree(inst);
    GapMakesExact(inst);
    OptimalIsHeaviest(adj, weights, keys, ordered, Answer(inst));
  }

  /** Whatever the weights, no conflict-free subset outweighs the answer by more than one tolerance per leaf. */
  lemma AnswerLossBounded(adj: Graph, weights: seq<real>, keys: seq<Key>, ordered: seq<nat>, s: set<nat>)
    requires ValidOrder(adj, weights, keys, ordered)
    requires s <= ToSet(ordered) && Independent(adj, s)
    ensures var inst := ComponentInstance(adj, weights, keys, ordered);
            var chosen := Answer(inst);
            && (forall i :: 0 <= i < |chosen| ==> chosen[i] < |ordered|)
            && Total(weights, s) <= Total(weights, ToSet(NodesAt(ordered, chosen))) + TOLERANCE * (|Leaves(inst, 0, [])| as real)
  {
    var inst := ComponentInstance(adj, weights, keys, ordered);
    var other := NodesToChoice(adj, weights, keys, ordered, s);
    AnswerConflictFree(inst);
    ScoreIsTotal(adj, weights, keys, ordered, Answer(inst));
    ScoreIsTotal(adj, weights, keys, ordered, other);
    LossBounded(inst, other);
  }

  // -------------------------------------------------------------------- the tie-break

  /** The (line, policy) pairs of some nodes. */
  function NodeKeys(keys: seq<Key>, nodes: seq<nat>): (listed: seq<Key>)
    requires forall i :: 0 <= i < |nodes| ==> nodes[i] < |keys|
    ensures |listed| == |nodes| && forall i :: 0 <= i < |nodes| ==> listed[i] == keys[nodes[i]]
  {
    seq(|nodes|, i requires 0 <= i < |nodes| => keys[nodes[i]])
  }

  /** The sorted list depends on the set of nodes alone. */
  lemma SortedNodeKeys(keys: seq<Key>, a: seq<nat>, b: seq<nat>)
    requires LinesDiffer(keys) && Distinct(a) && Distinct(b) && ToSet(a) == ToSet(b)
    requires (forall i :: 0 <= i < |a| ==> a[i] < |keys|) && (forall i :: 0 <= i < |b| ==> b[i] < |keys|)
    ensures SortKeys(NodeKeys(keys, a)) == SortKeys(NodeKeys(keys, b))
  {
    SubsetKeys(keys, a, b);
    SubsetKeys(keys, b, a);
    SortKeysUnique(NodeKeys(keys, a), NodeKeys(keys, b));
  }

  lemma SubsetKeys(keys: seq<Key>, a: seq<nat>, b: seq<nat>)
    requires LinesDiffer(keys) && Distinct(a) && ToSet(a) == ToSet(b)
    requires (forall i :: 0 <= i < |a| ==> a[i] < |keys|) && (forall i :: 0 <= i < |b| ==> b[i] < |keys|)
    ensures LinesDiffer(NodeKeys(keys, a)) && forall k :: k in NodeKeys(keys, a) ==> k in NodeKeys(keys, b)
  {
    forall i, j | 0 <= i < j < |a|
      ensures keys[a[i]].line != keys[a[j]].line
    {
      assert a[i] != a[j];
    }
    forall k | k in NodeKeys(keys, a)
      ensures k in NodeKeys(keys, b)
    {
      var i :| 0 <= i < |a| && NodeKeys(keys, a)[i] == k;
      assert a[i] in ToSet(a);
      var j :| 0 <= j < |b| && b[j] == a[i];
      assert NodeKeys(keys, b)[j] == k;
    }
  }

  lemma ChosenKeys(adj: Graph, weights: seq<real>, keys: seq<Key>, ordered: seq<nat>, chosen: seq<nat>)
    requires ValidOrder(adj, weights, keys, ordered)
    requires forall i :: 0 <= i < |chosen| ==> chosen[i] < |ordered|
    ensures KeysOf(ComponentInstance(adj, weights, keys, ordered), chosen) == SortKeys(NodeKeys(keys, NodesAt(ordered, chosen)))
  {
    var inst := ComponentInstance(adj, weights, keys, ordered);
    assert NodeKeys(keys, NodesAt(ordered, chosen)) == RawKeys(inst, chosen);
  }

  /**
   With a gap and one candidate per line, the answer has the lexicographically least sorted
   (line, policy) list of all heaviest conflict-free subsets.
   */
  lemma AnswerLeast(adj: Graph, weights: seq<real>, keys: seq<Key>, ordered: seq<nat>, other: seq<nat>)
    requires ValidOrder(adj, weights, keys, ordered) && LinesDiffer(keys)
    requires TopGap(ComponentInstance(adj, weights, keys, ordered))
    requires Distinct(other) && HeaviestIn(adj, weights, ToSet(ordered), ToSet(other))
    ensures forall i :: 0 <= i < |other| ==> other[i] < |keys|
    ensures var chosen := Answer(ComponentInstance(adj, weights, keys, ordered));
            && (forall i :: 0 <= i < |chosen| ==> chosen[i] < |ordered|)
            && (ToSet(other) != ToSet(NodesAt(ordered, chosen)) ==>
                  KeyListLess(SortKeys(NodeKeys(keys, NodesAt(ordered, chosen))), SortKeys(NodeKeys(keys, other))))
  {
    var inst := ComponentInstance(adj, weights, keys, ordered);
    forall i | 0 <= i < |other|
      ensures other[i] < |keys|
    {
      assert other[i] in ToSet(other);
    }
    forall i, j | 0 <= i < j < |inst.keys|
      ensures inst.keys[i] != inst.keys[j]
    {
      assert keys[ordered[i]].line != keys[ordered[j]].line;
    }
    var choice := NodesToChoice(adj, weights, keys, ordered, ToSet(other));
    OptimalIsHeaviest(adj, weights, keys, ordered, choice);
    AnswerWinsTies(inst);
    AnswerConflictFree(inst);
    ChosenKeys(adj, weights, keys, ordered, choice);
    ChosenKeys(adj, weights, keys, ordered, Answer(inst));
    NodesDistinct(ordered, choice);
    SortedNodeKeys(keys, NodesAt(ordered, choice), other);
  }

  /** Sorted instance in, nodes of the search answer out. */
  method SolveSorted(adj: Graph, weights: seq<real>, keys: seq<Key>, ordered: seq<nat>) returns (selected: seq<nat>)
    requires ValidOrder(adj, weights, keys, ordered)
    ensures var chosen := Answer(ComponentInstance(adj, weights, keys, ordered));
            (forall i :: 0 <= i < |chosen| ==> chosen[i] < |ordered|) && selected == NodesAt(ordered, chosen)
    ensures Distinct(selected) && ToSet(selected) <= ToSet(ordered) && Independent(adj, ToSet(selected))
    ensures TopGap(ComponentInstance(adj, weights, keys, ordered)) ==>
              HeaviestIn(adj, weights, ToSet(ordered), ToSet(selected))
  {
    var inst := ComponentInstance(adj, weights, keys, ordered);
    var best := Search(inst);
    AnswerConflictFree(inst);
    AnswerSound(adj, weights, keys, ordered);
    selected := NodesAt(ordered, best.chosen);
    if TopGap(inst) {
      AnswerHeaviest(adj, weights, keys, ordered);
    }
  }
}
