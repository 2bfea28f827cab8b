/**
 What the tolerance means for candidates. Every connected search instance is that of a
 component of some candidate list, so the exact condition for the search carries over to
 components: one shape of component is always solved exactly if and only if its totals
 leave a gap at the top.
 */
module ComponentExactness {
  import opened Bounds
  import opened SeqFacts
  import opened Sorting
  import opened CandidateOrder
  import opened ExactSearch
  import opened ExactSearchOptimality
  import opened ExactSearchTolerance
  import opened ConflictGraph
  import opened ConflictSelection
  import opened ComponentSolver
  import opened ConflictSolver
  import opened GlobalSolver

  // ----------------------------------------------------- the shape of a component

  /** One of the two positions lists the other among its later conflicts. */
  predicate Linked(inst: Instance, p: nat, q: nat) { Rules(inst, p, q) || Rules(inst, q, p) }

  ghost predicate ClosedUnder(inst: Instance, s: set<nat>) {
    forall p, q :: p in s && Linked(inst, p, q) ==> q in s
  }

  ghost predicate HoldsAll(inst: Instance, s: set<nat>) {
    forall p :: 0 <= p < |inst.weights| ==> p in s
  }

  /** Following conflicts from any position leads to all of them. */
  ghost predicate Connected(inst: Instance) {
    |inst.weights| > 0 && forall s: set<nat>, a: nat :: a in s && a < |inst.weights| && ClosedUnder(inst, s) ==> HoldsAll(inst, s)
  }

  ghost predicate RowsAscend(inst: Instance) {
    forall p :: 0 <= p < |inst.later| ==> Ascending(inst.later[p])
  }

  /** Whatever the candidates, the instance of a component is connected, with its conflicts in ascending order. */
  lemma ComponentShape(candidates: seq<Candidate>, ctx: Context, component: seq<nat>)
    requires ComponentOf(candidates, ctx, component)
    ensures var inst := InstanceOf(candidates, ctx, component);
            inst.Valid() && Connected(inst) && RowsAscend(inst) && |inst.weights| == |component|
  {
    ComponentValid(candidates, ctx, component);
    SortedNodes(candidates, Utilities(candidates, ctx), component);
    var adj, inst := GraphOf(candidates, ctx), InstanceOf(candidates, ctx, component);
    var sorted := SortNodes(candidates, Utilities(candidates, ctx), component);
    forall s: set<nat>, a: nat | a in s && a < |sorted| && ClosedUnder(inst, s)
      ensures HoldsAll(inst, s)
    {
      ClosedHoldsAll(candidates, ctx, component, inst, s, a);
    }
    forall p | 0 <= p < |inst.later|
      ensures Ascending(inst.later[p])
    {
      assert inst.later[p] == LaterPositions(adj, sorted, p, p + 1);
    }
  }

  lemma LinkedIsEdge(adj: Graph, weights: seq<real>, keys: seq<Key>, ordered: seq<nat>, p: nat, q: nat)
    requires ValidOrder(adj, weights, keys, ordered) && p < |ordered| && q < |ordered|
    ensures Linked(ComponentInstance(adj, weights, keys, ordered), p, q) <==> Edge(adj, ordered[p], ordered[q])
  {
    var inst := ComponentInstance(adj, weights, keys, ordered);
    if p < q {
      RulesIsEdge(adj, weights, keys, ordered, p, q);
      assert inst.later[q] == LaterPositions(adj, ordered, q, q + 1);
    } else if q < p {
      RulesIsEdge(adj, weights, keys, ordered, q, p);
      assert inst.later[p] == LaterPositions(adj, ordered, p, p + 1);
    } else {
      assert inst.later[p] == LaterPositions(adj, ordered, p, p + 1);
    }
  }

  /** The nodes at some of the positions. */
  ghost function NodesIn(sorted: seq<nat>, s: set<nat>): set<nat> {
    set p | p in s && p < |sorted| :: sorted[p]
  }

  lemma ClosedNodes(adj: Graph, weights: seq<real>, keys: seq<Key>, sorted: seq<nat>, s: set<nat>)
    requires ValidOrder(adj, weights, keys, sorted) && Closed(adj, ToSet(sorted))
    requires ClosedUnder(ComponentInstance(adj, weights, keys, sorted), s)
    ensures forall u, v :: u in NodesIn(sorted, s) && Edge(adj, u, v) ==> v in NodesIn(sorted, s)
  {
    forall u, v | u in NodesIn(sorted, s) && Edge(adj, u, v)
      ensures v in NodesIn(sorted, s)
    {
      var p :| p in s && p < |sorted| && sorted[p] == u;
      assert u in ToSet(sorted);
      assert v in ToSet(sorted);
      var q :| 0 <= q < |sorted| && sorted[q] == v;
      LinkedIsEdge(adj, weights, keys, sorted, p, q);
    }
  }

  lemma ClosedHoldsAll(candidates: seq<Candidate>, ctx: Context, component: seq<nat>, inst: Instance, s: set<nat>, a: nat)
    requires ComponentOf(candidates, ctx, component) && inst == InstanceOf(candidates, ctx, component)
    requires a in s && a < |inst.weights| && ClosedUnder(inst, s)
    ensures HoldsAll(inst, s)
  {
    ComponentValid(candidates, ctx, component);
    var sorted := SortNodes(candidates, Utilities(candidates, ctx), component);
    var adj := GraphOf(candidates, ctx);
    ClassClosed(adj, component);
    ClosedNodes(adj, Weights(candidates, ctx), Keys(candidates), sorted, s);
    forall p | 0 <= p < |sorted|
      ensures p in s
    {
      ClosedHolds(adj, component, sorted, s, a, p);
    }
  }

  lemma ClosedHolds(adj: Graph, component: seq<nat>, sorted: seq<nat>, s: set<nat>, a: nat, p: nat)
    requires WellFormed(adj) && IsClass(adj, component) && Distinct(sorted) && ToSet(sorted) == ToSet(component)
    requires forall u, v :: u in NodesIn(sorted, s) && Edge(adj, u, v) ==> v in NodesIn(sorted, s)
    requires a in s && a < |sorted| && p < |sorted|
    ensures p in s
  {
    ReachableWithin(adj, component, sorted, a, p);
    var path :| IsPath(adj, path, sorted[a], sorted[p]);
    ClosedHoldsPath(adj, NodesIn(sorted, s), path, sorted[a], sorted[p]);
    var q :| q in s && q < |sorted| && sorted[q] == sorted[p];
  }

  lemma ReachableWithin(adj: Graph, component: seq<nat>, sorted: seq<nat>, a: nat, p: nat)
    requires WellFormed(adj) && IsClass(adj, component) && ToSet(sorted) == ToSet(component)
    requires a < |sorted| && p < |sorted|
    ensures Reachable(adj, sorted[a], sorted[p])
  {
    assert sorted[a] in ToSet(component) && sorted[p] in ToSet(component);
    ReachableSymmetric(adj, component[0], sorted[a]);
    ReachableTransitive(adj, sorted[a], component[0], sorted[p]);
  }

  // ------------------------------------------------------ candidates for an instance

  /** What candidates of one component can give rise to, with a policy of its own for each of them. */
  ghost predicate Realisable(inst: Instance, ctx: Context) {
    && inst.Valid() && Descending(inst.weights) && Connected(inst) && RowsAscend(inst)
    && DistinctLabels(inst.keys)
    && forall p :: 0 <= p < |inst.keys| ==> inst.keys[p].policy !in ctx.bypassing
  }

  /** Where the numbers for pairs that begin with p start. */
  function Offset(n: nat, p: nat): nat {
    if p == 0 then 0 else Offset(n, p - 1) + n
  }

  /** A number for the pair of p and q below n. */
  function Pair(n: nat, p: nat, q: nat): nat { Offset(n, p) + q }

  lemma {:induction false} PairLess(n: nat, p: nat, q: nat, r: nat, t: nat)
    requires q < n && p < r
    ensures Pair(n, p, q) < Pair(n, r, t)
    decreases r
  {
    if p < r - 1 {
      PairLess(n, p, q, r - 1, 0);
    }
  }

  lemma PairInjective(n: nat, p: nat, q: nat, r: nat, t: nat)
    requires q < n && t < n && Pair(n, p, q) == Pair(n, r, t)
    ensures p == r && q == t
  {
    if p < r {
      PairLess(n, p, q, r, t);
    } else if r < p {
      PairLess(n, r, t, p, q);
    }
  }

  /** A number that positions p and q share if they conflict; otherwise one of p alone. */
  function Mark(inst: Instance, p: nat, q: nat): nat {
    var n := |inst.weights|;
    if !Linked(inst, p, q) then Pair(n, p, p) else if p < q then Pair(n, p, q) else Pair(n, q, p)
  }

  function Marks(inst: Instance, p: nat): (marks: seq<(nat, nat)>)
    ensures |marks| == |inst.weights| && forall q :: 0 <= q < |marks| ==> marks[q] == (Mark(inst, p, q), Mark(inst, p, q))
  {
    seq(|inst.weights|, q requires 0 <= q => (Mark(inst, p, q), Mark(inst, p, q)))
  }

  lemma SharedMark(inst: Instance, p: nat, q: nat, i: nat, j: nat)
    requires p != q && p < |inst.weights| && q < |inst.weights| && i < |inst.weights| && j < |inst.weights|
    requires Mark(inst, p, i) == Mark(inst, q, j)
    ensures Linked(inst, p, q)
  {
    var n := |inst.weights|;
    var a, b := if !Linked(inst, p, i) then p else if p < i then p else i, if !Linked(inst, p, i) then p else if p < i then i else p;
    var c, d := if !Linked(inst, q, j) then q else if q < j then q else j, if !Linked(inst, q, j) then q else if q < j then j else q;
    PairInjective(n, a, b, c, d);
  }

  /** The ranges built from the marks overlap exactly where positions conflict. */
  lemma MarksOverlap(inst: Instance, p: nat, q: nat)
    requires p != q && p < |inst.weights| && q < |inst.weights|
    ensures RangesOverlap(Marks(inst, p), Marks(inst, q)) <==> Linked(inst, p, q)
  {
    var left, right := Marks(inst, p), Marks(inst, q);
    if Linked(inst, p, q) {
      assert Mark(inst, p, q) == Mark(inst, q, p);
      assert left[q].0 <= right[p].1 && right[p].0 <= left[q].1;
    }
    if RangesOverlap(left, right) {
      var i, j :| 0 <= i < |left| && 0 <= j < |right| && left[i].0 <= right[j].1 && right[j].0 <= left[i].1;
      SharedMark(inst, p, q, i, j);
    }
  }

  /** Falls from 1 towards 0 with the position. */
  function Confidence(n: nat, p: nat): real
    requires p < n
  {
    1.0 - (p as real) / (n as real)
  }

  lemma ConfidenceFalls(n: nat, p: nat, q: nat)
    requires p < q < n
    ensures 1.0 >= Confidence(n, p) > Confidence(n, q) > 0.0
  {
    var x, y, z := p as real, q as real, n as real;
    assert x / z < y / z < z / z == 1.0;
  }

  function Plain(inst: Instance, p: nat): Candidate
    requires p < |inst.weights| == |inst.keys|
  {
    Candidate(inst.keys[p].policy, inst.keys[p].line, Confidence(|inst.weights|, p), 0.0, Low, 0, [], Marks(inst, p), 0, Zone.Code, 0)
  }

  /** A candidate that stands for a position: its key, its weight as utility, its conflicts as ranges. */
  function Twin(inst: Instance, ctx: Context, p: nat): Candidate
    requires p < |inst.weights| == |inst.keys|
  {
    Plain(inst, p).(styleGain := inst.weights[p] - Utility(Plain(inst, p), ctx))
  }

  lemma TwinUtility(inst: Instance, ctx: Context, p: nat)
    requires p < |inst.weights| == |inst.keys|
    ensures Utility(Twin(inst, ctx, p), ctx) == inst.weights[p]
  {
    GainAdds(Plain(inst, p), ctx, inst.weights[p] - Utility(Plain(inst, p), ctx));
  }

  lemma GainAdds(c: Candidate, ctx: Context, gain: real)
    requires c.styleGain == 0.0
    ensures Utility(c.(styleGain := gain), ctx) == Utility(c, ctx) + gain
  {
  }

  lemma TwinConflicts(inst: Instance, ctx: Context, p: nat, q: nat)
    requires Realisable(inst, ctx) && p != q && p < |inst.weights| && q < |inst.weights|
    ensures Conflicts(Twin(inst, ctx, p), Twin(inst, ctx, q), ctx) <==> Linked(inst, p, q)
  {
    MarksOverlap(inst, p, q);
    assert inst.keys[p].policy != inst.keys[q].policy && inst.keys[p].line != inst.keys[q].line by {
      if p < q { } else { assert inst.keys[q].policy != inst.keys[p].policy; }
    }
    assert !SymbolsOverlap([], []);
  }

  // ------------------------------------------------------------- in line order

  /** The positions in the order of their lines. */
  ghost predicate InLineOrder(inst: Instance, lineup: seq<nat>) {
    && |lineup| == |inst.weights| == |inst.keys| && Distinct(lineup)
    && (forall v :: 0 <= v < |lineup| ==> lineup[v] < |inst.weights|)
    && forall u, v :: 0 <= u < v < |lineup| ==> inst.keys[lineup[u]].line < inst.keys[lineup[v]].line
  }

  function Lines(keys: seq<Key>): (lines: seq<nat>)
    ensures |lines| == |keys| && forall p :: 0 <= p < |keys| ==> lines[p] == keys[p].line
  {
    seq(|keys|, p requires 0 <= p < |keys| => keys[p].line)
  }

  lemma LineupExists(inst: Instance) returns (lineup: seq<nat>)
    requires |inst.weights| == |inst.keys| && DistinctLabels(inst.keys)
    ensures InLineOrder(inst, lineup)
  {
    var lines := Lines(inst.keys);
    assert Distinct(lines);
    SortedAscending(lines);
    var sorted := SortNats(lines);
    forall v | 0 <= v < |sorted|
      ensures sorted[v] in lines
    {
      assert sorted[v] in ToSet(sorted);
    }
    lineup := seq(|sorted|, v requires 0 <= v < |sorted| => IndexOf(lines, sorted[v]));
    forall v | 0 <= v < |lineup|
      ensures lineup[v] < |lines| && inst.keys[lineup[v]].line == sorted[v]
    {
    }
  }

  function Twins(inst: Instance, ctx: Context, lineup: seq<nat>): (twins: seq<Candidate>)
    requires |inst.weights| == |inst.keys| && forall v :: 0 <= v < |lineup| ==> lineup[v] < |inst.weights|
    ensures |twins| == |lineup| && forall v :: 0 <= v < |twins| ==> twins[v] == Twin(inst, ctx, lineup[v])
  {
    seq(|lineup|, v requires 0 <= v < |lineup| => Twin(inst, ctx, lineup[v]))
  }

  /** The nodes 0, 1, ..., n-1 as a list. */
  function Upto(n: nat): (nodes: seq<nat>)
    ensures |nodes| == n && forall v :: 0 <= v < n ==> nodes[v] == v
    ensures forall v: nat :: v in nodes <==> v < n
  {
    var nodes := seq(n, v requires 0 <= v => v);
    UptoMembers(nodes);
    nodes
  }

  lemma UptoMembers(nodes: seq<nat>)
    requires forall v :: 0 <= v < |nodes| ==> nodes[v] == v
    ensures forall v: nat :: v in nodes <==> v < |nodes|
  {
    forall v: nat | v < |nodes|
      ensures v in nodes
    {
      assert nodes[v] == v;
    }
  }

  lemma TwinEdges(inst: Instance, ctx: Context, lineup: seq<nat>, u: nat, v: nat)
    requires Realisable(inst, ctx) && InLineOrder(inst, lineup) && u < |lineup| && v < |lineup|
    ensures Edge(GraphOf(Twins(inst, ctx, lineup), ctx), u, v) <==> Linked(inst, lineup[u], lineup[v])
  {
    GraphEdges(Twins(inst, ctx, lineup), ctx);
    if u != v {
      assert lineup[u] != lineup[v] by {
        if u < v { } else { assert lineup[v] != lineup[u]; }
      }
      TwinConflicts(inst, ctx, lineup[u], lineup[v]);
    }
  }

  /** A line-up leaves out no position. */
  lemma LineupCovers(inst: Instance, lineup: seq<nat>, p: nat)
    requires InLineOrder(inst, lineup) && p < |inst.weights|
    ensures p in lineup
  {
    var n := |inst.weights|;
    DistinctSize(lineup);
    assert ToSet(lineup) <= Range(n);
    if p !in lineup {
      SubsetSize(ToSet(lineup) + {p}, Range(n));
    }
  }

  /** The twins of a connected instance form one component. */
  lemma TwinsConnected(inst: Instance, ctx: Context, lineup: seq<nat>)
    requires Realisable(inst, ctx) && InLineOrder(inst, lineup)
    ensures ComponentOf(Twins(inst, ctx, lineup), ctx, Upto(|lineup|))
  {
    var twins, adj, n := Twins(inst, ctx, lineup), GraphOf(Twins(inst, ctx, lineup), ctx), |lineup|;
    GraphEdges(twins, ctx);
    var s := set v | 0 <= v < n && Reachable(adj, 0, v) :: lineup[v];
    forall p, q | p in s && Linked(inst, p, q)
      ensures q in s
    {
      var u :| 0 <= u < n && Reachable(adj, 0, u) && lineup[u] == p;
      LineupCovers(inst, lineup, q);
      var v :| 0 <= v < n && lineup[v] == q;
      TwinEdges(inst, ctx, lineup, u, v);
      ReachableStep(adj, 0, u, v);
    }
    ReachableSelf(adj, 0);
    assert lineup[0] in s && ClosedUnder(inst, s);
    assert HoldsAll(inst, s);
    forall v: nat
      ensures v in Upto(n) <==> Reachable(adj, 0, v)
    {
      if v < n {
        assert lineup[v] in s;
        var u :| 0 <= u < n && Reachable(adj, 0, u) && lineup[u] == lineup[v];
        assert u == v;
      } else if Reachable(adj, 0, v) {
        ReachesNodes(adj, 0, v);
      }
    }
  }

  lemma ReachesNodes(adj: Graph, u: nat, v: nat)
    requires WellFormed(adj) && Reachable(adj, u, v) && u < |adj|
    ensures v < |adj|
  {
    var path :| IsPath(adj, path, u, v);
    if |path| > 1 {
      assert Edge(adj, path[|path| - 2], path[|path| - 1]);
    }
  }

  // -------------------------------------------------- the twins give the instance back

  lemma TwinsUtilities(inst: Instance, ctx: Context, lineup: seq<nat>)
    requires Realisable(inst, ctx) && InLineOrder(inst, lineup)
    ensures forall v :: 0 <= v < |lineup| ==> Utilities(Twins(inst, ctx, lineup), ctx)[v] == inst.weights[lineup[v]]
  {
    forall v | 0 <= v < |lineup|
      ensures Utilities(Twins(inst, ctx, lineup), ctx)[v] == inst.weights[lineup[v]]
    {
      TwinUtility(inst, ctx, lineup[v]);
    }
  }

  lemma EarlierTwinFirst(inst: Instance, ctx: Context, lineup: seq<nat>, u: nat, v: nat)
    requires Realisable(inst, ctx) && InLineOrder(inst, lineup) && u < |lineup| && v < |lineup| && lineup[u] < lineup[v]
    ensures Before(Twins(inst, ctx, lineup), Utilities(Twins(inst, ctx, lineup), ctx), u, v)
  {
    TwinsUtilities(inst, ctx, lineup);
    ConfidenceFalls(|lineup|, lineup[u], lineup[v]);
  }

  lemma NextPlace(inst: Instance, ctx: Context, lineup: seq<nat>, sorted: seq<nat>, i: nat)
    requires Realisable(inst, ctx) && InLineOrder(inst, lineup)
    requires InOrder(Twins(inst, ctx, lineup), Utilities(Twins(inst, ctx, lineup), ctx), sorted) && Distinct(sorted)
    requires 0 < i < |sorted|
    ensures lineup[sorted[i - 1]] < lineup[sorted[i]]
  {
    var u, v := sorted[i - 1], sorted[i];
    assert u != v;
    assert lineup[u] != lineup[v] by {
      if v < u {
        assert lineup[v] != lineup[u];
      }
    }
    if lineup[v] < lineup[u] {
      EarlierTwinFirst(inst, ctx, lineup, v, u);
    }
  }

  lemma PlacesFill(lineup: seq<nat>, sorted: seq<nat>, places: seq<nat>, n: nat)
    requires |lineup| == |sorted| == |places| == n
    requires forall i :: 0 <= i < n ==> sorted[i] < n && places[i] == lineup[sorted[i]] && places[i] < n
    requires forall i :: 0 < i < n ==> places[i - 1] < places[i]
    ensures forall i :: 0 <= i < n ==> lineup[sorted[i]] == i
  {
    forall i, j | 0 <= i < j < n
      ensures places[i] < places[j]
    {
      StepsAscend(places, i, j);
    }
    AllPlaces(places, n);
    forall i | 0 <= i < n
      ensures lineup[sorted[i]] == i
    {
      assert places[i] == i;
    }
  }

  /** Sorting the twins puts every position in its place. */
  lemma TwinsSorted(inst: Instance, ctx: Context, lineup: seq<nat>, sorted: seq<nat>)
    requires Realisable(inst, ctx) && InLineOrder(inst, lineup)
    requires InOrder(Twins(inst, ctx, lineup), Utilities(Twins(inst, ctx, lineup), ctx), sorted)
    requires Distinct(sorted) && |sorted| == |lineup|
    ensures forall i :: 0 <= i < |sorted| ==> lineup[sorted[i]] == i
  {
    var places := PlacesOf(lineup, sorted);
    forall i | 0 < i < |places|
      ensures places[i - 1] < places[i]
    {
      NextPlace(inst, ctx, lineup, sorted, i);
    }
    PlacesFill(lineup, sorted, places, |lineup|);
  }

  function PlacesOf(lineup: seq<nat>, sorted: seq<nat>): (places: seq<nat>)
    requires forall i :: 0 <= i < |sorted| ==> sorted[i] < |lineup|
    ensures |places| == |sorted| && forall i :: 0 <= i < |sorted| ==> places[i] == lineup[sorted[i]]
  {
    seq(|sorted|, i requires 0 <= i < |sorted| => lineup[sorted[i]])
  }

  lemma AllPlaces(places: seq<nat>, n: nat)
    requires Ascending(places) && |places| == n && forall i :: 0 <= i < n ==> places[i] < n
    ensures forall i :: 0 <= i < n ==> places[i] == i
  {
    assert ToSet(places) <= Range(n);
    DistinctSize(places);
    forall v: nat | v < n
      ensures v in places
    {
      if v !in places {
        SubsetSize(ToSet(places) + {v}, Range(n));
      }
    }
    AscendingUnique(places, Upto(n));
  }

  lemma SameRow(inst: Instance, adj: Graph, sorted: seq<nat>, i: nat)
    requires inst.Valid() && RowsAscend(inst) && |sorted| == |inst.weights| && i < |sorted|
    requires forall q: nat :: q < |sorted| ==> (Edge(adj, sorted[i], sorted[q]) <==> Linked(inst, i, q))
    ensures LaterPositions(adj, sorted, i, i + 1) == inst.later[i]
  {
    var row := LaterPositions(adj, sorted, i, i + 1);
    forall q: nat
      ensures q in row <==> q in inst.later[i]
    {
      if q < |sorted| {
        assert Edge(adj, sorted[i], sorted[q]) <==> Linked(inst, i, q);
      }
    }
    AscendingUnique(row, inst.later[i]);
  }

  lemma TwinsOrder(inst: Instance, ctx: Context, lineup: seq<nat>) returns (sorted: seq<nat>)
    requires Realisable(inst, ctx) && InLineOrder(inst, lineup)
    ensures sorted == SortNodes(Twins(inst, ctx, lineup), Utilities(Twins(inst, ctx, lineup), ctx), Upto(|lineup|))
    ensures |sorted| == |lineup| && Distinct(sorted)
    ensures forall i :: 0 <= i < |sorted| ==> sorted[i] < |lineup| && lineup[sorted[i]] == i
  {
    var twins, utilities, n := Twins(inst, ctx, lineup), Utilities(Twins(inst, ctx, lineup), ctx), |lineup|;
    sorted := SortNodes(twins, utilities, Upto(n));
    SortedNodes(twins, utilities, Upto(n));
    SortInOrder(twins, utilities, Upto(n));
    TwinsSorted(inst, ctx, lineup, sorted);
  }

  /** The entries of the instance built from the twins, one position at a time. */
  lemma TwinsEntry(inst: Instance, ctx: Context, lineup: seq<nat>, sorted: seq<nat>, i: nat)
    requires Realisable(inst, ctx) && InLineOrder(inst, lineup)
    requires |sorted| == |lineup| && forall k :: 0 <= k < |sorted| ==> sorted[k] < |lineup| && lineup[sorted[k]] == k
    requires i < |sorted|
    ensures Weights(Twins(inst, ctx, lineup), ctx)[sorted[i]] == inst.weights[i]
    ensures Keys(Twins(inst, ctx, lineup))[sorted[i]] == inst.keys[i]
    ensures LaterPositions(GraphOf(Twins(inst, ctx, lineup), ctx), sorted, i, i + 1) == inst.later[i]
  {
    var adj := GraphOf(Twins(inst, ctx, lineup), ctx);
    TwinUtility(inst, ctx, i);
    forall q: nat | q < |sorted|
      ensures Edge(adj, sorted[i], sorted[q]) <==> Linked(inst, i, q)
    {
      TwinEdges(inst, ctx, lineup, sorted[i], sorted[q]);
    }
    SameRow(inst, adj, sorted, i);
  }

  lemma TwinsInstance(inst: Instance, ctx: Context, lineup: seq<nat>)
    requires Realisable(inst, ctx) && InLineOrder(inst, lineup)
    requires ComponentOf(Twins(inst, ctx, lineup), ctx, Upto(|lineup|))
    ensures InstanceOf(Twins(inst, ctx, lineup), ctx, Upto(|lineup|)) == inst
  {
    var twins, n := Twins(inst, ctx, lineup), |lineup|;
    ComponentValid(twins, ctx, Upto(n));
    var sorted := TwinsOrder(inst, ctx, lineup);
    forall i | 0 <= i < n
      ensures Weights(twins, ctx)[sorted[i]] == inst.weights[i] && Keys(twins)[sorted[i]] == inst.keys[i]
      ensures LaterPositions(GraphOf(twins, ctx), sorted, i, i + 1) == inst.later[i]
    {
      TwinsEntry(inst, ctx, lineup, sorted, i);
    }
    SameInstance(GraphOf(twins, ctx), Weights(twins, ctx), Keys(twins), sorted, inst);
  }

  lemma SameInstance(adj: Graph, weights: seq<real>, keys: seq<Key>, ordered: seq<nat>, inst: Instance)
    requires ValidOrder(adj, weights, keys, ordered) && |inst.weights| == |inst.keys| == |inst.later| == |ordered|
    requires forall i :: 0 <= i < |ordered| ==> weights[ordered[i]] == inst.weights[i] && keys[ordered[i]] == inst.keys[i]
    requires forall i :: 0 <= i < |ordered| ==> LaterPositions(adj, ordered, i, i + 1) == inst.later[i]
    ensures ComponentInstance(adj, weights, keys, ordered) == inst
  {
    var back := ComponentInstance(adj, weights, keys, ordered);
    assert back.weights == inst.weights && back.keys == inst.keys && back.later == inst.later;
  }

  lemma TwinsOnLines(inst: Instance, ctx: Context, lineup: seq<nat>)
    requires Realisable(inst, ctx) && InLineOrder(inst, lineup)
    ensures LinesAscending(Twins(inst, ctx, lineup))
    ensures forall c :: c in Twins(inst, ctx, lineup) ==> KeyOf(c) in inst.keys && c.hardTouched == 0
  {
    var twins := Twins(inst, ctx, lineup);
    forall c | c in twins
      ensures KeyOf(c) in inst.keys && c.hardTouched == 0
    {
      var v :| 0 <= v < |twins| && twins[v] == c;
      assert KeyOf(c) == inst.keys[lineup[v]];
    }
  }

  /** Every realisable instance is the instance of a component of some candidates on lines of their own. */
  lemma Realised(inst: Instance, ctx: Context) returns (candidates: seq<Candidate>, component: seq<nat>)
    requires Realisable(inst, ctx)
    ensures LinesAscending(candidates) && ComponentOf(candidates, ctx, component)
    ensures InstanceOf(candidates, ctx, component) == inst
    ensures |component| == |candidates| == |inst.weights|
    ensures forall c :: c in candidates ==> KeyOf(c) in inst.keys && c.hardTouched == 0
  {
    var lineup := LineupExists(inst);
    candidates := Twins(inst, ctx, lineup);
    component := Upto(|lineup|);
    TwinsConnected(inst, ctx, lineup);
    TwinsInstance(inst, ctx, lineup);
    TwinsOnLines(inst, ctx, lineup);
  }

  // ------------------------------------------------------- the condition for components

  /** The exact solver's answer to a component is a heaviest conflict-free subset of it. */
  ghost predicate SolvedExactly(candidates: seq<Candidate>, ctx: Context, component: seq<nat>)
    requires ComponentOf(candidates, ctx, component)
  {
    HeaviestIn(GraphOf(candidates, ctx), Weights(candidates, ctx), ToSet(component), ToSet(ComponentAnswer(candidates, ctx, component)))
  }

  lemma ExactIsOptimal(candidates: seq<Candidate>, ctx: Context, component: seq<nat>)
    requires ComponentOf(candidates, ctx, component)
    ensures var inst := InstanceOf(candidates, ctx, component);
            SolvedExactly(candidates, ctx, component) <==> Optimal(inst, Answer(inst))
  {
    ComponentValid(candidates, ctx, component);
    AnswerConflictFree(InstanceOf(candidates, ctx, component));
    OptimalIsHeaviest(GraphOf(candidates, ctx), Weights(candidates, ctx), Keys(candidates),
                      SortNodes(candidates, Utilities(candidates, ctx), component), Answer(InstanceOf(candidates, ctx, component)));
  }

  /** One candidate per line, in line order, with line numbers from 1. */
  ghost predicate OnePerLine(candidates: seq<Candidate>) {
    LinesAscending(candidates) && forall c :: c in candidates ==> c.line >= 1
  }

  /** Every component with these weights and conflicts, of whatever candidates, is solved exactly. */
  ghost predicate AlwaysExact(shape: Instance, ctx: Context) {
    forall candidates, component ::
      OnePerLine(candidates) && ComponentOf(candidates, ctx, component) && SameShape(InstanceOf(candidates, ctx, component), shape)
      ==> SolvedExactly(candidates, ctx, component)
  }

  lemma SameConnected(a: Instance, b: Instance)
    requires SameShape(a, b) && Connected(a)
    ensures Connected(b)
  {
    forall s: set<nat>, p: nat | p in s && p < |b.weights| && ClosedUnder(b, s)
      ensures HoldsAll(b, s)
    {
      forall u, v | u in s && Linked(a, u, v)
        ensures v in s
      {
        assert Linked(b, u, v);
      }
      assert ClosedUnder(a, s);
      assert HoldsAll(a, s);
    }
  }

  lemma {:induction false} LongerThanAll(names: set<string>) returns (base: nat)
    ensures forall name :: name in names ==> |name| < base
    decreases |names|
  {
    if names == {} {
      base := 0;
    } else {
      var name :| name in names;
      var rest := LongerThanAll(names - {name});
      base := rest + |name| + 1;
    }
  }

  lemma Relabelled(shape: Instance, ctx: Context, labels: seq<Key>, base: nat)
    requires shape.Valid() && Descending(shape.weights) && Connected(shape) && RowsAscend(shape)
    requires |labels| == |shape.weights| && DistinctLabels(labels) && PlainKeys(labels, base)
    requires forall name :: name in ctx.bypassing ==> |name| < base
    ensures Realisable(shape.(keys := labels), ctx)
  {
    SameConnected(shape, shape.(keys := labels));
  }

  /** Without a gap, some candidates with a component of the same shape are not solved exactly. */
  lemma NoGapLoses(shape: Instance, ctx: Context) returns (candidates: seq<Candidate>, component: seq<nat>)
    requires shape.Valid() && Descending(shape.weights) && Connected(shape) && RowsAscend(shape) && !TopGap(shape)
    ensures OnePerLine(candidates) && ComponentOf(candidates, ctx, component)
    ensures SameShape(InstanceOf(candidates, ctx, component), shape)
    ensures !SolvedExactly(candidates, ctx, component)
    ensures |component| == |candidates| == |shape.weights| && forall c :: c in candidates ==> c.hardTouched == 0
  {
    var base := LongerThanAll(ctx.bypassing);
    var labels := NearBreaksExactness(shape, base);
    Relabelled(shape, ctx, labels, base);
    candidates, component := Realised(shape.(keys := labels), ctx);
    ExactIsOptimal(candidates, ctx, component);
  }

  /**
   The exact condition for components. A component is solved exactly together with all
   others of the same weights and conflicts, whatever their lines and policies, if and only
   if no conflict-free total in it falls below the best one by the tolerance or less.
   */
  lemma ComponentExactIffGap(candidates: seq<Candidate>, ctx: Context, component: seq<nat>)
    requires LinesAscending(candidates) && ComponentOf(candidates, ctx, component)
    ensures TopGap(InstanceOf(candidates, ctx, component)) <==> AlwaysExact(InstanceOf(candidates, ctx, component), ctx)
  {
    var shape := InstanceOf(candidates, ctx, component);
    ComponentShape(candidates, ctx, component);
    InstanceDescends(candidates, ctx, component);
    if TopGap(shape) {
      forall others, part | OnePerLine(others) && ComponentOf(others, ctx, part) && SameShape(InstanceOf(others, ctx, part), shape)
        ensures SolvedExactly(others, ctx, part)
      {
        SameTopGap(shape, InstanceOf(others, ctx, part));
        ExactAnswerHeaviest(others, ctx, part);
      }
    } else {
      var others, part := NoGapLoses(shape, ctx);
    }
  }

  // ------------------------------------------------------------------------- tie swaps

  /** Two compatible candidates worth exactly the tolerance, joined by a worthless one that conflicts with both. */
  function Fork(): Instance {
    Instance([TOLERANCE, TOLERANCE, 0.0], [[2], [2], []], [Key(1, "a"), Key(2, "b"), Key(3, "c")])
  }

  lemma ForkRealisable(ctx: Context)
    requires "a" !in ctx.bypassing && "b" !in ctx.bypassing && "c" !in ctx.bypassing
    ensures Realisable(Fork(), ctx)
  {
    var inst := Fork();
    forall s: set<nat>, a: nat | a in s && a < 3 && ClosedUnder(inst, s)
      ensures HoldsAll(inst, s)
    {
      assert Linked(inst, 0, 2) && Linked(inst, 2, 0) && Linked(inst, 1, 2) && Linked(inst, 2, 1);
      assert 2 in s;
    }
  }

  lemma ForkBlocked()
    ensures forall p: nat, q: nat :: Rules(Fork(), p, q) <==> p < 2 && q == 2
  {
  }

  lemma ForkFree(chosen: seq<nat>)
    ensures !Blocked(Fork(), chosen, 0) && !Blocked(Fork(), chosen, 1)
    ensures Blocked(Fork(), chosen, 2) <==> exists i :: 0 <= i < |chosen| && chosen[i] < 2
  {
    ForkBlocked();
  }

  lemma TakeOrSkip(inst: Instance, position: nat, chosen: seq<nat>, taken: seq<seq<nat>>, skipped: seq<seq<nat>>)
    requires position < |inst.weights| && Leaves(inst, position + 1, chosen) == skipped
    requires if Blocked(inst, chosen, position) then taken == [] else Leaves(inst, position + 1, chosen + [position]) == taken
    ensures Leaves(inst, position, chosen) == taken + skipped
  {
  }

  /** The leaves once the first two positions are decided. */
  lemma LastLeaves(chosen: seq<nat>)
    ensures Leaves(Fork(), 2, chosen) ==
            if exists i :: 0 <= i < |chosen| && chosen[i] < 2 then [chosen] else [chosen + [2], chosen]
  {
    ForkFree(chosen);
    if Blocked(Fork(), chosen, 2) {
      TakeOrSkip(Fork(), 2, chosen, [], [chosen]);
    } else {
      TakeOrSkip(Fork(), 2, chosen, [chosen + [2]], [chosen]);
    }
  }

  lemma LeavesWithFirst()
    ensures Leaves(Fork(), 1, [0]) == [[0, 1], [0]]
  {
    ForkFree([0]);
    LastLeaves([0]);
    LastLeaves([0, 1]);
    assert [0][0] < 2 && [0, 1][0] < 2 && [0] + [1] == [0, 1];
    TakeOrSkip(Fork(), 1, [0], [[0, 1]], [[0]]);
  }

  lemma LeavesWithoutFirst()
    ensures Leaves(Fork(), 1, []) == [[1], [2], []]
  {
    ForkFree([]);
    LastLeaves([]);
    LastLeaves([1]);
    assert [1][0] < 2 && [] + [1] == [1] && [] + [2] == [2];
    TakeOrSkip(Fork(), 1, [], [[1]], [[2], []]);
  }

  lemma FromFirst(inst: Instance, first: seq<seq<nat>>, rest: seq<seq<nat>>)
    requires |inst.weights| > 0 && !Blocked(inst, [], 0) && Leaves(inst, 1, [0]) == first && Leaves(inst, 1, []) == rest
    ensures Leaves(inst, 0, []) == first + rest
  {
    assert [] + [0] == [0];
  }

  lemma ForkLeaves(inst: Instance)
    requires inst == Fork()
    ensures Leaves(inst, 0, []) == [[0, 1], [0], [1], [2], []]
  {
    ForkFree([]);
    LeavesWithFirst();
    LeavesWithoutFirst();
    FromFirst(inst, [[0, 1], [0]], [[1], [2], []]);
  }

  lemma SmallScores(inst: Instance, p: nat, q: nat)
    ensures Score(inst, [p]) == WeightAt(inst, p) && Score(inst, [p, q]) == WeightAt(inst, p) + WeightAt(inst, q)
  {
    ScoreSnoc(inst, [], p);
    ScoreSnoc(inst, [p], q);
    assert [] + [p] == [p] && [p] + [q] == [p, q];
  }

  lemma SmallKeys(inst: Instance, p: nat, q: nat)
    requires !KeyLess(KeyAt(inst, q), KeyAt(inst, p))
    ensures KeysOf(inst, []) == [] && KeysOf(inst, [p]) == [KeyAt(inst, p)]
    ensures KeysOf(inst, [p, q]) == [KeyAt(inst, p), KeyAt(inst, q)]
  {
    var a, b := KeyAt(inst, p), KeyAt(inst, q);
    assert RawKeys(inst, []) == [] && RawKeys(inst, [p]) == [a] && RawKeys(inst, [p, q]) == [a, b];
    OneKey(a);
    OneKey(b);
    assert [a, b][1..] == [b];
  }

  lemma OneKey(key: Key)
    ensures SortKeys([key]) == [key]
  {
    assert [key][1..] == [];
  }

  lemma Accepts(inst: Instance, best: Best, chosen: seq<nat>, wins: bool)
    requires best.Best? && AbsReal(Score(inst, chosen) - best.score) <= TOLERANCE
    requires wins <==> KeyListLess(KeysOf(inst, chosen), KeysOf(inst, best.chosen))
    ensures Consider(inst, best, chosen) == if wins then Best(Score(inst, chosen), chosen) else best
  {
  }

  lemma ForkScores()
    ensures Score(Fork(), [0, 1]) == 2.0 * TOLERANCE
    ensures Score(Fork(), [0]) == TOLERANCE && Score(Fork(), [1]) == TOLERANCE
    ensures Score(Fork(), [2]) == 0.0 && Score(Fork(), []) == 0.0
  {
    SmallScores(Fork(), 0, 1);
    SmallScores(Fork(), 1, 2);
    SmallScores(Fork(), 2, 2);
  }

  lemma ForkKeys()
    ensures KeysOf(Fork(), []) == [] && KeysOf(Fork(), [0, 1]) == [Key(1, "a"), Key(2, "b")]
    ensures KeysOf(Fork(), [0]) == [Key(1, "a")] && KeysOf(Fork(), [1]) == [Key(2, "b")] && KeysOf(Fork(), [2]) == [Key(3, "c")]
  {
    SmallKeys(Fork(), 0, 1);
    SmallKeys(Fork(), 1, 2);
    TextLessTotal("c", "c");
    SmallKeys(Fork(), 2, 2);
  }

  lemma ShortLists(a: Key, b: Key)
    requires a.line < b.line
    ensures KeyListLess([a], [a, b]) && !KeyListLess([b], [a]) && KeyListLess([], [a])
  {
    assert [a][1..] == [] && [a, b][1..] == [b];
  }

  /** Each tie goes to the smaller key list, down to the empty choice. */
  lemma ForkSteps()
    ensures Consider(Fork(), NoBest, [0, 1]) == Best(2.0 * TOLERANCE, [0, 1])
    ensures Consider(Fork(), Best(2.0 * TOLERANCE, [0, 1]), [0]) == Best(TOLERANCE, [0])
    ensures Consider(Fork(), Best(TOLERANCE, [0]), [1]) == Best(TOLERANCE, [0])
    ensures Consider(Fork(), Best(TOLERANCE, [0]), [2]) == Best(TOLERANCE, [0])
    ensures Consider(Fork(), Best(TOLERANCE, [0]), []) == Best(0.0, [])
  {
    ForkScores();
    ForkKeys();
    ShortLists(Key(1, "a"), Key(2, "b"));
    ShortLists(Key(1, "a"), Key(3, "c"));
    Accepts(Fork(), Best(2.0 * TOLERANCE, [0, 1]), [0], true);
    Accepts(Fork(), Best(TOLERANCE, [0]), [1], false);
    Accepts(Fork(), Best(TOLERANCE, [0]), [2], false);
    Accepts(Fork(), Best(TOLERANCE, [0]), [], true);
  }

  lemma FoldTwo(inst: Instance, best: Best, a: seq<nat>, b: seq<nat>, rest: seq<seq<nat>>)
    ensures Fold(inst, best, [a, b] + rest) == Fold(inst, Consider(inst, Consider(inst, best, a), b), rest)
  {
    FoldConcat(inst, best, [a, b], rest);
    assert [a, b][1..] == [b] && [b][1..] == [];
  }

  lemma FoldFive(inst: Instance, a: seq<nat>, b: seq<nat>, c: seq<nat>, d: seq<nat>, e: seq<nat>)
    ensures Fold(inst, NoBest, [a, b, c, d, e])
         == Consider(inst, Consider(inst, Consider(inst, Consider(inst, Consider(inst, NoBest, a), b), c), d), e)
  {
    var two := Consider(inst, Consider(inst, NoBest, a), b);
    assert [a, b, c, d, e] == [a, b] + [c, d, e] && [c, d, e] == [c, d] + [e] && [e][1..] == [];
    FoldTwo(inst, NoBest, a, b, [c, d, e]);
    FoldTwo(inst, two, c, d, [e]);
  }

  lemma ForkAnswer()
    ensures Exhaustive(Fork()) == Best(0.0, [])
  {
    ForkAnswerOf(Fork());
  }

  lemma ForkAnswerOf(inst: Instance)
    requires inst == Fork()
    ensures Exhaustive(inst) == Best(0.0, [])
  {
    ForkLeaves(inst);
    FoldFive(inst, [0, 1], [0], [1], [2], []);
    ForkSteps();
  }

  /**
   Tie swaps drift: three candidates form one component, two of them do not conflict and
   are worth twice the tolerance together, and the exact solver returns neither.
   */
  lemma TieSwapsDrift(ctx: Context) returns (candidates: seq<Candidate>, component: seq<nat>, better: set<nat>)
    requires "a" !in ctx.bypassing && "b" !in ctx.bypassing && "c" !in ctx.bypassing
    ensures OnePerLine(candidates) && ComponentOf(candidates, ctx, component)
    ensures ComponentAnswer(candidates, ctx, component) == []
    ensures better <= ToSet(component) && Independent(GraphOf(candidates, ctx), better)
    ensures Total(Weights(candidates, ctx), better) == 2.0 * TOLERANCE
  {
    ForkRealisable(ctx);
    ForkAnswer();
    candidates, component := Realised(Fork(), ctx);
    ComponentValid(candidates, ctx, component);
    better := ForkNodes(GraphOf(candidates, ctx), Weights(candidates, ctx), Keys(candidates),
                        SortNodes(candidates, Utilities(candidates, ctx), component));
  }

  lemma ForkNodes(adj: Graph, weights: seq<real>, keys: seq<Key>, sorted: seq<nat>) returns (better: set<nat>)
    requires ValidOrder(adj, weights, keys, sorted) && ComponentInstance(adj, weights, keys, sorted) == Fork()
    ensures better <= ToSet(sorted) && Independent(adj, better) && Total(weights, better) == 2.0 * TOLERANCE
  {
    ForkPair();
    ForkScores();
    ChoiceIndependent(adj, weights, keys, sorted, [0, 1]);
    ScoreIsTotal(adj, weights, keys, sorted, [0, 1]);
    better := ToSet(NodesAt(sorted, [0, 1]));
  }

  lemma ForkPair()
    ensures ConflictFree(Fork(), [0, 1])
  {
    ForkBlocked();
  }
}
