/**
 The conflict graph: adjacency, reachability, and its connected components, found by
 depth-first search with an explicit stack.
 */
module ConflictGraph {
  import opened SeqFacts
  import opened Sorting

  /** Adjacency lists: row u holds the neighbours of node u. */
  type Graph = seq<seq<nat>>

  predicate Edge(adj: Graph, u: nat, v: nat) {
    u < |adj| && v in adj[u]
  }

  /** Rows are sorted lists of nodes, the relation is symmetric and irreflexive. */
  ghost predicate WellFormed(adj: Graph) {
    && (forall u :: 0 <= u < |adj| ==> Ascending(adj[u]))
    && (forall u: nat, v: nat :: Edge(adj, u, v) ==> v < |adj| && u != v && Edge(adj, v, u))
  }

  ghost predicate Independent(adj: Graph, nodes: set<nat>) {
    forall u, v :: u in nodes && v in nodes ==> !Edge(adj, u, v)
  }

  // ------------------------------------------------------------------ reachability

  ghost predicate IsPath(adj: Graph, path: seq<nat>, u: nat, v: nat) {
    && path != [] && path[0] == u && path[|path| - 1] == v
    && forall i :: 0 < i < |path| ==> Edge(adj, path[i - 1], path[i])
  }

  ghost predicate Reachable(adj: Graph, u: nat, v: nat) {
    exists path :: IsPath(adj, path, u, v)
  }

  lemma ReachableSelf(adj: Graph, u: nat)
    ensures Reachable(adj, u, u)
  {
    assert IsPath(adj, [u], u, u);
  }

  lemma ReachableStep(adj: Graph, u: nat, v: nat, w: nat)
    requires Reachable(adj, u, v) && Edge(adj, v, w)
    ensures Reachable(adj, u, w)
  {
    var path :| IsPath(adj, path, u, v);
    assert IsPath(adj, path + [w], u, w);
  }

  /** A set closed under edges holds whatever is reachable from its members. */
  lemma {:induction false} ClosedHoldsPath(adj: Graph, closed: set<nat>, path: seq<nat>, u: nat, v: nat)
    requires forall a, b :: a in closed && Edge(adj, a, b) ==> b in closed
    requires u in closed && IsPath(adj, path, u, v)
    ensures v in closed
    decreases |path|
  {
    if |path| > 1 {
      assert Edge(adj, path[0], path[1]);
      forall i | 0 < i < |path[1..]|
        ensures Edge(adj, path[1..][i - 1], path[1..][i])
      {
        assert Edge(adj, path[i], path[i + 1]);
      }
      ClosedHoldsPath(adj, closed, path[1..], path[1], v);
    }
  }

  lemma {:induction false} ReachableConcat(adj: Graph, u: nat, v: nat, w: nat, path: seq<nat>)
    requires Reachable(adj, u, v) && IsPath(adj, path, v, w)
    ensures Reachable(adj, u, w)
    decreases |path|
  {
    if |path| > 1 {
      assert Edge(adj, path[0], path[1]);
      ReachableStep(adj, u, v, path[1]);
      forall i | 0 < i < |path[1..]|
        ensures Edge(adj, path[1..][i - 1], path[1..][i])
      {
        assert Edge(adj, path[i], path[i + 1]);
      }
      ReachableConcat(adj, u, path[1], w, path[1..]);
    }
  }

  lemma ReachableTransitive(adj: Graph, u: nat, v: nat, w: nat)
    requires Reachable(adj, u, v) && Reachable(adj, v, w)
    ensures Reachable(adj, u, w)
  {
    var path :| IsPath(adj, path, v, w);
    ReachableConcat(adj, u, v, w, path);
  }

  lemma {:induction false} PathReverses(adj: Graph, path: seq<nat>, u: nat, v: nat)
    requires WellFormed(adj) && IsPath(adj, path, u, v)
    ensures Reachable(adj, v, u)
    decreases |path|
  {
    if |path| == 1 {
      ReachableSelf(adj, u);
    } else {
      assert Edge(adj, path[0], path[1]);
      forall i | 0 < i < |path[1..]|
        ensures Edge(adj, path[1..][i - 1], path[1..][i])
      {
        assert Edge(adj, path[i], path[i + 1]);
      }
      PathReverses(adj, path[1..], path[1], v);
      ReachableStep(adj, v, path[1], u);
    }
  }

  lemma ReachableSymmetric(adj: Graph, u: nat, v: nat)
    requires WellFormed(adj) && Reachable(adj, u, v)
    ensures Reachable(adj, v, u)
  {
    var path :| IsPath(adj, path, u, v);
    PathReverses(adj, path, u, v);
  }

  // -------------------------------------------------------------- connected components

  /** One finished component: the sorted reachability class of its first node. */
  ghost predicate IsClass(adj: Graph, component: seq<nat>) {
    && component != [] && Ascending(component)
    && (forall v :: v in component ==> v < |adj|)
    && (forall v :: v in component <==> Reachable(adj, component[0], v))
  }

  lemma ClassWithin(adj: Graph, a: seq<nat>, b: seq<nat>, v: nat)
    requires WellFormed(adj) && IsClass(adj, a) && IsClass(adj, b) && v in a && v in b
    ensures forall w :: w in a ==> w in b
  {
    forall w | w in a
      ensures w in b
    {
      ReachableSymmetric(adj, a[0], v);
      ReachableTransitive(adj, b[0], v, a[0]);
      ReachableTransitive(adj, b[0], a[0], w);
    }
  }

  /** Two classes that share a node are the same list. */
  lemma ClassUnique(adj: Graph, a: seq<nat>, b: seq<nat>, v: nat)
    requires WellFormed(adj) && IsClass(adj, a) && IsClass(adj, b) && v in a && v in b
    ensures a == b
  {
    ClassWithin(adj, a, b, v);
    ClassWithin(adj, b, a, v);
    AscendingUnique(a, b);
  }

  /** The components are reachability classes, pairwise disjoint, listed by first node, and cover `covered`. */
  ghost predicate Partition(adj: Graph, components: seq<seq<nat>>, covered: set<nat>) {
    && (forall i :: 0 <= i < |components| ==> IsClass(adj, components[i]))
    && (forall i, j :: 0 <= i < j < |components| ==> components[i][0] < components[j][0])
    && (forall i, j :: 0 <= i < j < |components| ==> ToSet(components[i]) !! ToSet(components[j]))
    && (forall i :: 0 <= i < |components| ==> ToSet(components[i]) <= covered)
    && (forall v :: v in covered ==> InSome(components, v))
  }

  ghost predicate Closed(adj: Graph, nodes: set<nat>) {
    forall u, v :: u in nodes && Edge(adj, u, v) ==> v in nodes
  }

  /** The state while one class is explored: `seen` is finished ground, the rest is this class so far. */
  ghost predicate Exploring(adj: Graph, seed: nat, seen: set<nat>, component: seq<nat>, stack: seq<nat>) {
    && Distinct(component + stack)
    && (forall v :: v in component + stack ==> v < |adj| && v !in seen && Reachable(adj, seed, v))
    && (forall u, v :: u in component && Edge(adj, u, v) ==> v in seen || v in component || v in stack)
    && seed in component + stack
  }

  lemma PopKeepsExploring(adj: Graph, seed: nat, seen: set<nat>, component: seq<nat>, stack: seq<nat>, pushed: seq<nat>)
    requires stack != [] && Exploring(adj, seed, seen, component, stack)
    requires var node := stack[|stack| - 1];
             && Distinct(pushed)
             && (forall v :: v in pushed ==> Edge(adj, node, v) && v < |adj| && v !in seen && v !in component + stack)
             && (forall v :: Edge(adj, node, v) ==> v in seen || v in component + stack || v in pushed)
    ensures Exploring(adj, seed, seen, component + [stack[|stack| - 1]], stack[..|stack| - 1] + pushed)
  {
    var node := stack[|stack| - 1];
    var left, right := component + [node], stack[..|stack| - 1] + pushed;
    assert component + stack == component + stack[..|stack| - 1] + [node];
    assert forall v :: v in left + right <==> v in component + stack || v in pushed;
    PopDistinct(component, stack, pushed);
    assert node in component + stack;
    forall v | v in left + right
      ensures v < |adj| && v !in seen && Reachable(adj, seed, v)
    {
      if v in pushed {
        ReachableStep(adj, seed, node, v);
      }
    }
  }

  lemma PopDistinct(component: seq<nat>, stack: seq<nat>, pushed: seq<nat>)
    requires stack != [] && Distinct(component + stack) && Distinct(pushed)
    requires forall v :: v in pushed ==> v !in component + stack
    ensures Distinct((component + [stack[|stack| - 1]]) + (stack[..|stack| - 1] + pushed))
  {
    var c, s := |component|, |stack|;
    var was, all := component + stack, (component + [stack[s - 1]]) + (stack[..s - 1] + pushed);
    forall i, j | 0 <= i < j < |all|
      ensures all[i] != all[j]
    {
      var i' := if i < c then i else if i == c then c + s - 1 else i - 1;
      var j' := if j < c then j else if j == c then c + s - 1 else j - 1;
      if i < c + s { assert all[i] == was[i']; assert was[i'] in was; }
      if j < c + s {
        assert all[j] == was[j'];
        assert i' != j';
      } else {
        assert all[j] == pushed[j - c - s];
        if i >= c + s { assert all[i] == pushed[i - c - s]; }
      }
    }
  }

  /** Explores the class of an unvisited seed; marks exactly that class. */
  method ExploreClass(adj: Graph, seed: nat, visited: array<bool>, ghost seen: set<nat>) returns (component: seq<nat>)
    requires WellFormed(adj) && seed < |adj| == visited.Length
    requires Closed(adj, seen) && seed !in seen
    requires forall v :: 0 <= v < |adj| ==> (visited[v] <==> v in seen)
    modifies visited
    ensures Distinct(component) && seed in component
    ensures forall v :: v in component ==> v < |adj| && v !in seen && Reachable(adj, seed, v)
    ensures Closed(adj, seen + ToSet(component))
    ensures forall v :: 0 <= v < |adj| ==> (visited[v] <==> v in seen || v in component)
  {
    var stack := [seed];
    component := [];
    visited[seed] := true;
    ReachableSelf(adj, seed);
    while stack != []
      invariant Exploring(adj, seed, seen, component, stack)
      invariant forall v :: 0 <= v < |adj| ==> (visited[v] <==> v in seen || v in component || v in stack)
      decreases |adj| - |component|
    {
      ghost var before := stack;
      ghost var done := component;
      var node := stack[|stack| - 1];
      assert node in component + stack;
      stack := stack[..|stack| - 1];
      component := component + [node];
      ghost var pushed: seq<nat> := [];
      for i := 0 to |adj[node]|
        invariant Distinct(pushed) && stack == before[..|before| - 1] + pushed
        invariant forall v :: v in pushed ==> Edge(adj, node, v) && v < |adj| && v !in seen && v !in done + before
        invariant forall v :: 0 <= v < |adj| ==> (visited[v] <==> v in seen || v in done + before || v in pushed)
        invariant forall k :: 0 <= k < i ==> Edge(adj, node, adj[node][k]) && visited[adj[node][k]]
      {
        var neighbor := adj[node][i];
        assert Edge(adj, node, neighbor);
        if !visited[neighbor] {
          visited[neighbor] := true;
          stack := stack + [neighbor];
          pushed := pushed + [neighbor];
        }
      }
      PopKeepsExploring(adj, seed, seen, done, before, pushed);
      PopMembers(done, before, pushed);
      DistinctPrefix(component, stack);
      assert forall v :: v in component ==> v in component + stack;
      DistinctSize(component);
      BoundedSize(ToSet(component), |adj|);
    }
    assert component + stack == component;
  }

  lemma PopMembers(component: seq<nat>, stack: seq<nat>, pushed: seq<nat>)
    requires stack != []
    ensures forall v :: v in component + stack || v in pushed <==>
              v in component + [stack[|stack| - 1]] || v in stack[..|stack| - 1] + pushed
  {
    assert stack == stack[..|stack| - 1] + [stack[|stack| - 1]];
  }

  /**
   The connected components. The list comes out in the order of the smallest node of each
   component, so the final sort of the component list has nothing left to do.
   */
  method ConnectedComponents(adj: Graph) returns (components: seq<seq<nat>>)
    requires WellFormed(adj)
    ensures Partition(adj, components, Range(|adj|))
  {
    components := [];
    var visited := new bool[|adj|](_ => false);
    ghost var seen: set<nat> := {};
    for seed := 0 to |adj|
      invariant Swept(adj, components, seen, seed, visited[..])
    {
      if !visited[seed] {
        ghost var flags := visited[..];
        assert forall v :: 0 <= v < |adj| ==> visited[v] == flags[v];
        var component := ExploreClass(adj, seed, visited, seen);
        SweepOn(adj, components, seen, seed, flags, component, visited[..]);
        components := components + [SortNats(component)];
        seen := seen + ToSet(component);
      }
    }
    assert seen == Range(|adj|);
  }

  /** The state of the sweep before `seed`: every smaller node belongs to a finished class. */
  ghost predicate Swept(adj: Graph, components: seq<seq<nat>>, seen: set<nat>, seed: nat, visited: seq<bool>) {
    && Partition(adj, components, seen) && Closed(adj, seen)
    && |visited| == |adj|
    && (forall v :: v in seen ==> v < |adj|)
    && (forall v :: 0 <= v < |adj| ==> (visited[v] <==> v in seen))
    && (forall v :: 0 <= v < seed ==> v in seen)
    && (forall i :: 0 <= i < |components| ==> components[i][0] < seed)
  }

  /** Exploring the class of an unvisited seed takes the sweep one node further. */
  lemma SweepOn(adj: Graph, components: seq<seq<nat>>, seen: set<nat>, seed: nat, before: seq<bool>, component: seq<nat>, after: seq<bool>)
    requires WellFormed(adj) && Swept(adj, components, seen, seed, before) && seed < |adj| == |after|
    requires Distinct(component) && seed in component
    requires forall v :: v in component ==> v < |adj| && v !in seen && Reachable(adj, seed, v)
    requires Closed(adj, seen + ToSet(component))
    requires forall v :: 0 <= v < |adj| ==> (after[v] <==> v in seen || v in component)
    ensures Swept(adj, components + [SortNats(component)], seen + ToSet(component), seed + 1, after)
  {
    NextClass(adj, components, seed, seen, component);
  }

  lemma NextClass(adj: Graph, components: seq<seq<nat>>, seed: nat, seen: set<nat>, component: seq<nat>)
    requires WellFormed(adj) && Closed(adj, seen) && Partition(adj, components, seen)
    requires forall v :: 0 <= v < seed ==> v in seen
    requires forall i :: 0 <= i < |components| ==> components[i][0] < seed
    requires Distinct(component) && seed in component
    requires forall v :: v in component ==> v < |adj| && v !in seen && Reachable(adj, seed, v)
    requires Closed(adj, seen + ToSet(component))
    ensures Partition(adj, components + [SortNats(component)], seen + ToSet(component))
    ensures SortNats(component) != [] && SortNats(component)[0] == seed
  {
    SortedAscending(component);
    NewClass(adj, seed, seen, component, SortNats(component));
    AddClass(adj, components, seen, SortNats(component));
  }

  lemma NewClass(adj: Graph, seed: nat, seen: set<nat>, component: seq<nat>, sorted: seq<nat>)
    requires WellFormed(adj) && Closed(adj, seen)
    requires forall v :: 0 <= v < seed ==> v in seen
    requires seed in component && Ascending(sorted) && ToSet(sorted) == ToSet(component)
    requires forall v :: v in component ==> v < |adj| && v !in seen && Reachable(adj, seed, v)
    requires Closed(adj, seen + ToSet(component))
    ensures IsClass(adj, sorted) && sorted[0] == seed && ToSet(sorted) !! seen
  {
    assert seed in ToSet(sorted);
    assert sorted[0] in ToSet(sorted);
    assert forall v :: v in sorted <==> v in ToSet(sorted);
    assert forall v :: v in component <==> v in ToSet(component);
    ClosedOutside(adj, seen, ToSet(component));
    forall v | Reachable(adj, seed, v)
      ensures v in sorted
    {
      var path :| IsPath(adj, path, seed, v);
      ClosedHoldsPath(adj, ToSet(component), path, seed, v);
    }
  }

  /** In a symmetric graph, what is added to a closed set to give a closed set is closed itself. */
  lemma ClosedOutside(adj: Graph, seen: set<nat>, more: set<nat>)
    requires WellFormed(adj) && Closed(adj, seen) && Closed(adj, seen + more) && seen !! more
    ensures Closed(adj, more)
  {
    forall u, v | u in more && Edge(adj, u, v)
      ensures v in more
    {
      assert Edge(adj, v, u);
    }
  }

  lemma AddClass(adj: Graph, components: seq<seq<nat>>, seen: set<nat>, sorted: seq<nat>)
    requires Partition(adj, components, seen) && IsClass(adj, sorted) && ToSet(sorted) !! seen
    requires forall i :: 0 <= i < |components| ==> components[i][0] < sorted[0]
    ensures Partition(adj, components + [sorted], seen + ToSet(sorted))
  {
    var more := components + [sorted];
    forall i, j | 0 <= i < j < |more|
      ensures ToSet(more[i]) !! ToSet(more[j])
    {
      assert ToSet(more[i]) <= seen;
    }
    forall v | v in seen + ToSet(sorted)
      ensures InSome(more, v)
    {
      if v in seen {
        var i :| 0 <= i < |components| && v in components[i];
        assert more[i] == components[i];
      } else {
        assert v in more[|components|];
      }
    }
  }
}
