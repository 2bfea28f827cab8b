/**
 The project graph state: edge upsert and compaction under caps. Compaction prunes what is
 stale, caps edges and nodes, leaves tombstones for what it evicts and recounts file counts.
 */
module ProjectGraph {
  import opened Bounds
  import opened GraphEdges
  import opened GraphState
  import opened NodeCapping
  import opened Sorting

  function SaturatingSub(a: nat, b: nat): nat { if a < b then 0 else a - b }

  /** Never stamped, or stamped late enough. */
  predicate IsCurrent(stamp: nat, cutoff: nat) { stamp == 0 || stamp >= cutoff }

  function IsStale(cutoff: nat): EdgeTest { (e: Edge) => !IsCurrent(e.lastSeen, cutoff) }

  function Dangles(nodes: Nodes): EdgeTest { (e: Edge) => e.from !in nodes || e.to !in nodes }

  function Touches(ids: set<SymbolId>): EdgeTest { (e: Edge) => e.from in ids || e.to in ids }

  function Endpoints(edges: seq<Edge>): set<SymbolId> {
    (set e | e in edges :: e.from) + (set e | e in edges :: e.to)
  }

  function Restrict<V>(m: map<SymbolId, V>, keep: set<SymbolId>): map<SymbolId, V> {
    map id | id in m && id in keep :: m[id]
  }

  function MaxOne(n: nat): nat { MaxNat(n, 1) }

  // ---------------------------------------------------------------------- sorting edges

  /** The order in which edges are kept: latest, then heaviest, then by id. */
  predicate EdgeBefore(a: Edge, b: Edge) {
    || a.lastSeen > b.lastSeen
    || (a.lastSeen == b.lastSeen
        && (|| a.weight > b.weight
            || (a.weight == b.weight && (IdLess(a.from, b.from) || (a.from == b.from && IdLess(a.to, b.to))))))
  }

  /** A strict weak order: whatever comes before c comes before b or lets b come before c. */
  lemma EdgeBeforeSplits(a: Edge, b: Edge, c: Edge)
    requires EdgeBefore(a, c)
    ensures EdgeBefore(a, b) || EdgeBefore(b, c)
  {
    IdLessTotal(a.from, b.from);
    IdLessTotal(b.from, c.from);
    IdLessTotal(a.to, b.to);
    IdLessTotal(b.to, c.to);
    if IdLess(a.from, c.from) && IdLess(c.from, b.from) {
      IdLessTransitive(a.from, c.from, b.from);
    }
    if IdLess(a.to, c.to) && IdLess(c.to, b.to) {
      IdLessTransitive(a.to, c.to, b.to);
    }
    if IdLess(b.from, a.from) && IdLess(a.from, c.from) {
      IdLessTransitive(b.from, a.from, c.from);
    }
    if IdLess(b.to, a.to) && IdLess(a.to, c.to) {
      IdLessTransitive(b.to, a.to, c.to);
    }
  }

  lemma EdgeOrder()
    ensures WeakOrder(EdgeBefore)
  {
    forall a, b | EdgeBefore(a, b)
      ensures !EdgeBefore(b, a)
    {
      Asymmetric(a, b);
    }
    forall a, b, c | EdgeBefore(a, c)
      ensures EdgeBefore(a, b) || EdgeBefore(b, c)
    {
      EdgeBeforeSplits(a, b, c);
    }
  }

  lemma Asymmetric(a: Edge, b: Edge)
    requires EdgeBefore(a, b)
    ensures !EdgeBefore(b, a)
  {
    IdLessTotal(a.from, b.from);
    IdLessTotal(a.to, b.to);
  }

  function SortEdges(edges: seq<Edge>): (r: seq<Edge>)
    ensures |r| == |edges|
  {
    SortContents(edges, EdgeBefore);
    SortBy(edges, EdgeBefore)
  }

  lemma SortUnique(edges: seq<Edge>)
    requires Unique(edges)
    ensures Unique(SortEdges(edges))
  {
    var sorted := SortEdges(edges);
    SortContents(edges, EdgeBefore);
    DistinctPermutation(edges, sorted);
    forall i, j | 0 <= i < j < |sorted|
      ensures !SameIdentity(sorted[i], sorted[j])
    {
      assert sorted[i] in edges && sorted[j] in edges;
      var p :| 0 <= p < |edges| && edges[p] == sorted[i];
      var q :| 0 <= q < |edges| && edges[q] == sorted[j];
      assert p != q;
    }
  }

  // ------------------------------------------------------------------ compaction, in values

  function PrunedEdges(nodes: Nodes, edges: seq<Edge>, cutoff: nat): seq<Edge> {
    Without(Without(edges, IsStale(cutoff)), Dangles(nodes))
  }

  function PrunedNodes(nodes: Nodes, edges: seq<Edge>, cutoff: nat): Nodes {
    map id | id in nodes && (id in Endpoints(edges) || IsCurrent(nodes[id].lastSeen, cutoff)) :: nodes[id]
  }

  /** All edges when they fit, else the first of them in order. */
  function CappedEdges(edges: seq<Edge>, max: nat): seq<Edge> {
    if |edges| <= max then edges else SortEdges(edges)[..max]
  }

  function Captured(metrics: MetricTable, evicted: set<SymbolId>, now: nat): Tombstones {
    map id | id in metrics && id in evicted :: Tombstone(now, metrics[id].referenceCount, metrics[id].fileCount)
  }

  function KeptTombstones(all: Tombstones, nodes: Nodes, cutoff: nat): Tombstones {
    map id | id in all && id !in nodes && IsCurrent(all[id].removed, cutoff) :: all[id]
  }

  function Recounted(metrics: MetricTable, nodes: Nodes, edges: seq<Edge>): MetricTable {
    map id | id in metrics && id in nodes :: metrics[id].(fileCount := Count(edges, Into(id, Contains)))
  }

  datatype Limits = Limits(now: nat, retention: nat, maxNodes: nat, maxEdges: nat, keepTombstones: bool, tombstoneRetention: nat)

  function Cutoff(limits: Limits): nat { SaturatingSub(limits.now, MaxOne(limits.retention)) }

  /** The edges after pruning and capping, before any node is capped. */
  function LeanEdges(g: Graph, limits: Limits): seq<Edge> {
    CappedEdges(PrunedEdges(g.nodes, g.edges, Cutoff(limits)), MaxOne(limits.maxEdges))
  }

  function LeanNodes(g: Graph, limits: Limits): Nodes {
    PrunedNodes(g.nodes, PrunedEdges(g.nodes, g.edges, Cutoff(limits)), Cutoff(limits))
  }

  function CompactedTombstones(g: Graph, limits: Limits, nodes: Nodes): Tombstones {
    if !limits.keepTombstones then map[] else
      KeptTombstones(g.tombstones + Captured(g.metrics, g.nodes.Keys - nodes.Keys, limits.now), nodes,
                     SaturatingSub(limits.now, MaxOne(limits.tombstoneRetention)))
  }

  /** The compacted graph, given which nodes the cap removes. */
  function CompactGraph(g: Graph, limits: Limits, gone: set<SymbolId>): Graph {
    var nodes := Restrict(LeanNodes(g, limits), LeanNodes(g, limits).Keys - gone);
    var edges := Without(LeanEdges(g, limits), Touches(gone));
    Graph(nodes, edges, Recounted(g.metrics, nodes, edges), CompactedTombstones(g, limits, nodes))
  }

  /** The node cap removes exactly the excess, lowest ranks first. */
  ghost predicate Evicts(g: Graph, limits: Limits, gone: set<SymbolId>) {
    Excess(LeanNodes(g, limits), Endpoints(LeanEdges(g, limits)), MaxOne(limits.maxNodes), gone)
  }

  lemma WithoutTwice(edges: seq<Edge>, p: EdgeTest, q: EdgeTest, e: Edge)
    ensures e in Without(Without(edges, p), q) <==> e in edges && !p(e) && !q(e)
  {
    WithoutMember(Without(edges, p), q, e);
    WithoutMember(edges, p, e);
  }

  lemma PrunedWellFormed(g: Graph, cutoff: nat)
    requires WellFormed(g)
    ensures var edges := PrunedEdges(g.nodes, g.edges, cutoff);
            Unique(edges) && Weighted(edges) && FromFiles(edges)
            && NoDangling(g.nodes, edges) && NoDangling(PrunedNodes(g.nodes, edges, cutoff), edges)
  {
    var recent := Without(g.edges, IsStale(cutoff));
    WithoutUnique(g.edges, IsStale(cutoff));
    WithoutKeeps(g.edges, IsStale(cutoff));
    WithoutUnique(recent, Dangles(g.nodes));
    WithoutKeeps(recent, Dangles(g.nodes));
    var edges := PrunedEdges(g.nodes, g.edges, cutoff);
    forall i | 0 <= i < |edges|
      ensures edges[i].from in g.nodes && edges[i].to in g.nodes
      ensures edges[i].from in Endpoints(edges) && edges[i].to in Endpoints(edges)
    {
      assert edges[i] in edges;
      WithoutTwice(g.edges, IsStale(cutoff), Dangles(g.nodes), edges[i]);
    }
  }

  lemma CappedWellFormed(edges: seq<Edge>, max: nat, nodes: Nodes)
    requires Unique(edges) && Weighted(edges) && FromFiles(edges) && NoDangling(nodes, edges)
    ensures var kept := CappedEdges(edges, max);
            Unique(kept) && Weighted(kept) && FromFiles(kept) && NoDangling(nodes, kept)
            && |kept| <= max && forall e :: e in kept ==> e in edges
  {
    SortUnique(edges);
    SortContents(edges, EdgeBefore);
    var kept := CappedEdges(edges, max);
    forall i | 0 <= i < |kept|
      ensures kept[i] in edges
    {
      if |edges| > max {
        assert kept[i] == SortEdges(edges)[i];
        assert SortEdges(edges)[i] in SortEdges(edges);
      }
    }
  }

  /** As many edges as fit are kept, and none that is dropped comes before one that is kept. */
  ghost predicate BestEdges(edges: seq<Edge>, max: nat, kept: seq<Edge>) {
    && |kept| == MinNat(|edges|, max)
    && multiset(kept) <= multiset(edges)
    && forall k, d :: k in kept && d in multiset(edges) - multiset(kept) ==> !EdgeBefore(d, k)
  }

  lemma CappedEdgesBest(edges: seq<Edge>, max: nat)
    ensures BestEdges(edges, max, CappedEdges(edges, max))
  {
    if |edges| > max {
      var sorted := SortEdges(edges);
      SortContents(edges, EdgeBefore);
      EdgeOrder();
      SortOrdered(edges, EdgeBefore);
      PrefixBest(edges, sorted, max);
    }
  }

  lemma PrefixBest(edges: seq<Edge>, sorted: seq<Edge>, max: nat)
    requires Ordered(sorted, EdgeBefore) && multiset(sorted) == multiset(edges) && max < |edges| == |sorted|
    ensures BestEdges(edges, max, sorted[..max])
  {
    var kept, dropped := sorted[..max], sorted[max..];
    PrefixFirst(sorted, max, EdgeBefore);
    assert sorted == kept + dropped;
    assert multiset(kept) <= multiset(edges) && multiset(edges) - multiset(kept) == multiset(dropped);
  }

  /**
   Every compaction of a well-formed graph gives a sound graph within its caps. Tombstones
   and nodes are disjoint, and everything evicted that had metrics has a tombstone of now.
   */
  lemma CompactionSound(g: Graph, limits: Limits, gone: set<SymbolId>)
    requires WellFormed(g) && Evicts(g, limits, gone)
    ensures var g' := CompactGraph(g, limits, gone);
            && Sound(g')
            && |g'.nodes| <= MaxOne(limits.maxNodes) && |g'.edges| <= MaxOne(limits.maxEdges)
            && g'.nodes.Keys <= g.nodes.Keys && g'.metrics.Keys == g.metrics.Keys * g'.nodes.Keys
            && g'.tombstones.Keys !! g'.nodes.Keys
            && (!limits.keepTombstones ==> g'.tombstones == map[])
            && (limits.keepTombstones ==> forall id :: id in g.nodes && id !in g'.nodes && id in g.metrics ==>
                  id in g'.tombstones && g'.tombstones[id] == Tombstone(limits.now, g.metrics[id].referenceCount, g.metrics[id].fileCount))
  {
    CompactionEdges(g, limits, gone);
    CompactionFits(g, limits, gone);
  }

  lemma LeanWellFormed(g: Graph, limits: Limits)
    requires WellFormed(g)
    ensures Unique(LeanEdges(g, limits)) && Weighted(LeanEdges(g, limits)) && FromFiles(LeanEdges(g, limits))
    ensures NoDangling(LeanNodes(g, limits), LeanEdges(g, limits)) && |LeanEdges(g, limits)| <= MaxOne(limits.maxEdges)
  {
    PrunedWellFormed(g, Cutoff(limits));
    CappedWellFormed(PrunedEdges(g.nodes, g.edges, Cutoff(limits)), MaxOne(limits.maxEdges), LeanNodes(g, limits));
  }

  /** The edges that are left are in order and none of them dangles. */
  lemma CompactionEdges(g: Graph, limits: Limits, gone: set<SymbolId>)
    requires WellFormed(g)
    ensures var g' := CompactGraph(g, limits, gone);
            WellFormed(g') && NoDangling(g'.nodes, g'.edges) && |g'.edges| <= MaxOne(limits.maxEdges)
  {
    var edges := LeanEdges(g, limits);
    LeanWellFormed(g, limits);
    WithoutUnique(edges, Touches(gone));
    WithoutKeeps(edges, Touches(gone));
    var g' := CompactGraph(g, limits, gone);
    forall i | 0 <= i < |g'.edges|
      ensures g'.edges[i].from in g'.nodes && g'.edges[i].to in g'.nodes
    {
      assert g'.edges[i] in g'.edges;
      WithoutMember(edges, Touches(gone), g'.edges[i]);
    }
  }

  lemma CompactionFits(g: Graph, limits: Limits, gone: set<SymbolId>)
    requires Evicts(g, limits, gone)
    ensures |CompactGraph(g, limits, gone).nodes| <= MaxOne(limits.maxNodes)
  {
    var nodes, nodes' := LeanNodes(g, limits), CompactGraph(g, limits, gone).nodes;
    assert nodes'.Keys == nodes.Keys - gone;
    SizeSplits(nodes.Keys, gone);
    assert |nodes.Keys| == |nodes| && |nodes'.Keys| == |nodes'|;
  }

  lemma CompactionsSound(g: Graph, limits: Limits)
    requires WellFormed(g)
    ensures forall gone :: Evicts(g, limits, gone) ==> Sound(CompactGraph(g, limits, gone))
  {
    forall gone | Evicts(g, limits, gone)
      ensures Sound(CompactGraph(g, limits, gone))
    {
      CompactionSound(g, limits, gone);
    }
  }

  /** Compaction keeps what it can: with room and nothing stale, a sound graph is left as it is. */
  lemma CompactionIdle(g: Graph, limits: Limits)
    requires Sound(g) && g.tombstones == map[]
    requires |g.nodes| <= limits.maxNodes && |g.edges| <= limits.maxEdges
    requires forall e :: e in g.edges ==> IsCurrent(e.lastSeen, Cutoff(limits))
    requires forall id :: id in g.nodes ==> IsCurrent(g.nodes[id].lastSeen, Cutoff(limits))
    ensures Evicts(g, limits, {}) && CompactGraph(g, limits, {}) == g
  {
    IdleEdges(g, limits);
    assert LeanNodes(g, limits) == g.nodes;
    WithoutNothing(g.edges, Touches({}));
    IdleMetrics(g);
    var g' := CompactGraph(g, limits, {});
    assert g'.nodes == g.nodes;
    assert g'.tombstones == g.tombstones;
  }

  lemma IdleEdges(g: Graph, limits: Limits)
    requires NoDangling(g.nodes, g.edges) && |g.edges| <= limits.maxEdges
    requires forall e :: e in g.edges ==> IsCurrent(e.lastSeen, Cutoff(limits))
    ensures PrunedEdges(g.nodes, g.edges, Cutoff(limits)) == g.edges && LeanEdges(g, limits) == g.edges
  {
    WithoutNothing(g.edges, IsStale(Cutoff(limits)));
    forall e | e in g.edges
      ensures !Dangles(g.nodes)(e)
    {
    }
    WithoutNothing(g.edges, Dangles(g.nodes));
  }

  lemma IdleMetrics(g: Graph)
    requires Sound(g)
    ensures Recounted(g.metrics, g.nodes, g.edges) == g.metrics
  {
  }

  // --------------------------------------------------------------------------- the state

  class ProjectGraphState {
    var nodes: Nodes
    var edges: seq<Edge>
    var metrics: MetricTable
    var tombstones: Tombstones

    constructor ()
      ensures Value() == EMPTY && Sound(Value())
    {
      nodes, edges, metrics, tombstones := map[], [], map[], map[];
    }

    function Value(): Graph
      reads this
    {
      Graph(nodes, edges, metrics, tombstones)
    }

    method UpsertNode(id: SymbolId, node: Node)
      modifies `nodes
      ensures nodes == old(nodes)[id := node]
    {
      nodes := nodes[id := node];
    }

    method SetMetrics(id: SymbolId, entry: Metrics)
      modifies `metrics
      ensures metrics == old(metrics)[id := entry]
    {
      metrics := metrics[id := entry];
    }

    method UpsertEdge(edge: Edge)
      modifies `edges
      ensures edges == Upsert(old(edges), edge)
    {
      var i := 0;
      while i < |edges| && !SameIdentity(edges[i], edge)
        invariant 0 <= i <= |edges| && edges == old(edges)
        invariant forall k :: 0 <= k < i ==> !SameIdentity(edges[k], edge)
      {
        i := i + 1;
      }
      if i < |edges| {
        UpsertAt(edges, edge, i);
        edges := edges[i := Merge(edges[i], edge)];
      } else {
        UpsertNew(edges, edge);
        edges := edges + [edge];
      }
    }

    method RemoveOrphanEdges()
      modifies `edges
      ensures edges == Without(old(edges), Dangles(nodes))
    {
      edges := Without(edges, Dangles(nodes));
    }

    method ConnectedSymbols() returns (connected: set<SymbolId>)
      ensures connected == Endpoints(edges)
    {
      connected := {};
      for i := 0 to |edges|
        invariant connected == Endpoints(edges[..i])
      {
        assert edges[..i + 1] == edges[..i] + [edges[i]];
        connected := connected + {edges[i].from, edges[i].to};
      }
      assert edges[..|edges|] == edges;
    }

    method PruneStale(cutoff: nat)
      requires WellFormed(Value())
      modifies `edges, `nodes
      ensures edges == PrunedEdges(old(nodes), old(edges), cutoff)
      ensures nodes == PrunedNodes(old(nodes), edges, cutoff)
    {
      PrunedWellFormed(Value(), cutoff);
      edges := Without(edges, IsStale(cutoff));
      RemoveOrphanEdges();
      var connected := ConnectedSymbols();
      nodes := map id | id in nodes && (id in connected || IsCurrent(nodes[id].lastSeen, cutoff)) :: nodes[id];
      NothingDangles(nodes, edges);
      RemoveOrphanEdges();
    }

    method CapEdges(max: nat)
      modifies `edges
      ensures edges == CappedEdges(old(edges), max) && BestEdges(old(edges), max, edges)
      ensures |old(edges)| <= max ==> edges == old(edges)
    {
      CappedEdgesBest(edges, max);
      if |edges| <= max {
        return;
      }
      edges := SortEdges(edges);
      edges := edges[..max];
    }

    method CapNodes(max: nat) returns (ghost gone: set<SymbolId>)
      modifies `edges, `nodes
      ensures Excess(old(nodes), Endpoints(old(edges)), max, gone)
      ensures nodes == Restrict(old(nodes), old(nodes).Keys - gone)
      ensures edges == Without(old(edges), Touches(gone))
    {
      if |nodes| <= max {
        gone := {};
        WithoutNothing(edges, Touches(gone));
        return;
      }
      var connected := ConnectedSymbols();
      var toRemove := SelectExcess(nodes, connected, max);
      gone := toRemove;
      nodes := map id | id in nodes && id !in toRemove :: nodes[id];
      edges := Without(edges, Touches(toRemove));
    }

    method CaptureRemovedNodes(removed: set<SymbolId>, now: nat)
      modifies `tombstones
      ensures tombstones == old(tombstones) + Captured(metrics, removed, now)
    {
      var rest := removed;
      while rest != {}
        invariant rest <= removed
        invariant tombstones == old(tombstones) + Captured(metrics, removed - rest, now)
        decreases |rest|
      {
        var id :| id in rest;
        if id in metrics {
          tombstones := tombstones[id := Tombstone(now, metrics[id].referenceCount, metrics[id].fileCount)];
        }
        rest := rest - {id};
      }
      assert removed - rest == removed;
    }

    method RebuildMetricFileCounts()
      modifies `metrics
      ensures metrics == map id | id in old(metrics) :: old(metrics)[id].(fileCount := Count(edges, Into(id, Contains)))
    {
      var counts := CountTargets(edges, Contains, false, _ => true);
      metrics := map id | id in metrics :: metrics[id].(fileCount := Lookup(counts, id));
      assert forall id :: Lookup(counts, id) == Total(edges, id, Contains, false);
    }

    /** Compacts the graph; what the node cap evicts is forced by rank and size. */
    method Compact(limits: Limits) returns (ghost gone: set<SymbolId>)
      requires WellFormed(Value())
      modifies this
      ensures Evicts(old(Value()), limits, gone)
      ensures Value() == CompactGraph(old(Value()), limits, gone)
      ensures Sound(Value())
    {
      var originalNodes := nodes.Keys;
      CompactionsSound(Value(), limits);
      gone := Shrink(limits);
      BuryRemoved(limits, originalNodes - nodes.Keys);
      KeepNodeMetrics();
    }

    method KeepNodeMetrics()
      modifies `metrics
      ensures metrics == Recounted(old(metrics), nodes, edges)
    {
      metrics := Restrict(metrics, nodes.Keys);
      RebuildMetricFileCounts();
    }

    /** The part of a compaction that decides which nodes and edges stay. */
    method Shrink(limits: Limits) returns (ghost gone: set<SymbolId>)
      requires WellFormed(Value())
      modifies `nodes, `edges
      ensures Evicts(old(Value()), limits, gone)
      ensures nodes == CompactGraph(old(Value()), limits, gone).nodes
      ensures edges == CompactGraph(old(Value()), limits, gone).edges
    {
      ghost var g := Value();
      PruneStale(Cutoff(limits));
      CapEdges(MaxOne(limits.maxEdges));
      gone := CapNodes(MaxOne(limits.maxNodes));
      CompactionSound(g, limits, gone);
      NothingDangles(nodes, edges);
      RemoveOrphanEdges();
    }

    method BuryRemoved(limits: Limits, removed: set<SymbolId>)
      modifies `tombstones
      ensures tombstones == if !limits.keepTombstones then map[] else
                KeptTombstones(old(tombstones) + Captured(metrics, removed, limits.now), nodes,
                               SaturatingSub(limits.now, MaxOne(limits.tombstoneRetention)))
    {
      if limits.keepTombstones {
        CaptureRemovedNodes(removed, limits.now);
        tombstones := map id | id in tombstones && id !in nodes :: tombstones[id];
        var cutoff := SaturatingSub(limits.now, MaxOne(limits.tombstoneRetention));
        tombstones := map id | id in tombstones && IsCurrent(tombstones[id].removed, cutoff) :: tombstones[id];
      } else {
        tombstones := map[];
      }
    }
  }

  lemma NothingDangles(nodes: Nodes, edges: seq<Edge>)
    requires NoDangling(nodes, edges)
    ensures Without(edges, Dangles(nodes)) == edges
  {
    WithoutNothing(edges, Dangles(nodes));
  }
}
