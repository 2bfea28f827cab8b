/** The project graph as a value, what a well-formed graph is, and counts of edges into symbols. */
module GraphState {
  import opened GraphEdges

  const FILE_KIND: int := -1

  datatype Node = Node(kind: int, path: string, lastSeen: nat)

  datatype Metrics = Metrics(referenceCount: nat, fileCount: nat, updated: nat)

  const NO_METRICS: Metrics := Metrics(0, 0, 0)

  datatype Tombstone = Tombstone(removed: nat, referenceCount: nat, fileCount: nat)

  type Nodes = map<SymbolId, Node>
  type MetricTable = map<SymbolId, Metrics>
  type Tombstones = map<SymbolId, Tombstone>

  datatype Graph = Graph(nodes: Nodes, edges: seq<Edge>, metrics: MetricTable, tombstones: Tombstones)

  const EMPTY: Graph := Graph(map[], [], map[], map[])

  predicate NoDangling(nodes: Nodes, edges: seq<Edge>) {
    forall i :: 0 <= i < |edges| ==> edges[i].from in nodes && edges[i].to in nodes
  }

  /** Every symbol with metrics knows how many files contain it. */
  predicate FileCountsExact(metrics: MetricTable, edges: seq<Edge>) {
    forall id :: id in metrics ==> metrics[id].fileCount == Count(edges, Into(id, Contains))
  }

  /** The incoming reference weight, or one for a declared symbol without references. */
  predicate ReferenceFits(count: nat, weight: nat) {
    count == weight || (weight == 0 && count == 1)
  }

  predicate ReferencesExact(metrics: MetricTable, edges: seq<Edge>) {
    forall id :: id in metrics ==> ReferenceFits(metrics[id].referenceCount, Weight(edges, Into(id, Reference)))
  }

  /** What the edges of a graph satisfy. */
  predicate WellFormed(g: Graph) {
    Unique(g.edges) && Weighted(g.edges) && FromFiles(g.edges)
  }

  /** What every run of updates and compactions keeps. */
  predicate Sound(g: Graph) {
    && WellFormed(g) && NoDangling(g.nodes, g.edges)
    && g.metrics.Keys <= g.nodes.Keys
    && FileCountsExact(g.metrics, g.edges)
  }

  // ----------------------------------------------------------------------------- counts

  function Lookup(counts: map<SymbolId, nat>, id: SymbolId): nat {
    if id in counts then counts[id] else 0
  }

  /** What an edge adds to the count of its target: its weight, or one. */
  function Amount(e: Edge, weighted: bool): nat { if weighted then e.weight else 1 }

  function Total(edges: seq<Edge>, id: SymbolId, kind: EdgeKind, weighted: bool): nat {
    if weighted then Weight(edges, Into(id, kind)) else Count(edges, Into(id, kind))
  }

  lemma TotalStep(edges: seq<Edge>, i: nat, id: SymbolId, kind: EdgeKind, weighted: bool)
    requires i < |edges|
    ensures Total(edges[..i + 1], id, kind, weighted)
            == Total(edges[..i], id, kind, weighted) + (if edges[i].to == id && edges[i].kind == kind then Amount(edges[i], weighted) else 0)
  {
    assert edges[..i + 1] == edges[..i] + [edges[i]];
    CountConcat(edges[..i], [edges[i]], Into(id, kind));
    CountOne(edges[i], Into(id, kind));
  }

  /** One pass over the edges counts, for every wanted symbol, the edges of a kind into it. */
  method CountTargets(edges: seq<Edge>, kind: EdgeKind, weighted: bool, wanted: SymbolId -> bool) returns (counts: map<SymbolId, nat>)
    ensures forall id :: wanted(id) ==> Lookup(counts, id) == Total(edges, id, kind, weighted)
  {
    counts := map[];
    for i := 0 to |edges|
      invariant forall id :: wanted(id) ==> Lookup(counts, id) == Total(edges[..i], id, kind, weighted)
    {
      var e := edges[i];
      forall id | wanted(id)
        ensures Total(edges[..i + 1], id, kind, weighted)
                == Total(edges[..i], id, kind, weighted) + (if e.to == id && e.kind == kind then Amount(e, weighted) else 0)
      {
        TotalStep(edges, i, id, kind, weighted);
      }
      if e.kind == kind && wanted(e.to) {
        counts := counts[e.to := Lookup(counts, e.to) + Amount(e, weighted)];
      }
    }
    assert edges[..|edges|] == edges;
  }
}
