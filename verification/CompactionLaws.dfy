/**
 What a compaction prunes and caps, in plain comparisons of stamps: nothing stale is left,
 nothing current goes without need, and under a cap what goes is never later seen than what
 is kept.
 */
module CompactionLaws {
  import opened GraphEdges
  import opened GraphState
  import opened NodeCapping
  import opened ProjectGraph

  /** Not stamped, or stamped at most that long ago; a retention of zero counts as one. */
  predicate Recent(stamp: nat, now: nat, retention: nat) {
    stamp == 0 || stamp + (if retention == 0 then 1 else retention) >= now
  }

  predicate EndsAt(e: Edge, id: SymbolId) { e.from == id || e.to == id }

  /** Some recent edge of the old graph between two of its nodes ends at the node. */
  ghost predicate Held(g: Graph, limits: Limits, id: SymbolId) {
    exists e :: e in g.edges && Recent(e.lastSeen, limits.now, limits.retention) && e.from in g.nodes && e.to in g.nodes && EndsAt(e, id)
  }

  lemma PrunedEdge(g: Graph, limits: Limits, e: Edge)
    ensures e in PrunedEdges(g.nodes, g.edges, Cutoff(limits)) <==>
            e in g.edges && Recent(e.lastSeen, limits.now, limits.retention) && e.from in g.nodes && e.to in g.nodes
  {
    WithoutTwice(g.edges, IsStale(Cutoff(limits)), Dangles(g.nodes), e);
  }

  lemma PrunedNode(g: Graph, limits: Limits, id: SymbolId)
    ensures id in LeanNodes(g, limits) <==>
            id in g.nodes && (Recent(g.nodes[id].lastSeen, limits.now, limits.retention) || Held(g, limits, id))
  {
    var edges := PrunedEdges(g.nodes, g.edges, Cutoff(limits));
    if id in Endpoints(edges) {
      var e :| e in edges && EndsAt(e, id);
      PrunedEdge(g, limits, e);
    }
    if Held(g, limits, id) {
      var e :| e in g.edges && Recent(e.lastSeen, limits.now, limits.retention) && e.from in g.nodes && e.to in g.nodes && EndsAt(e, id);
      PrunedEdge(g, limits, e);
    }
  }

  /** What every compaction leaves is recent: edges, nodes that no recent edge holds, and tombstones. */
  lemma NothingStaleStays(g: Graph, limits: Limits, gone: set<SymbolId>)
    requires WellFormed(g)
    ensures var g' := CompactGraph(g, limits, gone);
            && (forall e :: e in g'.edges ==> e in g.edges && Recent(e.lastSeen, limits.now, limits.retention))
            && (forall id :: id in g'.nodes ==> id in g.nodes && g'.nodes[id] == g.nodes[id])
            && (forall id :: id in g'.nodes ==> Recent(g.nodes[id].lastSeen, limits.now, limits.retention) || Held(g, limits, id))
            && (forall id :: id in g'.tombstones ==> Recent(g'.tombstones[id].removed, limits.now, limits.tombstoneRetention))
  {
    var g' := CompactGraph(g, limits, gone);
    forall e | e in g'.edges
      ensures e in g.edges && Recent(e.lastSeen, limits.now, limits.retention)
    {
      LeanEdge(g, limits, gone, e);
    }
    forall id | id in g'.nodes
      ensures id in g.nodes && (Recent(g.nodes[id].lastSeen, limits.now, limits.retention) || Held(g, limits, id))
    {
      PrunedNode(g, limits, id);
    }
  }

  lemma LeanEdge(g: Graph, limits: Limits, gone: set<SymbolId>, e: Edge)
    requires WellFormed(g) && e in CompactGraph(g, limits, gone).edges
    ensures e in PrunedEdges(g.nodes, g.edges, Cutoff(limits)) && e in g.edges && Recent(e.lastSeen, limits.now, limits.retention)
  {
    var pruned := PrunedEdges(g.nodes, g.edges, Cutoff(limits));
    WithoutMember(LeanEdges(g, limits), Touches(gone), e);
    PrunedWellFormed(g, Cutoff(limits));
    CappedWellFormed(pruned, MaxOne(limits.maxEdges), g.nodes);
    PrunedEdge(g, limits, e);
  }

  /** With room for all of it, exactly what is recent stays: edges between nodes, and nodes recent themselves or held. */
  lemma RecentStays(g: Graph, limits: Limits, gone: set<SymbolId>)
    requires WellFormed(g) && Evicts(g, limits, gone)
    requires |g.nodes| <= limits.maxNodes && |PrunedEdges(g.nodes, g.edges, Cutoff(limits))| <= limits.maxEdges
    ensures var g' := CompactGraph(g, limits, gone);
            && (forall e :: e in g'.edges <==>
                  e in g.edges && Recent(e.lastSeen, limits.now, limits.retention) && e.from in g.nodes && e.to in g.nodes)
            && (forall id :: id in g'.nodes <==>
                  id in g.nodes && (Recent(g.nodes[id].lastSeen, limits.now, limits.retention) || Held(g, limits, id)))
  {
    var nodes := LeanNodes(g, limits);
    NothingGone(g, limits, gone);
    WithoutNothing(LeanEdges(g, limits), Touches({}));
    forall e
      ensures e in CompactGraph(g, limits, gone).edges <==>
              e in g.edges && Recent(e.lastSeen, limits.now, limits.retention) && e.from in g.nodes && e.to in g.nodes
    {
      PrunedEdge(g, limits, e);
    }
    forall id
      ensures id in CompactGraph(g, limits, gone).nodes <==>
              id in g.nodes && (Recent(g.nodes[id].lastSeen, limits.now, limits.retention) || Held(g, limits, id))
    {
      PrunedNode(g, limits, id);
    }
  }

  lemma NothingGone(g: Graph, limits: Limits, gone: set<SymbolId>)
    requires Evicts(g, limits, gone) && |g.nodes| <= limits.maxNodes
    ensures gone == {}
  {
    var nodes := LeanNodes(g, limits);
    SizeSplits(g.nodes.Keys, nodes.Keys);
    assert |nodes| == |nodes.Keys| && |g.nodes| == |g.nodes.Keys|;
  }

  /** An edge that capping keeps is seen no earlier than one it drops, and weighs no less when seen at the same time. */
  lemma KeptEdgesLatest(edges: seq<Edge>, max: nat, kept: seq<Edge>, k: Edge, d: Edge)
    requires BestEdges(edges, max, kept) && k in kept && d in multiset(edges) - multiset(kept)
    ensures k.lastSeen >= d.lastSeen && (k.lastSeen == d.lastSeen ==> k.weight >= d.weight)
  {
  }

  /**
   A node that capping takes, against one it leaves: connected ones only after all
   unconnected ones, connected files only after everything else, and within those three
   classes none that was seen later.
   */
  lemma EvictedNodesOldest(nodes: Nodes, connected: set<SymbolId>, max: nat, gone: set<SymbolId>, a: SymbolId, b: SymbolId)
    requires Excess(nodes, connected, max, gone) && a in gone && b in nodes && b !in gone
    ensures a in connected ==> b in connected
    ensures a in connected && nodes[a].kind == FILE_KIND ==> nodes[b].kind == FILE_KIND
    ensures (a in connected <==> b in connected) && (a in connected ==> (nodes[a].kind == FILE_KIND <==> nodes[b].kind == FILE_KIND))
            ==> nodes[a].lastSeen <= nodes[b].lastSeen
  {
    assert GoesBefore(nodes, connected, a, b);
  }
}
