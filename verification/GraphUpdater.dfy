/**
 The incremental update of the project graph from one parsed file, and whole runs of updates
 and compactions.
 */
module GraphUpdater {
  import opened Bounds
  import opened GraphEdges
  import opened GraphState
  import opened FileRefresh
  import opened ProjectGraph

  /** Symbols of the parse become nodes and get metrics; the rest is untouched. */
  ghost predicate SymbolsEntered(g: Graph, symbols: seq<Declaration>, path: string, now: nat, g': Graph) {
    && g'.edges == g.edges && g'.tombstones == g.tombstones
    && g'.nodes.Keys == g.nodes.Keys + Seen(symbols)
    && g'.metrics.Keys == g.metrics.Keys + Seen(symbols)
    && (forall id :: id in g'.nodes ==> if id in Seen(symbols) then g'.nodes[id].lastSeen == now else g'.nodes[id] == g.nodes[id])
    && (forall id :: id in g'.metrics && id !in Seen(symbols) ==> g'.metrics[id] == g.metrics[id])
    && Described(symbols, path, g'.nodes)
  }

  lemma DescribedNext(symbols: seq<Declaration>, i: nat, path: string, now: nat, nodes: Nodes)
    requires i < |symbols| && Described(symbols[..i], path, nodes)
    ensures Described(symbols[..i + 1], path, nodes[SymbolOf(symbols[i]) := Node(symbols[i].kind, path, now)])
  {
    var front, longer := symbols[..i], symbols[..i + 1];
    forall k: nat | LastOfSymbol(longer, k)
      ensures k < i ==> LastOfSymbol(front, k) && SymbolOf(front[k]) != SymbolOf(symbols[i])
    {
      if k < i {
        assert longer[k] == front[k] && longer[i] == symbols[i];
        forall j | k < j < |front|
          ensures SymbolOf(front[j]) != SymbolOf(front[k])
        {
          assert longer[j] == front[j];
        }
      }
    }
  }

  lemma SeenNext(symbols: seq<Declaration>, i: nat)
    requires i < |symbols|
    ensures Seen(symbols[..i + 1]) == Seen(symbols[..i]) + {SymbolOf(symbols[i])}
  {
    assert symbols[..i + 1] == symbols[..i] + [symbols[i]];
  }

  lemma AliasesNext(symbols: seq<Declaration>, i: nat)
    requires i < |symbols|
    ensures AliasesOf(symbols[..i + 1]) == AliasesOf(symbols[..i])[DeclSymbol(symbols[i].key) := SymbolOf(symbols[i])]
  {
    assert symbols[..i + 1][..i] == symbols[..i];
  }

  /** Declared sites and aliases say the same. */
  ghost predicate Agree(declared: map<DeclKey, SymbolId>, aliases: Aliases) {
    forall key :: (key in declared <==> DeclSymbol(key) in aliases)
               && (key in declared ==> declared[key] == aliases[DeclSymbol(key)])
  }

  lemma AgreeNext(declared: map<DeclKey, SymbolId>, aliases: Aliases, key: DeclKey, id: SymbolId)
    requires Agree(declared, aliases)
    ensures Agree(declared[key := id], aliases[DeclSymbol(key) := id])
  {
  }

  /** The symbols loop of an update. */
  method EnterSymbols(state: ProjectGraphState, path: string, symbols: seq<Declaration>, now: nat)
    returns (aliases: Aliases, declared: map<DeclKey, SymbolId>, seen: set<SymbolId>)
    modifies state
    ensures aliases == AliasesOf(symbols) && seen == Seen(symbols)
    ensures Agree(declared, aliases)
    ensures SymbolsEntered(old(state.Value()), symbols, path, now, state.Value())
  {
    aliases, declared, seen := map[], map[], {};
    assert Seen(symbols[..0]) == {};
    for i := 0 to |symbols|
      invariant aliases == AliasesOf(symbols[..i]) && seen == Seen(symbols[..i])
      invariant Agree(declared, aliases)
      invariant SymbolsEntered(old(state.Value()), symbols[..i], path, now, state.Value())
    {
      var d := symbols[i];
      var id, legacy, site := SymbolOf(d), LegacyOf(d), DeclSymbol(d.key);
      AliasesNext(symbols, i);
      ghost var before := state.Value();
      AgreeNext(declared, aliases, d.key, id);
      if site != id {
        aliases := aliases[site := id];
      }
      declared := declared[d.key := id];
      seen := seen + {id};
      EnterSymbol(state, id, legacy, d.kind, path, now);
      EnteredNext(old(state.Value()), path, symbols, i, now, before, state.Value());
    }
    assert symbols[..|symbols|] == symbols;
  }

  /** One symbol: its node is stamped, its metrics start from those of its legacy id. */
  method EnterSymbol(state: ProjectGraphState, id: SymbolId, legacy: SymbolId, kind: int, path: string, now: nat)
    modifies state
    ensures state.edges == old(state.edges) && state.tombstones == old(state.tombstones)
    ensures state.nodes == old(state.nodes)[id := Node(kind, path, now)]
    ensures state.metrics == old(state.metrics)[id := EntryMetrics(old(state.metrics), id, legacy).(updated := now)]
  {
    state.UpsertNode(id, Node(kind, path, now));
    var m := if id in state.metrics then state.metrics[id] else NO_METRICS;
    if id != legacy && m.referenceCount == 0 && legacy in state.metrics {
      m := m.(referenceCount := state.metrics[legacy].referenceCount, fileCount := state.metrics[legacy].fileCount);
    }
    state.SetMetrics(id, m.(updated := now));
  }

  /** The metrics a symbol starts from: its own, or those its legacy id has collected. */
  function EntryMetrics(metrics: MetricTable, id: SymbolId, legacy: SymbolId): Metrics {
    var own := if id in metrics then metrics[id] else NO_METRICS;
    if id != legacy && own.referenceCount == 0 && legacy in metrics then
      own.(referenceCount := metrics[legacy].referenceCount, fileCount := metrics[legacy].fileCount)
    else own
  }

  lemma EnteredNext(g: Graph, path: string, symbols: seq<Declaration>, i: nat, now: nat, mid: Graph, after: Graph)
    requires i < |symbols| && SymbolsEntered(g, symbols[..i], path, now, mid)
    requires var id := SymbolOf(symbols[i]);
             && after.edges == mid.edges && after.tombstones == mid.tombstones
             && after.nodes == mid.nodes[id := Node(symbols[i].kind, path, now)]
             && id in after.metrics && after.metrics == mid.metrics[id := after.metrics[id]]
    ensures SymbolsEntered(g, symbols[..i + 1], path, now, after)
    ensures Seen(symbols[..i + 1]) == Seen(symbols[..i]) + {SymbolOf(symbols[i])}
  {
    SeenNext(symbols, i);
    DescribedNext(symbols, i, path, now, mid.nodes);
  }

  // ------------------------------------------------------------------------------ aliases

  /** A symbol is there after the aliases in done are worked off. */
  ghost predicate Present<V>(table: map<SymbolId, V>, done: set<SymbolId>, aliases: Aliases, id: SymbolId) {
    (id in table && id !in done) || exists k :: k in done && k in aliases && k in table && aliases[k] == id
  }

  /** The aliases in done are worked off on a table keyed by symbols. */
  ghost predicate Moved<V>(table: map<SymbolId, V>, done: set<SymbolId>, aliases: Aliases, table': map<SymbolId, V>) {
    && (forall id :: id in table' <==> Present(table, done, aliases, id))
    && (forall id :: id in table' && id !in aliases.Values ==> table'[id] == table[id])
  }

  /** An entry is gone under one id and there under another; nothing else has changed. */
  ghost predicate MovedOver<V>(table: map<SymbolId, V>, from: SymbolId, to: SymbolId, table': map<SymbolId, V>) {
    if from in table then to in table' && table' == (table - {from})[to := table'[to]] else table' == table
  }

  lemma MovedNext<V>(table: map<SymbolId, V>, done: set<SymbolId>, aliases: Aliases, from: SymbolId, mid: map<SymbolId, V>, after: map<SymbolId, V>)
    requires aliases.Keys !! aliases.Values && from in aliases && from !in done
    requires Moved(table, done, aliases, mid) && MovedOver(mid, from, aliases[from], after)
    ensures Moved(table, done + {from}, aliases, after)
  {
    var to := aliases[from];
    assert to in aliases.Values;
    assert from in mid <==> from in table by {
      forall k | k in aliases
        ensures aliases[k] in aliases.Values
      {
      }
    }
    forall id
      ensures id in after <==> Present(table, done + {from}, aliases, id)
    {
      PresentNext(table, done, aliases, from, id);
    }
  }

  lemma PresentNext<V>(table: map<SymbolId, V>, done: set<SymbolId>, aliases: Aliases, from: SymbolId, id: SymbolId)
    requires aliases.Keys !! aliases.Values && from in aliases && from !in done
    ensures Present(table, done + {from}, aliases, id)
            <==> if from in table && id == aliases[from] then true else id != from && Present(table, done, aliases, id)
  {
    assert aliases[from] in aliases.Values;
    if id == from {
      assert id !in aliases.Values;
    }
  }

  ghost predicate GraphMoved(g: Graph, done: set<SymbolId>, aliases: Aliases, g': Graph) {
    && Moved(g.nodes, done, aliases, g'.nodes) && Stays(g.nodes, g'.nodes)
    && Moved(g.metrics, done, aliases, g'.metrics)
    && g'.edges == g.edges && g'.tombstones == g.tombstones
  }

  /** Moves nodes, metrics and edges of alias sources over to their targets. */
  method ApplyAliases(state: ProjectGraphState, aliases: Aliases, now: nat)
    requires aliases.Keys !! aliases.Values
    modifies state
    ensures GraphMoved(old(state.Value()), aliases.Keys, aliases, state.Value().(edges := old(state.edges)))
    ensures state.edges == ResolvedEdges(old(state.edges), aliases)
  {
    if aliases == map[] {
      return;
    }
    ghost var g := state.Value();
    var rest := aliases.Keys;
    while rest != {}
      invariant rest <= aliases.Keys
      invariant GraphMoved(g, aliases.Keys - rest, aliases, state.Value())
      decreases |rest|
    {
      var from :| from in rest;
      MoveAlias(state, g, aliases.Keys - rest, aliases, from, now);
      assert (aliases.Keys - rest) + {from} == aliases.Keys - (rest - {from});
      rest := rest - {from};
    }
    assert aliases.Keys - rest == aliases.Keys;
    RenameEdges(state, aliases);
  }

  /** Works off one alias. */
  method MoveAlias(state: ProjectGraphState, ghost g: Graph, ghost done: set<SymbolId>, aliases: Aliases, from: SymbolId, now: nat)
    requires aliases.Keys !! aliases.Values && from in aliases && from !in done && done <= aliases.Keys
    requires GraphMoved(g, done, aliases, state.Value())
    modifies state`nodes, state`metrics
    ensures GraphMoved(g, done + {from}, aliases, state.Value())
  {
    assert aliases[from] in aliases.Values;
    ghost var nodes, metrics := state.nodes, state.metrics;
    MoveNode(state, from, aliases[from], now);
    MoveMetrics(state, from, aliases[from], now);
    MovedNext(g.nodes, done, aliases, from, nodes, state.nodes);
    MovedNext(g.metrics, done, aliases, from, metrics, state.metrics);
    StillStays(g.nodes, aliases, done, from, nodes, state.nodes);
  }

  lemma StillStays(table: Nodes, aliases: Aliases, done: set<SymbolId>, from: SymbolId, mid: Nodes, after: Nodes)
    requires aliases.Keys !! aliases.Values && from in aliases && from !in done
    requires Moved(table, done, aliases, mid) && MovedOver(mid, from, aliases[from], after)
    requires Stays(table, mid) && Stays(mid, after) && done <= aliases.Keys
    ensures Stays(table, after)
  {
    var to := aliases[from];
    assert forall k :: k in aliases ==> aliases[k] in aliases.Values;
    forall id | id in table && id in after
      ensures after[id].lastSeen >= table[id].lastSeen && after[id].kind == table[id].kind && after[id].path == table[id].path
    {
      assert id in mid || id == to;
    }
  }

  /** Every node that stays keeps its kind and path. */
  ghost predicate SameKinds(nodes: Nodes, nodes': Nodes) {
    forall id :: id in nodes && id in nodes' ==> nodes'[id].kind == nodes[id].kind && nodes'[id].path == nodes[id].path
  }

  /** No node that stays looks less recent than before, and each keeps its kind and path. */
  ghost predicate Stays(nodes: Nodes, nodes': Nodes) {
    SameKinds(nodes, nodes') && forall id :: id in nodes && id in nodes' ==> nodes'[id].lastSeen >= nodes[id].lastSeen
  }

  method MoveNode(state: ProjectGraphState, from: SymbolId, to: SymbolId, now: nat)
    requires from != to
    modifies state`nodes
    ensures MovedOver(old(state.nodes), from, to, state.nodes) && Stays(old(state.nodes), state.nodes)
  {
    if from in state.nodes {
      var moved := state.nodes[from];
      state.nodes := state.nodes - {from};
      if to in state.nodes {
        var existing := state.nodes[to];
        state.nodes := state.nodes[to := existing.(lastSeen := MaxNat(existing.lastSeen, moved.lastSeen))];
      } else {
        state.nodes := state.nodes[to := moved.(lastSeen := MaxNat(moved.lastSeen, now))];
      }
    }
  }

  method MoveMetrics(state: ProjectGraphState, from: SymbolId, to: SymbolId, now: nat)
    requires from != to
    modifies state`metrics
    ensures MovedOver(old(state.metrics), from, to, state.metrics)
    ensures from in old(state.metrics) ==>
              var before := if to in old(state.metrics) then old(state.metrics)[to] else NO_METRICS;
              && state.metrics[to].referenceCount == before.referenceCount + old(state.metrics)[from].referenceCount
              && state.metrics[to].fileCount == MaxNat(before.fileCount, old(state.metrics)[from].fileCount)
              && state.metrics[to].updated == MaxNat(MaxNat(before.updated, old(state.metrics)[from].updated), now)
  {
    if from in state.metrics {
      var moved := state.metrics[from];
      state.metrics := state.metrics - {from};
      var m := if to in state.metrics then state.metrics[to] else NO_METRICS;
      m := Metrics(m.referenceCount + moved.referenceCount, MaxNat(m.fileCount, moved.fileCount), MaxNat(MaxNat(m.updated, moved.updated), now));
      state.metrics := state.metrics[to := m];
    }
  }

  /** Renames both ends of every edge, then upserts all edges into an empty list. */
  method RenameEdges(state: ProjectGraphState, aliases: Aliases)
    modifies state`edges
    ensures state.edges == Aliased(old(state.edges), aliases)
  {
    RenameEnds(state, aliases);
    RebuildEdges(state);
  }

  method RenameEnds(state: ProjectGraphState, aliases: Aliases)
    modifies state`edges
    ensures state.edges == Rename(old(state.edges), aliases)
  {
    var edges := state.edges;
    var renamed := [];
    for i := 0 to |edges|
      invariant renamed == Rename(edges[..i], aliases)
    {
      var e := edges[i];
      RenameNext(edges, i, aliases);
      if e.from in aliases {
        e := e.(from := aliases[e.from]);
      }
      if e.to in aliases {
        e := e.(to := aliases[e.to]);
      }
      renamed := renamed + [e];
    }
    assert edges[..|edges|] == edges;
    state.edges := renamed;
  }

  lemma RenameNext(edges: seq<Edge>, i: nat, aliases: Aliases)
    requires i < |edges|
    ensures Rename(edges[..i + 1], aliases) == Rename(edges[..i], aliases) + [Renamed(aliases, edges[i])]
  {
  }

  method RebuildEdges(state: ProjectGraphState)
    modifies state`edges
    ensures state.edges == UpsertAll([], old(state.edges))
  {
    var existing := state.edges;
    state.edges := [];
    for i := 0 to |existing|
      invariant state.edges == UpsertAll([], existing[..i])
    {
      assert existing[..i + 1][..i] == existing[..i];
      state.UpsertEdge(existing[i]);
    }
    assert existing[..|existing|] == existing;
  }

  // --------------------------------------------------------------------------- references

  /** The nodes of reference targets are there and stamped; new ones are as a site describes them. */
  ghost predicate TargetsEntered(nodes: Nodes, parse: Parse, targets: map<SymbolId, nat>, now: nat, nodes': Nodes) {
    && nodes'.Keys == nodes.Keys + targets.Keys
    && (forall id :: id in nodes' && id !in targets ==> nodes'[id] == nodes[id])
    && (forall id :: id in nodes' && id in targets ==> nodes'[id].lastSeen == now)
    && (forall id :: id in nodes' && id in targets && id in nodes ==> nodes'[id] == nodes[id].(lastSeen := now))
    && (forall id :: id in nodes' && id in targets && id !in nodes ==> FromSite(parse, id, nodes'[id]))
  }

  /** The weights collected from the first n reference sites. */
  function CollectedTargets(parse: Parse, n: nat): map<SymbolId, nat>
    requires n <= |parse.references|
  {
    if n == 0 then map[] else
      var targets, site := CollectedTargets(parse, n - 1), parse.references[n - 1];
      var id := TargetOf(parse.symbols, site.key);
      if site.count == 0 then targets else targets[id := Lookup(targets, id) + MaxNat(site.count, 1)]
  }

  /** The nodes once those of the first n reference sites are there. */
  function EnteredNodes(nodes: Nodes, parse: Parse, n: nat, now: nat): Nodes
    requires n <= |parse.references|
  {
    if n == 0 then nodes else
      var entered, site := EnteredNodes(nodes, parse, n - 1, now), parse.references[n - 1];
      if site.count == 0 then entered else Ensured(entered, TargetOf(parse.symbols, site.key), site.kind, site.path, now)
  }

  /** A node is stamped, or made when it is not there. */
  function Ensured(nodes: Nodes, id: SymbolId, kind: int, path: string, now: nat): Nodes {
    nodes[id := if id in nodes then nodes[id].(lastSeen := now) else Node(kind, path, now)]
  }

  lemma {:induction false} CollectedWeights(parse: Parse, n: nat, id: SymbolId)
    requires n <= |parse.references|
    ensures Lookup(CollectedTargets(parse, n), id) == TargetWeight(parse, parse.references[..n], id)
    ensures id in CollectedTargets(parse, n) ==> CollectedTargets(parse, n)[id] >= 1
  {
    if n > 0 {
      CollectedWeights(parse, n - 1, id);
      NextWeight(parse, n, id);
    }
  }

  lemma NextWeight(parse: Parse, n: nat, id: SymbolId)
    requires 0 < n <= |parse.references|
    ensures var site := parse.references[n - 1];
            TargetWeight(parse, parse.references[..n], id)
            == TargetWeight(parse, parse.references[..n - 1], id) + if TargetOf(parse.symbols, site.key) == id then site.count else 0
  {
    var front := parse.references[..n];
    assert front[..n - 1] == parse.references[..n - 1] && front[n - 1] == parse.references[n - 1];
  }

  lemma AllCollected(parse: Parse)
    ensures IsTargets(parse, CollectedTargets(parse, |parse.references|))
  {
    forall id
      ensures Lookup(CollectedTargets(parse, |parse.references|), id) == TargetWeight(parse, parse.references, id)
      ensures id in CollectedTargets(parse, |parse.references|) ==> CollectedTargets(parse, |parse.references|)[id] >= 1
    {
      CollectedWeights(parse, |parse.references|, id);
      assert parse.references[..|parse.references|] == parse.references;
    }
  }

  /** What has become of one node once the first n sites are entered. */
  ghost predicate NodeEntered(nodes: Nodes, parse: Parse, targets: map<SymbolId, nat>, now: nat, nodes': Nodes, id: SymbolId) {
    && (id in nodes' <==> id in nodes || id in targets)
    && (id in nodes' && id !in targets ==> nodes'[id] == nodes[id])
    && (id in targets ==> nodes'[id].lastSeen == now)
    && (id in targets && id in nodes ==> nodes'[id] == nodes[id].(lastSeen := now))
    && (id in targets && id !in nodes ==> FromSite(parse, id, nodes'[id]))
  }

  lemma {:induction false} NodesEntered(nodes: Nodes, parse: Parse, n: nat, now: nat, id: SymbolId)
    requires n <= |parse.references|
    ensures NodeEntered(nodes, parse, CollectedTargets(parse, n), now, EnteredNodes(nodes, parse, n, now), id)
  {
    if n > 0 {
      NodesEntered(nodes, parse, n - 1, now, id);
      var site := parse.references[n - 1];
      if site.count > 0 && TargetOf(parse.symbols, site.key) == id && id !in EnteredNodes(nodes, parse, n - 1, now) {
        assert FromSite(parse, id, EnteredNodes(nodes, parse, n, now)[id]);
      }
    }
  }

  lemma EachEntered(nodes: Nodes, parse: Parse, targets: map<SymbolId, nat>, now: nat, nodes': Nodes)
    requires forall id :: NodeEntered(nodes, parse, targets, now, nodes', id)
    ensures TargetsEntered(nodes, parse, targets, now, nodes')
  {
    forall id
      ensures id in nodes' <==> id in nodes || id in targets
      ensures id in nodes' && id !in targets ==> nodes'[id] == nodes[id]
      ensures id in targets ==> id in nodes' && nodes'[id].lastSeen == now
      ensures id in targets && id in nodes ==> nodes'[id] == nodes[id].(lastSeen := now)
      ensures id in targets && id !in nodes ==> FromSite(parse, id, nodes'[id])
    {
      assert NodeEntered(nodes, parse, targets, now, nodes', id);
    }
  }

  lemma AllEntered(nodes: Nodes, parse: Parse, now: nat)
    ensures TargetsEntered(nodes, parse, CollectedTargets(parse, |parse.references|), now, EnteredNodes(nodes, parse, |parse.references|, now))
  {
    var targets, nodes' := CollectedTargets(parse, |parse.references|), EnteredNodes(nodes, parse, |parse.references|, now);
    forall id
      ensures NodeEntered(nodes, parse, targets, now, nodes', id)
    {
      NodesEntered(nodes, parse, |parse.references|, now, id);
    }
    EachEntered(nodes, parse, targets, now, nodes');
  }

  lemma DeclaredTarget(symbols: seq<Declaration>, declared: map<DeclKey, SymbolId>, key: DeclKey)
    requires Agree(declared, AliasesOf(symbols))
    ensures TargetOf(symbols, key) == if key in declared then declared[key] else DeclSymbol(key)
  {
  }

  /** Collects how often the file refers to each symbol, making sure its node exists. */
  method CollectTargets(state: ProjectGraphState, parse: Parse, declared: map<DeclKey, SymbolId>, now: nat)
    returns (targets: map<SymbolId, nat>)
    requires Agree(declared, AliasesOf(parse.symbols))
    modifies state`nodes
    ensures IsTargets(parse, targets)
    ensures TargetsEntered(old(state.nodes), parse, targets, now, state.nodes)
  {
    targets := map[];
    for i := 0 to |parse.references|
      invariant targets == CollectedTargets(parse, i)
      invariant state.nodes == EnteredNodes(old(state.nodes), parse, i, now)
    {
      var site := parse.references[i];
      if site.count > 0 {
        DeclaredTarget(parse.symbols, declared, site.key);
        var id := if site.key in declared then declared[site.key] else DeclSymbol(site.key);
        EnsureDeclarationNode(state, id, site.kind, site.path, now);
        targets := targets[id := Lookup(targets, id) + MaxNat(site.count, 1)];
      }
    }
    AllCollected(parse);
    AllEntered(old(state.nodes), parse, now);
  }

  method EnsureDeclarationNode(state: ProjectGraphState, id: SymbolId, kind: int, path: string, now: nat)
    modifies state`nodes
    ensures state.nodes == Ensured(old(state.nodes), id, kind, path, now)
  {
    if id in state.nodes {
      state.nodes := state.nodes[id := state.nodes[id].(lastSeen := now)];
    } else {
      state.UpsertNode(id, Node(kind, path, now));
    }
  }

  // ----------------------------------------------------------------------- the file's edges

  /** Removes the file's edges of a kind and says where they led. */
  method DropFileEdges(state: ProjectGraphState, file: SymbolId, kind: EdgeKind) returns (removed: set<SymbolId>)
    modifies state`edges
    ensures state.edges == Without(old(state.edges), FromFile(file, kind))
    ensures removed == TargetsFrom(old(state.edges), file, kind)
  {
    removed := {};
    var edges, kept := state.edges, [];
    for i := 0 to |edges|
      invariant kept == Without(edges[..i], FromFile(file, kind))
      invariant removed == TargetsFrom(edges[..i], file, kind)
    {
      var e := edges[i];
      NextEdge(edges, i, file, kind);
      if e.kind == kind && e.from == file {
        removed := removed + {e.to};
      } else {
        kept := kept + [e];
      }
    }
    assert edges[..|edges|] == edges;
    state.edges := kept;
  }

  lemma NextEdge(edges: seq<Edge>, i: nat, file: SymbolId, kind: EdgeKind)
    requires i < |edges|
    ensures var gone := FromFile(file, kind)(edges[i]);
            && Without(edges[..i + 1], FromFile(file, kind)) == Without(edges[..i], FromFile(file, kind)) + (if gone then [] else [edges[i]])
            && TargetsFrom(edges[..i + 1], file, kind) == TargetsFrom(edges[..i], file, kind) + (if gone then {edges[i].to} else {})
  {
    assert edges[..i + 1] == edges[..i] + [edges[i]];
    WithoutAppend(edges[..i], edges[i], FromFile(file, kind));
  }

  /** Replaces the file's edges of a kind by one edge for each symbol of a set. */
  method ReplaceFileEdges(state: ProjectGraphState, file: SymbolId, kind: EdgeKind, weights: map<SymbolId, nat>, now: nat)
    returns (removed: set<SymbolId>, ghost order: seq<SymbolId>)
    modifies state`edges
    ensures removed == TargetsFrom(old(state.edges), file, kind) && Lists(order, weights.Keys)
    ensures state.edges == Replaced(old(state.edges), file, kind, order, weights, now)
  {
    removed := DropFileEdges(state, file, kind);
    ghost var kept := state.edges;
    order := [];
    var rest := weights.Keys;
    while rest != {}
      invariant rest <= weights.Keys && Lists(order, weights.Keys - rest)
      invariant state.edges == kept + FileEdges(file, kind, order, weights, now)
      decreases |rest|
    {
      var id :| id in rest;
      var edge := Edge(file, id, kind, MaxNat(weights[id], 1), now);
      NothingYet(old(state.edges), file, kind, order, weights, now, edge);
      UpsertNew(state.edges, edge);
      state.UpsertEdge(edge);
      assert FileEdges(file, kind, order + [id], weights, now) == FileEdges(file, kind, order, weights, now) + [edge];
      assert Lists(order + [id], weights.Keys - (rest - {id}));
      order := order + [id];
      rest := rest - {id};
    }
    assert weights.Keys - rest == weights.Keys;
  }

  /** An unlisted symbol has no edge of the kind from the file yet, so its edge is appended. */
  lemma NothingYet(edges: seq<Edge>, file: SymbolId, kind: EdgeKind, order: seq<SymbolId>, weights: map<SymbolId, nat>, now: nat, edge: Edge)
    requires edge.from == file && edge.kind == kind && edge.to !in order
    ensures !Has(Replaced(edges, file, kind, order, weights, now), edge)
  {
    var kept := Without(edges, FromFile(file, kind));
    forall i | 0 <= i < |kept|
      ensures !SameIdentity(kept[i], edge)
    {
      WithoutMember(edges, FromFile(file, kind), kept[i]);
    }
    forall i | 0 <= i < |order|
      ensures !SameIdentity(FileEdges(file, kind, order, weights, now)[i], edge)
    {
    }
  }

  method ReplaceFileContainsEdges(state: ProjectGraphState, file: SymbolId, ids: set<SymbolId>, now: nat)
    returns (removed: set<SymbolId>, ghost order: seq<SymbolId>)
    modifies state`edges
    ensures removed == TargetsFrom(old(state.edges), file, Contains) && Lists(order, ids)
    ensures state.edges == Replaced(old(state.edges), file, Contains, order, Ones(ids), now)
  {
    removed, order := ReplaceFileEdges(state, file, Contains, Ones(ids), now);
  }

  // ----------------------------------------------------------------------------- recounting

  /** The symbols in done are recounted; all others have what they had. */
  ghost predicate Recounting(before: MetricTable, done: set<SymbolId>, seen: set<SymbolId>, edges: seq<Edge>, now: nat, after: MetricTable) {
    && after.Keys == before.Keys + done
    && (forall id :: id in done ==> Counted(after[id], edges, id, id in seen) && after[id].updated == now)
    && (forall id :: id in after && id !in done ==> after[id] == before[id])
  }

  lemma RecountingNext(before: MetricTable, done: set<SymbolId>, seen: set<SymbolId>, edges: seq<Edge>, now: nat, mid: MetricTable, id: SymbolId, m: Metrics)
    requires Recounting(before, done, seen, edges, now, mid) && Counted(m, edges, id, id in seen) && m.updated == now
    ensures Recounting(before, done + {id}, seen, edges, now, mid[id := m])
  {
  }

  lemma RecountingDone(before: MetricTable, affected: set<SymbolId>, seen: set<SymbolId>, edges: seq<Edge>, now: nat, after: MetricTable)
    requires Recounting(before, affected, seen, edges, now, after)
    ensures after.Keys == before.Keys + affected && FreshlyCounted(before, affected, seen, edges, after)
    ensures forall id :: id in affected ==> after[id].updated == now
  {
  }

  /** Incoming contains edges and reference weights of the affected symbols. */
  ghost predicate Counts(edges: seq<Edge>, affected: set<SymbolId>, fileCounts: map<SymbolId, nat>, referenceCounts: map<SymbolId, nat>) {
    forall id :: id in affected ==>
      Lookup(fileCounts, id) == Total(edges, id, Contains, false) && Lookup(referenceCounts, id) == Total(edges, id, Reference, true)
  }

  method CountAffected(edges: seq<Edge>, affected: set<SymbolId>) returns (fileCounts: map<SymbolId, nat>, referenceCounts: map<SymbolId, nat>)
    ensures Counts(edges, affected, fileCounts, referenceCounts)
  {
    var wanted := (id: SymbolId) => id in affected;
    fileCounts := CountTargets(edges, Contains, false, wanted);
    referenceCounts := CountTargets(edges, Reference, true, wanted);
    assert forall id :: id in affected ==> wanted(id);
  }

  /** Enters the counts of one symbol; a declared one counts as referred to once. */
  method RecountOne(state: ProjectGraphState, ghost before: MetricTable, ghost done: set<SymbolId>, affected: set<SymbolId>, seen: set<SymbolId>,
                    fileCounts: map<SymbolId, nat>, referenceCounts: map<SymbolId, nat>, id: SymbolId, now: nat)
    requires Counts(state.edges, affected, fileCounts, referenceCounts) && id in affected
    requires Recounting(before, done, seen, state.edges, now, state.metrics)
    modifies state`metrics
    ensures Recounting(before, done + {id}, seen, state.edges, now, state.metrics)
  {
    assert Total(state.edges, id, Contains, false) == Lookup(fileCounts, id);
    assert Total(state.edges, id, Reference, true) == Lookup(referenceCounts, id);
    var m := if id in state.metrics then state.metrics[id] else NO_METRICS;
    m := m.(fileCount := Lookup(fileCounts, id), referenceCount := Lookup(referenceCounts, id), updated := now);
    if m.referenceCount == 0 && id in seen {
      m := m.(referenceCount := 1);
    }
    RecountingNext(before, done, seen, state.edges, now, state.metrics, id, m);
    state.SetMetrics(id, m);
  }

  /** Recounts the affected symbols; all others keep their metrics. */
  method RecountAffected(state: ProjectGraphState, affected: set<SymbolId>, seen: set<SymbolId>, now: nat)
    modifies state`metrics
    ensures state.metrics.Keys == old(state.metrics).Keys + affected
    ensures FreshlyCounted(old(state.metrics), affected, seen, state.edges, state.metrics)
    ensures forall id :: id in affected ==> state.metrics[id].updated == now
  {
    var fileCounts, referenceCounts := CountAffected(state.edges, affected);
    var rest := affected;
    while rest != {}
      invariant rest <= affected && Recounting(old(state.metrics), affected - rest, seen, state.edges, now, state.metrics)
      decreases |rest|
    {
      var id :| id in rest;
      RecountOne(state, old(state.metrics), affected - rest, affected, seen, fileCounts, referenceCounts, id, now);
      assert (affected - rest) + {id} == affected - (rest - {id});
      rest := rest - {id};
    }
    assert affected - rest == affected;
    RecountingDone(old(state.metrics), affected, seen, state.edges, now, state.metrics);
  }

  // ----------------------------------------------------------------------------- the update

  /** The part of an update that changes nodes and edges, up to the recount. */
  ghost predicate Rewired(g: Graph, r: Refresh, g': Graph) {
    && g'.edges == Stage3(g.edges, r)
    && g'.tombstones == g.tombstones
    && NodesUpdated(g.nodes, r, g'.nodes)
    && g'.metrics.Keys == (g.metrics.Keys + Seen(r.parse.symbols)) - AliasesOf(r.parse.symbols).Keys
    && (forall id :: id in g'.metrics && id !in Seen(r.parse.symbols) ==> g'.metrics[id] == g.metrics[id])
  }

  lemma KeysAfterMoves<V>(table: map<SymbolId, V>, symbols: seq<Declaration>, table': map<SymbolId, V>)
    requires Moved(table, AliasesOf(symbols).Keys, AliasesOf(symbols), table') && Seen(symbols) <= table.Keys
    ensures table'.Keys == table.Keys - AliasesOf(symbols).Keys
    ensures forall id :: id in table' && id !in Seen(symbols) ==> table'[id] == table[id]
  {
    var aliases := AliasesOf(symbols);
    AliasValues(symbols);
    NoAliasSources(symbols, DeclKey(""));
    forall id
      ensures id in table' <==> id in table && id !in aliases
    {
      assert Present(table, aliases.Keys, aliases, id) <==> id in table';
      assert forall k :: k in aliases ==> aliases[k] in aliases.Values;
    }
  }

  /** Brings the graph up to date with one parsed file. */
  method ApplyClangParse(state: ProjectGraphState, path: string, parse: Parse, now: nat) returns (ghost r: Refresh)
    requires Sound(state.Value())
    modifies state
    ensures IsRefresh(r) && r.file == FileSymbol(path) && r.parse == parse && r.now == now
    ensures Updated(old(state.Value()), r, state.Value())
    ensures Sound(state.Value())
    ensures ReferencesExact(old(state.metrics), old(state.edges)) ==> ReferencesExact(state.metrics, state.edges)
  {
    ghost var g := state.Value();
    var affected, seen;
    affected, seen, r := Rewire(state, path, parse, now);
    ghost var rewired := state.Value();
    RecountAffected(state, affected, seen, now);
    NoAliasAffected(g, r);
    RecountFromOld(g.metrics, AliasesOf(parse.symbols).Keys, seen, affected, state.edges, rewired.metrics, state.metrics);
    StepSound(g, Update(r), state.Value());
  }

  /** Recounting on top of entered symbols amounts to recounting on the old table. */
  lemma RecountFromOld(metrics: MetricTable, sources: set<SymbolId>, seen: set<SymbolId>, affected: set<SymbolId>,
                       edges: seq<Edge>, mid: MetricTable, metrics': MetricTable)
    requires affected !! sources && seen <= affected
    requires mid.Keys == (metrics.Keys + seen) - sources
    requires forall id :: id in mid && id !in seen ==> mid[id] == metrics[id]
    requires metrics'.Keys == mid.Keys + affected && FreshlyCounted(mid, affected, seen, edges, metrics')
    ensures metrics'.Keys == (metrics.Keys - sources) + affected && FreshlyCounted(metrics, affected, seen, edges, metrics')
  {
  }

  /** Alias sources lose their edges, so none of them is recounted. */
  lemma NoAliasAffected(g: Graph, r: Refresh)
    requires IsRefresh(r) && Sound(g)
    ensures Affected(g.edges, r) !! AliasesOf(r.parse.symbols).Keys
  {
    var aliases := AliasesOf(r.parse.symbols);
    var s1, s2 := Stage1(g.edges, r), Stage2(g.edges, r);
    NoAliasSources(r.parse.symbols, DeclKey(""));
    forall id | id in Affected(g.edges, r)
      ensures id !in aliases
    {
      if id in r.targets {
        TargetNotAlias(r.parse, r.parse.references, id);
      } else if id !in Seen(r.parse.symbols) {
        var e: Edge;
        if id in TargetsFrom(s1, r.file, Contains) {
          e :| e in s1 && FromFile(r.file, Contains)(e) && e.to == id;
        } else {
          e :| e in s2 && FromFile(r.file, Reference)(e) && e.to == id;
          WithoutMember(s1, FromFile(r.file, Contains), e);
        }
        var o := Stage1Edge(g.edges, r, e);
      }
    }
  }

  /** The file and its symbols are entered and aliases are resolved. */
  ghost predicate Resolved(g: Graph, file: SymbolId, symbols: seq<Declaration>, now: nat, g': Graph) {
    var aliases := AliasesOf(symbols);
    var touched := {file} + Seen(symbols);
    && g'.edges == ResolvedEdges(g.edges, aliases) && g'.tombstones == g.tombstones
    && g'.nodes.Keys == (g.nodes.Keys - aliases.Keys) + touched
    && (forall id :: id in g'.nodes ==> if id in touched then g'.nodes[id].lastSeen >= now else g'.nodes[id] == g.nodes[id])
    && g'.metrics.Keys == (g.metrics.Keys + Seen(symbols)) - aliases.Keys
    && (forall id :: id in g'.metrics && id !in Seen(symbols) ==> g'.metrics[id] == g.metrics[id])
    && g'.nodes[file] == Node(FILE_KIND, file.rest, now) && Described(symbols, file.rest, g'.nodes)
  }

  lemma DescribedStays(symbols: seq<Declaration>, path: string, nodes: Nodes, nodes': Nodes)
    requires Described(symbols, path, nodes) && SameKinds(nodes, nodes') && Seen(symbols) <= nodes'.Keys
    ensures Described(symbols, path, nodes')
  {
    forall i: nat | LastOfSymbol(symbols, i)
      ensures SymbolOf(symbols[i]) in nodes'
    {
      assert symbols[i] in symbols;
    }
  }

  lemma NodesResolved(nodes: Nodes, file: SymbolId, symbols: seq<Declaration>, now: nat, entered: Nodes, moved: Nodes)
    requires file.tag == File
    requires entered.Keys == nodes.Keys + {file} + Seen(symbols)
    requires forall id :: id in entered ==> if id in {file} + Seen(symbols) then entered[id].lastSeen >= now else entered[id] == nodes[id]
    requires Moved(entered, AliasesOf(symbols).Keys, AliasesOf(symbols), moved) && Stays(entered, moved)
    ensures moved.Keys == (nodes.Keys - AliasesOf(symbols).Keys) + ({file} + Seen(symbols))
    requires entered[file] == Node(FILE_KIND, file.rest, now) && Described(symbols, file.rest, entered)
    ensures forall id :: id in moved ==> if id in {file} + Seen(symbols) then moved[id].lastSeen >= now else moved[id] == nodes[id]
    ensures moved[file] == Node(FILE_KIND, file.rest, now) && Described(symbols, file.rest, moved)
  {
    NoAliasSources(symbols, DeclKey(""));
    KeysAfterMoves(entered, symbols, moved);
    OwnNodesMoved(file, symbols, entered, moved);
  }

  lemma OwnNodesMoved(file: SymbolId, symbols: seq<Declaration>, entered: Nodes, moved: Nodes)
    requires file in entered && file !in Seen(symbols) && Described(symbols, file.rest, entered)
    requires moved.Keys == entered.Keys - AliasesOf(symbols).Keys && file !in AliasesOf(symbols) && Seen(symbols) <= moved.Keys
    requires SameKinds(entered, moved) && forall id :: id in moved && id !in Seen(symbols) ==> moved[id] == entered[id]
    ensures moved[file] == entered[file] && Described(symbols, file.rest, moved)
  {
    DescribedStays(symbols, file.rest, entered, moved);
  }

  lemma EnteredAndMoved(g: Graph, file: SymbolId, symbols: seq<Declaration>, now: nat, entered: Graph, moved: Graph)
    requires file.tag == File
    requires SymbolsEntered(g.(nodes := g.nodes[file := Node(FILE_KIND, file.rest, now)]), symbols, file.rest, now, entered)
    requires GraphMoved(entered, AliasesOf(symbols).Keys, AliasesOf(symbols), moved.(edges := entered.edges))
    requires moved.edges == ResolvedEdges(entered.edges, AliasesOf(symbols))
    ensures Resolved(g, file, symbols, now, moved)
  {
    NodesResolved(g.nodes, file, symbols, now, entered.nodes, moved.nodes);
    KeysAfterMoves(entered.metrics, symbols, moved.metrics);
  }

  method EnterAndResolve(state: ProjectGraphState, file: SymbolId, symbols: seq<Declaration>, now: nat)
    returns (declared: map<DeclKey, SymbolId>, seen: set<SymbolId>)
    requires file.tag == File
    modifies state
    ensures Agree(declared, AliasesOf(symbols)) && seen == Seen(symbols)
    ensures Resolved(old(state.Value()), file, symbols, now, state.Value())
  {
    ghost var g := state.Value();
    state.UpsertNode(file, Node(FILE_KIND, file.rest, now));
    var aliases;
    aliases, declared, seen := EnterSymbols(state, file.rest, symbols, now);
    AliasesApart(symbols);
    ghost var entered := state.Value();
    ApplyAliases(state, aliases, now);
    EnteredAndMoved(g, file, symbols, now, entered, state.Value());
  }

  lemma AliasesApart(symbols: seq<Declaration>)
    ensures AliasesOf(symbols).Keys !! AliasesOf(symbols).Values
  {
    AliasValues(symbols);
    NoAliasSources(symbols, DeclKey(""));
  }

  lemma TargetsAfterResolving(g: Graph, r: Refresh, mid: Graph, nodes': Nodes)
    requires r.file.tag == File && IsTargets(r.parse, r.targets)
    requires Resolved(g, r.file, r.parse.symbols, r.now, mid) && TargetsEntered(mid.nodes, r.parse, r.targets, r.now, nodes')
    ensures NodesUpdated(g.nodes, r, nodes')
  {
    TargetTags(r.parse, r.targets);
    OwnNodesStay(g, r, mid, nodes');
    TargetNodesNew(g, r, mid, nodes');
  }

  lemma OwnNodesStay(g: Graph, r: Refresh, mid: Graph, nodes': Nodes)
    requires Resolved(g, r.file, r.parse.symbols, r.now, mid) && TargetsEntered(mid.nodes, r.parse, r.targets, r.now, nodes')
    requires r.file !in r.targets
    ensures nodes'[r.file] == Node(FILE_KIND, r.file.rest, r.now) && Described(r.parse.symbols, r.file.rest, nodes')
  {
    DescribedStays(r.parse.symbols, r.file.rest, mid.nodes, nodes');
  }

  lemma TargetNodesNew(g: Graph, r: Refresh, mid: Graph, nodes': Nodes)
    requires IsTargets(r.parse, r.targets)
    requires Resolved(g, r.file, r.parse.symbols, r.now, mid) && TargetsEntered(mid.nodes, r.parse, r.targets, r.now, nodes')
    ensures forall id :: id in nodes' && id !in {r.file} + Seen(r.parse.symbols) && id in r.targets ==>
              if id in g.nodes then nodes'[id] == g.nodes[id].(lastSeen := r.now) else FromSite(r.parse, id, nodes'[id])
  {
    forall id | id in nodes' && id !in {r.file} + Seen(r.parse.symbols) && id in r.targets
      ensures if id in g.nodes then nodes'[id] == g.nodes[id].(lastSeen := r.now) else FromSite(r.parse, id, nodes'[id])
    {
      assert Lookup(r.targets, id) == TargetWeight(r.parse, r.parse.references, id);
      TargetNotAlias(r.parse, r.parse.references, id);
      assert id in mid.nodes <==> id in g.nodes;
    }
  }

  /** Replaces the file's edges of both kinds and says where the old ones led. */
  method ReplaceOwnEdges(state: ProjectGraphState, file: SymbolId, seen: set<SymbolId>, targets: map<SymbolId, nat>, now: nat)
    returns (removed: set<SymbolId>, ghost seenOrder: seq<SymbolId>, ghost targetOrder: seq<SymbolId>)
    modifies state`edges
    ensures Lists(seenOrder, seen) && Lists(targetOrder, targets.Keys)
    ensures var mid := Replaced(old(state.edges), file, Contains, seenOrder, Ones(seen), now);
            && state.edges == Replaced(mid, file, Reference, targetOrder, targets, now)
            && removed == TargetsFrom(old(state.edges), file, Contains) + TargetsFrom(mid, file, Reference)
  {
    var contained, referenced;
    contained, seenOrder := ReplaceFileContainsEdges(state, file, seen, now);
    referenced, targetOrder := ReplaceFileEdges(state, file, Reference, targets, now);
    removed := contained + referenced;
  }

  /** Enters the file, its symbols and what it refers to. */
  method EnterAll(state: ProjectGraphState, path: string, parse: Parse, now: nat)
    returns (targets: map<SymbolId, nat>, seen: set<SymbolId>, ghost mid: Graph)
    modifies state
    ensures seen == Seen(parse.symbols) && IsTargets(parse, targets)
    ensures Resolved(old(state.Value()), FileSymbol(path), parse.symbols, now, mid)
    ensures TargetsEntered(mid.nodes, parse, targets, now, state.nodes)
    ensures state.edges == mid.edges && state.metrics == mid.metrics && state.tombstones == mid.tombstones
  {
    var declared;
    declared, seen := EnterAndResolve(state, FileSymbol(path), parse.symbols, now);
    mid := state.Value();
    targets := CollectTargets(state, parse, declared, now);
  }

  /** Everything an update does before the recount. */
  method Rewire(state: ProjectGraphState, path: string, parse: Parse, now: nat)
    returns (affected: set<SymbolId>, seen: set<SymbolId>, ghost r: Refresh)
    modifies state
    ensures IsRefresh(r) && r.file == FileSymbol(path) && r.parse == parse && r.now == now
    ensures Rewired(old(state.Value()), r, state.Value())
    ensures affected == Affected(old(state.edges), r) && seen == Seen(parse.symbols)
  {
    var file := FileSymbol(path);
    var targets, removed;
    ghost var mid, seenOrder, targetOrder;
    targets, seen, mid := EnterAll(state, path, parse, now);
    removed, seenOrder, targetOrder := ReplaceOwnEdges(state, file, seen, targets, now);
    affected := removed + seen + targets.Keys;
    r := Refresh(file, parse, targets, now, seenOrder, targetOrder);
    RewiredFrom(old(state.Value()), r, mid, state.Value(), removed);
  }

  /** Resolving, entering the targets and replacing the file's edges make up what an update does before the recount. */
  lemma RewiredFrom(g: Graph, r: Refresh, mid: Graph, g': Graph, removed: set<SymbolId>)
    requires r.file.tag == File && IsTargets(r.parse, r.targets)
    requires Resolved(g, r.file, r.parse.symbols, r.now, mid) && TargetsEntered(mid.nodes, r.parse, r.targets, r.now, g'.nodes)
    requires g'.edges == Replaced(Replaced(mid.edges, r.file, Contains, r.seenOrder, Ones(Seen(r.parse.symbols)), r.now),
                                  r.file, Reference, r.targetOrder, r.targets, r.now)
    requires g'.tombstones == mid.tombstones && g'.metrics == mid.metrics
    requires removed == TargetsFrom(mid.edges, r.file, Contains)
                        + TargetsFrom(Replaced(mid.edges, r.file, Contains, r.seenOrder, Ones(Seen(r.parse.symbols)), r.now), r.file, Reference)
    ensures Rewired(g, r, g') && removed + Seen(r.parse.symbols) + r.targets.Keys == Affected(g.edges, r)
  {
    TargetsAfterResolving(g, r, mid, g'.nodes);
  }

  // ------------------------------------------------------------------------------ whole runs

  /** One step of a run: an update or a compaction. */
  datatype Step = Update(refresh: Refresh) | Compaction(limits: Limits, gone: set<SymbolId>)

  ghost predicate StepsTo(g: Graph, step: Step, g': Graph) {
    match step
    case Update(r) => IsRefresh(r) && Updated(g, r, g')
    case Compaction(limits, gone) => Evicts(g, limits, gone) && g' == CompactGraph(g, limits, gone)
  }

  ghost predicate IsRun(graphs: seq<Graph>, steps: seq<Step>) {
    && |graphs| == |steps| + 1 && graphs[0] == EMPTY
    && forall i :: 0 <= i < |steps| ==> StepsTo(graphs[i], steps[i], graphs[i + 1])
  }

  lemma StepSound(g: Graph, step: Step, g': Graph)
    requires Sound(g) && StepsTo(g, step, g')
    ensures Sound(g')
    ensures step.Update? && ReferencesExact(g.metrics, g.edges) ==> ReferencesExact(g'.metrics, g'.edges)
  {
    match step
    case Update(r) =>
      UpdateSound(g, r, g');
      if ReferencesExact(g.metrics, g.edges) {
        UpdateReferences(g, r, g');
      }
    case Compaction(limits, gone) =>
      CompactionSound(g, limits, gone);
  }

  /**
   In every run from the empty graph every state is sound: whatever has metrics has the
   file count of a full recount. As long as nothing is compacted reference counts are exact too.
   */
  lemma {:induction false} RunsSound(graphs: seq<Graph>, steps: seq<Step>, n: nat)
    requires IsRun(graphs, steps) && n <= |steps|
    ensures Sound(graphs[n])
    ensures (forall i :: 0 <= i < n ==> steps[i].Update?) ==> ReferencesExact(graphs[n].metrics, graphs[n].edges)
  {
    if n > 0 {
      var m := n - 1;
      RunsSound(graphs, steps, m);
      assert StepsTo(graphs[m], steps[m], graphs[m + 1]);
      StepSound(graphs[m], steps[m], graphs[n]);
    }
  }
}
