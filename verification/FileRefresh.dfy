/**
 What refreshing one file does to the project graph, as values: aliases are resolved, the
 file's own edges are replaced, and only the symbols this may have touched are recounted.
 The recount of the touched symbols keeps every count exact.
 */
module FileRefresh {
  import opened Bounds
  import opened GraphEdges
  import opened GraphState

  // ------------------------------------------------------------------------- the parse

  /** A declaration site: the printed kind, path, line and column. */
  datatype DeclKey = DeclKey(text: string)

  /** A declared symbol; usr and scope are trimmed and empty when absent. */
  datatype Declaration = Declaration(key: DeclKey, usr: string, scope: string, kindName: string, name: string, kind: int)

  /** A declaration site, with its path once more, and how often the file refers to it. */
  datatype ReferenceSite = ReferenceSite(key: DeclKey, kind: int, path: string, count: nat)

  datatype Parse = Parse(symbols: seq<Declaration>, references: seq<ReferenceSite>)

  /** A bar inside a component would end it. */
  function Sanitize(raw: string): string {
    if |raw| == 0 then "" else (if raw[0] == '|' then "%7C" else [raw[0]]) + Sanitize(raw[1..])
  }

  function DeclSymbol(key: DeclKey): SymbolId { SymbolId(Decl, key.text) }

  function FileSymbol(path: string): SymbolId { SymbolId(File, path) }

  function LegacyOf(d: Declaration): SymbolId { SymbolId(Bucket, d.kindName + "|" + Sanitize(d.name)) }

  function SymbolOf(d: Declaration): (id: SymbolId)
    ensures id.tag != Decl && id.tag != File
  {
    if d.usr != "" then SymbolId(Usr, Sanitize(d.usr))
    else if d.scope != "" then SymbolId(Scoped, d.kindName + "|" + Sanitize(d.scope) + "|" + Sanitize(d.name))
    else LegacyOf(d)
  }

  function Seen(symbols: seq<Declaration>): set<SymbolId> { set d | d in symbols :: SymbolOf(d) }

  /** Declaration sites resolve to the symbols declared there; a later declaration wins. */
  function AliasesOf(symbols: seq<Declaration>): (aliases: Aliases)
    ensures forall id :: id in aliases ==> id.tag == Decl && aliases[id] in Seen(symbols)
  {
    if |symbols| == 0 then map[] else
      var last := symbols[|symbols| - 1];
      AliasesOf(symbols[..|symbols| - 1])[DeclSymbol(last.key) := SymbolOf(last)]
  }

  lemma AliasValues(symbols: seq<Declaration>)
    ensures AliasesOf(symbols).Values <= Seen(symbols)
  {
    forall v | v in AliasesOf(symbols).Values
      ensures v in Seen(symbols)
    {
      var k :| k in AliasesOf(symbols) && AliasesOf(symbols)[k] == v;
    }
  }

  /** The symbol a reference counts for. */
  function TargetOf(symbols: seq<Declaration>, key: DeclKey): SymbolId {
    Resolve(AliasesOf(symbols), DeclSymbol(key))
  }

  /** How often the file refers to a symbol. */
  function TargetWeight(parse: Parse, references: seq<ReferenceSite>, id: SymbolId): nat {
    if |references| == 0 then 0 else
      var last := references[|references| - 1];
      TargetWeight(parse, references[..|references| - 1], id) + (if TargetOf(parse.symbols, last.key) == id then last.count else 0)
  }

  /** Weights of the symbols the file refers to: exactly those with at least one occurrence. */
  ghost predicate IsTargets(parse: Parse, targets: map<SymbolId, nat>) {
    && (forall id :: Lookup(targets, id) == TargetWeight(parse, parse.references, id))
    && (forall id :: id in targets ==> targets[id] >= 1)
  }

  /** Neither declared symbols nor reference targets are alias sources. */
  lemma NoAliasSources(symbols: seq<Declaration>, key: DeclKey)
    ensures TargetOf(symbols, key) !in AliasesOf(symbols)
    ensures AliasesOf(symbols).Keys !! Seen(symbols)
  {
    var id := TargetOf(symbols, key);
    var aliases := AliasesOf(symbols);
    if DeclSymbol(key) in aliases {
      assert id in Seen(symbols);
    }
  }

  lemma {:induction false} TargetNotAlias(parse: Parse, references: seq<ReferenceSite>, id: SymbolId)
    requires TargetWeight(parse, references, id) >= 1
    ensures id !in AliasesOf(parse.symbols)
    ensures exists r :: r in references && TargetOf(parse.symbols, r.key) == id && r.count >= 1
  {
    var last := references[|references| - 1];
    if TargetOf(parse.symbols, last.key) == id && last.count >= 1 {
      NoAliasSources(parse.symbols, last.key);
      assert last in references;
    } else {
      TargetNotAlias(parse, references[..|references| - 1], id);
    }
  }

  /** No reference target is a file. */
  lemma TargetTags(parse: Parse, targets: map<SymbolId, nat>)
    requires IsTargets(parse, targets)
    ensures forall id :: id in targets ==> id.tag != File
  {
    forall id | id in targets
      ensures id.tag != File
    {
      assert Lookup(targets, id) == TargetWeight(parse, parse.references, id);
      TargetNotAlias(parse, parse.references, id);
      var site :| site in parse.references && TargetOf(parse.symbols, site.key) == id && site.count >= 1;
    }
  }

  // ------------------------------------------------------------------- replacing edges

  function FromFile(file: SymbolId, kind: EdgeKind): EdgeTest {
    (e: Edge) => e.kind == kind && e.from == file
  }

  /** The targets of the file's edges of a kind. */
  function TargetsFrom(edges: seq<Edge>, file: SymbolId, kind: EdgeKind): set<SymbolId> {
    set e | e in edges && FromFile(file, kind)(e) :: e.to
  }

  /** A listing of a set in some order. */
  ghost predicate Lists(order: seq<SymbolId>, ids: set<SymbolId>) {
    && (forall i, j :: 0 <= i < j < |order| ==> order[i] != order[j])
    && (forall id :: id in order <==> id in ids)
  }

  function FileEdges(file: SymbolId, kind: EdgeKind, order: seq<SymbolId>, weights: map<SymbolId, nat>, now: nat): seq<Edge> {
    seq(|order|, i requires 0 <= i < |order| => Edge(file, order[i], kind, MaxNat(Lookup(weights, order[i]), 1), now))
  }

  function Replaced(edges: seq<Edge>, file: SymbolId, kind: EdgeKind, order: seq<SymbolId>, weights: map<SymbolId, nat>, now: nat): seq<Edge> {
    Without(edges, FromFile(file, kind)) + FileEdges(file, kind, order, weights, now)
  }

  lemma ReplacedKeeps(edges: seq<Edge>, file: SymbolId, kind: EdgeKind, order: seq<SymbolId>, weights: map<SymbolId, nat>, now: nat)
    requires Unique(edges) && Weighted(edges) && FromFiles(edges) && file.tag == File
    requires forall i, j :: 0 <= i < j < |order| ==> order[i] != order[j]
    ensures var after := Replaced(edges, file, kind, order, weights, now);
            Unique(after) && Weighted(after) && FromFiles(after)
  {
    var kept := Without(edges, FromFile(file, kind));
    WithoutUnique(edges, FromFile(file, kind));
    WithoutKeeps(edges, FromFile(file, kind));
    forall i | 0 <= i < |kept|
      ensures !(kept[i].kind == kind && kept[i].from == file)
    {
      WithoutMember(edges, FromFile(file, kind), kept[i]);
    }
  }

  /** Selectors that ignore the file's edges of the kind see no change. */
  lemma ReplacedOthers(edges: seq<Edge>, file: SymbolId, kind: EdgeKind, order: seq<SymbolId>, weights: map<SymbolId, nat>, now: nat, sel: Selector)
    requires forall to :: !sel(file, to, kind)
    ensures var after := Replaced(edges, file, kind, order, weights, now);
            Count(after, sel) == Count(edges, sel) && Weight(after, sel) == Weight(edges, sel)
  {
    var added := FileEdges(file, kind, order, weights, now);
    WithoutCount(edges, FromFile(file, kind), sel);
    CountConcat(Without(edges, FromFile(file, kind)), added, sel);
    CountNone(added, sel);
  }

  /** A symbol that neither loses nor gains an edge of the file keeps its counts. */
  lemma ReplacedInto(edges: seq<Edge>, file: SymbolId, kind: EdgeKind, order: seq<SymbolId>, weights: map<SymbolId, nat>, now: nat, id: SymbolId, k: EdgeKind)
    requires id !in order && id !in TargetsFrom(edges, file, kind)
    ensures var after := Replaced(edges, file, kind, order, weights, now);
            Count(after, Into(id, k)) == Count(edges, Into(id, k)) && Weight(after, Into(id, k)) == Weight(edges, Into(id, k))
  {
    var added := FileEdges(file, kind, order, weights, now);
    var sel := Into(id, k);
    forall i | 0 <= i < |added|
      ensures !Picks(sel, added[i])
    {
      assert added[i].to == order[i];
    }
    WithoutCount(edges, FromFile(file, kind), sel);
    CountConcat(Without(edges, FromFile(file, kind)), added, sel);
    CountNone(added, sel);
  }

  /** After the replacement the file has exactly the listed edges of the kind. */
  lemma ReplacedExact(edges: seq<Edge>, file: SymbolId, kind: EdgeKind, order: seq<SymbolId>, weights: map<SymbolId, nat>, now: nat, to: SymbolId)
    requires forall i, j :: 0 <= i < j < |order| ==> order[i] != order[j]
    ensures var after := Replaced(edges, file, kind, order, weights, now);
            && Count(after, Link(file, to, kind)) == (if to in order then 1 else 0)
            && Weight(after, Link(file, to, kind)) == (if to in order then MaxNat(Lookup(weights, to), 1) else 0)
  {
    var kept := Without(edges, FromFile(file, kind));
    var added := FileEdges(file, kind, order, weights, now);
    var sel := Link(file, to, kind);
    forall i | 0 <= i < |kept|
      ensures !Picks(sel, kept[i])
    {
      WithoutMember(edges, FromFile(file, kind), kept[i]);
    }
    CountNone(kept, sel);
    CountConcat(kept, added, sel);
    ListedOnce(file, kind, order, weights, now, to);
  }

  lemma {:induction false} ListedOnce(file: SymbolId, kind: EdgeKind, order: seq<SymbolId>, weights: map<SymbolId, nat>, now: nat, to: SymbolId)
    requires forall i, j :: 0 <= i < j < |order| ==> order[i] != order[j]
    ensures var added := FileEdges(file, kind, order, weights, now);
            && Count(added, Link(file, to, kind)) == (if to in order then 1 else 0)
            && Weight(added, Link(file, to, kind)) == (if to in order then MaxNat(Lookup(weights, to), 1) else 0)
  {
    if |order| > 0 {
      var added := FileEdges(file, kind, order, weights, now);
      assert added[1..] == FileEdges(file, kind, order[1..], weights, now);
      assert forall i :: 0 <= i < |order[1..]| ==> order[1..][i] == order[i + 1];
      ListedOnce(file, kind, order[1..], weights, now, to);
      assert to in order <==> to == order[0] || to in order[1..];
    }
  }

  // ------------------------------------------------------------------------ the refresh

  function ResolvedEdges(edges: seq<Edge>, aliases: Aliases): seq<Edge> {
    if aliases == map[] then edges else Aliased(edges, aliases)
  }

  function Ones(ids: set<SymbolId>): map<SymbolId, nat> { map id | id in ids :: 1 }

  /** What one run of the update consists of; the orders are those in which sets were listed. */
  datatype Refresh = Refresh(file: SymbolId, parse: Parse, targets: map<SymbolId, nat>, now: nat,
                             seenOrder: seq<SymbolId>, targetOrder: seq<SymbolId>)

  ghost predicate IsRefresh(r: Refresh) {
    && r.file.tag == File
    && IsTargets(r.parse, r.targets)
    && Lists(r.seenOrder, Seen(r.parse.symbols))
    && Lists(r.targetOrder, r.targets.Keys)
  }

  function Stage1(edges: seq<Edge>, r: Refresh): seq<Edge> {
    ResolvedEdges(edges, AliasesOf(r.parse.symbols))
  }

  function Stage2(edges: seq<Edge>, r: Refresh): seq<Edge> {
    Replaced(Stage1(edges, r), r.file, Contains, r.seenOrder, Ones(Seen(r.parse.symbols)), r.now)
  }

  function Stage3(edges: seq<Edge>, r: Refresh): seq<Edge> {
    Replaced(Stage2(edges, r), r.file, Reference, r.targetOrder, r.targets, r.now)
  }

  /** The symbols whose counts are taken again. */
  function Affected(edges: seq<Edge>, r: Refresh): set<SymbolId> {
    TargetsFrom(Stage1(edges, r), r.file, Contains) + TargetsFrom(Stage2(edges, r), r.file, Reference)
    + Seen(r.parse.symbols) + r.targets.Keys
  }

  predicate Counted(m: Metrics, edges: seq<Edge>, id: SymbolId, seen: bool) {
    && m.fileCount == Count(edges, Into(id, Contains))
    && m.referenceCount == (var w := Weight(edges, Into(id, Reference)); if w == 0 && seen then 1 else w)
  }

  /** Affected symbols carry fresh counts, all others what they had. */
  ghost predicate FreshlyCounted(metrics: MetricTable, affected: set<SymbolId>, seen: set<SymbolId>, edges: seq<Edge>, metrics': MetricTable) {
    && (forall id :: id in affected ==> id in metrics' && Counted(metrics'[id], edges, id, id in seen))
    && (forall id :: id in metrics' && id !in affected ==> id in metrics && metrics'[id] == metrics[id])
  }

  /** The i-th declaration is the last one of its symbol. */
  ghost predicate LastOfSymbol(symbols: seq<Declaration>, i: nat) {
    i < |symbols| && forall j :: i < j < |symbols| ==> SymbolOf(symbols[j]) != SymbolOf(symbols[i])
  }

  /** Every declared symbol has the kind of its last declaration and the path of the file. */
  ghost predicate Described(symbols: seq<Declaration>, path: string, nodes: Nodes) {
    forall i: nat :: LastOfSymbol(symbols, i) ==>
      SymbolOf(symbols[i]) in nodes && nodes[SymbolOf(symbols[i])].kind == symbols[i].kind && nodes[SymbolOf(symbols[i])].path == path
  }

  /** A node made for a reference has the kind and path of a site that refers to the symbol. */
  ghost predicate FromSite(parse: Parse, id: SymbolId, node: Node) {
    exists k :: 0 <= k < |parse.references| && parse.references[k].count > 0 && TargetOf(parse.symbols, parse.references[k].key) == id
             && node.kind == parse.references[k].kind && node.path == parse.references[k].path
  }

  /** Alias sources go; the file, its symbols and its targets are there, and are what the parse says they are. */
  ghost predicate NodesUpdated(nodes: Nodes, r: Refresh, nodes': Nodes) {
    var own := {r.file} + Seen(r.parse.symbols);
    var touched := own + r.targets.Keys;
    && nodes'.Keys == (nodes.Keys - AliasesOf(r.parse.symbols).Keys) + touched
    && (forall id :: id in nodes' && id !in touched ==> nodes'[id] == nodes[id])
    && (forall id :: id in nodes' && id in touched ==> nodes'[id].lastSeen >= r.now)
    && nodes'[r.file] == Node(FILE_KIND, r.file.rest, r.now)
    && Described(r.parse.symbols, r.file.rest, nodes')
    && (forall id :: id in nodes' && id !in own && id in r.targets ==>
          if id in nodes then nodes'[id] == nodes[id].(lastSeen := r.now) else FromSite(r.parse, id, nodes'[id]))
  }

  /** The graph after an update, in terms of the graph before it. */
  ghost predicate Updated(g: Graph, r: Refresh, g': Graph) {
    var aliases := AliasesOf(r.parse.symbols);
    && g'.edges == Stage3(g.edges, r)
    && g'.tombstones == g.tombstones
    && NodesUpdated(g.nodes, r, g'.nodes)
    && g'.metrics.Keys == (g.metrics.Keys - aliases.Keys) + Affected(g.edges, r)
    && FreshlyCounted(g.metrics, Affected(g.edges, r), Seen(r.parse.symbols), g'.edges, g'.metrics)
    && (forall id :: id in Affected(g.edges, r) ==> g'.metrics[id].updated == r.now)
  }

  lemma Stage1Keeps(edges: seq<Edge>, r: Refresh)
    requires Unique(edges) && Weighted(edges) && FromFiles(edges)
    ensures Unique(Stage1(edges, r)) && Weighted(Stage1(edges, r)) && FromFiles(Stage1(edges, r))
  {
    AliasedKeeps(edges, AliasesOf(r.parse.symbols));
  }

  /** A symbol no alias names keeps its counts when aliases are resolved. */
  lemma Stage1Into(edges: seq<Edge>, r: Refresh, id: SymbolId, kind: EdgeKind)
    requires Unique(edges) && Weighted(edges) && FromFiles(edges)
    requires id !in AliasesOf(r.parse.symbols).Keys && id !in Seen(r.parse.symbols)
    ensures Count(Stage1(edges, r), Into(id, kind)) == Count(edges, Into(id, kind))
    ensures Weight(Stage1(edges, r), Into(id, kind)) == Weight(edges, Into(id, kind))
  {
    var aliases := AliasesOf(r.parse.symbols);
    if aliases != map[] {
      AliasValues(r.parse.symbols);
      AliasedCount(edges, aliases, id, kind);
      AliasedWeight(edges, aliases, Into(id, kind));
      forall i | 0 <= i < |edges|
        ensures Picks(After(Into(id, kind), aliases), edges[i]) == Picks(Into(id, kind), edges[i])
      {
        ResolvesTo(aliases, edges[i].to, id);
      }
      CountAgree(edges, After(Into(id, kind), aliases), Into(id, kind));
    }
  }

  /** The recount misses nothing: whatever is not recounted has not changed. */
  lemma UnaffectedUnchanged(edges: seq<Edge>, r: Refresh, id: SymbolId, kind: EdgeKind)
    requires Unique(edges) && Weighted(edges) && FromFiles(edges) && IsRefresh(r)
    requires id !in AliasesOf(r.parse.symbols) && id !in Affected(edges, r)
    ensures Count(Stage3(edges, r), Into(id, kind)) == Count(edges, Into(id, kind))
    ensures Weight(Stage3(edges, r), Into(id, kind)) == Weight(edges, Into(id, kind))
  {
    Stage1Into(edges, r, id, kind);
    ReplacedInto(Stage1(edges, r), r.file, Contains, r.seenOrder, Ones(Seen(r.parse.symbols)), r.now, id, kind);
    ReplacedInto(Stage2(edges, r), r.file, Reference, r.targetOrder, r.targets, r.now, id, kind);
  }

  lemma Stage3Keeps(edges: seq<Edge>, r: Refresh)
    requires Unique(edges) && Weighted(edges) && FromFiles(edges) && IsRefresh(r)
    ensures Unique(Stage3(edges, r)) && Weighted(Stage3(edges, r)) && FromFiles(Stage3(edges, r))
  {
    Stage1Keeps(edges, r);
    ReplacedKeeps(Stage1(edges, r), r.file, Contains, r.seenOrder, Ones(Seen(r.parse.symbols)), r.now);
    ReplacedKeeps(Stage2(edges, r), r.file, Reference, r.targetOrder, r.targets, r.now);
  }

  // -------------------------------------------------------------------- what it conserves

  /** The refreshed file contains exactly what the parse declares, once each. */
  lemma RefreshedContains(edges: seq<Edge>, r: Refresh, id: SymbolId)
    requires IsRefresh(r)
    ensures Count(Stage3(edges, r), Link(r.file, id, Contains)) == (if id in Seen(r.parse.symbols) then 1 else 0)
    ensures Weight(Stage3(edges, r), Link(r.file, id, Contains)) == (if id in Seen(r.parse.symbols) then 1 else 0)
  {
    ReplacedExact(Stage1(edges, r), r.file, Contains, r.seenOrder, Ones(Seen(r.parse.symbols)), r.now, id);
    ReplacedOthers(Stage2(edges, r), r.file, Reference, r.targetOrder, r.targets, r.now, Link(r.file, id, Contains));
  }

  /** The refreshed file refers to exactly the parse's targets, with their occurrence counts. */
  lemma RefreshedReferences(edges: seq<Edge>, r: Refresh, id: SymbolId)
    requires IsRefresh(r)
    ensures Weight(Stage3(edges, r), Link(r.file, id, Reference)) == TargetWeight(r.parse, r.parse.references, id)
    ensures Count(Stage3(edges, r), Link(r.file, id, Reference)) == (if TargetWeight(r.parse, r.parse.references, id) > 0 then 1 else 0)
  {
    ReplacedExact(Stage2(edges, r), r.file, Reference, r.targetOrder, r.targets, r.now, id);
    assert Lookup(r.targets, id) == TargetWeight(r.parse, r.parse.references, id);
  }

  /** Everything else keeps its weight, under the new names. */
  lemma OthersConserved(edges: seq<Edge>, r: Refresh, sel: Selector)
    requires IsRefresh(r) && Weighted(edges)
    requires forall to :: !sel(r.file, to, Contains) && !sel(r.file, to, Reference)
    ensures Weight(Stage3(edges, r), sel) == Weight(edges, After(sel, AliasesOf(r.parse.symbols)))
  {
    var aliases := AliasesOf(r.parse.symbols);
    ReplacedOthers(Stage1(edges, r), r.file, Contains, r.seenOrder, Ones(Seen(r.parse.symbols)), r.now, sel);
    ReplacedOthers(Stage2(edges, r), r.file, Reference, r.targetOrder, r.targets, r.now, sel);
    if aliases != map[] {
      AliasedWeight(edges, aliases, sel);
    } else {
      forall i | 0 <= i < |edges|
        ensures Picks(After(sel, aliases), edges[i]) == Picks(sel, edges[i])
      {
        assert Resolve(aliases, edges[i].from) == edges[i].from && Resolve(aliases, edges[i].to) == edges[i].to;
      }
      CountAgree(edges, After(sel, aliases), sel);
    }
  }

  function FromOthers(file: SymbolId): Selector { (f, t, k) => f != file }

  /** The total weight of all other files' edges does not change. */
  lemma OtherFilesTotal(edges: seq<Edge>, r: Refresh)
    requires IsRefresh(r) && Weighted(edges) && FromFiles(edges)
    ensures Weight(Stage3(edges, r), FromOthers(r.file)) == Weight(edges, FromOthers(r.file))
  {
    var aliases := AliasesOf(r.parse.symbols);
    var sel := FromOthers(r.file);
    OthersConserved(edges, r, sel);
    forall i | 0 <= i < |edges|
      ensures Picks(After(sel, aliases), edges[i]) == Picks(sel, edges[i])
    {
      assert Resolve(aliases, edges[i].from) == edges[i].from;
    }
    CountAgree(edges, After(sel, aliases), sel);
  }

  // ----------------------------------------------------------------- what every run keeps

  lemma {:induction false} PickedCounts(edges: seq<Edge>, i: nat, sel: Selector)
    requires i < |edges| && Picks(sel, edges[i])
    ensures Count(edges, sel) >= 1
  {
    if i > 0 {
      assert edges[1..][i - 1] == edges[i];
      PickedCounts(edges[1..], i - 1, sel);
    }
  }

  /** An edge the file does not own stems from an old edge with resolved ends. */
  lemma OthersEdge(edges: seq<Edge>, r: Refresh, e: Edge) returns (o: Edge)
    requires FromFiles(edges) && IsRefresh(r) && e in Stage3(edges, r)
    requires e.from != r.file || (e.kind != Contains && e.kind != Reference)
    ensures o in edges && e.from == o.from && e.to == Resolve(AliasesOf(r.parse.symbols), o.to)
  {
    WithoutMember(Stage2(edges, r), FromFile(r.file, Reference), e);
    WithoutMember(Stage1(edges, r), FromFile(r.file, Contains), e);
    o := Stage1Edge(edges, r, e);
  }

  lemma RenamedFrom(edges: seq<Edge>, aliases: Aliases, i: nat) returns (o: Edge)
    requires FromFiles(edges) && i < |Aliased(edges, aliases)|
    requires forall id :: id in aliases ==> id.tag == Decl
    ensures var e := Aliased(edges, aliases)[i];
            o in edges && e.from == o.from && e.to == Resolve(aliases, o.to)
  {
    var renamed := Rename(edges, aliases);
    var e := Aliased(edges, aliases)[i];
    assert SameIdentity(Aliased(edges, aliases)[i], e);
    UpsertAllHas([], renamed, e);
    var k :| 0 <= k < |renamed| && SameIdentity(renamed[k], e);
    assert renamed[k] == Renamed(aliases, edges[k]);
    o := edges[k];
  }

  /** The ends of an old edge, resolved, are nodes of the new graph. */
  lemma ResolvedInNodes(g: Graph, r: Refresh, nodes': Nodes, o: Edge)
    requires Sound(g) && NodesUpdated(g.nodes, r, nodes') && o in g.edges
    ensures o.from in nodes' && Resolve(AliasesOf(r.parse.symbols), o.to) in nodes'
  {
    var i :| 0 <= i < |g.edges| && g.edges[i] == o;
    assert o.from in g.nodes && o.to in g.nodes && o.from.tag == File;
    assert o.to in AliasesOf(r.parse.symbols) ==> AliasesOf(r.parse.symbols)[o.to] in Seen(r.parse.symbols);
  }

  /** The ends of an edge the file owns are nodes of the new graph. */
  lemma OwnInNodes(g: Graph, r: Refresh, g': Graph, i: nat)
    requires IsRefresh(r) && Updated(g, r, g') && i < |g'.edges|
    requires g'.edges[i].from == r.file && (g'.edges[i].kind == Contains || g'.edges[i].kind == Reference)
    ensures g'.edges[i].from in g'.nodes && g'.edges[i].to in g'.nodes
  {
    var e := g'.edges[i];
    PickedCounts(g'.edges, i, Link(r.file, e.to, e.kind));
    RefreshedContains(g.edges, r, e.to);
    RefreshedReferences(g.edges, r, e.to);
    assert Lookup(r.targets, e.to) == TargetWeight(r.parse, r.parse.references, e.to);
  }

  lemma EdgesStayInNodes(g: Graph, r: Refresh, g': Graph)
    requires Sound(g) && IsRefresh(r) && Updated(g, r, g')
    ensures NoDangling(g'.nodes, g'.edges)
  {
    forall i | 0 <= i < |g'.edges|
      ensures g'.edges[i].from in g'.nodes && g'.edges[i].to in g'.nodes
    {
      var e := g'.edges[i];
      if e.from == r.file && (e.kind == Contains || e.kind == Reference) {
        OwnInNodes(g, r, g', i);
      } else {
        var o := OthersEdge(g.edges, r, e);
        ResolvedInNodes(g, r, g'.nodes, o);
      }
    }
  }

  /** Recounted symbols are nodes of the new graph. */
  lemma AffectedInNodes(g: Graph, r: Refresh, nodes': Nodes, id: SymbolId)
    requires Sound(g) && NodesUpdated(g.nodes, r, nodes') && id in Affected(g.edges, r)
    ensures id in nodes'
  {
    var s1, s2 := Stage1(g.edges, r), Stage2(g.edges, r);
    if id !in Seen(r.parse.symbols) && id !in r.targets {
      var e: Edge;
      if id in TargetsFrom(s1, r.file, Contains) {
        e :| e in s1 && FromFile(r.file, Contains)(e) && e.to == id;
      } else {
        e :| e in s2 && FromFile(r.file, Reference)(e) && e.to == id;
        WithoutMember(s1, FromFile(r.file, Contains), e);
      }
      var o := Stage1Edge(g.edges, r, e);
      ResolvedInNodes(g, r, nodes', o);
    }
  }

  lemma Stage1Edge(edges: seq<Edge>, r: Refresh, e: Edge) returns (o: Edge)
    requires FromFiles(edges) && e in Stage1(edges, r)
    ensures o in edges && e.from == o.from && e.to == Resolve(AliasesOf(r.parse.symbols), o.to)
  {
    var s1 := Stage1(edges, r);
    if AliasesOf(r.parse.symbols) == map[] {
      o := e;
    } else {
      var i :| 0 <= i < |s1| && s1[i] == e;
      o := RenamedFrom(edges, AliasesOf(r.parse.symbols), i);
    }
  }

  /**
   An update keeps a sound graph sound: although only the affected symbols are recounted,
   every file count is exact again.
   */
  lemma UpdateSound(g: Graph, r: Refresh, g': Graph)
    requires Sound(g) && IsRefresh(r) && Updated(g, r, g')
    ensures Sound(g')
  {
    Stage3Keeps(g.edges, r);
    EdgesStayInNodes(g, r, g');
    forall id | id in g'.metrics
      ensures g'.metrics[id].fileCount == Count(g'.edges, Into(id, Contains))
    {
      if id !in Affected(g.edges, r) {
        UnaffectedUnchanged(g.edges, r, id, Contains);
      }
    }
    forall id | id in g'.metrics
      ensures id in g'.nodes
    {
      if id in Affected(g.edges, r) {
        AffectedInNodes(g, r, g'.nodes, id);
      }
    }
  }

  /** Until the first compaction reference counts are the incoming weight, too. */
  lemma UpdateReferences(g: Graph, r: Refresh, g': Graph)
    requires Sound(g) && IsRefresh(r) && Updated(g, r, g')
    requires ReferencesExact(g.metrics, g.edges)
    ensures ReferencesExact(g'.metrics, g'.edges)
  {
    forall id | id in g'.metrics
      ensures ReferenceFits(g'.metrics[id].referenceCount, Weight(g'.edges, Into(id, Reference)))
    {
      if id !in Affected(g.edges, r) {
        UnaffectedUnchanged(g.edges, r, id, Reference);
      }
    }
  }
}
