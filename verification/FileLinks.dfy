/** The two-way adjacency between files and the symbols they contain or refer to. */
module FileLinks {
  import opened Bounds
  import opened Sorting
  import opened GraphEdges
  import opened GraphState

  datatype Link = Link(id: SymbolId, weight: nat)

  type LinkTable = map<SymbolId, seq<Link>>

  /** Only what files contain or refer to links them. */
  predicate IsLink(nodes: Nodes, e: Edge) {
    (e.kind == Contains || e.kind == Reference) && e.from in nodes && nodes[e.from].kind == FILE_KIND
  }

  /** The symbols a file contains or refers to. */
  function SymbolsOf(nodes: Nodes, edges: seq<Edge>, file: SymbolId): set<SymbolId> {
    set e | e in edges && IsLink(nodes, e) && e.from == file :: e.to
  }

  /** The files that contain or refer to a symbol. */
  function FilesOf(nodes: Nodes, edges: seq<Edge>, symbol: SymbolId): set<SymbolId> {
    set e | e in edges && IsLink(nodes, e) && e.to == symbol :: e.from
  }

  function Ids(links: seq<Link>): set<SymbolId> { set l | l in links :: l.id }

  function LinksOf(table: LinkTable, id: SymbolId): seq<Link> {
    if id in table then table[id] else []
  }

  /** Heaviest first, then by id. */
  predicate LinkBefore(a: Link, b: Link) {
    a.weight > b.weight || (a.weight == b.weight && IdLess(a.id, b.id))
  }

  lemma LinkOrder()
    ensures WeakOrder(LinkBefore)
  {
    forall a, b | LinkBefore(a, b)
      ensures !LinkBefore(b, a)
    {
      IdLessTotal(a.id, b.id);
    }
    forall a, b, c | LinkBefore(a, c)
      ensures LinkBefore(a, b) || LinkBefore(b, c)
    {
      IdLessTotal(a.id, b.id);
      IdLessTotal(b.id, c.id);
      if IdLess(b.id, a.id) && IdLess(a.id, c.id) {
        IdLessTransitive(b.id, a.id, c.id);
      }
    }
  }

  /** The greatest weight a list gives an id; a weight of zero counts as one. */
  function Heaviest(links: seq<Link>, id: SymbolId): nat {
    if |links| == 0 then 0 else
      var last := links[|links| - 1];
      MaxNat(Heaviest(links[..|links| - 1], id), if last.id == id then MaxNat(last.weight, 1) else 0)
  }

  /** No id twice. */
  ghost predicate OncePerId(links: seq<Link>) {
    forall i, j :: 0 <= i < j < |links| ==> links[i].id != links[j].id
  }

  /** Heaviest first, links of one weight in the order of their ids. */
  ghost predicate HeaviestFirst(links: seq<Link>) {
    forall i, j :: 0 <= i < j < |links| ==>
      links[i].weight > links[j].weight || (links[i].weight == links[j].weight && !IdLess(links[j].id, links[i].id))
  }

  /** Each id once with its greatest weight, heaviest first. */
  ghost predicate Normal(links: seq<Link>, normal: seq<Link>) {
    && OncePerId(normal) && HeaviestFirst(normal) && Ids(normal) == Ids(links)
    && forall l :: l in normal ==> l.weight == Heaviest(links, l.id)
  }

  lemma OncePerIdLength(links: seq<Link>)
    requires OncePerId(links)
    ensures |Ids(links)| == |links|
  {
    var ids := seq(|links|, i requires 0 <= i < |links| => links[i].id);
    DistinctLength(ids);
    assert Elements(ids) == Ids(links) by {
      forall id | id in Ids(links)
        ensures id in Elements(ids)
      {
        var k :| 0 <= k < |links| && links[k].id == id;
        assert ids[k] == id;
      }
    }
  }

  /** Merges links to one id, keeping the greatest weight, and sorts. */
  method SortAndDedupWeightedLinks(links: seq<Link>) returns (normalized: seq<Link>)
    ensures Normal(links, normalized)
  {
    var merged := MergeLinks(links);
    var listed := [];
    var rest := merged.Keys;
    while rest != {}
      invariant rest <= merged.Keys && OncePerId(listed) && Ids(listed) == merged.Keys - rest
      invariant forall l :: l in listed ==> l.id in merged && l.weight == merged[l.id]
      decreases |rest|
    {
      var id :| id in rest;
      var l := Link(id, merged[id]);
      IdsAppend(listed, l);
      listed := listed + [l];
      rest := rest - {id};
    }
    normalized := SortBy(listed, LinkBefore);
    SortedLinks(listed);
    assert Ids(normalized) == Ids(links);
  }

  lemma IdsAppend(links: seq<Link>, l: Link)
    requires OncePerId(links) && l.id !in Ids(links)
    ensures Ids(links + [l]) == Ids(links) + {l.id} && OncePerId(links + [l])
  {
    forall i | 0 <= i < |links|
      ensures links[i].id != l.id
    {
      assert links[i] in links;
    }
    assert forall x :: x in links + [l] <==> x in links || x == l;
  }

  lemma SortedLinks(links: seq<Link>)
    requires OncePerId(links)
    ensures var sorted := SortBy(links, LinkBefore);
            OncePerId(sorted) && HeaviestFirst(sorted) && Ids(sorted) == Ids(links) && forall l :: l in sorted <==> l in links
  {
    var sorted := SortBy(links, LinkBefore);
    LinkOrder();
    SortOrdered(links, LinkBefore);
    SortContents(links, LinkBefore);
    DistinctPermutation(links, sorted);
    forall i, j | 0 <= i < j < |sorted|
      ensures sorted[i].id != sorted[j].id && !LinkBefore(sorted[j], sorted[i])
    {
      assert sorted[i] in links && sorted[j] in links;
    }
  }

  method MergeLinks(links: seq<Link>) returns (merged: map<SymbolId, nat>)
    ensures merged.Keys == Ids(links) && forall id :: id in merged ==> merged[id] == Heaviest(links, id)
  {
    merged := map[];
    for i := 0 to |links|
      invariant merged.Keys == Ids(links[..i])
      invariant forall id :: Lookup(merged, id) == Heaviest(links[..i], id)
    {
      var l := links[i];
      assert links[..i + 1][..i] == links[..i];
      assert forall x :: x in links[..i + 1] <==> x in links[..i] || x == l;
      merged := merged[l.id := MaxNat(Lookup(merged, l.id), MaxNat(l.weight, 1))];
    }
    assert links[..|links|] == links;
    assert forall id :: id in merged ==> merged[id] == Lookup(merged, id);
  }

  /** Appends a link to the list of an id. */
  function Push(table: LinkTable, at: SymbolId, l: Link): LinkTable { table[at := LinksOf(table, at) + [l]] }

  lemma PushIds(table: LinkTable, at: SymbolId, l: Link, id: SymbolId)
    ensures Ids(LinksOf(Push(table, at, l), id)) == Ids(LinksOf(table, id)) + (if id == at then {l.id} else {})
  {
    assert forall x :: x in LinksOf(table, at) + [l] <==> x in LinksOf(table, at) || x == l;
  }

  /** The greatest weight of the links between a file and a symbol; a weight of zero counts as one. */
  function LinkWeight(nodes: Nodes, edges: seq<Edge>, file: SymbolId, symbol: SymbolId): nat {
    if |edges| == 0 then 0 else
      var last := edges[|edges| - 1];
      MaxNat(LinkWeight(nodes, edges[..|edges| - 1], file, symbol),
             if IsLink(nodes, last) && last.from == file && last.to == symbol then MaxNat(last.weight, 1) else 0)
  }

  /** No link outweighs that weight, and one of them has it. */
  lemma {:induction false} GreatestLink(nodes: Nodes, edges: seq<Edge>, file: SymbolId, symbol: SymbolId)
    ensures forall e :: e in edges && IsLink(nodes, e) && e.from == file && e.to == symbol ==>
              1 <= LinkWeight(nodes, edges, file, symbol) && e.weight <= LinkWeight(nodes, edges, file, symbol)
    ensures symbol in SymbolsOf(nodes, edges, file) ==>
              exists e :: e in edges && IsLink(nodes, e) && e.from == file && e.to == symbol
                          && LinkWeight(nodes, edges, file, symbol) == if e.weight == 0 then 1 else e.weight
    ensures symbol !in SymbolsOf(nodes, edges, file) ==> LinkWeight(nodes, edges, file, symbol) == 0
  {
    if |edges| > 0 {
      var rest, last := edges[..|edges| - 1], edges[|edges| - 1];
      GreatestLink(nodes, rest, file, symbol);
      assert edges == rest + [last];
      assert last in edges;
    }
  }

  /** The lists weigh every link between a file and a symbol by its greatest weight. */
  ghost predicate Weighed(nodes: Nodes, edges: seq<Edge>, ofFile: LinkTable, ofSymbol: LinkTable) {
    && (forall f, s :: Heaviest(LinksOf(ofFile, f), s) == LinkWeight(nodes, edges, f, s))
    && (forall s, f :: Heaviest(LinksOf(ofSymbol, s), f) == LinkWeight(nodes, edges, f, s))
  }

  lemma PushHeaviest(table: LinkTable, at: SymbolId, l: Link, id: SymbolId, other: SymbolId)
    requires l.weight > 0
    ensures Heaviest(LinksOf(Push(table, at, l), id), other)
         == MaxNat(Heaviest(LinksOf(table, id), other), if id == at && l.id == other then l.weight else 0)
  {
    var links := LinksOf(table, at) + [l];
    assert links[..|links| - 1] == LinksOf(table, at);
  }

  lemma WeighedNext(nodes: Nodes, edges: seq<Edge>, i: nat, ofFile: LinkTable, ofSymbol: LinkTable, weight: nat)
    requires i < |edges| && Weighed(nodes, edges[..i], ofFile, ofSymbol)
    requires IsLink(nodes, edges[i]) && weight == MaxNat(edges[i].weight, 1)
    ensures Weighed(nodes, edges[..i + 1], Push(ofFile, edges[i].from, Link(edges[i].to, weight)),
                    Push(ofSymbol, edges[i].to, Link(edges[i].from, weight)))
  {
    var e := edges[i];
    assert edges[..i + 1][..i] == edges[..i];
    forall f, s
      ensures Heaviest(LinksOf(Push(ofFile, e.from, Link(e.to, weight)), f), s) == LinkWeight(nodes, edges[..i + 1], f, s)
    {
      PushHeaviest(ofFile, e.from, Link(e.to, weight), f, s);
    }
    forall s, f
      ensures Heaviest(LinksOf(Push(ofSymbol, e.to, Link(e.from, weight)), s), f) == LinkWeight(nodes, edges[..i + 1], f, s)
    {
      PushHeaviest(ofSymbol, e.to, Link(e.from, weight), s, f);
    }
  }

  lemma WeighedSkip(nodes: Nodes, edges: seq<Edge>, i: nat, ofFile: LinkTable, ofSymbol: LinkTable)
    requires i < |edges| && Weighed(nodes, edges[..i], ofFile, ofSymbol) && !IsLink(nodes, edges[i])
    ensures Weighed(nodes, edges[..i + 1], ofFile, ofSymbol)
  {
    assert edges[..i + 1][..i] == edges[..i];
  }

  /** Every id once, heaviest first, with the weight of its links. */
  ghost predicate Listed(nodes: Nodes, edges: seq<Edge>, ofFile: LinkTable, ofSymbol: LinkTable) {
    && (forall id :: OncePerId(LinksOf(ofFile, id)) && HeaviestFirst(LinksOf(ofFile, id)))
    && (forall id :: OncePerId(LinksOf(ofSymbol, id)) && HeaviestFirst(LinksOf(ofSymbol, id)))
    && (forall f, l :: l in LinksOf(ofFile, f) ==> l.weight == LinkWeight(nodes, edges, f, l.id))
    && (forall s, l :: l in LinksOf(ofSymbol, s) ==> l.weight == LinkWeight(nodes, edges, l.id, s))
  }

  /** The tables know exactly the links among the edges. */
  ghost predicate Tabled(nodes: Nodes, edges: seq<Edge>, ofFile: LinkTable, ofSymbol: LinkTable) {
    && (forall f :: Ids(LinksOf(ofFile, f)) == SymbolsOf(nodes, edges, f))
    && (forall s :: Ids(LinksOf(ofSymbol, s)) == FilesOf(nodes, edges, s))
  }

  lemma TabledSkip(nodes: Nodes, edges: seq<Edge>, i: nat, ofFile: LinkTable, ofSymbol: LinkTable)
    requires i < |edges| && Tabled(nodes, edges[..i], ofFile, ofSymbol) && !IsLink(nodes, edges[i])
    ensures Tabled(nodes, edges[..i + 1], ofFile, ofSymbol)
  {
    assert forall e :: e in edges[..i + 1] <==> e in edges[..i] || e == edges[i];
  }

  lemma TabledNext(nodes: Nodes, edges: seq<Edge>, i: nat, ofFile: LinkTable, ofSymbol: LinkTable, weight: nat)
    requires i < |edges| && Tabled(nodes, edges[..i], ofFile, ofSymbol) && IsLink(nodes, edges[i])
    ensures Tabled(nodes, edges[..i + 1], Push(ofFile, edges[i].from, Link(edges[i].to, weight)),
                   Push(ofSymbol, edges[i].to, Link(edges[i].from, weight)))
  {
    var e := edges[i];
    assert forall x :: x in edges[..i + 1] <==> x in edges[..i] || x == e;
    forall f
      ensures Ids(LinksOf(Push(ofFile, e.from, Link(e.to, weight)), f)) == SymbolsOf(nodes, edges[..i + 1], f)
    {
      PushIds(ofFile, e.from, Link(e.to, weight), f);
    }
    forall s
      ensures Ids(LinksOf(Push(ofSymbol, e.to, Link(e.from, weight)), s)) == FilesOf(nodes, edges[..i + 1], s)
    {
      PushIds(ofSymbol, e.to, Link(e.from, weight), s);
    }
  }

  /** Builds both tables from the edges. */
  method BuildLinks(g: Graph) returns (ofFile: LinkTable, ofSymbol: LinkTable)
    ensures Tabled(g.nodes, g.edges, ofFile, ofSymbol) && Listed(g.nodes, g.edges, ofFile, ofSymbol)
  {
    ofFile, ofSymbol := map[], map[];
    for i := 0 to |g.edges|
      invariant Tabled(g.nodes, g.edges[..i], ofFile, ofSymbol) && Weighed(g.nodes, g.edges[..i], ofFile, ofSymbol)
    {
      var e := g.edges[i];
      if IsLink(g.nodes, e) {
        var weight := MaxNat(e.weight, 1);
        TabledNext(g.nodes, g.edges, i, ofFile, ofSymbol, weight);
        WeighedNext(g.nodes, g.edges, i, ofFile, ofSymbol, weight);
        ofFile := Push(ofFile, e.from, Link(e.to, weight));
        ofSymbol := Push(ofSymbol, e.to, Link(e.from, weight));
      } else {
        TabledSkip(g.nodes, g.edges, i, ofFile, ofSymbol);
        WeighedSkip(g.nodes, g.edges, i, ofFile, ofSymbol);
      }
    }
    assert g.edges[..|g.edges|] == g.edges;
    ofFile := NormalizeLinks(ofFile);
    ofSymbol := NormalizeLinks(ofSymbol);
  }

  method NormalizeLinks(table: LinkTable) returns (normal: LinkTable)
    ensures forall id :: Normal(LinksOf(table, id), LinksOf(normal, id))
  {
    normal := table;
    var rest := table.Keys;
    while rest != {}
      invariant rest <= table.Keys && normal.Keys == table.Keys
      invariant forall id :: id in rest ==> normal[id] == table[id]
      invariant forall id :: id in table && id !in rest ==> Normal(table[id], normal[id])
      decreases |rest|
    {
      var id :| id in rest;
      var links := SortAndDedupWeightedLinks(normal[id]);
      normal := normal[id := links];
      rest := rest - {id};
    }
    forall id
      ensures Normal(LinksOf(table, id), LinksOf(normal, id))
    {
      if id !in table {
        assert LinksOf(table, id) == [] && LinksOf(normal, id) == [];
      }
    }
  }
}
