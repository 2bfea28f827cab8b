/** What the search for affected files means on the graph itself: where it starts and what one step is. */
module AffectedLaws {
  import opened SeqFacts
  import opened GraphEdges
  import opened GraphState
  import opened FileLinks
  import opened Neighbourhood
  import opened AffectedFiles
  import FileRefresh

  /** An edge that says a file contains or refers to a symbol. */
  predicate Names(g: Graph, e: Edge, file: SymbolId) {
    && e in g.edges && e.from == file && (e.kind == Contains || e.kind == Reference)
    && file in g.nodes && g.nodes[file].kind == FILE_KIND
  }

  /** A node that stands for a path, seen through its canonical form with slashes. */
  predicate StandsFor(g: Graph, canonical: Canonical, id: SymbolId, path: string) {
    && id in g.nodes && g.nodes[id].kind == FILE_KIND && g.nodes[id].path != ""
    && var key := PathKey(canonical, g.nodes[id].path); key == PathKey(canonical, path) || key == PathKey(canonical, canonical(path))
  }

  /** One step leads exactly to the files that name a symbol the first file names. */
  lemma NeighboursExactly(g: Graph, a: SymbolId, b: SymbolId)
    ensures b in Neighbours(g, a) <==> exists e, f :: Names(g, e, a) && Names(g, f, b) && e.to == f.to
  {
    if b in Neighbours(g, a) {
      var s :| s in SymbolsOf(g.nodes, g.edges, a) && b in FilesOf(g.nodes, g.edges, s);
      var e :| e in g.edges && IsLink(g.nodes, e) && e.from == a && e.to == s;
      var f :| f in g.edges && IsLink(g.nodes, f) && f.to == s && f.from == b;
      assert Names(g, e, a) && Names(g, f, b);
    }
    if e, f :| Names(g, e, a) && Names(g, f, b) && e.to == f.to {
      assert IsLink(g.nodes, e) && IsLink(g.nodes, f);
      assert e.to in SymbolsOf(g.nodes, g.edges, a) && b in FilesOf(g.nodes, g.edges, e.to);
    }
  }

  /** Steps go both ways between files. */
  lemma NeighboursMutual(g: Graph, a: SymbolId, b: SymbolId)
    ensures b in Neighbours(g, a) <==> a in Neighbours(g, b)
  {
    NeighboursExactly(g, a, b);
    NeighboursExactly(g, b, a);
  }

  /** The search starts from the ids of the changed paths and their canonical forms, and from every node that stands for one. */
  lemma StartExactly(g: Graph, changed: seq<string>, canonical: Canonical, id: SymbolId)
    ensures id in Start(g, changed, canonical) <==>
              exists p :: p in changed && (id == FileRefresh.FileSymbol(p) || id == FileRefresh.FileSymbol(canonical(p)) || StandsFor(g, canonical, id, p))
  {
    if p :| p in changed && StandsFor(g, canonical, id, p) {
      assert PathKey(canonical, p) in ChangedKeys(changed, canonical) && PathKey(canonical, canonical(p)) in ChangedKeys(changed, canonical);
      assert IsFileNode(g, id);
    }
  }

  /** A file may be returned exactly when it stands for no changed path. */
  lemma EligibleExactly(g: Graph, changed: seq<string>, canonical: Canonical, id: SymbolId)
    requires id in g.nodes && g.nodes[id].kind == FILE_KIND && g.nodes[id].path != ""
    ensures Eligible(g, ChangedKeys(changed, canonical), canonical, id) <==> forall p :: p in changed ==> !StandsFor(g, canonical, id, p)
  {
    if !Eligible(g, ChangedKeys(changed, canonical), canonical, id) {
      var p :| p in changed && (PathKey(canonical, g.nodes[id].path) == PathKey(canonical, p)
                                || PathKey(canonical, g.nodes[id].path) == PathKey(canonical, canonical(p)));
      assert StandsFor(g, canonical, id, p);
    } else {
      forall p | p in changed
        ensures !StandsFor(g, canonical, id, p)
      {
        assert PathKey(canonical, p) in ChangedKeys(changed, canonical) && PathKey(canonical, canonical(p)) in ChangedKeys(changed, canonical);
      }
    }
  }

  /** How much each cap lets through: more the more files are asked for, within fixed bounds. */
  lemma CapBounds(maxFiles: nat)
    ensures 64 <= FrontierCap(maxFiles) <= 4096 && 24 <= FileSymbolCap(maxFiles) <= 768 && 32 <= SymbolFileCap(maxFiles) <= 1024
    ensures maxFiles <= 192 ==> 8 * maxFiles <= FrontierCap(maxFiles) && 4 * maxFiles <= FileSymbolCap(maxFiles) && 3 * maxFiles <= SymbolFileCap(maxFiles)
  {
  }

  /** In a graph with no more links than the caps let through none of them bites. */
  lemma SmallGraphFits(g: Graph, start: set<SymbolId>, hops: nat, maxFiles: nat)
    requires |g.edges| <= FrontierCap(maxFiles) && |g.edges| <= FileSymbolCap(maxFiles) && |g.edges| <= SymbolFileCap(maxFiles)
    ensures NoCapBites(g, start, hops, maxFiles)
  {
    forall k: nat | k < hops
      ensures LevelFits(g, Ring(g, start, k), Ball(g, start, k), maxFiles)
    {
      forall f | f in Ring(g, start, k)
        ensures Unhindered(g, f, Ball(g, start, k), maxFiles)
      {
        FewEnds(g, SymbolsOf(g.nodes, g.edges, f));
        forall s | s in SymbolsOf(g.nodes, g.edges, f)
          ensures FewUnvisited(FilesOf(g.nodes, g.edges, s), Ball(g, start, k), SymbolFileCap(maxFiles))
        {
          FewSources(g, FilesOf(g.nodes, g.edges, s) - Ball(g, start, k));
        }
      }
      FewSources(g, NeighboursOfAll(g, Ring(g, start, k)) - Ball(g, start, k));
    }
  }

  lemma FewEnds(g: Graph, ids: set<SymbolId>)
    requires forall id :: id in ids ==> exists e :: e in g.edges && e.to == id
    ensures |ids| <= |g.edges|
  {
    var ends := seq(|g.edges|, i requires 0 <= i < |g.edges| => g.edges[i].to);
    forall id | id in ids
      ensures id in ends
    {
      var i :| 0 <= i < |g.edges| && g.edges[i].to == id;
      assert ends[i] == id;
    }
    FewListed(ids, ends);
  }

  lemma FewSources(g: Graph, ids: set<SymbolId>)
    requires forall id :: id in ids ==> exists e :: e in g.edges && e.from == id
    ensures |ids| <= |g.edges|
  {
    var sources := seq(|g.edges|, i requires 0 <= i < |g.edges| => g.edges[i].from);
    forall id | id in ids
      ensures id in sources
    {
      var i :| 0 <= i < |g.edges| && g.edges[i].from == id;
      assert sources[i] == id;
    }
    FewListed(ids, sources);
  }

  lemma {:induction false} FewListed(ids: set<SymbolId>, list: seq<SymbolId>)
    requires forall id :: id in ids ==> id in list
    ensures |ids| <= |list|
  {
    if |list| > 0 {
      var rest := ids - {list[0]};
      FewListed(rest, list[1..]);
      assert ids <= rest + {list[0]};
      SubsetSize(ids, rest + {list[0]});
    }
  }

  /** When no cap bites, a file that names a symbol of a changed file is returned, unless only as near ones fill the answer. */
  lemma SharerFound(g: Graph, rate: Rating, changed: seq<string>, canonical: Canonical, hops: nat, maxFiles: nat, hits: seq<Hit>,
                    p: string, e: Edge, f: Edge)
    requires hops > 0 && Nearest(g, rate, Start(g, changed, canonical), ChangedKeys(changed, canonical), canonical, hops, maxFiles, hits)
    requires p in changed && Names(g, e, FileRefresh.FileSymbol(p)) && Names(g, f, f.from) && e.to == f.to
    requires g.nodes[f.from].path != "" && forall q :: q in changed ==> !StandsFor(g, canonical, f.from, q)
    ensures (exists h :: h in hits && h.id == f.from) || (|hits| == maxFiles && forall h :: h in hits ==> h.hop <= 1)
  {
    var start := Start(g, changed, canonical);
    EligibleExactly(g, changed, canonical, f.from);
    StartExactly(g, changed, canonical, FileRefresh.FileSymbol(p));
    NeighboursExactly(g, FileRefresh.FileSymbol(p), f.from);
    StepFurther(g, start, 0, FileRefresh.FileSymbol(p), f.from);
    assert Reach(g, start, 1, f.from);
  }

  /** Heavier links gain no less, and two links of one weight count in full. */
  lemma HeavierGains(near: nat, far: nat, near': nat, far': nat, rating: real)
    requires near <= near' && far <= far' && rating >= 0.0
    ensures 0.0 <= Added(near, far, rating) <= Added(near', far', rating)
    ensures Added(near, near, rating) == near as real * rating
  {
    assert ((near' + far') as real * 0.5 - (near + far) as real * 0.5) * rating >= 0.0;
  }

  /** Ratings that are never negative make every score at least that of the start. */
  lemma {:induction false} ScoreAtLeastOne(g: Graph, rate: Rating, start: set<SymbolId>, steps: nat, file: SymbolId, score: real)
    requires Earns(g, rate, start, steps, file, score) && forall s, n :: rate(s, n) >= 0.0
    ensures score >= 1.0
  {
    if steps > 0 {
      var p, s :| Shares(g, p, s, file) && Earns(g, rate, start, steps - 1, p, score - Gain(g, rate, p, s, file));
      ScoreAtLeastOne(g, rate, start, steps - 1, p, score - Gain(g, rate, p, s, file));
      var near, far := LinkWeight(g.nodes, g.edges, p, s), LinkWeight(g.nodes, g.edges, file, s);
      HeavierGains(near, far, near, far, rate(s, |FilesOf(g.nodes, g.edges, s)|));
    }
  }
}
