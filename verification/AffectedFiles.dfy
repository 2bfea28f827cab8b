/** The files affected by a change: where the search starts, which finds count, and in which order. */
module AffectedFiles {
  import opened SeqFacts
  import opened Sorting
  import opened GraphEdges
  import opened GraphState
  import opened Neighbourhood
  import CandidateOrder
  import FileRefresh

  /** The canonical form of a path; a path that has none stands for itself. */
  type Canonical = string -> string

  function Slashes(path: string): string {
    seq(|path|, i requires 0 <= i < |path| => if path[i] == '\\' then '/' else path[i])
  }

  function PathKey(canonical: Canonical, path: string): string { Slashes(canonical(path)) }

  predicate IsFileNode(g: Graph, id: SymbolId) {
    id in g.nodes && g.nodes[id].kind == FILE_KIND && g.nodes[id].path != ""
  }

  function ChangedKeys(changed: seq<string>, canonical: Canonical): set<string> {
    (set p | p in changed :: PathKey(canonical, p)) + (set p | p in changed :: PathKey(canonical, canonical(p)))
  }

  /** The ids a change starts from: those of the paths, and every file node with a changed path. */
  function Start(g: Graph, changed: seq<string>, canonical: Canonical): set<SymbolId> {
    (set p | p in changed :: FileRefresh.FileSymbol(p)) + (set p | p in changed :: FileRefresh.FileSymbol(canonical(p)))
    + (set id | id in g.nodes && IsFileNode(g, id) && PathKey(canonical, g.nodes[id].path) in ChangedKeys(changed, canonical))
  }

  /** A file node that is not itself among the changed paths. */
  predicate Eligible(g: Graph, keys: set<string>, canonical: Canonical, id: SymbolId) {
    IsFileNode(g, id) && PathKey(canonical, g.nodes[id].path) !in keys
  }

  method ChangedFiles(g: Graph, changed: seq<string>, canonical: Canonical) returns (ids: set<SymbolId>, keys: set<string>)
    ensures ids == Start(g, changed, canonical) && keys == ChangedKeys(changed, canonical)
  {
    ids, keys := {}, {};
    for i := 0 to |changed|
      invariant keys == ChangedKeys(changed[..i], canonical)
      invariant ids == (set p | p in changed[..i] :: FileRefresh.FileSymbol(p)) + (set p | p in changed[..i] :: FileRefresh.FileSymbol(canonical(p)))
    {
      var p := changed[i];
      assert forall q :: q in changed[..i + 1] <==> q in changed[..i] || q == p;
      ids := ids + {FileRefresh.FileSymbol(p), FileRefresh.FileSymbol(canonical(p))};
      keys := keys + {PathKey(canonical, p), PathKey(canonical, canonical(p))};
    }
    assert changed[..|changed|] == changed;
    ids := ids + set id | id in g.nodes && IsFileNode(g, id) && PathKey(canonical, g.nodes[id].path) in keys;
  }

  // -------------------------------------------------------------------------------- hits

  datatype Hit = Hit(id: SymbolId, path: string, hop: nat, score: real, key: string)

  /** Nearest first, then by score, then by path key. */
  predicate HitBefore(a: Hit, b: Hit) {
    || a.hop < b.hop
    || (a.hop == b.hop && (a.score > b.score || (a.score == b.score && CandidateOrder.TextLess(a.key, b.key))))
  }

  lemma HitOrder()
    ensures WeakOrder(HitBefore)
  {
    forall a, b | HitBefore(a, b)
      ensures !HitBefore(b, a)
    {
      CandidateOrder.TextLessTotal(a.key, b.key);
    }
    forall a, b, c | HitBefore(a, c)
      ensures HitBefore(a, b) || HitBefore(b, c)
    {
      CandidateOrder.TextLessTotal(a.key, b.key);
      CandidateOrder.TextLessTotal(b.key, c.key);
      if CandidateOrder.TextLess(b.key, a.key) && CandidateOrder.TextLess(a.key, c.key) {
        CandidateOrder.TextLessTransitive(b.key, a.key, c.key);
      }
    }
  }

  function HitOf(g: Graph, found: Found, canonical: Canonical, id: SymbolId): Hit
    requires id in g.nodes && id in found.hops
  {
    Hit(id, g.nodes[id].path, found.hops[id], ScoreOf(found.scores, id, 0.0), PathKey(canonical, g.nodes[id].path))
  }

  /** One hit for every eligible file found. */
  ghost predicate IsHits(g: Graph, found: Found, keys: set<string>, canonical: Canonical, ids: set<SymbolId>, hits: seq<Hit>) {
    && Distinct(hits)
    && (forall h :: h in hits ==> h.id in ids && h.id in found.hops && Eligible(g, keys, canonical, h.id) && h == HitOf(g, found, canonical, h.id))
    && (forall id :: id in ids && id in found.hops && Eligible(g, keys, canonical, id) ==> HitOf(g, found, canonical, id) in hits)
  }

  method CollectHits(g: Graph, found: Found, keys: set<string>, canonical: Canonical) returns (hits: seq<Hit>)
    ensures IsHits(g, found, keys, canonical, found.hops.Keys, hits)
  {
    hits := [];
    var rest := found.hops.Keys;
    while rest != {}
      invariant rest <= found.hops.Keys
      invariant IsHits(g, found, keys, canonical, found.hops.Keys - rest, hits)
      decreases |rest|
    {
      var id :| id in rest;
      if Eligible(g, keys, canonical, id) {
        var h := HitOf(g, found, canonical, id);
        assert h !in hits;
        hits := hits + [h];
      }
      rest := rest - {id};
    }
    assert found.hops.Keys - rest == found.hops.Keys;
  }

  /** The first max hits in order. */
  function Best(hits: seq<Hit>, max: nat): (best: seq<Hit>)
    ensures |best| <= max
  {
    var sorted := SortBy(hits, HitBefore);
    if |sorted| <= max then sorted else sorted[..max]
  }

  lemma BestOrdered(hits: seq<Hit>, max: nat)
    requires Distinct(hits)
    ensures Distinct(Best(hits, max)) && Ordered(Best(hits, max), HitBefore)
    ensures forall h :: h in Best(hits, max) ==> h in hits
    ensures forall h :: h in hits && h !in Best(hits, max) ==>
              |Best(hits, max)| == max && forall b :: b in Best(hits, max) ==> !HitBefore(h, b)
  {
    var sorted := SortBy(hits, HitBefore);
    HitOrder();
    SortOrdered(hits, HitBefore);
    SortContents(hits, HitBefore);
    DistinctPermutation(hits, sorted);
    var best := Best(hits, max);
    forall h | h in hits && h !in best
      ensures |best| == max && forall b :: b in best ==> !HitBefore(h, b)
    {
      var j :| 0 <= j < |sorted| && sorted[j] == h;
      LaterThanBest(sorted, max, j);
    }
  }

  lemma LaterThanBest(sorted: seq<Hit>, max: nat, j: nat)
    requires Ordered(sorted, HitBefore) && j < |sorted|
    requires var best := if |sorted| <= max then sorted else sorted[..max]; sorted[j] !in best
    ensures |sorted| > max && forall b :: b in sorted[..max] ==> !HitBefore(sorted[j], b)
  {
    assert |sorted| > max;
    forall b | b in sorted[..max]
      ensures !HitBefore(sorted[j], b)
    {
      var i :| 0 <= i < max && sorted[..max][i] == b;
      assert sorted[i] == b;
    }
  }

  // ------------------------------------------------------------------------------ the query

  /** Distinct files, nearest first, then by score, then by path key. */
  ghost predicate InOrder(hits: seq<Hit>) {
    forall i, j :: 0 <= i < j < |hits| ==>
      && hits[i].id != hits[j].id
      && hits[i].hop <= hits[j].hop
      && (hits[i].hop == hits[j].hop ==> hits[i].score >= hits[j].score)
      && (hits[i].hop == hits[j].hop && hits[i].score == hits[j].score ==> !CandidateOrder.TextLess(hits[j].key, hits[i].key))
  }

  /** A file whose key is that of no changed path, neither as given nor in its canonical form. */
  ghost predicate IsUnchangedFile(g: Graph, changed: seq<string>, canonical: Canonical, h: Hit) {
    && h.id in g.nodes && g.nodes[h.id].kind == FILE_KIND && h.path == g.nodes[h.id].path != ""
    && h.key == PathKey(canonical, h.path)
    && forall p :: p in changed ==> h.key != PathKey(canonical, p) && h.key != PathKey(canonical, canonical(p))
  }

  /** What is returned is not itself changed and lies within its hops of a change, along a chain that earns its score. */
  ghost predicate Answers(g: Graph, rate: Rating, changed: seq<string>, canonical: Canonical, hops: nat, hits: seq<Hit>) {
    && InOrder(hits)
    && (forall h :: h in hits ==> IsUnchangedFile(g, changed, canonical, h))
    && (forall h :: h in hits ==> h.hop <= hops && Reach(g, Start(g, changed, canonical), h.hop, h.id))
    && (forall h :: h in hits ==> Earns(g, rate, Start(g, changed, canonical), h.hop, h.id, h.score))
  }

  /** No chain as long as its hop earns a hit more than its score. */
  ghost predicate ScoredBest(g: Graph, rate: Rating, start: set<SymbolId>, h: Hit) {
    forall x: real :: Earns(g, rate, start, h.hop, h.id, x) ==> x <= h.score
  }

  /** Hops are distances, scores the best a shortest chain earns, and nothing nearer is left out. */
  ghost predicate Nearest(g: Graph, rate: Rating, start: set<SymbolId>, keys: set<string>, canonical: Canonical, hops: nat, maxFiles: nat, hits: seq<Hit>) {
    && (forall h :: h in hits ==> Distance(g, start, h.id, h.hop) && ScoredBest(g, rate, start, h))
    && (forall id, d: nat {:trigger Reach(g, start, d, id)} ::
          Eligible(g, keys, canonical, id) && d <= hops && Reach(g, start, d, id) ==>
            (exists h :: h in hits && h.id == id) || (|hits| == maxFiles && forall h :: h in hits ==> h.hop <= d))
  }

  lemma BestInOrder(g: Graph, found: Found, keys: set<string>, canonical: Canonical, maxFiles: nat, hits: seq<Hit>)
    requires IsHits(g, found, keys, canonical, found.hops.Keys, hits)
    ensures InOrder(Best(hits, maxFiles))
  {
    var best := Best(hits, maxFiles);
    BestOrdered(hits, maxFiles);
    forall i, j | 0 <= i < j < |best|
      ensures best[i].id != best[j].id && !HitBefore(best[j], best[i])
    {
      assert best[i] in hits && best[j] in hits;
    }
  }

  lemma HitsAnswer(g: Graph, rate: Rating, changed: seq<string>, canonical: Canonical, hops: nat, maxFiles: nat, levels: nat, found: Found, hits: seq<Hit>)
    requires var start := Start(g, changed, canonical);
             Level(g, start, levels, found) && Earned(g, rate, start, found) && levels <= hops
    requires IsHits(g, found, ChangedKeys(changed, canonical), canonical, found.hops.Keys, hits)
    ensures Answers(g, rate, changed, canonical, hops, Best(hits, maxFiles))
  {
    var best := Best(hits, maxFiles);
    BestOrdered(hits, maxFiles);
    BestInOrder(g, found, ChangedKeys(changed, canonical), canonical, maxFiles, hits);
    forall h | h in best
      ensures IsUnchangedFile(g, changed, canonical, h)
      ensures Earns(g, rate, Start(g, changed, canonical), h.hop, h.id, h.score)
    {
      assert h in hits;
      forall p | p in changed
        ensures h.key != PathKey(canonical, p) && h.key != PathKey(canonical, canonical(p))
      {
        assert PathKey(canonical, p) in ChangedKeys(changed, canonical) && PathKey(canonical, canonical(p)) in ChangedKeys(changed, canonical);
      }
    }
  }

  lemma HitsNearest(g: Graph, rate: Rating, start: set<SymbolId>, keys: set<string>, canonical: Canonical, hops: nat, maxFiles: nat, levels: nat,
                    found: Found, hits: seq<Hit>)
    requires Level(g, start, levels, found) && Earned(g, rate, start, found) && levels <= hops && Complete(g, rate, start, hops, found)
    requires IsHits(g, found, keys, canonical, found.hops.Keys, hits)
    ensures Nearest(g, rate, start, keys, canonical, hops, maxFiles, Best(hits, maxFiles))
  {
    var best := Best(hits, maxFiles);
    BestOrdered(hits, maxFiles);
    forall h | h in best
      ensures Distance(g, start, h.id, h.hop) && ScoredBest(g, rate, start, h)
    {
      assert h in hits;
      FoundDistance(g, start, hops, levels, found, h.id);
    }
    forall id, d: nat | Eligible(g, keys, canonical, id) && d <= hops && Reach(g, start, d, id)
      ensures (exists h :: h in best && h.id == id) || (|best| == maxFiles && forall h :: h in best ==> h.hop <= d)
    {
      var h := HitOf(g, found, canonical, id);
      assert h in hits;
    }
  }

  lemma FoundDistance(g: Graph, start: set<SymbolId>, hops: nat, levels: nat, found: Found, id: SymbolId)
    requires Level(g, start, levels, found) && levels <= hops && Closest(g, start, hops, found) && id in found.hops
    ensures Distance(g, start, id, found.hops[id])
  {
  }

  /** The paths of the files affected by a change, nearest first. */
  method AffectedFilePaths(g: Graph, changed: seq<string>, hops: nat, maxFiles: nat, canonical: Canonical, rate: Rating)
    returns (paths: seq<string>, ghost hits: seq<Hit>)
    ensures |paths| == |hits| <= maxFiles && forall i :: 0 <= i < |hits| ==> paths[i] == hits[i].path
    ensures changed == [] || hops == 0 || maxFiles == 0 ==> paths == []
    ensures Answers(g, rate, changed, canonical, hops, hits)
    ensures changed != [] && hops > 0 && maxFiles > 0 && NoCapBites(g, Start(g, changed, canonical), hops, maxFiles) ==>
              Nearest(g, rate, Start(g, changed, canonical), ChangedKeys(changed, canonical), canonical, hops, maxFiles, hits)
  {
    if changed == [] || hops == 0 || maxFiles == 0 {
      paths, hits := [], [];
      return;
    }
    var start, keys := ChangedFiles(g, changed, canonical);
    var found;
    ghost var levels;
    found, levels := Search(g, start, hops, maxFiles, rate);
    var all := CollectHits(g, found, keys, canonical);
    var best := Best(all, maxFiles);
    HitsAnswer(g, rate, changed, canonical, hops, maxFiles, levels, found, all);
    if NoCapBites(g, start, hops, maxFiles) {
      HitsNearest(g, rate, start, keys, canonical, hops, maxFiles, levels, found, all);
    }
    hits := best;
    paths := seq(|best|, i requires 0 <= i < |best| => best[i].path);
  }
}
