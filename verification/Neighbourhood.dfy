/**
 The bounded search for files near a set of changed files. Whatever is returned is joined to
 a changed file by as many shared-symbol steps as its hop says, along a chain that earns its
 score; when no cap bites on the way, hops are shortest distances, scores the best any chain
 of that length earns, and no nearer file is left out for a farther one.
 */
module Neighbourhood {
  import opened Bounds
  import opened SeqFacts
  import opened Sorting
  import opened GraphEdges
  import opened GraphState
  import opened FileLinks

  /** The files that share a symbol with a file. */
  function Neighbours(g: Graph, file: SymbolId): set<SymbolId> {
    set s, b | s in SymbolsOf(g.nodes, g.edges, file) && b in FilesOf(g.nodes, g.edges, s) :: b
  }

  /** A file is reached from the start by that many steps to a neighbour. */
  ghost predicate Reach(g: Graph, start: set<SymbolId>, steps: nat, file: SymbolId) {
    if steps == 0 then file in start
    else exists p :: Reach(g, start, steps - 1, p) && file in Neighbours(g, p)
  }

  /** How much a shared symbol counts, given how many files share it. */
  type Rating = (SymbolId, nat) -> real

  /** What one shared symbol adds to a score: the mean weight of its two links, rated. */
  function Added(near: nat, far: nat, rating: real): real { (near + far) as real * 0.5 * rating }

  function Gain(g: Graph, rate: Rating, from: SymbolId, symbol: SymbolId, to: SymbolId): real {
    Added(LinkWeight(g.nodes, g.edges, from, symbol), LinkWeight(g.nodes, g.edges, to, symbol),
          rate(symbol, |FilesOf(g.nodes, g.edges, symbol)|))
  }

  predicate Shares(g: Graph, from: SymbolId, symbol: SymbolId, to: SymbolId) {
    symbol in SymbolsOf(g.nodes, g.edges, from) && to in FilesOf(g.nodes, g.edges, symbol)
  }

  /** Some chain of that many shared symbols leads from the start, where the score is 1, to a file with that score. */
  ghost predicate Earns(g: Graph, rate: Rating, start: set<SymbolId>, steps: nat, file: SymbolId, score: real) {
    if steps == 0 then file in start && score == 1.0
    else exists p, s :: Shares(g, p, s, file) && Earns(g, rate, start, steps - 1, p, score - Gain(g, rate, p, s, file))
  }

  lemma {:induction false} EarnedReached(g: Graph, rate: Rating, start: set<SymbolId>, steps: nat, file: SymbolId, score: real)
    requires Earns(g, rate, start, steps, file, score)
    ensures Reach(g, start, steps, file)
  {
    if steps > 0 {
      var p, s :| Shares(g, p, s, file) && Earns(g, rate, start, steps - 1, p, score - Gain(g, rate, p, s, file));
      EarnedReached(g, rate, start, steps - 1, p, score - Gain(g, rate, p, s, file));
      assert file in Neighbours(g, p);
    }
  }

  /** The least number of steps that reach a file. */
  ghost predicate Distance(g: Graph, start: set<SymbolId>, file: SymbolId, d: nat) {
    Reach(g, start, d, file) && forall j: nat :: Reach(g, start, j, file) ==> d <= j
  }

  function FrontierCap(maxFiles: nat): nat { ClampNat(8 * maxFiles, 64, 4096) }

  function FileSymbolCap(maxFiles: nat): nat { ClampNat(4 * maxFiles, 24, 768) }

  function SymbolFileCap(maxFiles: nat): nat { ClampNat(3 * maxFiles, 32, 1024) }

  // ----------------------------------------------------------------- when no cap bites

  /** The neighbours of some files. */
  ghost function NeighboursOfAll(g: Graph, files: set<SymbolId>): set<SymbolId> {
    set f, b | f in files && b in Neighbours(g, f) :: b
  }

  /** The files within k steps of the start. */
  ghost function Ball(g: Graph, start: set<SymbolId>, k: nat): set<SymbolId> {
    if k == 0 then start else Ball(g, start, k - 1) + NeighboursOfAll(g, Ball(g, start, k - 1))
  }

  /** The files at distance k from the start. */
  ghost function Ring(g: Graph, start: set<SymbolId>, k: nat): set<SymbolId> {
    if k == 0 then start else Ball(g, start, k) - Ball(g, start, k - 1)
  }

  /** At most cap of the files are not visited. */
  ghost predicate FewUnvisited(files: set<SymbolId>, visited: set<SymbolId>, cap: nat) {
    |files - visited| <= cap
  }

  /** A file has no more symbols, and no symbol of it more unvisited files, than the caps let through. */
  ghost predicate Unhindered(g: Graph, file: SymbolId, visited: set<SymbolId>, maxFiles: nat) {
    && |SymbolsOf(g.nodes, g.edges, file)| <= FileSymbolCap(maxFiles)
    && forall s :: s in SymbolsOf(g.nodes, g.edges, file) ==> FewUnvisited(FilesOf(g.nodes, g.edges, s), visited, SymbolFileCap(maxFiles))
  }

  /** From the files of one level everything unvisited around them is let through. */
  ghost predicate LevelFits(g: Graph, level: set<SymbolId>, visited: set<SymbolId>, maxFiles: nat) {
    && (forall f :: f in level ==> Unhindered(g, f, visited, maxFiles))
    && FewUnvisited(NeighboursOfAll(g, level), visited, FrontierCap(maxFiles))
  }

  /** No fan-out and no frontier exceeds its cap at any level that is expanded. */
  ghost predicate NoCapBites(g: Graph, start: set<SymbolId>, hops: nat, maxFiles: nat) {
    forall k: nat :: k < hops ==> LevelFits(g, Ring(g, start, k), Ball(g, start, k), maxFiles)
  }

  lemma {:induction false} BallReached(g: Graph, start: set<SymbolId>, k: nat, f: SymbolId) returns (j: nat)
    requires f in Ball(g, start, k)
    ensures j <= k && Reach(g, start, j, f)
  {
    if k == 0 {
      j := 0;
    } else if f in Ball(g, start, k - 1) {
      j := BallReached(g, start, k - 1, f);
    } else {
      var p :| p in Ball(g, start, k - 1) && f in Neighbours(g, p);
      var i := BallReached(g, start, k - 1, p);
      j := i + 1;
      assert Reach(g, start, j - 1, p);
    }
  }

  lemma {:induction false} ReachedBall(g: Graph, start: set<SymbolId>, k: nat, j: nat, f: SymbolId)
    requires j <= k && Reach(g, start, j, f)
    ensures f in Ball(g, start, k)
  {
    if j < k {
      ReachedBall(g, start, k - 1, j, f);
    } else if k > 0 {
      var p :| Reach(g, start, j - 1, p) && f in Neighbours(g, p);
      ReachedBall(g, start, k - 1, j - 1, p);
    }
  }

  // ------------------------------------------------------------------------ one level

  type Scores = map<SymbolId, real>

  function ScoreOf(scores: Scores, id: SymbolId, default: real): real {
    if id in scores then scores[id] else default
  }

  /** The tables the search works with, normalised. */
  datatype Tables = Tables(ofFile: LinkTable, ofSymbol: LinkTable)

  ghost predicate Ready(g: Graph, t: Tables) {
    Tabled(g.nodes, g.edges, t.ofFile, t.ofSymbol) && Listed(g.nodes, g.edges, t.ofFile, t.ofSymbol)
  }

  datatype Scored = Scored(id: SymbolId, score: real)

  /** The scores a file passes on through one of its symbols. */
  function SymbolBids(g: Graph, rate: Rating, base: real, file: SymbolId, symbol: SymbolId): set<Scored> {
    set b | b in FilesOf(g.nodes, g.edges, symbol) :: Scored(b, base + Gain(g, rate, file, symbol, b))
  }

  /** The scores a file passes on through some symbols. */
  function FileBids(g: Graph, rate: Rating, base: real, file: SymbolId, symbols: set<SymbolId>): set<Scored> {
    set s, b | s in symbols && b in SymbolBids(g, rate, base, file, s) :: b
  }

  /** The scores some files pass on through all their symbols. */
  function Bids(g: Graph, rate: Rating, scores: Scores, files: set<SymbolId>): set<Scored> {
    set f, b | f in files && b in FileBids(g, rate, ScoreOf(scores, f, 1.0), f, SymbolsOf(g.nodes, g.edges, f)) :: b
  }

  /** Scores rose by some of the bids for files not visited, or to the best of all of them. */
  ghost predicate Grew(before: Scores, bids: set<Scored>, visited: set<SymbolId>, after: Scores, complete: bool) {
    && (forall f :: f in before ==> f in after && before[f] <= after[f])
    && (forall f :: f in after ==> (f in before && after[f] == before[f]) || (f !in visited && Scored(f, after[f]) in bids))
    && (complete ==> forall b :: b in bids && b.id !in visited ==> b.id in after && b.score <= after[b.id])
  }

  lemma SameSize(part: set<SymbolId>, whole: set<SymbolId>)
    requires part <= whole && |whole| <= |part|
    ensures part == whole
  {
    SubsetSize(part, whole);
    if part != whole {
      var id :| id in whole && id !in part;
      SubsetSize(part + {id}, whole);
    }
  }

  /** The score a file is offered with, if it is the best so far. */
  function Raise(scores: Scores, bid: Scored): (raised: Scores)
    ensures raised.Keys == scores.Keys + {bid.id}
  {
    scores[bid.id := if bid.id in scores && scores[bid.id] > bid.score then scores[bid.id] else bid.score]
  }

  lemma GrewRaise(next: Scores, bids: set<Scored>, visited: set<SymbolId>, before: Scores, bid: Scored, bids': set<Scored>)
    requires Grew(next, bids, visited, before, true) && bids' == bids + {bid}
    ensures Grew(next, bids', visited, if bid.id in visited then before else Raise(before, bid), true)
  {
    if bid.id !in visited {
      var after := Raise(before, bid);
      forall f | f in after
        ensures (f in next && after[f] == next[f]) || (f !in visited && Scored(f, after[f]) in bids')
      {
        if f == bid.id && !(f in before && before[f] > bid.score) {
          assert Scored(f, after[f]) == bid;
        }
      }
    }
  }

  /** What each of some links bids. */
  ghost function ListedBids(files: seq<Link>, bid: Link -> Scored): set<Scored> {
    set c | c in files :: bid(c)
  }

  lemma NextListed(files: seq<Link>, n: nat, bid: Link -> Scored)
    requires n < |files|
    ensures ListedBids(files[..n + 1], bid) == ListedBids(files[..n], bid) + {bid(files[n])}
  {
    assert forall l :: l in files[..n + 1] <==> l in files[..n] || l == files[n];
  }

  lemma NextUnvisited(files: seq<Link>, n: nat, visited: set<SymbolId>)
    requires n < |files| && OncePerId(files)
    ensures |Ids(files[..n + 1]) - visited| == |Ids(files[..n]) - visited| + if files[n].id in visited then 0 else 1
  {
    var c := files[n];
    assert forall l :: l in files[..n + 1] <==> l in files[..n] || l == c;
    assert Ids(files[..n + 1]) == Ids(files[..n]) + {c.id};
    LaterLink(files, n, n);
    if c.id in visited {
      assert Ids(files[..n + 1]) - visited == Ids(files[..n]) - visited;
    } else {
      assert Ids(files[..n + 1]) - visited == (Ids(files[..n]) - visited) + {c.id};
    }
  }

  /** What a link bids for the file it leads to. */
  function BidOf(base: real, near: nat, rating: real): Link -> Scored {
    (c: Link) => Scored(c.id, base + Added(near, c.weight, rating))
  }

  /** Offers the files of one symbol, at most cap of those not visited. */
  method ExpandSymbol(next: Scores, base: real, link: Link, files: seq<Link>, visited: set<SymbolId>, cap: nat, rate: Rating)
    returns (next': Scores)
    requires OncePerId(files)
    ensures Grew(next, ListedBids(files, BidOf(base, link.weight, rate(link.id, |files|))), visited, next', FewUnvisited(Ids(files), visited, cap))
  {
    next' := next;
    var bid := BidOf(base, link.weight, rate(link.id, |files|));
    var emitted := 0;
    var i := 0;
    while i < |files|
      invariant 0 <= i <= |files| && emitted == |Ids(files[..i]) - visited|
      invariant Grew(next, ListedBids(files[..i], bid), visited, next', true)
    {
      var c := files[i];
      NextListed(files, i, bid);
      NextUnvisited(files, i, visited);
      GrewRaise(next, ListedBids(files[..i], bid), visited, next', bid(c), ListedBids(files[..i + 1], bid));
      i := i + 1;
      if c.id !in visited {
        next' := Raise(next', bid(c));
        emitted := emitted + 1;
        if emitted >= cap {
          break;
        }
      }
    }
    CutOff(files, i, bid, visited, cap, next, next');
  }

  /** Breaking off after cap files loses nothing when there are no more. */
  lemma CutOff(files: seq<Link>, n: nat, bid: Link -> Scored, visited: set<SymbolId>, cap: nat, next: Scores, next': Scores)
    requires OncePerId(files) && n <= |files| && (n == |files| || |Ids(files[..n]) - visited| >= cap)
    requires forall c :: bid(c).id == c.id
    requires Grew(next, ListedBids(files[..n], bid), visited, next', true)
    ensures Grew(next, ListedBids(files, bid), visited, next', FewUnvisited(Ids(files), visited, cap))
  {
    assert forall l :: l in files[..n] ==> l in files;
    if FewUnvisited(Ids(files), visited, cap) {
      forall l | l in files && l.id !in visited
        ensures l in files[..n]
      {
        RestVisited(files, n, visited, cap, l);
      }
    }
  }

  lemma RestVisited(files: seq<Link>, n: nat, visited: set<SymbolId>, cap: nat, l: Link)
    requires OncePerId(files) && n <= |files| && (n == |files| || |Ids(files[..n]) - visited| >= cap)
    requires FewUnvisited(Ids(files), visited, cap) && l in files && l.id !in visited
    ensures l in files[..n]
  {
    var k :| 0 <= k < |files| && files[k] == l;
    if n <= k {
      IdsPrefix(files, n);
      SameSize(Ids(files[..n]) - visited, Ids(files) - visited);
      assert l.id in Ids(files) - visited;
      LaterLink(files, n, k);
    }
  }

  lemma LaterLink(files: seq<Link>, n: nat, k: nat)
    requires OncePerId(files) && n <= k < |files|
    ensures files[k].id !in Ids(files[..n])
  {
  }

  lemma IdsPrefix(links: seq<Link>, n: nat)
    requires n <= |links|
    ensures Ids(links[..n]) <= Ids(links)
    ensures n == |links| ==> Ids(links[..n]) == Ids(links)
  {
    forall id | id in Ids(links[..n])
      ensures id in Ids(links)
    {
      var k :| 0 <= k < n && links[..n][k].id == id;
      assert links[k] in links;
    }
    if n == |links| {
      assert links[..n] == links;
    }
  }

  /** Two steps of growth are one; the whole is complete when both parts are. */
  lemma GrewTwice(a: Scores, first: set<Scored>, b: Scores, second: set<Scored>, c: Scores, both: set<Scored>,
                  visited: set<SymbolId>, complete: bool, partComplete: bool)
    requires Grew(a, first, visited, b, complete) && Grew(b, second, visited, c, partComplete)
    requires both == first + second && (complete ==> partComplete)
    ensures Grew(a, both, visited, c, complete)
  {
    forall f | f in c
      ensures (f in a && c[f] == a[f]) || (f !in visited && Scored(f, c[f]) in both)
    {
      if !(f !in visited && Scored(f, c[f]) in second) {
        assert f in b && c[f] == b[f];
      }
    }
  }

  /** The tables pass on what the graph says. */
  lemma TableBids(g: Graph, t: Tables, rate: Rating, base: real, file: SymbolId, link: Link)
    requires Ready(g, t) && link in LinksOf(t.ofFile, file)
    ensures var files := LinksOf(t.ofSymbol, link.id);
            Ids(files) == FilesOf(g.nodes, g.edges, link.id)
            && ListedBids(files, BidOf(base, link.weight, rate(link.id, |files|))) == SymbolBids(g, rate, base, file, link.id)
  {
    var files := LinksOf(t.ofSymbol, link.id);
    OncePerIdLength(files);
    var bid := BidOf(base, link.weight, rate(link.id, |files|));
    assert forall c :: c in files ==> bid(c) == Scored(c.id, base + Gain(g, rate, file, link.id, c.id));
    forall b | b in FilesOf(g.nodes, g.edges, link.id)
      ensures Scored(b, base + Gain(g, rate, file, link.id, b)) in ListedBids(files, bid)
    {
      assert b in Ids(files);
      var c :| c in files && c.id == b;
      assert bid(c) == Scored(b, base + Gain(g, rate, file, link.id, b));
    }
  }

  method ExpandLink(ghost g: Graph, t: Tables, next: Scores, base: real, ghost file: SymbolId, link: Link, visited: set<SymbolId>, maxFiles: nat, rate: Rating)
    returns (next': Scores)
    requires Ready(g, t) && link in LinksOf(t.ofFile, file)
    ensures Grew(next, SymbolBids(g, rate, base, file, link.id), visited, next',
                 FewUnvisited(FilesOf(g.nodes, g.edges, link.id), visited, SymbolFileCap(maxFiles)))
  {
    TableBids(g, t, rate, base, file, link);
    next' := ExpandSymbol(next, base, link, LinksOf(t.ofSymbol, link.id), visited, SymbolFileCap(maxFiles), rate);
  }

  lemma UnhinderedLink(g: Graph, t: Tables, file: SymbolId, visited: set<SymbolId>, maxFiles: nat, i: nat)
    requires Ready(g, t) && i < |LinksOf(t.ofFile, file)| && Unhindered(g, file, visited, maxFiles)
    ensures |LinksOf(t.ofFile, file)| <= FileSymbolCap(maxFiles)
    ensures FewUnvisited(FilesOf(g.nodes, g.edges, LinksOf(t.ofFile, file)[i].id), visited, SymbolFileCap(maxFiles))
  {
    var links := LinksOf(t.ofFile, file);
    OncePerIdLength(links);
    assert links[i] in links;
    assert links[i].id in SymbolsOf(g.nodes, g.edges, file);
  }

  lemma NextBids(g: Graph, rate: Rating, base: real, file: SymbolId, links: seq<Link>, n: nat)
    requires n < |links|
    ensures FileBids(g, rate, base, file, Ids(links[..n + 1]))
         == FileBids(g, rate, base, file, Ids(links[..n])) + SymbolBids(g, rate, base, file, links[n].id)
  {
    assert forall l :: l in links[..n + 1] <==> l in links[..n] || l == links[n];
    assert Ids(links[..n + 1]) == Ids(links[..n]) + {links[n].id};
  }

  lemma LinkStep(g: Graph, t: Tables, rate: Rating, base: real, file: SymbolId, visited: set<SymbolId>, maxFiles: nat, i: nat,
                 next: Scores, before: Scores, after: Scores)
    requires Ready(g, t) && i < |LinksOf(t.ofFile, file)|
    requires var links, free := LinksOf(t.ofFile, file), Unhindered(g, file, visited, maxFiles);
             && Grew(next, FileBids(g, rate, base, file, Ids(links[..i])), visited, before, free)
             && Grew(before, SymbolBids(g, rate, base, file, links[i].id), visited, after,
                     FewUnvisited(FilesOf(g.nodes, g.edges, links[i].id), visited, SymbolFileCap(maxFiles)))
    ensures Grew(next, FileBids(g, rate, base, file, Ids(LinksOf(t.ofFile, file)[..i + 1])), visited, after, Unhindered(g, file, visited, maxFiles))
  {
    var links, free := LinksOf(t.ofFile, file), Unhindered(g, file, visited, maxFiles);
    if free {
      UnhinderedLink(g, t, file, visited, maxFiles, i);
    }
    NextBids(g, rate, base, file, links, i);
    GrewTwice(next, FileBids(g, rate, base, file, Ids(links[..i])), before, SymbolBids(g, rate, base, file, links[i].id), after,
              FileBids(g, rate, base, file, Ids(links[..i + 1])), visited, free,
              FewUnvisited(FilesOf(g.nodes, g.edges, links[i].id), visited, SymbolFileCap(maxFiles)));
  }

  lemma LinksDone(g: Graph, t: Tables, rate: Rating, base: real, file: SymbolId, visited: set<SymbolId>, maxFiles: nat, n: nat, next: Scores, after: Scores)
    requires Ready(g, t) && n <= |LinksOf(t.ofFile, file)|
    requires n == |LinksOf(t.ofFile, file)| || n == FileSymbolCap(maxFiles)
    requires Grew(next, FileBids(g, rate, base, file, Ids(LinksOf(t.ofFile, file)[..n])), visited, after, Unhindered(g, file, visited, maxFiles))
    ensures Grew(next, FileBids(g, rate, base, file, SymbolsOf(g.nodes, g.edges, file)), visited, after, Unhindered(g, file, visited, maxFiles))
  {
    var links := LinksOf(t.ofFile, file);
    IdsPrefix(links, n);
    assert Ids(links) == SymbolsOf(g.nodes, g.edges, file);
    if n < |links| && Unhindered(g, file, visited, maxFiles) {
      UnhinderedLink(g, t, file, visited, maxFiles, 0);
    }
  }

  /** Offers the neighbours of one file. */
  method ExpandFile(ghost g: Graph, t: Tables, next: Scores, file: SymbolId, base: real, visited: set<SymbolId>, maxFiles: nat, rate: Rating)
    returns (next': Scores)
    requires Ready(g, t)
    ensures Grew(next, FileBids(g, rate, base, file, SymbolsOf(g.nodes, g.edges, file)), visited, next', Unhindered(g, file, visited, maxFiles))
  {
    var links := LinksOf(t.ofFile, file);
    var n := if |links| <= FileSymbolCap(maxFiles) then |links| else FileSymbolCap(maxFiles);
    next' := next;
    for i := 0 to n
      invariant Grew(next, FileBids(g, rate, base, file, Ids(links[..i])), visited, next', Unhindered(g, file, visited, maxFiles))
    {
      ghost var before := next';
      next' := ExpandLink(g, t, next', base, file, links[i], visited, maxFiles, rate);
      LinkStep(g, t, rate, base, file, visited, maxFiles, i, next, before, next');
    }
    LinksDone(g, t, rate, base, file, visited, maxFiles, n, next, next');
  }

  ghost function Members(frontier: seq<SymbolId>): set<SymbolId> { set f | f in frontier }

  /** No cap cuts off anything unvisited around these files. */
  ghost predicate AllUnhindered(g: Graph, frontier: seq<SymbolId>, visited: set<SymbolId>, maxFiles: nat) {
    forall f :: f in frontier ==> Unhindered(g, f, visited, maxFiles)
  }

  lemma FrontierStep(g: Graph, rate: Rating, frontier: seq<SymbolId>, i: nat, scores: Scores, visited: set<SymbolId>, maxFiles: nat, before: Scores, after: Scores)
    requires i < |frontier|
    requires Grew(map[], Bids(g, rate, scores, Members(frontier[..i])), visited, before, AllUnhindered(g, frontier, visited, maxFiles))
    requires var f := frontier[i];
             Grew(before, FileBids(g, rate, ScoreOf(scores, f, 1.0), f, SymbolsOf(g.nodes, g.edges, f)), visited, after,
                  Unhindered(g, f, visited, maxFiles))
    ensures Grew(map[], Bids(g, rate, scores, Members(frontier[..i + 1])), visited, after, AllUnhindered(g, frontier, visited, maxFiles))
  {
    var f := frontier[i];
    assert f in frontier;
    assert Members(frontier[..i + 1]) == Members(frontier[..i]) + {f};
    GrewTwice(map[], Bids(g, rate, scores, Members(frontier[..i])), before,
              FileBids(g, rate, ScoreOf(scores, f, 1.0), f, SymbolsOf(g.nodes, g.edges, f)), after,
              Bids(g, rate, scores, Members(frontier[..i + 1])), visited,
              AllUnhindered(g, frontier, visited, maxFiles), Unhindered(g, f, visited, maxFiles));
  }

  /** Offers all neighbours of the frontier. */
  method Expand(ghost g: Graph, t: Tables, frontier: seq<SymbolId>, scores: Scores, visited: set<SymbolId>, maxFiles: nat, rate: Rating)
    returns (next: Scores)
    requires Ready(g, t)
    ensures Grew(map[], Bids(g, rate, scores, Members(frontier)), visited, next, AllUnhindered(g, frontier, visited, maxFiles))
  {
    next := map[];
    for i := 0 to |frontier|
      invariant Grew(map[], Bids(g, rate, scores, Members(frontier[..i])), visited, next, AllUnhindered(g, frontier, visited, maxFiles))
    {
      ghost var before := next;
      next := ExpandFile(g, t, next, frontier[i], ScoreOf(scores, frontier[i], 1.0), visited, maxFiles, rate);
      FrontierStep(g, rate, frontier, i, scores, visited, maxFiles, before, next);
    }
    assert frontier[..|frontier|] == frontier;
  }

  // ----------------------------------------------------------------------------- ranking

  predicate ScoredBefore(a: Scored, b: Scored) {
    a.score > b.score || (a.score == b.score && IdLess(a.id, b.id))
  }

  lemma ScoredOrder()
    ensures WeakOrder(ScoredBefore)
  {
    forall a, b | ScoredBefore(a, b)
      ensures !ScoredBefore(b, a)
    {
      IdLessTotal(a.id, b.id);
    }
    forall a, b, c | ScoredBefore(a, c)
      ensures ScoredBefore(a, b) || ScoredBefore(b, c)
    {
      IdLessTotal(a.id, b.id);
      IdLessTotal(b.id, c.id);
      if IdLess(b.id, a.id) && IdLess(a.id, c.id) {
        IdLessTransitive(b.id, a.id, c.id);
      }
    }
  }

  /** The entries of a score table, in any order. */
  method Entries(next: Scores) returns (listed: seq<Scored>)
    ensures |listed| == |next| && forall s: Scored :: s in listed <==> s.id in next && s.score == next[s.id]
  {
    listed := [];
    var rest := next.Keys;
    while rest != {}
      invariant rest <= next.Keys && |listed| + |rest| == |next|
      invariant forall s: Scored :: s in listed <==> s.id in next && s.id !in rest && s.score == next[s.id]
      decreases |rest|
    {
      var id :| id in rest;
      listed := listed + [Scored(id, next[id])];
      rest := rest - {id};
    }
  }

  /** The best of the offered files, at most cap. */
  method Rank(next: Scores, cap: nat) returns (ranked: seq<Scored>)
    ensures forall s :: s in ranked ==> s.id in next && s.score == next[s.id]
    ensures forall i, j :: 0 <= i < j < |ranked| ==>
              ranked[i].score > ranked[j].score || (ranked[i].score == ranked[j].score && !IdLess(ranked[j].id, ranked[i].id))
    ensures |ranked| <= cap
    ensures forall id :: id in next && Scored(id, next[id]) !in ranked ==> |ranked| == cap && forall s :: s in ranked ==> next[id] <= s.score
    ensures |next| <= cap ==> forall id :: id in next ==> Scored(id, next[id]) in ranked
  {
    var listed := Entries(next);
    ranked := SortBy(listed, ScoredBefore);
    SortContents(listed, ScoredBefore);
    ScoredOrder();
    SortOrdered(listed, ScoredBefore);
    BestFirst(ranked);
    if |ranked| > cap {
      forall id | id in next && Scored(id, next[id]) !in ranked[..cap]
        ensures forall s :: s in ranked[..cap] ==> next[id] <= s.score
      {
        CutLater(ranked, cap, Scored(id, next[id]));
      }
      assert forall s :: s in ranked[..cap] ==> s in ranked;
      ranked := ranked[..cap];
    }
  }

  lemma BestFirst(ranked: seq<Scored>)
    requires Ordered(ranked, ScoredBefore)
    ensures forall i, j :: 0 <= i < j < |ranked| ==>
              ranked[i].score > ranked[j].score || (ranked[i].score == ranked[j].score && !IdLess(ranked[j].id, ranked[i].id))
  {
    forall i, j | 0 <= i < j < |ranked|
      ensures !ScoredBefore(ranked[j], ranked[i])
    {
    }
  }

  /** What is cut off scores no higher than anything that is kept. */
  lemma CutLater(ranked: seq<Scored>, cap: nat, cut: Scored)
    requires Ordered(ranked, ScoredBefore) && cap <= |ranked| && cut in ranked && cut !in ranked[..cap]
    ensures forall s :: s in ranked[..cap] ==> cut.score <= s.score
  {
    var j :| 0 <= j < |ranked| && ranked[j] == cut;
    assert cap <= j;
    BestFirst(ranked);
  }

  // --------------------------------------------------------------------------- the search

  datatype Found = Found(hops: map<SymbolId, nat>, scores: Scores, frontier: seq<SymbolId>)

  /** After k levels: every hop is a number of steps, and the frontier is the last level. */
  ghost predicate Level(g: Graph, start: set<SymbolId>, k: nat, found: Found) {
    && (forall f :: f in found.hops ==> found.hops[f] <= k && Reach(g, start, found.hops[f], f))
    && (forall f :: f in found.frontier <==> f in found.hops && found.hops[f] == k)
    && (forall f :: f in start ==> f in found.hops && found.hops[f] == 0)
  }

  /** Some chain as long as its hop earns a found file its score. */
  ghost predicate Earned(g: Graph, rate: Rating, start: set<SymbolId>, found: Found) {
    forall f :: f in found.hops ==> f in found.scores && Earns(g, rate, start, found.hops[f], f, found.scores[f])
  }

  /** Whatever k steps reach is found with at most that hop. */
  ghost predicate Closest(g: Graph, start: set<SymbolId>, k: nat, found: Found) {
    forall j: nat, f {:trigger Reach(g, start, j, f)} :: j <= k && Reach(g, start, j, f) ==> f in found.hops && found.hops[f] <= j
  }

  /** No chain as long as its hop earns a found file more than its score. */
  ghost predicate BestScored(g: Graph, rate: Rating, start: set<SymbolId>, found: Found) {
    forall f, x: real {:trigger Earns(g, rate, start, found.hops[f], f, x)} ::
      f in found.hops && f in found.scores && Earns(g, rate, start, found.hops[f], f, x) ==> x <= found.scores[f]
  }

  /** Bids are for neighbours, and every neighbour gets one. */
  lemma BidFiles(g: Graph, rate: Rating, scores: Scores, files: set<SymbolId>)
    ensures forall b :: b in Bids(g, rate, scores, files) ==> b.id in NeighboursOfAll(g, files)
    ensures forall id :: id in NeighboursOfAll(g, files) ==> exists b :: b in Bids(g, rate, scores, files) && b.id == id
  {
    forall b | b in Bids(g, rate, scores, files)
      ensures b.id in NeighboursOfAll(g, files)
    {
      var f :| f in files && b in FileBids(g, rate, ScoreOf(scores, f, 1.0), f, SymbolsOf(g.nodes, g.edges, f));
      assert b.id in Neighbours(g, f);
    }
    forall id | id in NeighboursOfAll(g, files)
      ensures exists b :: b in Bids(g, rate, scores, files) && b.id == id
    {
      var f :| f in files && id in Neighbours(g, f);
      var s :| s in SymbolsOf(g.nodes, g.edges, f) && id in FilesOf(g.nodes, g.edges, s);
      PassedOn(g, rate, scores, files, f, s, id);
    }
  }

  /** A file passes its score and the gain on to whatever shares a symbol with it. */
  lemma PassedOn(g: Graph, rate: Rating, scores: Scores, files: set<SymbolId>, f: SymbolId, s: SymbolId, to: SymbolId)
    requires f in files && Shares(g, f, s, to)
    ensures Scored(to, ScoreOf(scores, f, 1.0) + Gain(g, rate, f, s, to)) in Bids(g, rate, scores, files)
  {
    var bid := Scored(to, ScoreOf(scores, f, 1.0) + Gain(g, rate, f, s, to));
    assert bid in SymbolBids(g, rate, ScoreOf(scores, f, 1.0), f, s);
    assert bid in FileBids(g, rate, ScoreOf(scores, f, 1.0), f, SymbolsOf(g.nodes, g.edges, f));
  }

  lemma BidEarns(g: Graph, rate: Rating, start: set<SymbolId>, k: nat, found: Found, f: SymbolId, b: Scored)
    requires f in found.scores && Earns(g, rate, start, k, f, found.scores[f])
    requires b in FileBids(g, rate, found.scores[f], f, SymbolsOf(g.nodes, g.edges, f))
    ensures Earns(g, rate, start, k + 1, b.id, b.score)
  {
    var s :| s in SymbolsOf(g.nodes, g.edges, f) && b in SymbolBids(g, rate, found.scores[f], f, s);
    assert Shares(g, f, s, b.id) && b.score - Gain(g, rate, f, s, b.id) == found.scores[f];
    assert Earns(g, rate, start, (k + 1) - 1, f, b.score - Gain(g, rate, f, s, b.id));
  }

  lemma NeighbourClose(g: Graph, start: set<SymbolId>, k: nat, found: Found, p: SymbolId, f: SymbolId)
    requires Level(g, start, k, found) && Closest(g, start, k, found) && Reach(g, start, k, p) && f in Neighbours(g, p)
    ensures f in found.hops || p in found.frontier
  {
    var h := found.hops[p];
    if h < k {
      StepFurther(g, start, h, p, f);
    }
  }

  lemma StepFurther(g: Graph, start: set<SymbolId>, h: nat, p: SymbolId, f: SymbolId)
    requires Reach(g, start, h, p) && f in Neighbours(g, p)
    ensures Reach(g, start, h + 1, f)
  {
    assert Reach(g, start, (h + 1) - 1, p);
  }

  /** The next level as the offered files make it. */
  ghost predicate TakenOver(g: Graph, rate: Rating, k: nat, found: Found, added: set<SymbolId>, found': Found) {
    && added !! found.hops.Keys && found'.hops.Keys == found.hops.Keys + added
    && (forall f :: f in found'.hops ==> found'.hops[f] == if f in added then k + 1 else found.hops[f])
    && (forall f :: f in found'.frontier <==> f in added)
    && (forall f :: f in found.hops && f in found.scores ==> f in found'.scores && found'.scores[f] == found.scores[f])
    && (forall f :: f in added ==> f in found'.scores && Scored(f, found'.scores[f]) in Bids(g, rate, found.scores, Members(found.frontier)))
  }

  /** Every bid for a new file is met. */
  ghost predicate AllMet(g: Graph, rate: Rating, found: Found, found': Found) {
    forall b :: b in Bids(g, rate, found.scores, Members(found.frontier)) && b.id !in found.hops ==>
      b.id in found'.hops && b.id in found'.scores && b.score <= found'.scores[b.id]
  }

  /** The files taken over have earned what they are given. */
  lemma NextEarned(g: Graph, rate: Rating, start: set<SymbolId>, k: nat, found: Found, added: set<SymbolId>, found': Found)
    requires Level(g, start, k, found) && Earned(g, rate, start, found) && TakenOver(g, rate, k, found, added, found')
    ensures Earned(g, rate, start, found')
  {
    forall f | f in added
      ensures Earns(g, rate, start, k + 1, f, found'.scores[f])
    {
      var b := Scored(f, found'.scores[f]);
      var p :| p in Members(found.frontier) && b in FileBids(g, rate, ScoreOf(found.scores, p, 1.0), p, SymbolsOf(g.nodes, g.edges, p));
      assert p in found.hops && found.hops[p] == k;
      BidEarns(g, rate, start, k, found, p, b);
    }
  }

  /** One more level: what is offered is taken over. */
  lemma LevelAdvances(g: Graph, rate: Rating, start: set<SymbolId>, k: nat, found: Found, added: set<SymbolId>, found': Found)
    requires Level(g, start, k, found) && Earned(g, rate, start, found) && TakenOver(g, rate, k, found, added, found')
    ensures Level(g, start, k + 1, found') && Earned(g, rate, start, found')
    ensures Closest(g, start, k, found) && AllMet(g, rate, found, found') ==> Closest(g, start, k + 1, found')
  {
    NextEarned(g, rate, start, k, found, added, found');
    forall f | f in added
      ensures Reach(g, start, k + 1, f)
    {
      EarnedReached(g, rate, start, k + 1, f, found'.scores[f]);
    }
    if Closest(g, start, k, found) && AllMet(g, rate, found, found') {
      NextClosest(g, rate, start, k, found, added, found');
    }
  }

  lemma NextClosest(g: Graph, rate: Rating, start: set<SymbolId>, k: nat, found: Found, added: set<SymbolId>, found': Found)
    requires Level(g, start, k, found) && Earned(g, rate, start, found) && TakenOver(g, rate, k, found, added, found')
    requires Closest(g, start, k, found) && AllMet(g, rate, found, found')
    ensures Closest(g, start, k + 1, found')
  {
    forall j: nat, f | j <= k + 1 && Reach(g, start, j, f)
      ensures f in found'.hops && found'.hops[f] <= j
    {
      if j == k + 1 {
        ReachedNext(g, rate, start, k, found, found', f);
      }
    }
  }

  lemma ReachedNext(g: Graph, rate: Rating, start: set<SymbolId>, k: nat, found: Found, found': Found, f: SymbolId)
    requires Level(g, start, k, found) && Earned(g, rate, start, found) && Closest(g, start, k, found) && AllMet(g, rate, found, found')
    requires Reach(g, start, k + 1, f)
    ensures f in found.hops || f in found'.hops
  {
    var p :| Reach(g, start, k, p) && f in Neighbours(g, p);
    NeighbourClose(g, start, k, found, p, f);
    if f !in found.hops {
      var s :| s in SymbolsOf(g.nodes, g.edges, p) && f in FilesOf(g.nodes, g.edges, s);
      PassedOn(g, rate, found.scores, Members(found.frontier), p, s, f);
    }
  }

  /** When all bids are met, scores stay the best their hops can earn. */
  lemma ScoresStayBest(g: Graph, rate: Rating, start: set<SymbolId>, k: nat, found: Found, added: set<SymbolId>, found': Found)
    requires Level(g, start, k, found) && Earned(g, rate, start, found) && TakenOver(g, rate, k, found, added, found')
    requires Closest(g, start, k, found) && BestScored(g, rate, start, found) && AllMet(g, rate, found, found')
    ensures BestScored(g, rate, start, found')
  {
    forall f, x: real | f in found'.hops && f in found'.scores && Earns(g, rate, start, found'.hops[f], f, x)
      ensures x <= found'.scores[f]
    {
      if f in added {
        NewScoreBest(g, rate, start, k, found, found', f, x);
      }
    }
  }

  lemma NewScoreBest(g: Graph, rate: Rating, start: set<SymbolId>, k: nat, found: Found, found': Found, f: SymbolId, x: real)
    requires Level(g, start, k, found) && Earned(g, rate, start, found) && Closest(g, start, k, found) && BestScored(g, rate, start, found)
    requires AllMet(g, rate, found, found') && f !in found.hops && Earns(g, rate, start, k + 1, f, x)
    ensures f in found'.scores && x <= found'.scores[f]
  {
    var p, s :| Shares(g, p, s, f) && Earns(g, rate, start, (k + 1) - 1, p, x - Gain(g, rate, p, s, f));
    var earned := x - Gain(g, rate, p, s, f);
    EarnedReached(g, rate, start, k, p, earned);
    assert f in Neighbours(g, p);
    NeighbourClose(g, start, k, found, p, f);
    assert earned <= found.scores[p];
    PassedOn(g, rate, found.scores, Members(found.frontier), p, s, f);
  }

  /** Once a level is empty no file is farther away. */
  lemma {:induction false} NothingFarther(g: Graph, start: set<SymbolId>, k: nat, found: Found, m: nat)
    requires Level(g, start, k, found) && Closest(g, start, k, found) && |found.frontier| == 0 && k <= m
    ensures Closest(g, start, m, found)
  {
    if k < m {
      NothingFarther(g, start, k, found, m - 1);
      forall j: nat, f | j <= m && Reach(g, start, j, f)
        ensures f in found.hops && found.hops[f] <= j
      {
        if j == m {
          var p :| Reach(g, start, j - 1, p) && f in Neighbours(g, p);
          assert p in found.hops && found.hops[p] <= k && p !in found.frontier;
          var h := found.hops[p] + 1;
          assert Reach(g, start, h - 1, p);
          assert Reach(g, start, h, f);
        }
      }
    }
  }

  /** A level that is complete so far has found the files within k steps, and its frontier is those at distance k. */
  lemma FoundBall(g: Graph, start: set<SymbolId>, k: nat, found: Found)
    requires Level(g, start, k, found) && Closest(g, start, k, found)
    ensures found.hops.Keys == Ball(g, start, k) && Members(found.frontier) == Ring(g, start, k)
  {
    forall f
      ensures f in found.hops <==> f in Ball(g, start, k)
      ensures k > 0 ==> (f in found.hops && found.hops[f] < k <==> f in Ball(g, start, k - 1))
    {
      InBall(g, start, k, found, f);
    }
  }

  lemma InBall(g: Graph, start: set<SymbolId>, k: nat, found: Found, f: SymbolId)
    requires Level(g, start, k, found) && Closest(g, start, k, found)
    ensures f in found.hops <==> f in Ball(g, start, k)
    ensures k > 0 ==> (f in found.hops && found.hops[f] < k <==> f in Ball(g, start, k - 1))
  {
    if f in found.hops {
      ReachedBall(g, start, k, found.hops[f], f);
      if found.hops[f] < k {
        ReachedBall(g, start, k - 1, found.hops[f], f);
      }
    }
    if f in Ball(g, start, k) {
      var j := BallReached(g, start, k, f);
    }
    if k > 0 && f in Ball(g, start, k - 1) {
      var j := BallReached(g, start, k - 1, f);
    }
  }

  function RankedIds(ranked: seq<Scored>): set<SymbolId> { set s | s in ranked :: s.id }

  /** Takes over the ranked files as the next level. */
  method Advance(found: Found, ghost next: Scores, ranked: seq<Scored>, hop: nat) returns (found': Found)
    requires forall s :: s in ranked ==> s.id in next && s.score == next[s.id]
    ensures found'.hops.Keys == found.hops.Keys + RankedIds(ranked)
    ensures forall f :: f in found'.hops ==> found'.hops[f] == if f in found.hops then found.hops[f] else hop
    ensures forall f :: f in found'.frontier <==> f in found'.hops && f !in found.hops
    ensures forall f :: f in found.hops && f in found.scores ==> f in found'.scores && found'.scores[f] == found.scores[f]
    ensures forall f :: f in found'.frontier ==> f in next && f in found'.scores && found'.scores[f] == next[f]
  {
    var hops, scores, frontier := found.hops, found.scores, [];
    for i := 0 to |ranked|
      invariant hops.Keys == found.hops.Keys + RankedIds(ranked[..i])
      invariant forall f :: f in hops ==> hops[f] == if f in found.hops then found.hops[f] else hop
      invariant forall f :: f in frontier <==> f in hops && f !in found.hops
      invariant forall f :: f in found.hops && f in found.scores ==> f in scores && scores[f] == found.scores[f]
      invariant forall f :: f in frontier ==> f in next && f in scores && scores[f] == next[f]
    {
      var c := ranked[i];
      assert forall s :: s in ranked[..i + 1] <==> s in ranked[..i] || s == c;
      if c.id !in hops {
        scores := scores[c.id := c.score];
        hops := hops[c.id := hop];
        frontier := frontier + [c.id];
      }
    }
    assert ranked[..|ranked|] == ranked;
    found' := Found(hops, scores, frontier);
  }

  /** Ranking keeps offered files only, and all of them when they fit. */
  lemma RankedOffered(next: Scores, ranked: seq<Scored>)
    requires forall s :: s in ranked ==> s.id in next
    ensures RankedIds(ranked) <= next.Keys
    ensures (forall id :: id in next ==> Scored(id, next[id]) in ranked) ==> RankedIds(ranked) == next.Keys
  {
    if forall id :: id in next ==> Scored(id, next[id]) in ranked {
      forall id | id in next
        ensures id in RankedIds(ranked)
      {
        assert Scored(id, next[id]).id == id;
      }
    }
  }

  /** Nothing unvisited around the frontier is cut off before ranking, nor too much to rank. */
  lemma OfferedAll(g: Graph, rate: Rating, found: Found, maxFiles: nat, next: Scores)
    requires LevelFits(g, Members(found.frontier), found.hops.Keys, maxFiles)
    requires Grew(map[], Bids(g, rate, found.scores, Members(found.frontier)), found.hops.Keys, next,
                  AllUnhindered(g, found.frontier, found.hops.Keys, maxFiles))
    ensures AllUnhindered(g, found.frontier, found.hops.Keys, maxFiles) && |next| <= FrontierCap(maxFiles)
  {
    forall f | f in found.frontier
      ensures Unhindered(g, f, found.hops.Keys, maxFiles)
    {
      assert f in Members(found.frontier);
    }
    BidFiles(g, rate, found.scores, Members(found.frontier));
    forall f | f in next
      ensures f in NeighboursOfAll(g, Members(found.frontier)) - found.hops.Keys
    {
      assert Scored(f, next[f]) in Bids(g, rate, found.scores, Members(found.frontier));
    }
    SubsetSize(next.Keys, NeighboursOfAll(g, Members(found.frontier)) - found.hops.Keys);
    assert |next| == |next.Keys|;
  }

  /** The files a level adds: offered and ranked high enough, all of them when they fit. */
  method Offer(ghost g: Graph, t: Tables, found: Found, maxFiles: nat, rate: Rating) returns (ranked: seq<Scored>, ghost next: Scores)
    requires Ready(g, t)
    ensures Grew(map[], Bids(g, rate, found.scores, Members(found.frontier)), found.hops.Keys, next,
                 AllUnhindered(g, found.frontier, found.hops.Keys, maxFiles))
    ensures forall s :: s in ranked ==> s.id in next && s.score == next[s.id]
    ensures LevelFits(g, Members(found.frontier), found.hops.Keys, maxFiles) ==>
              AllUnhindered(g, found.frontier, found.hops.Keys, maxFiles) && RankedIds(ranked) == next.Keys
  {
    var offered := Expand(g, t, found.frontier, found.scores, found.hops.Keys, maxFiles, rate);
    ranked := Rank(offered, FrontierCap(maxFiles));
    next := offered;
    RankedOffered(next, ranked);
    if LevelFits(g, Members(found.frontier), found.hops.Keys, maxFiles) {
      OfferedAll(g, rate, found, maxFiles, next);
    }
  }

  /** While nothing is cut off: every file found so far is as near, and scored as high, as can be. */
  ghost predicate Complete(g: Graph, rate: Rating, start: set<SymbolId>, k: nat, found: Found) {
    Closest(g, start, k, found) && BestScored(g, rate, start, found)
  }

  /** One level of the search. */
  method NextLevel(ghost g: Graph, ghost start: set<SymbolId>, t: Tables, found: Found, hop: nat, maxFiles: nat, rate: Rating)
    returns (found': Found)
    requires Ready(g, t) && Level(g, start, hop, found) && Earned(g, rate, start, found)
    ensures Level(g, start, hop + 1, found') && Earned(g, rate, start, found')
    ensures LevelFits(g, Ring(g, start, hop), Ball(g, start, hop), maxFiles) && Complete(g, rate, start, hop, found)
            ==> Complete(g, rate, start, hop + 1, found')
  {
    if Closest(g, start, hop, found) {
      FoundBall(g, start, hop, found);
    }
    ghost var next;
    var ranked;
    ranked, next := Offer(g, t, found, maxFiles, rate);
    found' := Advance(found, next, ranked, hop + 1);
    RankedOffered(next, ranked);
    LevelAdvances(g, rate, start, hop, found, RankedIds(ranked), found');
    if LevelFits(g, Ring(g, start, hop), Ball(g, start, hop), maxFiles) && Complete(g, rate, start, hop, found) {
      assert AllMet(g, rate, found, found');
      ScoresStayBest(g, rate, start, hop, found, RankedIds(ranked), found');
    }
  }

  /** The whole search, level by level until nothing new is offered. */
  method Search(g: Graph, start: set<SymbolId>, hops: nat, maxFiles: nat, rate: Rating) returns (found: Found, ghost levels: nat)
    ensures levels <= hops && Level(g, start, levels, found) && Earned(g, rate, start, found)
    ensures NoCapBites(g, start, hops, maxFiles) ==> Complete(g, rate, start, hops, found)
  {
    var ofFile, ofSymbol := BuildLinks(g);
    var t := Tables(ofFile, ofSymbol);
    found := Begin(start);
    assert Complete(g, rate, start, 0, found);
    ghost var free := NoCapBites(g, start, hops, maxFiles);
    var hop := 0;
    while hop < hops && |found.frontier| > 0
      invariant 0 <= hop <= hops && Level(g, start, hop, found) && Earned(g, rate, start, found)
      invariant free ==> Complete(g, rate, start, hop, found)
    {
      found := NextLevel(g, start, t, found, hop, maxFiles, rate);
      hop := hop + 1;
    }
    levels := hop;
    if free && hop < hops {
      NothingFarther(g, start, hop, found, hops);
    }
  }

  /** The changed files form level zero. */
  method Begin(start: set<SymbolId>) returns (found: Found)
    ensures found.hops == (map f | f in start :: 0) && found.scores == map f | f in start :: 1.0
    ensures forall f :: f in found.frontier <==> f in start
  {
    var frontier := [];
    var rest := start;
    while rest != {}
      invariant rest <= start && forall f :: f in frontier <==> f in start && f !in rest
      decreases |rest|
    {
      var f :| f in rest;
      frontier := frontier + [f];
      rest := rest - {f};
    }
    found := Found(map f | f in start :: 0, map f | f in start :: 1.0, frontier);
  }
}
