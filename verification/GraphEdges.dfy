/**
 The edge list of the project graph: symbol ids, upsert, removal and renaming, and how each
 changes the number and the total weight of the edges any selector picks.
 */
module GraphEdges {
  import opened Bounds
  import CandidateOrder

  /** The prefix a symbol id is printed with; it comes before the first bar. */
  datatype Tag = Bucket | Decl | File | Scoped | Usr

  /** The printed id is the tag, a bar and the rest. */
  datatype SymbolId = SymbolId(tag: Tag, rest: string)

  function TagRank(tag: Tag): nat {
    match tag
    case Bucket => 0
    case Decl => 1
    case File => 2
    case Scoped => 3
    case Usr => 4
  }

  /** The order of the printed ids; the tags themselves are in alphabetical order. */
  predicate IdLess(a: SymbolId, b: SymbolId) {
    TagRank(a.tag) < TagRank(b.tag) || (a.tag == b.tag && CandidateOrder.TextLess(a.rest, b.rest))
  }

  lemma IdLessTotal(a: SymbolId, b: SymbolId)
    ensures a == b || IdLess(a, b) || IdLess(b, a)
    ensures !(IdLess(a, b) && IdLess(b, a)) && !IdLess(a, a)
  {
    CandidateOrder.TextLessTotal(a.rest, b.rest);
    CandidateOrder.TextLessTotal(a.rest, a.rest);
  }

  lemma IdLessTransitive(a: SymbolId, b: SymbolId, c: SymbolId)
    requires IdLess(a, b) && IdLess(b, c)
    ensures IdLess(a, c)
  {
    if a.tag == b.tag == c.tag {
      CandidateOrder.TextLessTransitive(a.rest, b.rest, c.rest);
    }
  }

  datatype EdgeKind = Reference | Call | Contains | Include | Unknown

  datatype Edge = Edge(from: SymbolId, to: SymbolId, kind: EdgeKind, weight: nat, lastSeen: nat)

  predicate SameIdentity(a: Edge, b: Edge) {
    a.from == b.from && a.to == b.to && a.kind == b.kind
  }

  /** Some edge of the list has the identity of e. */
  predicate Has(edges: seq<Edge>, e: Edge) {
    exists i :: 0 <= i < |edges| && SameIdentity(edges[i], e)
  }

  /** No two edges share an identity. */
  predicate Unique(edges: seq<Edge>) {
    forall i, j :: 0 <= i < j < |edges| ==> !SameIdentity(edges[i], edges[j])
  }

  predicate Weighted(edges: seq<Edge>) {
    forall i :: 0 <= i < |edges| ==> edges[i].weight >= 1
  }

  /** Every edge leaves a file. */
  predicate FromFiles(edges: seq<Edge>) {
    forall i :: 0 <= i < |edges| ==> edges[i].from.tag == File
  }

  // --------------------------------------------------------------------- counting edges

  /** Picks edges by their identity. */
  type Selector = (SymbolId, SymbolId, EdgeKind) -> bool

  predicate Picks(sel: Selector, e: Edge) { sel(e.from, e.to, e.kind) }

  function Count(edges: seq<Edge>, sel: Selector): nat {
    if |edges| == 0 then 0 else (if Picks(sel, edges[0]) then 1 else 0) + Count(edges[1..], sel)
  }

  function Weight(edges: seq<Edge>, sel: Selector): nat {
    if |edges| == 0 then 0 else (if Picks(sel, edges[0]) then edges[0].weight else 0) + Weight(edges[1..], sel)
  }

  /** All edges of a kind into a symbol. */
  function Into(to: SymbolId, kind: EdgeKind): Selector { (f, t, k) => t == to && k == kind }

  /** The one edge with a given identity. */
  function Link(from: SymbolId, to: SymbolId, kind: EdgeKind): Selector {
    (f, t, k) => f == from && t == to && k == kind
  }

  lemma {:induction false} CountConcat(a: seq<Edge>, b: seq<Edge>, sel: Selector)
    ensures Count(a + b, sel) == Count(a, sel) + Count(b, sel)
    ensures Weight(a + b, sel) == Weight(a, sel) + Weight(b, sel)
  {
    if |a| == 0 {
      assert a + b == b;
    } else {
      assert (a + b)[1..] == a[1..] + b;
      CountConcat(a[1..], b, sel);
    }
  }

  lemma CountOne(e: Edge, sel: Selector)
    ensures Count([e], sel) == (if Picks(sel, e) then 1 else 0)
    ensures Weight([e], sel) == (if Picks(sel, e) then e.weight else 0)
  {
    assert [e][1..] == [];
  }

  lemma {:induction false} CountNone(edges: seq<Edge>, sel: Selector)
    requires forall i :: 0 <= i < |edges| ==> !Picks(sel, edges[i])
    ensures Count(edges, sel) == 0 && Weight(edges, sel) == 0
  {
    if |edges| > 0 {
      assert forall i :: 0 <= i < |edges[1..]| ==> edges[1..][i] == edges[i + 1];
      CountNone(edges[1..], sel);
    }
  }

  /** Selectors that agree on the list count alike. */
  lemma {:induction false} CountAgree(edges: seq<Edge>, p: Selector, q: Selector)
    requires forall i :: 0 <= i < |edges| ==> Picks(p, edges[i]) == Picks(q, edges[i])
    ensures Count(edges, p) == Count(edges, q) && Weight(edges, p) == Weight(edges, q)
  {
    if |edges| > 0 {
      assert forall i :: 0 <= i < |edges[1..]| ==> edges[1..][i] == edges[i + 1];
      CountAgree(edges[1..], p, q);
    }
  }

  // ------------------------------------------------------------------------------ upsert

  function Merge(a: Edge, e: Edge): Edge {
    a.(weight := a.weight + MaxNat(e.weight, 1), lastSeen := MaxNat(a.lastSeen, e.lastSeen))
  }

  /** The first edge with the same identity absorbs e; without one, e is appended. */
  function Upsert(edges: seq<Edge>, e: Edge): seq<Edge> {
    if |edges| == 0 then [e]
    else if SameIdentity(edges[0], e) then [Merge(edges[0], e)] + edges[1..]
    else [edges[0]] + Upsert(edges[1..], e)
  }

  lemma HasTail(edges: seq<Edge>, e: Edge)
    requires |edges| > 0
    ensures Has(edges, e) <==> SameIdentity(edges[0], e) || Has(edges[1..], e)
  {
    if Has(edges, e) && !SameIdentity(edges[0], e) {
      var i :| 0 <= i < |edges| && SameIdentity(edges[i], e);
      assert edges[1..][i - 1] == edges[i];
    }
    if Has(edges[1..], e) {
      var i :| 0 <= i < |edges[1..]| && SameIdentity(edges[1..][i], e);
      assert edges[i + 1] == edges[1..][i];
    }
  }

  lemma {:induction false} UpsertNew(edges: seq<Edge>, e: Edge)
    requires !Has(edges, e)
    ensures Upsert(edges, e) == edges + [e]
  {
    if |edges| > 0 {
      HasTail(edges, e);
      UpsertNew(edges[1..], e);
      assert [edges[0]] + (edges[1..] + [e]) == edges + [e];
    }
  }

  lemma {:induction false} UpsertAt(edges: seq<Edge>, e: Edge, k: nat)
    requires k < |edges| && SameIdentity(edges[k], e) && forall i :: 0 <= i < k ==> !SameIdentity(edges[i], e)
    ensures Upsert(edges, e) == edges[k := Merge(edges[k], e)]
  {
    if k > 0 {
      assert forall i :: 0 <= i < |edges[1..]| ==> edges[1..][i] == edges[i + 1];
      UpsertAt(edges[1..], e, k - 1);
      assert [edges[0]] + edges[1..][k - 1 := Merge(edges[k], e)] == edges[k := Merge(edges[k], e)];
    } else {
      assert [Merge(edges[0], e)] + edges[1..] == edges[0 := Merge(edges[0], e)];
    }
  }

  /** The list after an upsert: appended to, or changed in one place. */
  lemma UpsertCases(edges: seq<Edge>, e: Edge) returns (k: int)
    ensures -1 <= k < |edges|
    ensures k < 0 ==> !Has(edges, e) && Upsert(edges, e) == edges + [e]
    ensures k >= 0 ==> SameIdentity(edges[k], e) && Upsert(edges, e) == edges[k := Merge(edges[k], e)]
  {
    k := 0;
    while k < |edges| && !SameIdentity(edges[k], e)
      invariant 0 <= k <= |edges| && forall i :: 0 <= i < k ==> !SameIdentity(edges[i], e)
    {
      k := k + 1;
    }
    if k == |edges| {
      UpsertNew(edges, e);
      k := -1;
    } else {
      UpsertAt(edges, e, k);
    }
  }

  /** An upsert adds the weight of e exactly to what selects e. */
  lemma {:induction false} UpsertWeight(edges: seq<Edge>, e: Edge, sel: Selector)
    requires e.weight >= 1
    ensures Weight(Upsert(edges, e), sel) == Weight(edges, sel) + (if Picks(sel, e) then e.weight else 0)
  {
    CountOne(e, sel);
    if |edges| > 0 {
      if SameIdentity(edges[0], e) {
        assert ([Merge(edges[0], e)] + edges[1..])[1..] == edges[1..];
      } else {
        UpsertWeight(edges[1..], e, sel);
        assert ([edges[0]] + Upsert(edges[1..], e))[1..] == Upsert(edges[1..], e);
      }
    }
  }

  /** An upsert adds an edge exactly when none had its identity. */
  lemma {:induction false} UpsertCount(edges: seq<Edge>, e: Edge, sel: Selector)
    ensures Count(Upsert(edges, e), sel) == Count(edges, sel) + (if Picks(sel, e) && !Has(edges, e) then 1 else 0)
  {
    CountOne(e, sel);
    if |edges| > 0 {
      HasTail(edges, e);
      if SameIdentity(edges[0], e) {
        assert ([Merge(edges[0], e)] + edges[1..])[1..] == edges[1..];
      } else {
        UpsertCount(edges[1..], e, sel);
        assert ([edges[0]] + Upsert(edges[1..], e))[1..] == Upsert(edges[1..], e);
      }
    }
  }

  lemma UpsertHas(edges: seq<Edge>, e: Edge, x: Edge)
    ensures Has(Upsert(edges, e), x) <==> Has(edges, x) || SameIdentity(e, x)
  {
    var k := UpsertCases(edges, e);
    var after := Upsert(edges, e);
    if k < 0 {
      assert after[|edges|] == e;
      assert forall i :: 0 <= i < |edges| ==> after[i] == edges[i];
    } else {
      assert forall i :: 0 <= i < |edges| ==> SameIdentity(after[i], edges[i]);
      assert SameIdentity(after[k], e);
    }
  }

  lemma UpsertUnique(edges: seq<Edge>, e: Edge)
    requires Unique(edges)
    ensures Unique(Upsert(edges, e))
  {
    var k := UpsertCases(edges, e);
    var after := Upsert(edges, e);
    if k >= 0 {
      assert forall i :: 0 <= i < |edges| ==> SameIdentity(after[i], edges[i]);
    }
  }

  /** Whatever holds of the identities of the list and of e, and of weights, holds after. */
  lemma UpsertKeeps(edges: seq<Edge>, e: Edge)
    ensures Weighted(edges) && e.weight >= 1 ==> Weighted(Upsert(edges, e))
    ensures FromFiles(edges) && e.from.tag == File ==> FromFiles(Upsert(edges, e))
  {
    var k := UpsertCases(edges, e);
  }

  // ------------------------------------------------------------------ upserting a list

  function UpsertAll(base: seq<Edge>, edges: seq<Edge>): seq<Edge> {
    if |edges| == 0 then base else Upsert(UpsertAll(base, edges[..|edges| - 1]), edges[|edges| - 1])
  }

  lemma Split(edges: seq<Edge>)
    requires |edges| > 0
    ensures edges == edges[..|edges| - 1] + [edges[|edges| - 1]]
  {
  }

  lemma {:induction false} UpsertAllWeight(base: seq<Edge>, edges: seq<Edge>, sel: Selector)
    requires Weighted(edges)
    ensures Weight(UpsertAll(base, edges), sel) == Weight(base, sel) + Weight(edges, sel)
  {
    if |edges| > 0 {
      var init, last := edges[..|edges| - 1], edges[|edges| - 1];
      UpsertAllWeight(base, init, sel);
      UpsertWeight(UpsertAll(base, init), last, sel);
      Split(edges);
      CountConcat(init, [last], sel);
      CountOne(last, sel);
    }
  }

  lemma HasInit(edges: seq<Edge>, x: Edge)
    requires |edges| > 0
    ensures Has(edges, x) <==> Has(edges[..|edges| - 1], x) || SameIdentity(edges[|edges| - 1], x)
  {
    if Has(edges, x) && !SameIdentity(edges[|edges| - 1], x) {
      var i :| 0 <= i < |edges| && SameIdentity(edges[i], x);
      assert edges[..|edges| - 1][i] == edges[i];
    }
    if Has(edges[..|edges| - 1], x) {
      var i :| 0 <= i < |edges| - 1 && SameIdentity(edges[..|edges| - 1][i], x);
      assert edges[i] == edges[..|edges| - 1][i];
    }
  }

  lemma {:induction false} UpsertAllHas(base: seq<Edge>, edges: seq<Edge>, x: Edge)
    ensures Has(UpsertAll(base, edges), x) <==> Has(base, x) || Has(edges, x)
  {
    if |edges| > 0 {
      var init, last := edges[..|edges| - 1], edges[|edges| - 1];
      UpsertAllHas(base, init, x);
      UpsertHas(UpsertAll(base, init), last, x);
      HasInit(edges, x);
    }
  }

  lemma {:induction false} UpsertAllKeeps(base: seq<Edge>, edges: seq<Edge>)
    requires Unique(base)
    ensures Unique(UpsertAll(base, edges))
    ensures Weighted(base) && Weighted(edges) ==> Weighted(UpsertAll(base, edges))
    ensures FromFiles(base) && FromFiles(edges) ==> FromFiles(UpsertAll(base, edges))
  {
    if |edges| > 0 {
      var init, last := edges[..|edges| - 1], edges[|edges| - 1];
      UpsertAllKeeps(base, init);
      UpsertUnique(UpsertAll(base, init), last);
      UpsertKeeps(UpsertAll(base, init), last);
    }
  }

  /** The picked edges of the list have pairwise different identities. */
  predicate UniqueOn(edges: seq<Edge>, sel: Selector) {
    forall i, j :: 0 <= i < j < |edges| && Picks(sel, edges[j]) ==> !SameIdentity(edges[i], edges[j])
  }

  /** Rebuilding a list keeps the number of picked edges when those do not collide. */
  lemma {:induction false} RebuildCount(edges: seq<Edge>, sel: Selector)
    requires UniqueOn(edges, sel)
    ensures Count(UpsertAll([], edges), sel) == Count(edges, sel)
  {
    if |edges| > 0 {
      var init, last := edges[..|edges| - 1], edges[|edges| - 1];
      assert forall i :: 0 <= i < |init| ==> init[i] == edges[i];
      RebuildCount(init, sel);
      UpsertCount(UpsertAll([], init), last, sel);
      UpsertAllHas([], init, last);
      Split(edges);
      CountConcat(init, [last], sel);
      CountOne(last, sel);
    }
  }

  // --------------------------------------------------------------------------- removal

  /** Says of each edge whether it goes. */
  type EdgeTest = Edge -> bool

  function Without(edges: seq<Edge>, gone: EdgeTest): seq<Edge> {
    if |edges| == 0 then [] else
      (if gone(edges[0]) then [] else [edges[0]]) + Without(edges[1..], gone)
  }

  lemma {:induction false} WithoutAppend(edges: seq<Edge>, e: Edge, gone: EdgeTest)
    ensures Without(edges + [e], gone) == Without(edges, gone) + (if gone(e) then [] else [e])
  {
    if |edges| == 0 {
      assert [e][1..] == [];
      assert edges + [e] == [e];
    } else {
      assert (edges + [e])[1..] == edges[1..] + [e];
      WithoutAppend(edges[1..], e, gone);
    }
  }

  lemma {:induction false} WithoutMember(edges: seq<Edge>, gone: EdgeTest, e: Edge)
    ensures e in Without(edges, gone) <==> e in edges && !gone(e)
  {
    if |edges| > 0 {
      WithoutMember(edges[1..], gone, e);
    }
  }

  /** A test that nothing meets removes nothing. */
  lemma {:induction false} WithoutNothing(edges: seq<Edge>, gone: EdgeTest)
    requires forall e :: e in edges ==> !gone(e)
    ensures Without(edges, gone) == edges
  {
    if |edges| > 0 {
      assert edges[0] in edges;
      WithoutNothing(edges[1..], gone);
    }
  }

  /** Removal only loses what it removes. */
  lemma {:induction false} WithoutCount(edges: seq<Edge>, gone: EdgeTest, sel: Selector)
    requires forall e :: e in edges && Picks(sel, e) ==> !gone(e)
    ensures Count(Without(edges, gone), sel) == Count(edges, sel)
    ensures Weight(Without(edges, gone), sel) == Weight(edges, sel)
  {
    if |edges| > 0 {
      var tail := Without(edges[1..], gone);
      WithoutCount(edges[1..], gone, sel);
      if !gone(edges[0]) {
        CountConcat([edges[0]], tail, sel);
        CountOne(edges[0], sel);
      } else {
        assert edges[0] in edges;
        assert [] + tail == tail;
      }
    }
  }

  /** A sublist in order keeps identities apart. */
  lemma {:induction false} WithoutUnique(edges: seq<Edge>, gone: EdgeTest)
    requires Unique(edges)
    ensures Unique(Without(edges, gone)) && |Without(edges, gone)| <= |edges|
  {
    if |edges| > 0 {
      assert Unique(edges[1..]) by {
        assert forall i :: 0 <= i < |edges[1..]| ==> edges[1..][i] == edges[i + 1];
      }
      WithoutUnique(edges[1..], gone);
      forall e | e in Without(edges[1..], gone)
        ensures !SameIdentity(edges[0], e)
      {
        WithoutMember(edges[1..], gone, e);
        var i :| 0 <= i < |edges[1..]| && edges[1..][i] == e;
        assert edges[i + 1] == e;
      }
    }
  }

  lemma WithoutKeeps(edges: seq<Edge>, gone: EdgeTest)
    ensures Weighted(edges) ==> Weighted(Without(edges, gone))
    ensures FromFiles(edges) ==> FromFiles(Without(edges, gone))
  {
    var rest := Without(edges, gone);
    forall i | 0 <= i < |rest|
      ensures rest[i] in edges
    {
      WithoutMember(edges, gone, rest[i]);
    }
  }

  // --------------------------------------------------------------------------- renaming

  type Aliases = map<SymbolId, SymbolId>

  function Resolve(aliases: Aliases, id: SymbolId): SymbolId {
    if id in aliases then aliases[id] else id
  }

  function Renamed(aliases: Aliases, e: Edge): Edge {
    e.(from := Resolve(aliases, e.from), to := Resolve(aliases, e.to))
  }

  function Rename(edges: seq<Edge>, aliases: Aliases): seq<Edge> {
    seq(|edges|, i requires 0 <= i < |edges| => Renamed(aliases, edges[i]))
  }

  /** Picks an edge when sel picks what it is renamed to. */
  function After(sel: Selector, aliases: Aliases): Selector {
    (f, t, k) => sel(Resolve(aliases, f), Resolve(aliases, t), k)
  }

  lemma {:induction false} RenameCount(edges: seq<Edge>, aliases: Aliases, sel: Selector)
    ensures Count(Rename(edges, aliases), sel) == Count(edges, After(sel, aliases))
    ensures Weight(Rename(edges, aliases), sel) == Weight(edges, After(sel, aliases))
  {
    if |edges| > 0 {
      assert Rename(edges, aliases)[1..] == Rename(edges[1..], aliases);
      RenameCount(edges[1..], aliases, sel);
      assert Rename(edges, aliases)[0] == Renamed(aliases, edges[0]);
    }
  }

  /** Renaming the edges and upserting them into an empty list. */
  function Aliased(edges: seq<Edge>, aliases: Aliases): seq<Edge> {
    UpsertAll([], Rename(edges, aliases))
  }

  /** Renaming conserves weight: what selects a renamed edge gets exactly its weight. */
  lemma AliasedWeight(edges: seq<Edge>, aliases: Aliases, sel: Selector)
    requires Weighted(edges)
    ensures Weight(Aliased(edges, aliases), sel) == Weight(edges, After(sel, aliases))
  {
    UpsertAllWeight([], Rename(edges, aliases), sel);
    RenameCount(edges, aliases, sel);
  }

  /** Edges into a symbol that no alias names keep their number. */
  lemma AliasedCount(edges: seq<Edge>, aliases: Aliases, to: SymbolId, kind: EdgeKind)
    requires Unique(edges) && FromFiles(edges)
    requires to !in aliases.Keys && to !in aliases.Values
    requires forall id :: id in aliases ==> id.tag != File
    ensures Count(Aliased(edges, aliases), Into(to, kind)) == Count(edges, Into(to, kind))
  {
    var sel := Into(to, kind);
    var renamed := Rename(edges, aliases);
    forall i | 0 <= i < |edges|
      ensures Picks(sel, renamed[i]) ==> renamed[i] == edges[i]
      ensures Picks(After(sel, aliases), edges[i]) == Picks(sel, edges[i])
    {
      assert renamed[i] == Renamed(aliases, edges[i]);
      ResolvesTo(aliases, edges[i].to, to);
    }
    forall i, j | 0 <= i < j < |renamed| && Picks(sel, renamed[j])
      ensures !SameIdentity(renamed[i], renamed[j])
    {
      assert Picks(sel, renamed[i]) ==> renamed[i] == edges[i];
    }
    RebuildCount(renamed, sel);
    RenameCount(edges, aliases, sel);
    CountAgree(edges, After(sel, aliases), sel);
  }

  /** Only an id itself resolves to an id that no alias names. */
  lemma ResolvesTo(aliases: Aliases, id: SymbolId, to: SymbolId)
    requires to !in aliases.Keys && to !in aliases.Values
    ensures Resolve(aliases, id) == to <==> id == to
  {
    if id in aliases {
      assert aliases[id] in aliases.Values;
    }
  }

  lemma AliasedKeeps(edges: seq<Edge>, aliases: Aliases)
    requires Weighted(edges) && FromFiles(edges)
    requires forall id :: id in aliases ==> id.tag != File
    ensures Unique(Aliased(edges, aliases)) && Weighted(Aliased(edges, aliases)) && FromFiles(Aliased(edges, aliases))
  {
    var renamed := Rename(edges, aliases);
    assert forall i :: 0 <= i < |edges| ==> renamed[i] == Renamed(aliases, edges[i]);
    UpsertAllKeeps([], renamed);
  }
}
