/**
 Capping the number of nodes. What goes is exactly the excess, taken in the order of a rank:
 unconnected nodes first, then connected symbols, then connected files, each class oldest first.
 */
module NodeCapping {
  import opened GraphEdges
  import opened GraphState

  function Class(nodes: Nodes, connected: set<SymbolId>, id: SymbolId): (c: nat)
    requires id in nodes
    ensures c <= 2
  {
    if id !in connected then 0 else if nodes[id].kind != FILE_KIND then 1 else 2
  }

  predicate Older(nodes: Nodes, a: SymbolId, b: SymbolId)
    requires a in nodes && b in nodes
  {
    nodes[a].lastSeen < nodes[b].lastSeen || (nodes[a].lastSeen == nodes[b].lastSeen && IdLess(a, b))
  }

  lemma OlderTotal(nodes: Nodes, a: SymbolId, b: SymbolId)
    requires a in nodes && b in nodes
    ensures a == b || Older(nodes, a, b) || Older(nodes, b, a)
    ensures !(Older(nodes, a, b) && Older(nodes, b, a)) && !Older(nodes, a, a)
  {
    IdLessTotal(a, b);
  }

  lemma OlderTransitive(nodes: Nodes, a: SymbolId, b: SymbolId, c: SymbolId)
    requires a in nodes && b in nodes && c in nodes && Older(nodes, a, b) && Older(nodes, b, c)
    ensures Older(nodes, a, c)
  {
    if nodes[a].lastSeen == nodes[b].lastSeen == nodes[c].lastSeen {
      IdLessTransitive(a, b, c);
    }
  }

  /** The order in which nodes are given up. */
  predicate GoesBefore(nodes: Nodes, connected: set<SymbolId>, a: SymbolId, b: SymbolId)
    requires a in nodes && b in nodes
  {
    var ca, cb := Class(nodes, connected, a), Class(nodes, connected, b);
    ca < cb || (ca == cb && Older(nodes, a, b))
  }

  /** Everything in the set goes before everything outside it. */
  ghost predicate Lowest(nodes: Nodes, connected: set<SymbolId>, gone: set<SymbolId>) {
    && gone <= nodes.Keys
    && forall a, b {:trigger a in gone, b in nodes} :: a in gone && b in nodes && b !in gone ==> GoesBefore(nodes, connected, a, b)
  }

  /** Nothing below class c is left. */
  ghost predicate Exhausted(nodes: Nodes, connected: set<SymbolId>, gone: set<SymbolId>, c: nat) {
    forall id :: id in nodes && Class(nodes, connected, id) < c ==> id in gone
  }

  lemma GoesBeforeAsymmetric(nodes: Nodes, connected: set<SymbolId>, a: SymbolId, b: SymbolId)
    requires a in nodes && b in nodes && GoesBefore(nodes, connected, a, b)
    ensures !GoesBefore(nodes, connected, b, a)
  {
    OlderTotal(nodes, a, b);
  }

  /** A rank leaves no choice: two sets of lowest nodes of one size are the same set. */
  lemma LowestUnique(nodes: Nodes, connected: set<SymbolId>, x: set<SymbolId>, y: set<SymbolId>)
    requires Lowest(nodes, connected, x) && Lowest(nodes, connected, y) && |x| == |y|
    ensures x == y
  {
    if x != y {
      var common := x * y;
      SizeSplits(x, common);
      SizeSplits(y, common);
      assert x - common != {} && y - common != {};
      var a :| a in x - common;
      var b :| b in y - common;
      GoesBeforeAsymmetric(nodes, connected, a, b);
    }
  }

  lemma SizeSplits(x: set<SymbolId>, part: set<SymbolId>)
    requires part <= x
    ensures |x| == |part| + |x - part| && (|x - part| == 0 <==> x - part == {})
  {
    assert x == part + (x - part);
  }

  // ------------------------------------------------------------------------- sorted lists

  /** Adjacent elements are in order; by transitivity so are all. */
  predicate Sorted(nodes: Nodes, list: seq<SymbolId>) {
    && (forall k :: 0 <= k < |list| ==> list[k] in nodes)
    && (forall k :: 0 < k < |list| ==> Older(nodes, list[k - 1], list[k]))
  }

  lemma {:induction false} SortedPair(nodes: Nodes, list: seq<SymbolId>, p: nat, q: nat)
    requires Sorted(nodes, list) && p < q < |list|
    ensures Older(nodes, list[p], list[q])
  {
    if p + 1 < q {
      SortedPair(nodes, list, p, q - 1);
      OlderTransitive(nodes, list[p], list[q - 1], list[q]);
    }
  }

  function Insert(nodes: Nodes, list: seq<SymbolId>, id: SymbolId): (r: seq<SymbolId>)
    requires Sorted(nodes, list) && id in nodes && id !in list
    ensures Sorted(nodes, r) && forall x :: x in r <==> x in list || x == id
    ensures |r| > 0 && (r[0] == id || (|list| > 0 && r[0] == list[0]))
  {
    if |list| == 0 then [id]
    else
      OlderTotal(nodes, id, list[0]);
      if Older(nodes, id, list[0]) then [id] + list
      else [list[0]] + Insert(nodes, list[1..], id)
  }

  /** The nodes of a set, oldest first. */
  method OldestFirst(nodes: Nodes, ids: set<SymbolId>) returns (list: seq<SymbolId>)
    requires ids <= nodes.Keys
    ensures Sorted(nodes, list) && forall x :: x in list <==> x in ids
  {
    list := [];
    var rest := ids;
    while rest != {}
      invariant rest <= ids && Sorted(nodes, list)
      invariant forall x :: x in list <==> x in ids && x !in rest
      decreases |rest|
    {
      var id :| id in rest;
      list := Insert(nodes, list, id);
      rest := rest - {id};
    }
  }

  // -------------------------------------------------------------------------- the phases

  /** Takes from the front of a list until enough is taken. */
  method TakeOldest(list: seq<SymbolId>, taken: set<SymbolId>, remaining: nat)
    returns (taken': set<SymbolId>, remaining': nat, ghost n: nat)
    ensures n <= |list| && forall x :: x in taken' <==> x in taken || x in list[..n]
    ensures |taken'| + remaining' == |taken| + remaining
    ensures remaining' == 0 || n == |list|
  {
    taken', remaining' := taken, remaining;
    var i := 0;
    while i < |list| && remaining' > 0
      invariant 0 <= i <= |list|
      invariant forall x :: x in taken' <==> x in taken || x in list[..i]
      invariant |taken'| + remaining' == |taken| + remaining
    {
      assert list[..i + 1] == list[..i] + [list[i]];
      if list[i] !in taken' {
        taken' := taken' + {list[i]};
        remaining' := remaining' - 1;
      }
      i := i + 1;
    }
    n := i;
  }

  lemma PrefixMember(list: seq<SymbolId>, n: nat, q: nat)
    requires n <= |list| && q < |list|
    ensures q < n ==> list[q] in list[..n]
  {
    if q < n {
      assert list[..n][q] == list[q];
    }
  }

  /** One phase keeps the taken nodes lowest when its list holds all of class c and nothing above. */
  lemma PhaseKeeps(nodes: Nodes, connected: set<SymbolId>, list: seq<SymbolId>, c: nat,
                   taken: set<SymbolId>, n: nat, taken': set<SymbolId>)
    requires Sorted(nodes, list) && n <= |list|
    requires forall x :: x in taken' <==> x in taken || x in list[..n]
    requires Lowest(nodes, connected, taken) && Exhausted(nodes, connected, taken, c)
    requires forall x :: x in list ==> Class(nodes, connected, x) <= c
    requires forall x :: x in nodes && Class(nodes, connected, x) == c ==> x in list
    ensures Lowest(nodes, connected, taken')
    ensures n == |list| ==> Exhausted(nodes, connected, taken', c + 1)
  {
    forall a, b | a in taken' && b in nodes && b !in taken'
      ensures GoesBefore(nodes, connected, a, b)
    {
      if a !in taken {
        var p :| 0 <= p < n && list[p] == a;
        assert list[p] in list;
        if Class(nodes, connected, b) == c {
          var q :| 0 <= q < |list| && list[q] == b;
          PrefixMember(list, n, q);
          SortedPair(nodes, list, p, q);
        }
      }
    }
    if n == |list| {
      assert list[..n] == list;
    }
  }

  /** Which nodes go so that max are left. */
  ghost predicate Excess(nodes: Nodes, connected: set<SymbolId>, max: nat, gone: set<SymbolId>) {
    Lowest(nodes, connected, gone) && |gone| == (if |nodes| <= max then 0 else |nodes| - max)
  }

  /** The three phases: unconnected nodes, symbols, everything. */
  method SelectExcess(nodes: Nodes, connected: set<SymbolId>, max: nat) returns (gone: set<SymbolId>)
    requires |nodes| > max
    ensures Excess(nodes, connected, max, gone)
  {
    var remaining := |nodes| - max;
    ghost var n;
    var list := OldestFirst(nodes, set id | id in nodes && id !in connected);
    gone, remaining, n := TakeOldest(list, {}, remaining);
    PhaseKeeps(nodes, connected, list, 0, {}, n, gone);
    if remaining > 0 {
      list := OldestFirst(nodes, set id | id in nodes && nodes[id].kind != FILE_KIND);
      ghost var before := gone;
      gone, remaining, n := TakeOldest(list, gone, remaining);
      PhaseKeeps(nodes, connected, list, 1, before, n, gone);
    }
    if remaining > 0 {
      list := OldestFirst(nodes, nodes.Keys);
      ghost var before := gone;
      gone, remaining, n := TakeOldest(list, gone, remaining);
      PhaseKeeps(nodes, connected, list, 2, before, n, gone);
      AllTaken(nodes, connected, gone, remaining, max);
    }
  }

  lemma AllTaken(nodes: Nodes, connected: set<SymbolId>, gone: set<SymbolId>, remaining: nat, max: nat)
    requires Lowest(nodes, connected, gone) && |gone| + remaining == |nodes| - max
    requires remaining > 0 ==> Exhausted(nodes, connected, gone, 3)
    ensures remaining == 0
  {
    if Exhausted(nodes, connected, gone, 3) {
      forall id | id in nodes
        ensures id in gone
      {
        assert Class(nodes, connected, id) < 3;
      }
      assert gone == nodes.Keys;
      assert |gone| == |nodes|;
    }
  }
}
