/**
 What an update writes into the graph, told apart from how: which nodes are files, which
 symbols declarations stand for, and when edges and metrics were seen. Over every run the
 nodes with file ids are files, so every edge that leaves one links its file.
 */
module UpdateLaws {
  import opened Bounds
  import opened GraphEdges
  import opened GraphState
  import opened FileRefresh
  import opened GraphUpdater
  import opened FileLinks
  import CandidateOrder

  // ------------------------------------------------------------------------------- files

  /** Every node with a file id is a file, named by its path. */
  ghost predicate FilesAreFiles(g: Graph) {
    forall id :: id in g.nodes && id.tag == File ==> g.nodes[id].kind == FILE_KIND && g.nodes[id].path == id.rest
  }

  /** After an update the file is there with its kind and path, and every declared symbol with those of its last declaration. */
  lemma UpdateDescribes(g: Graph, r: Refresh, g': Graph, i: nat)
    requires IsRefresh(r) && Updated(g, r, g')
    ensures r.file in g'.nodes && g'.nodes[r.file].kind == FILE_KIND && g'.nodes[r.file].path == r.file.rest
    ensures g'.nodes[r.file].lastSeen == r.now
    ensures LastOfSymbol(r.parse.symbols, i) ==>
              var id := SymbolOf(r.parse.symbols[i]);
              id in g'.nodes && g'.nodes[id].kind == r.parse.symbols[i].kind && g'.nodes[id].path == r.file.rest
  {
  }

  lemma StepKeepsFiles(g: Graph, step: Step, g': Graph)
    requires FilesAreFiles(g) && StepsTo(g, step, g')
    ensures FilesAreFiles(g')
  {
    if step.Update? {
      var r := step.refresh;
      TargetTags(r.parse, r.targets);
      forall id | id in g'.nodes && id.tag == File
        ensures g'.nodes[id].kind == FILE_KIND && g'.nodes[id].path == id.rest
      {
        assert id !in Seen(r.parse.symbols);
      }
    }
  }

  lemma {:induction false} RunsKeepFiles(graphs: seq<Graph>, steps: seq<Step>, n: nat)
    requires IsRun(graphs, steps) && n <= |steps|
    ensures FilesAreFiles(graphs[n])
  {
    if n > 0 {
      var m := n - 1;
      RunsKeepFiles(graphs, steps, m);
      assert StepsTo(graphs[m], steps[m], graphs[m + 1]);
      StepKeepsFiles(graphs[m], steps[m], graphs[n]);
    }
  }

  /** In every run, every contains or reference edge links its file, so the search for neighbours sees it. */
  lemma RunsLink(graphs: seq<Graph>, steps: seq<Step>, n: nat, e: Edge)
    requires IsRun(graphs, steps) && n <= |steps| && e in graphs[n].edges
    ensures e.kind == Contains || e.kind == Reference ==> IsLink(graphs[n].nodes, e)
  {
    RunsSound(graphs, steps, n);
    RunsKeepFiles(graphs, steps, n);
    var i :| 0 <= i < |graphs[n].edges| && graphs[n].edges[i] == e;
  }

  // ------------------------------------------------------------------------------ stamps

  /** The file's edges after an update were seen now. */
  lemma RefreshedStamps(edges: seq<Edge>, r: Refresh, e: Edge)
    requires e in Stage3(edges, r) && e.from == r.file && (e.kind == Contains || e.kind == Reference)
    ensures e.lastSeen == r.now
  {
    var s1, s2 := Stage1(edges, r), Stage2(edges, r);
    WithoutMember(s2, FromFile(r.file, Reference), e);
    WithoutMember(s1, FromFile(r.file, Contains), e);
    if e in FileEdges(r.file, Reference, r.targetOrder, r.targets, r.now) {
      MadeNow(r.file, Reference, r.targetOrder, r.targets, r.now, e);
    } else {
      MadeNow(r.file, Contains, r.seenOrder, Ones(Seen(r.parse.symbols)), r.now, e);
    }
  }

  lemma MadeNow(file: SymbolId, kind: EdgeKind, order: seq<SymbolId>, weights: map<SymbolId, nat>, now: nat, e: Edge)
    requires e in FileEdges(file, kind, order, weights, now)
    ensures e.lastSeen == now && e.kind == kind
  {
  }

  /** An edge with the same ends and kind, seen no earlier and weighing no less. */
  ghost predicate Covered(edges: seq<Edge>, e: Edge) {
    exists f :: f in edges && SameIdentity(f, e) && f.lastSeen >= e.lastSeen && f.weight >= e.weight
  }

  /** An upsert loses no edge and no stamp, and stamps nothing later than it or the edge was seen. */
  lemma {:induction false} UpsertStamps(edges: seq<Edge>, e: Edge)
    ensures Covered(Upsert(edges, e), e)
    ensures forall x :: x in edges ==> Covered(Upsert(edges, e), x)
    ensures forall y :: y in Upsert(edges, e) ==>
              y in edges || y == e || (SameIdentity(y, e) && exists x :: x in edges && SameIdentity(x, e) && y.lastSeen == MaxNat(x.lastSeen, e.lastSeen))
  {
    var after := Upsert(edges, e);
    if |edges| == 0 {
      assert e in after;
    } else if SameIdentity(edges[0], e) {
      var merged := Merge(edges[0], e);
      assert after[0] == merged && merged in after;
      forall x | x in edges
        ensures Covered(after, x)
      {
        if x != edges[0] {
          assert x in after[1..];
        }
      }
      assert edges[0] in edges;
    } else {
      UpsertStamps(edges[1..], e);
      var rest := Upsert(edges[1..], e);
      assert after == [edges[0]] + rest;
      forall x | x in edges || x == e
        ensures Covered(after, x)
      {
        if x == edges[0] {
          assert x in after;
        } else {
          assert x == e || x in edges[1..];
          assert Covered(rest, x);
          var f :| f in rest && SameIdentity(f, x) && f.lastSeen >= x.lastSeen && f.weight >= x.weight;
          assert f in after;
        }
      }
    }
  }

  // ------------------------------------------------------------------- names of symbols

  /** The escape of a bar occurs. */
  predicate Escaped(s: string) {
    |s| >= 3 && (s[..3] == "%7C" || Escaped(s[1..]))
  }

  /** Undoes the escapes. */
  function Restore(s: string): string {
    if |s| == 0 then "" else if |s| >= 3 && s[..3] == "%7C" then "|" + Restore(s[3..]) else [s[0]] + Restore(s[1..])
  }

  /** A character that no escape begins with comes from the text. */
  lemma FirstFromText(s: string, c: char)
    requires c != '%' && Sanitize(s) != "" && Sanitize(s)[0] == c
    ensures s != "" && s[0] == c && Sanitize(s)[1..] == Sanitize(s[1..])
  {
    assert Sanitize(s) == [s[0]] + Sanitize(s[1..]);
  }

  lemma SanitizeStart(s: string)
    requires s != "" && s[0] != '|'
    ensures Sanitize(s) == [s[0]] + Sanitize(s[1..])
    ensures |Sanitize(s)| >= 3 && Sanitize(s)[..3] == "%7C" ==> |s| >= 3 && s[..3] == "%7C"
  {
    var t := Sanitize(s[1..]);
    assert Sanitize(s) == [s[0]] + t;
    if |Sanitize(s)| >= 3 && Sanitize(s)[..3] == "%7C" {
      assert Sanitize(s)[..3][1] == '7' && Sanitize(s)[..3][2] == 'C' && Sanitize(s)[..3][0] == '%';
      FirstFromText(s[1..], '7');
      FirstFromText(s[1..][1..], 'C');
      assert s[..3] == [s[0], s[1], s[2]];
    }
  }

  /** Without the escape in it a text can be got back. */
  lemma {:induction false} RestoreSanitized(s: string)
    requires !Escaped(s)
    ensures Restore(Sanitize(s)) == s
  {
    if |s| > 0 {
      assert !Escaped(s[1..]);
      RestoreSanitized(s[1..]);
      if s[0] == '|' {
        assert Sanitize(s)[..3] == "%7C" && Sanitize(s)[3..] == Sanitize(s[1..]);
      } else {
        SanitizeStart(s);
      }
    }
  }

  /** Declarations with different names for the linker are different symbols, unless a name spells an escaped bar. */
  lemma DifferentUsrs(d: Declaration, e: Declaration)
    requires d.usr != "" && e.usr != "" && !Escaped(d.usr) && !Escaped(e.usr)
    ensures SymbolOf(d) == SymbolOf(e) <==> d.usr == e.usr
  {
    RestoreSanitized(d.usr);
    RestoreSanitized(e.usr);
  }

  /** A bar and its escape are confused. */
  lemma EscapedUsrs(d: Declaration)
    ensures SymbolOf(d.(usr := "|")) == SymbolOf(d.(usr := "%7C"))
  {
    assert Sanitize("|") == "%7C" + Sanitize("") by {
      assert "|"[1..] == "";
    }
    assert "%7C"[1..] == "7C" && "7C"[1..] == "C" && "C"[1..] == "";
    assert Sanitize("C") == ['C'] + Sanitize("") && Sanitize("7C") == ['7'] + Sanitize("C") && Sanitize("%7C") == ['%'] + Sanitize("7C");
  }

  /** What a declaration's symbol is called after: its linker name, else its scope, else its bare name. */
  lemma SymbolTags(d: Declaration)
    ensures SymbolOf(d).tag == Usr <==> d.usr != ""
    ensures SymbolOf(d).tag == Scoped <==> d.usr == "" && d.scope != ""
  {
  }

  /** A declaration site resolves to the symbol last declared there. */
  lemma {:induction false} SiteResolves(symbols: seq<Declaration>, i: nat)
    requires i < |symbols| && forall j :: i < j < |symbols| ==> symbols[j].key != symbols[i].key
    ensures TargetOf(symbols, symbols[i].key) == SymbolOf(symbols[i])
  {
    var front, last := symbols[..|symbols| - 1], symbols[|symbols| - 1];
    if i < |front| {
      SiteResolves(front, i);
      LastSite(symbols, symbols[i].key);
    }
  }

  lemma LastSite(symbols: seq<Declaration>, key: DeclKey)
    requires |symbols| > 0 && symbols[|symbols| - 1].key != key
    ensures TargetOf(symbols, key) == TargetOf(symbols[..|symbols| - 1], key)
  {
    assert DeclSymbol(symbols[|symbols| - 1].key) != DeclSymbol(key);
  }

  /** A site where nothing is declared stands for itself. */
  lemma {:induction false} SiteAlone(symbols: seq<Declaration>, key: DeclKey)
    requires forall j :: 0 <= j < |symbols| ==> symbols[j].key != key
    ensures TargetOf(symbols, key) == DeclSymbol(key)
  {
    if |symbols| > 0 {
      SiteAlone(symbols[..|symbols| - 1], key);
      LastSite(symbols, key);
    }
  }

  // ---------------------------------------------------------------------- printed order

  function TagText(tag: Tag): string {
    match tag
    case Bucket => "bucket"
    case Decl => "decl"
    case File => "file"
    case Scoped => "scoped"
    case Usr => "usr"
  }

  function Printed(id: SymbolId): string { TagText(id.tag) + "|" + id.rest }

  lemma {:induction false} SamePrefix(common: string, a: string, b: string)
    ensures CandidateOrder.TextLess(common + a, common + b) <==> CandidateOrder.TextLess(a, b)
  {
    if common == "" {
      assert common + a == a && common + b == b;
    } else {
      assert (common + a)[1..] == common[1..] + a && (common + b)[1..] == common[1..] + b;
      SamePrefix(common[1..], a, b);
    }
  }

  /** Ids are ordered as they are printed. */
  lemma IdsAsPrinted(a: SymbolId, b: SymbolId)
    ensures IdLess(a, b) <==> CandidateOrder.TextLess(Printed(a), Printed(b))
  {
    if a.tag == b.tag {
      SamePrefix(TagText(a.tag) + "|", a.rest, b.rest);
    } else {
      assert Printed(a)[0] == TagText(a.tag)[0] && Printed(b)[0] == TagText(b.tag)[0];
    }
  }
}
