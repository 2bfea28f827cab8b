/**
 What the global conflict solver works on: candidates and their utility, when two of them
 conflict, one candidate per line, the conflict graph, and the order within a component.
 */
module ConflictSolver {
  import opened Bounds
  import opened SeqFacts
  import opened Sorting
  import opened CandidateOrder
  import opened ExactSearch
  import opened ConflictGraph
  import opened ConflictSelection

  datatype RiskTier = Low | Medium | High

  datatype Zone = Code | Preprocessor | Comments

  datatype Stage = Full | CulpritRegion | NodeLocal | LineLocal

  /** `symbols` is kept sorted by the proposer, so looking a symbol up is membership. */
  datatype Candidate = Candidate(
    policy: string, line: nat, confidence: real, styleGain: real, riskTier: RiskTier,
    impactRadius: nat, symbols: seq<nat>, ranges: seq<(nat, nat)>, hardTouched: bv16,
    zone: Zone, afterFingerprint: nat)

  /** The filter estimates and variances the solver reads, the retry stage and the policy catalog. */
  datatype Context = Context(
    stage: Stage, structural: real, coverage: real, richness: real, editSuccess: real,
    semanticVariance: real, richnessVariance: real,
    bypassing: set<string>, rewriting: set<string>)

  function Precedence(tier: RiskTier): nat {
    match tier
    case Low => 3
    case Medium => 2
    case High => 1
  }

  function Gap(a: nat, b: nat): nat { if a < b then b - a else a - b }

  function ComponentThreshold(ctx: Context): nat {
    ClampReal(ctx.richness * 32.0, 8.0, 64.0).Floor
  }

  function FuzzyMinSemantic(ctx: Context): nat {
    ClampReal(ctx.semanticVariance * 30.0, 1.0, 8.0).Floor
  }

  function StabilizerBonus(tier: RiskTier, ctx: Context): real {
    match tier
    case Low => ctx.structural * 0.11764705882352941
    case Medium => ctx.structural * 0.05882352941176471
    case High => 0.0
  }

  function Narrowness(stage: Stage): real {
    match stage
    case Full => 0.0
    case CulpritRegion => 0.5
    case _ => 1.0
  }

  function ScopeBonus(tier: RiskTier, ctx: Context): real { ctx.coverage * (if tier == Low then 0.16 else 0.08) }

  function RiskPenalty(tier: RiskTier, ctx: Context): real {
    var complement := 1.0 - ctx.editSuccess;
    match tier
    case High => complement
    case Medium => complement * 0.3333333333333333
    case Low => 0.0
  }

  function FootprintCost(ranges: nat, symbols: nat, ctx: Context): real {
    (ranges as real) * (ctx.richnessVariance * 0.2) + (symbols as real) * (ctx.richnessVariance * 0.1)
  }

  function FootprintPenalty(ranges: nat, symbols: nat, ctx: Context): real {
    MinReal(FootprintCost(ranges, symbols, ctx), 0.30)
  }

  function Utility(c: Candidate, ctx: Context): real {
    c.styleGain + c.confidence + StabilizerBonus(c.riskTier, ctx) + Narrowness(ctx.stage) * ScopeBonus(c.riskTier, ctx)
    - RiskPenalty(c.riskTier, ctx) - FootprintPenalty(|c.ranges|, |c.symbols|, ctx)
  }

  /** Every clause but macro-region safety (bit 5) is hard. */
  const HARD_CLAUSES: bv16 := 0xDF

  predicate ViolatesHard(c: Candidate) {
    c.hardTouched & HARD_CLAUSES != 0
  }

  // ------------------------------------------------------------------------ conflicts

  predicate RangesOverlap(left: seq<(nat, nat)>, right: seq<(nat, nat)>) {
    exists i, j :: 0 <= i < |left| && 0 <= j < |right| && left[i].0 <= right[j].1 && right[j].0 <= left[i].1
  }

  predicate SymbolsOverlap(left: seq<nat>, right: seq<nat>) {
    exists s :: s in left && s in right
  }

  predicate Conflicts(left: Candidate, right: Candidate, ctx: Context) {
    if left.policy == right.policy then left.line == right.line
    else if left.policy in ctx.bypassing || right.policy in ctx.bypassing then false
    else
      || left.line == right.line
      || RangesOverlap(left.ranges, right.ranges)
      || (SymbolsOverlap(left.symbols, right.symbols) && Gap(left.line, right.line) <= Neighborhood(left, right, ctx))
      || ((left.zone == Preprocessor || right.zone == Preprocessor)
          && left.afterFingerprint != right.afterFingerprint
          && Gap(left.line, right.line) <= MaxNat(left.impactRadius, right.impactRadius))
  }

  function Neighborhood(left: Candidate, right: Candidate, ctx: Context): nat {
    var sensitive := left.policy in ctx.rewriting || right.policy in ctx.rewriting
                     || left.riskTier == High || right.riskTier == High;
    MaxNat(MaxNat(left.impactRadius, right.impactRadius), if sensitive then FuzzyMinSemantic(ctx) else 1)
  }

  lemma OverlapSymmetric(left: seq<(nat, nat)>, right: seq<(nat, nat)>)
    requires RangesOverlap(left, right)
    ensures RangesOverlap(right, left)
  {
    var i, j :| 0 <= i < |left| && 0 <= j < |right| && left[i].0 <= right[j].1 && right[j].0 <= left[i].1;
    assert right[j].0 <= left[i].1 && left[i].0 <= right[j].1;
  }

  /** It does not matter which of two candidates is asked about the other. */
  lemma ConflictsSymmetric(left: Candidate, right: Candidate, ctx: Context)
    ensures Conflicts(left, right, ctx) <==> Conflicts(right, left, ctx)
  {
    if RangesOverlap(left.ranges, right.ranges) {
      OverlapSymmetric(left.ranges, right.ranges);
    }
    if RangesOverlap(right.ranges, left.ranges) {
      OverlapSymmetric(right.ranges, left.ranges);
    }
  }

  // ------------------------------------------------------------ one candidate per line

  predicate ChooseNew(candidate: Candidate, existing: Candidate, ctx: Context) {
    var gain := Utility(candidate, ctx) - Utility(existing, ctx);
    || gain > TOLERANCE
    || (AbsReal(gain) <= TOLERANCE && candidate.confidence > existing.confidence + 0.001)
    || (AbsReal(gain) <= TOLERANCE && AbsReal(candidate.confidence - existing.confidence) <= 0.001
        && Precedence(candidate.riskTier) > Precedence(existing.riskTier))
  }

  datatype Slot = Empty | Held(candidate: Candidate)

  /** The candidate that holds a line after a list of candidates has come in. */
  ghost function LineBest(incoming: seq<Candidate>, line: nat, ctx: Context): Slot {
    if incoming == [] then Empty else
      var before := LineBest(incoming[..|incoming| - 1], line, ctx);
      var c := incoming[|incoming| - 1];
      if c.line == line && (before.Empty? || ChooseNew(c, before.candidate, ctx)) then Held(c) else before
  }

  lemma {:induction false} LineBestFacts(incoming: seq<Candidate>, line: nat, ctx: Context)
    ensures LineBest(incoming, line, ctx).Held? ==>
              LineBest(incoming, line, ctx).candidate in incoming && LineBest(incoming, line, ctx).candidate.line == line
    ensures LineBest(incoming, line, ctx).Held? <==> exists c :: c in incoming && c.line == line
  {
    if incoming != [] {
      var m := |incoming| - 1;
      LineBestFacts(incoming[..m], line, ctx);
      assert incoming == incoming[..m] + [incoming[m]];
    }
  }

  /** The number of candidates for a line. */
  ghost function LineCount(incoming: seq<Candidate>, line: nat): nat {
    if incoming == [] then 0 else
      LineCount(incoming[..|incoming| - 1], line) + (if incoming[|incoming| - 1].line == line then 1 else 0)
  }

  /** The holder of a line is short of every candidate for it by at most one tolerance per candidate. */
  lemma {:induction false} LineBestNearBest(incoming: seq<Candidate>, c: Candidate, ctx: Context)
    requires c in incoming
    ensures LineBest(incoming, c.line, ctx).Held?
    ensures Utility(LineBest(incoming, c.line, ctx).candidate, ctx) + TOLERANCE * (LineCount(incoming, c.line) as real)
            >= Utility(c, ctx)
  {
    var m := |incoming| - 1;
    var last := incoming[m];
    assert incoming == incoming[..m] + [last];
    LineBestFacts(incoming, c.line, ctx);
    if c in incoming[..m] {
      LineBestNearBest(incoming[..m], c, ctx);
      if last.line == c.line {
        assert (LineCount(incoming, c.line) as real) == (LineCount(incoming[..m], c.line) as real) + 1.0;
      }
    } else {
      assert c == last;
      assert LineCount(incoming, c.line) >= 1;
      assert (LineCount(incoming, c.line) as real) >= 1.0;
    }
  }

  ghost predicate LinesAscending(candidates: seq<Candidate>) {
    forall i, j :: 0 <= i < j < |candidates| ==> candidates[i].line < candidates[j].line
  }

  /** Exactly one candidate for each incoming line, in line order: the one that held it. */
  ghost predicate Consolidated(incoming: seq<Candidate>, result: seq<Candidate>, ctx: Context) {
    && LinesAscending(result)
    && (forall c :: c in result ==> LineBest(incoming, c.line, ctx) == Held(c))
    && (forall c :: c in incoming ==> exists k :: k in result && k.line == c.line)
  }

  method ConsolidateByLine(incoming: seq<Candidate>, ctx: Context) returns (consolidated: seq<Candidate>)
    ensures Consolidated(incoming, consolidated, ctx)
  {
    var best: map<nat, Candidate> := map[];
    for i := 0 to |incoming|
      invariant forall line :: line in best <==> LineBest(incoming[..i], line, ctx).Held?
      invariant forall line :: line in best ==> LineBest(incoming[..i], line, ctx) == Held(best[line])
    {
      var candidate := incoming[i];
      assert incoming[..i + 1][..i] == incoming[..i];
      if candidate.line in best {
        if ChooseNew(candidate, best[candidate.line], ctx) {
          best := best[candidate.line := candidate];
        }
      } else {
        best := best[candidate.line := candidate];
      }
    }
    assert incoming[..|incoming|] == incoming;
    forall line
      ensures line in best ==> best[line].line == line
      ensures line in best <==> exists c :: c in incoming && c.line == line
    {
      LineBestFacts(incoming, line, ctx);
    }
    consolidated := [];
    var rest := best.Keys;
    while rest != {}
      invariant rest <= best.Keys
      invariant LinesAscending(consolidated)
      invariant forall c :: c in consolidated ==> c.line in best && c.line !in rest && c == best[c.line]
      invariant forall line :: line in best && line !in rest ==> best[line] in consolidated
      decreases rest
    {
      var line :| line in rest;
      InsertFacts(best[line], consolidated);
      consolidated := Insert(best[line], consolidated, LineBefore);
      rest := rest - {line};
    }
    forall c | c in incoming
      ensures exists k :: k in consolidated && k.line == c.line
    {
      assert best[c.line] in consolidated;
    }
  }

  predicate LineBefore(a: Candidate, b: Candidate) { KeyLess(KeyOf(a), KeyOf(b)) }

  lemma {:induction false} InsertFacts(c: Candidate, sorted: seq<Candidate>)
    requires LinesAscending(sorted) && forall k :: k in sorted ==> k.line != c.line
    ensures LinesAscending(Insert(c, sorted, LineBefore))
    ensures forall k :: k in Insert(c, sorted, LineBefore) <==> k == c || k in sorted
  {
    if sorted != [] && LineBefore(sorted[0], c) {
      assert sorted[0] in sorted;
      assert sorted == [sorted[0]] + sorted[1..];
      InsertFacts(c, sorted[1..]);
      var rest := Insert(c, sorted[1..], LineBefore);
      forall k | 0 <= k < |rest|
        ensures sorted[0].line < rest[k].line
      {
        assert rest[k] in rest;
      }
    } else if sorted != [] {
      assert sorted[0] in sorted;
    }
  }

  function KeyOf(c: Candidate): Key {
    Key(c.line, c.policy)
  }

  // ---------------------------------------------------------------- the conflict graph

  /** The nodes v >= from that conflict with node u, ascending. */
  function Neighbors(admissible: seq<Candidate>, ctx: Context, u: nat, from: nat): (row: seq<nat>)
    requires u < |admissible|
    ensures Ascending(row)
    ensures forall v :: v in row <==> from <= v < |admissible| && v != u && Conflicts(admissible[u], admissible[v], ctx)
    decreases |admissible| - from
  {
    if from >= |admissible| then [] else
      var rest := Neighbors(admissible, ctx, u, from + 1);
      if from != u && Conflicts(admissible[u], admissible[from], ctx) then
        assert forall k :: 0 <= k < |rest| ==> rest[k] in rest;
        [from] + rest
      else rest
  }

  ghost function GraphOf(admissible: seq<Candidate>, ctx: Context): (adj: Graph)
    ensures |adj| == |admissible|
  {
    seq(|admissible|, u requires 0 <= u < |admissible| => Neighbors(admissible, ctx, u, 0))
  }

  lemma GraphEdges(admissible: seq<Candidate>, ctx: Context)
    ensures WellFormed(GraphOf(admissible, ctx))
    ensures forall u: nat, v: nat :: Edge(GraphOf(admissible, ctx), u, v) <==>
              u < |admissible| && v < |admissible| && u != v && Conflicts(admissible[u], admissible[v], ctx)
  {
    var adj := GraphOf(admissible, ctx);
    forall u: nat, v: nat | Edge(adj, u, v)
      ensures Edge(adj, v, u)
    {
      ConflictsSymmetric(admissible[u], admissible[v], ctx);
    }
  }

  /** The edges found once every pair up to (left, right) has been compared. */
  ghost predicate PairsDone(admissible: seq<Candidate>, ctx: Context, adj: Graph, left: nat, right: nat) {
    && |adj| == |admissible|
    && (forall u :: 0 <= u < |adj| ==> Ascending(adj[u]))
    && (forall u: nat, v: nat :: Edge(adj, u, v) <==>
          && u < |admissible| && v < |admissible| && u != v && Conflicts(admissible[u], admissible[v], ctx)
          && (u < left || v < left || (u == left && v < right) || (v == left && u < right)))
  }

  lemma PairFound(admissible: seq<Candidate>, ctx: Context, adj: Graph, left: nat, right: nat)
    requires PairsDone(admissible, ctx, adj, left, right) && left < right < |admissible|
    ensures Conflicts(admissible[left], admissible[right], ctx) ==>
              PairsDone(admissible, ctx, adj[left := adj[left] + [right]][right := adj[right] + [left]], left, right + 1)
    ensures !Conflicts(admissible[left], admissible[right], ctx) ==>
              PairsDone(admissible, ctx, adj, left, right + 1)
  {
    ConflictsSymmetric(admissible[left], admissible[right], ctx);
    if Conflicts(admissible[left], admissible[right], ctx) {
      var more := adj[left := adj[left] + [right]][right := adj[right] + [left]];
      forall k | 0 <= k < |adj[left]|
        ensures adj[left][k] < right
      {
        assert Edge(adj, left, adj[left][k]);
      }
      forall k | 0 <= k < |adj[right]|
        ensures adj[right][k] < left
      {
        assert Edge(adj, right, adj[right][k]);
      }
      forall u: nat, v: nat
        ensures Edge(more, u, v) <==> Edge(adj, u, v) || (u == left && v == right) || (u == right && v == left)
      {
      }
    }
  }

  method BuildConflictAdjacency(admissible: seq<Candidate>, ctx: Context) returns (adj: Graph)
    ensures adj == GraphOf(admissible, ctx)
  {
    adj := seq(|admissible|, _ => []);
    for left := 0 to |admissible|
      invariant PairsDone(admissible, ctx, adj, left, left + 1)
    {
      for right := left + 1 to |admissible|
        invariant PairsDone(admissible, ctx, adj, left, right)
      {
        PairFound(admissible, ctx, adj, left, right);
        if Conflicts(admissible[left], admissible[right], ctx) {
          adj := adj[left := adj[left] + [right]][right := adj[right] + [left]];
        }
      }
    }
    AllPairs(admissible, ctx, adj);
  }

  lemma AllPairs(admissible: seq<Candidate>, ctx: Context, adj: Graph)
    requires PairsDone(admissible, ctx, adj, |admissible|, |admissible| + 1)
    ensures adj == GraphOf(admissible, ctx)
  {
    var graph := GraphOf(admissible, ctx);
    GraphEdges(admissible, ctx);
    forall u | 0 <= u < |adj|
      ensures adj[u] == graph[u]
    {
      forall v | v in adj[u]
        ensures v in graph[u]
      {
        assert Edge(adj, u, v);
        assert Edge(graph, u, v);
      }
      forall v | v in graph[u]
        ensures v in adj[u]
      {
        assert Edge(graph, u, v);
        assert Edge(adj, u, v);
      }
      AscendingUnique(adj[u], graph[u]);
    }
  }

  // ------------------------------------------------------------------ sorting a component

  function Utilities(candidates: seq<Candidate>, ctx: Context): (utilities: seq<real>)
    ensures |utilities| == |candidates|
  {
    seq(|candidates|, i requires 0 <= i < |candidates| => Utility(candidates[i], ctx))
  }

  function Keys(candidates: seq<Candidate>): (keys: seq<Key>)
    ensures |keys| == |candidates|
  {
    seq(|candidates|, i requires 0 <= i < |candidates| => KeyOf(candidates[i]))
  }

  /** The sort order: utility, confidence and precedence descending, then line and policy. */
  predicate Precedes(a: Candidate, ua: real, b: Candidate, ub: real) {
    ua > ub || (ua == ub &&
      (a.confidence > b.confidence || (a.confidence == b.confidence &&
        (Precedence(a.riskTier) > Precedence(b.riskTier) || (a.riskTier == b.riskTier &&
          KeyLess(KeyOf(a), KeyOf(b)))))))
  }

  ghost predicate StepsDown(utilities: seq<real>, nodes: seq<nat>) {
    && (forall i :: 0 <= i < |nodes| ==> nodes[i] < |utilities|)
    && forall i :: 0 < i < |nodes| ==> utilities[nodes[i - 1]] >= utilities[nodes[i]]
  }

  /** Stable insertion sort of node indexes; stands for the library sort. */
  function SortNodes(candidates: seq<Candidate>, utilities: seq<real>, nodes: seq<nat>): (sorted: seq<nat>)
    requires |utilities| == |candidates| && forall i :: 0 <= i < |nodes| ==> nodes[i] < |candidates|
    ensures multiset(sorted) == multiset(nodes)
    ensures StepsDown(utilities, sorted)
  {
    if nodes == [] then [] else
      assert nodes == [nodes[0]] + nodes[1..];
      InsertNode(candidates, utilities, nodes[0], SortNodes(candidates, utilities, nodes[1..]))
  }

  function InsertNode(candidates: seq<Candidate>, utilities: seq<real>, node: nat, sorted: seq<nat>): (result: seq<nat>)
    requires |utilities| == |candidates| && node < |candidates| && StepsDown(utilities, sorted)
    ensures multiset(result) == multiset(sorted) + multiset{node}
    ensures StepsDown(utilities, result)
    ensures result[0] == node || (sorted != [] && result[0] == sorted[0])
  {
    if sorted == [] || !Precedes(candidates[sorted[0]], utilities[sorted[0]], candidates[node], utilities[node]) then
      StepDown(utilities, node, sorted);
      [node] + sorted
    else
      TailStepsDown(utilities, sorted);
      var rest := InsertNode(candidates, utilities, node, sorted[1..]);
      StepDown(utilities, sorted[0], rest);
      assert sorted == [sorted[0]] + sorted[1..];
      [sorted[0]] + rest
  }

  lemma StepDown(utilities: seq<real>, node: nat, sorted: seq<nat>)
    requires node < |utilities| && StepsDown(utilities, sorted)
    requires sorted != [] ==> utilities[node] >= utilities[sorted[0]]
    ensures StepsDown(utilities, [node] + sorted)
  {
  }

  lemma TailStepsDown(utilities: seq<real>, sorted: seq<nat>)
    requires sorted != [] && StepsDown(utilities, sorted)
    ensures StepsDown(utilities, sorted[1..])
    ensures |sorted| > 1 ==> utilities[sorted[0]] >= utilities[sorted[1..][0]]
  {
  }

  lemma {:induction false} StepsDownFar(utilities: seq<real>, nodes: seq<nat>, i: nat, j: nat)
    requires StepsDown(utilities, nodes) && i < j < |nodes|
    ensures utilities[nodes[i]] >= utilities[nodes[j]]
    decreases j
  {
    if i < j - 1 {
      StepsDownFar(utilities, nodes, i, j - 1);
    }
  }

  lemma SortedNodes(candidates: seq<Candidate>, utilities: seq<real>, nodes: seq<nat>)
    requires |utilities| == |candidates|
    requires Distinct(nodes) && forall i :: 0 <= i < |nodes| ==> nodes[i] < |candidates|
    ensures var sorted := SortNodes(candidates, utilities, nodes);
            && Distinct(sorted) && ToSet(sorted) == ToSet(nodes) && |sorted| == |nodes|
            && (forall v :: v in sorted ==> v < |candidates|)
            && UtilityDescends(utilities, sorted)
  {
    var sorted := SortNodes(candidates, utilities, nodes);
    SameElements(sorted, nodes);
    DistinctCounts(nodes);
    forall i, j | 0 <= i < j < |sorted|
      ensures sorted[i] != sorted[j] && utilities[sorted[i]] >= utilities[sorted[j]]
    {
      if sorted[i] == sorted[j] {
        CountTwice(sorted, i, j);
      }
      StepsDownFar(utilities, sorted, i, j);
    }
  }

  lemma PrecedesAsymmetric(a: Candidate, ua: real, b: Candidate, ub: real)
    ensures !(Precedes(a, ua, b, ub) && Precedes(b, ub, a, ua))
  {
    TextLessTotal(a.policy, b.policy);
  }

  predicate Before(candidates: seq<Candidate>, utilities: seq<real>, u: nat, v: nat)
    requires u < |candidates| == |utilities| && v < |candidates|
  {
    Precedes(candidates[u], utilities[u], candidates[v], utilities[v])
  }

  /** No node is preceded by the one after it. */
  ghost predicate InOrder(candidates: seq<Candidate>, utilities: seq<real>, nodes: seq<nat>) {
    && |utilities| == |candidates| && (forall i :: 0 <= i < |nodes| ==> nodes[i] < |candidates|)
    && forall i :: 0 < i < |nodes| ==> !Before(candidates, utilities, nodes[i], nodes[i - 1])
  }

  lemma PrependInOrder(candidates: seq<Candidate>, utilities: seq<real>, node: nat, rest: seq<nat>)
    requires node < |candidates| && InOrder(candidates, utilities, rest)
    requires rest != [] ==> !Before(candidates, utilities, rest[0], node)
    ensures InOrder(candidates, utilities, [node] + rest)
  {
  }

  lemma {:induction false} InsertInOrder(candidates: seq<Candidate>, utilities: seq<real>, node: nat, sorted: seq<nat>)
    requires node < |candidates| && InOrder(candidates, utilities, sorted) && StepsDown(utilities, sorted)
    ensures InOrder(candidates, utilities, InsertNode(candidates, utilities, node, sorted))
    decreases |sorted|
  {
    if sorted == [] || !Before(candidates, utilities, sorted[0], node) {
      PrependInOrder(candidates, utilities, node, sorted);
    } else {
      TailStepsDown(utilities, sorted);
      InsertInOrder(candidates, utilities, node, sorted[1..]);
      PrecedesAsymmetric(candidates[sorted[0]], utilities[sorted[0]], candidates[node], utilities[node]);
      PrependInOrder(candidates, utilities, sorted[0], InsertNode(candidates, utilities, node, sorted[1..]));
    }
  }

  /** The sort respects the whole comparison: utility, confidence, tier, line and policy. */
  lemma {:induction false} SortInOrder(candidates: seq<Candidate>, utilities: seq<real>, nodes: seq<nat>)
    requires |utilities| == |candidates| && forall i :: 0 <= i < |nodes| ==> nodes[i] < |candidates|
    ensures InOrder(candidates, utilities, SortNodes(candidates, utilities, nodes))
  {
    if nodes != [] {
      SortInOrder(candidates, utilities, nodes[1..]);
      InsertInOrder(candidates, utilities, nodes[0], SortNodes(candidates, utilities, nodes[1..]));
    }
  }
}
