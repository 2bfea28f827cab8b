/**
 The price of the tolerance. The search is exact for every labelling of the positions if
 and only if no conflict-free total falls below the best one by the tolerance or less;
 in every case its loss is bounded by one tolerance per leaf.
 */
module ExactSearchTolerance {
  import opened SeqFacts
  import opened CandidateOrder
  import opened ExactSearch
  import opened ExactSearchOptimality

  /** The sort of a component puts heavier candidates first. */
  ghost predicate Descending(weights: seq<real>) {
    forall i, j :: 0 <= i < j < |weights| ==> weights[i] >= weights[j]
  }

  // ----------------------------------------------------- labels do not change the choices

  ghost predicate SameShape(a: Instance, b: Instance) {
    a.weights == b.weights && a.later == b.later
  }

  lemma {:induction false} SameScore(a: Instance, b: Instance, chosen: seq<nat>)
    requires SameShape(a, b)
    ensures Score(a, chosen) == Score(b, chosen)
  {
    if chosen != [] {
      SameScore(a, b, chosen[..|chosen| - 1]);
    }
  }

  lemma SameBlocked(a: Instance, b: Instance, chosen: seq<nat>, q: nat)
    requires SameShape(a, b)
    ensures Blocked(a, chosen, q) <==> Blocked(b, chosen, q)
  {
    assert forall p :: Rules(a, p, q) <==> Rules(b, p, q);
  }

  lemma SameConflictFree(a: Instance, b: Instance, chosen: seq<nat>)
    requires SameShape(a, b)
    ensures ConflictFree(a, chosen) <==> ConflictFree(b, chosen)
  {
    forall j | 0 <= j < |chosen|
      ensures Blocked(a, chosen[..j], chosen[j]) <==> Blocked(b, chosen[..j], chosen[j])
    {
      SameBlocked(a, b, chosen[..j], chosen[j]);
    }
  }

  lemma SameOptimal(a: Instance, b: Instance, chosen: seq<nat>)
    requires SameShape(a, b) && Optimal(a, chosen)
    ensures Optimal(b, chosen)
  {
    SameConflictFree(a, b, chosen);
    SameScore(a, b, chosen);
    forall t | ConflictFree(b, t)
      ensures Score(b, t) <= Score(b, chosen)
    {
      SameConflictFree(a, b, t);
      SameScore(a, b, t);
    }
  }

  lemma SameTopGap(a: Instance, b: Instance)
    requires SameShape(a, b) && TopGap(a)
    ensures TopGap(b)
  {
    forall t, o | ConflictFree(b, t) && Optimal(b, o)
      ensures !(Score(b, o) - TOLERANCE <= Score(b, t) < Score(b, o))
    {
      SameConflictFree(a, b, t);
      SameOptimal(b, a, o);
      SameScore(a, b, t);
      SameScore(a, b, o);
    }
  }

  // --------------------------------------------------- a labelling that favours one choice

  function IndexOf(order: seq<nat>, p: nat): (i: nat)
    requires p in order
    ensures i < |order| && order[i] == p
  {
    if order[0] == p then 0 else 1 + IndexOf(order[1..], p)
  }

  /** The key on a line; different lines have different policies, with names of `base` or more letters. */
  function KeyOn(base: nat, line: nat): Key {
    Key(line, seq(base + line, _ => 'x'))
  }

  lemma PoliciesDiffer(base: nat, a: nat, b: nat)
    requires KeyOn(base, a).policy == KeyOn(base, b).policy
    ensures a == b
  {
    assert |KeyOn(base, a).policy| == base + a && |KeyOn(base, b).policy| == base + b;
  }

  /** Lines 1, 2, ... for the positions of `order`, later lines for all others. */
  function LabelAt(order: seq<nat>, base: nat, p: nat): Key {
    KeyOn(base, 1 + if p in order then IndexOf(order, p) else |order| + p)
  }

  function Favour(inst: Instance, order: seq<nat>, base: nat): Instance {
    inst.(keys := seq(|inst.weights|, p requires 0 <= p => LabelAt(order, base, p)))
  }

  lemma LabelsInjective(order: seq<nat>, base: nat, p: nat, q: nat)
    requires LabelAt(order, base, p) == LabelAt(order, base, q)
    ensures p == q
  {
  }

  /** Every key is the one on its line. */
  ghost predicate OnLines(base: nat, keys: seq<Key>) {
    forall k :: 0 <= k < |keys| ==> keys[k] == KeyOn(base, keys[k].line) && keys[k].line >= 1
  }

  lemma StrictFromDistinct(sorted: seq<Key>, base: nat)
    requires LinesAscend(sorted) && OnLines(base, sorted)
    requires forall x :: multiset(sorted)[x] <= 1
    ensures forall i :: 0 < i < |sorted| ==> sorted[i - 1].line < sorted[i].line
  {
    forall i | 0 < i < |sorted|
      ensures sorted[i - 1].line < sorted[i].line
    {
      if sorted[i - 1] == sorted[i] {
        CountTwice(sorted, i - 1, i);
      }
    }
  }

  function Labels(order: seq<nat>, base: nat, chosen: seq<nat>): seq<Key> {
    seq(|chosen|, i requires 0 <= i < |chosen| => LabelAt(order, base, chosen[i]))
  }

  lemma FavouredLabels(inst: Instance, order: seq<nat>, base: nat, chosen: seq<nat>)
    requires Ascending(chosen) && InRange(inst, chosen)
    ensures KeysOf(Favour(inst, order, base), chosen) == SortKeys(Labels(order, base, chosen))
    ensures Distinct(Labels(order, base, chosen))
  {
    var labelled := Favour(inst, order, base);
    assert RawKeys(labelled, chosen) == Labels(order, base, chosen);
    forall i, j | 0 <= i < j < |chosen|
      ensures Labels(order, base, chosen)[i] != Labels(order, base, chosen)[j]
    {
      if LabelAt(order, base, chosen[i]) == LabelAt(order, base, chosen[j]) {
        LabelsInjective(order, base, chosen[i], chosen[j]);
      }
    }
  }

  lemma LabelMember(order: seq<nat>, base: nat, chosen: seq<nat>, p: nat)
    requires p in chosen
    ensures LabelAt(order, base, p) in Labels(order, base, chosen)
  {
    var i :| 0 <= i < |chosen| && chosen[i] == p;
    assert Labels(order, base, chosen)[i] == LabelAt(order, base, p);
  }

  lemma LabelSource(order: seq<nat>, base: nat, chosen: seq<nat>, k: Key) returns (p: nat)
    requires k in Labels(order, base, chosen)
    ensures p in chosen && k == LabelAt(order, base, p)
  {
    var i :| 0 <= i < |chosen| && Labels(order, base, chosen)[i] == k;
    p := chosen[i];
  }

  lemma SortedOnLines(order: seq<nat>, base: nat, chosen: seq<nat>, sorted: seq<Key>)
    requires forall k :: k in sorted ==> k in Labels(order, base, chosen)
    ensures OnLines(base, sorted)
  {
    forall i | 0 <= i < |sorted|
      ensures sorted[i] == KeyOn(base, sorted[i].line) && sorted[i].line >= 1
    {
      assert sorted[i] in sorted;
      var p := LabelSource(order, base, chosen, sorted[i]);
    }
  }

  /** The sorted keys of an ascending choice: its labels, strictly ascending. */
  lemma FavouredKeys(inst: Instance, order: seq<nat>, base: nat, chosen: seq<nat>)
    requires Ascending(chosen) && InRange(inst, chosen)
    ensures var sorted := KeysOf(Favour(inst, order, base), chosen);
            && |sorted| == |chosen|
            && OnLines(base, sorted)
            && (forall i :: 0 < i < |sorted| ==> sorted[i - 1].line < sorted[i].line)
            && (forall k :: k in sorted <==> k in Labels(order, base, chosen))
  {
    var raw := Labels(order, base, chosen);
    FavouredLabels(inst, order, base, chosen);
    SortedLabels(order, base, chosen, raw, SortKeys(raw));
  }

  lemma SortedLabels(order: seq<nat>, base: nat, chosen: seq<nat>, raw: seq<Key>, sorted: seq<Key>)
    requires raw == Labels(order, base, chosen) && Distinct(raw)
    requires multiset(sorted) == multiset(raw) && LinesAscend(sorted)
    ensures |sorted| == |chosen| && OnLines(base, sorted)
    ensures forall i :: 0 < i < |sorted| ==> sorted[i - 1].line < sorted[i].line
    ensures forall k :: k in sorted <==> k in raw
  {
    DistinctCounts(raw);
    SameElements(raw, sorted);
    SortedOnLines(order, base, chosen, sorted);
    StrictFromDistinct(sorted, base);
  }

  lemma {:induction false} StrictAtLeast(keys: seq<Key>, i: nat)
    requires forall k :: 0 < k < |keys| ==> keys[k - 1].line < keys[k].line
    requires i < |keys| && keys[0].line >= 1
    ensures keys[i].line >= i + 1
  {
    if i > 0 {
      StrictAtLeast(keys, i - 1);
    }
  }

  lemma {:induction false} StrictAtMost(keys: seq<Key>, i: nat)
    requires forall k :: 0 < k < |keys| ==> keys[k - 1].line < keys[k].line
    requires forall k :: 0 <= k < |keys| ==> keys[k].line <= |keys|
    requires i < |keys|
    ensures keys[i].line <= i + 1
    decreases |keys| - i
  {
    if i + 1 < |keys| {
      StrictAtMost(keys, i + 1);
    }
  }

  /** The keys of lines 1, 2, ..., m come first, except for their own prefixes. */
  lemma {:induction false} LeastList(least: seq<Key>, keys: seq<Key>, base: nat, offset: nat)
    requires forall i :: 0 <= i < |least| ==> least[i] == KeyOn(base, i + offset)
    requires forall i :: 0 <= i < |keys| ==> keys[i].line >= i + offset && keys[i] == KeyOn(base, keys[i].line)
    ensures KeyListLess(least, keys) || (|keys| <= |least| && keys == least[..|keys|])
    decreases |keys|
  {
    if keys != [] && least != [] && keys[0].line == offset {
      LeastList(least[1..], keys[1..], base, offset + 1);
      assert keys == [keys[0]] + keys[1..];
      assert least == [least[0]] + least[1..];
    }
  }

  /** `order` lists the positions of `chosen`, each once. */
  ghost predicate Reorders(order: seq<nat>, chosen: seq<nat>) {
    && Distinct(order) && |order| == |chosen|
    && (forall p :: p in order <==> p in chosen)
  }

  lemma {:induction false} IndexOfDistinct(order: seq<nat>, i: nat)
    requires Distinct(order) && i < |order|
    ensures IndexOf(order, order[i]) == i
  {
    if i > 0 {
      assert order[0] != order[i];
      IndexOfDistinct(order[1..], i - 1);
    }
  }

  /** The favoured choice has the keys of lines 1, 2, ..., m. */
  lemma FavouredLeast(inst: Instance, order: seq<nat>, base: nat, chosen: seq<nat>)
    requires Ascending(chosen) && InRange(inst, chosen) && Reorders(order, chosen)
    ensures var least := KeysOf(Favour(inst, order, base), chosen);
            |least| == |order| && forall i :: 0 <= i < |least| ==> least[i] == KeyOn(base, i + 1)
  {
    var least := KeysOf(Favour(inst, order, base), chosen);
    FavouredKeys(inst, order, base, chosen);
    forall k | 0 <= k < |least| ensures least[k].line <= |least| {
      assert least[k] in least;
      var p := LabelSource(order, base, chosen, least[k]);
    }
    forall i | 0 <= i < |least|
      ensures least[i] == KeyOn(base, i + 1)
    {
      StrictAtLeast(least, i);
      StrictAtMost(least, i);
    }
  }

  /** A choice whose keys are the first ones of the favoured choice is part of it. */
  lemma KeyPrefixIsPart(inst: Instance, order: seq<nat>, base: nat, chosen: seq<nat>, other: seq<nat>)
    requires Reorders(order, chosen)
    requires Ascending(other) && InRange(inst, other)
    requires forall k :: k in KeysOf(Favour(inst, order, base), other) ==> k.line <= |other| <= |order|
    ensures forall p :: p in other ==> p in chosen
    ensures |other| < |order| ==> order[|order| - 1] !in other
  {
    FavouredKeys(inst, order, base, other);
    forall p | p in other
      ensures p in chosen && LabelAt(order, base, p).line <= |other|
    {
      LabelMember(order, base, other, p);
    }
    if |other| < |order| {
      IndexOfDistinct(order, |order| - 1);
      assert LabelAt(order, base, order[|order| - 1]).line == |order|;
    }
  }

  lemma SameKeysSameChoice(inst: Instance, order: seq<nat>, base: nat, chosen: seq<nat>, other: seq<nat>)
    requires Ascending(chosen) && InRange(inst, chosen) && Ascending(other) && InRange(inst, other)
    requires KeysOf(Favour(inst, order, base), chosen) == KeysOf(Favour(inst, order, base), other)
    requires forall p :: p in other ==> p in chosen
    ensures chosen == other
  {
    FavouredKeys(inst, order, base, chosen);
    FavouredKeys(inst, order, base, other);
    forall p | p in chosen
      ensures p in other
    {
      LabelMember(order, base, chosen, p);
      var q := LabelSource(order, base, other, LabelAt(order, base, p));
      LabelsInjective(order, base, p, q);
    }
    AscendingUnique(chosen, other);
  }

  lemma KeysAtLeast(inst: Instance, order: seq<nat>, base: nat, other: seq<nat>)
    requires Ascending(other) && InRange(inst, other)
    ensures var keys := KeysOf(Favour(inst, order, base), other);
            |keys| == |other| && forall i :: 0 <= i < |keys| ==> keys[i].line >= i + 1 && keys[i] == KeyOn(base, keys[i].line)
  {
    var keys := KeysOf(Favour(inst, order, base), other);
    FavouredKeys(inst, order, base, other);
    forall i | 0 <= i < |keys| ensures keys[i].line >= i + 1 {
      StrictAtLeast(keys, i);
    }
  }

  /** The favoured choice precedes every other, except those of its own parts that lack the last of `order`. */
  lemma FavouredFirst(inst: Instance, order: seq<nat>, base: nat, chosen: seq<nat>, other: seq<nat>)
    requires Ascending(chosen) && InRange(inst, chosen) && Reorders(order, chosen)
    requires Ascending(other) && InRange(inst, other) && other != chosen
    ensures var labelled := Favour(inst, order, base);
            || KeyListLess(KeysOf(labelled, chosen), KeysOf(labelled, other))
            || ((forall p :: p in other ==> p in chosen) && order != [] && order[|order| - 1] !in other)
  {
    var labelled := Favour(inst, order, base);
    var least, keys := KeysOf(labelled, chosen), KeysOf(labelled, other);
    FavouredLeast(inst, order, base, chosen);
    KeysAtLeast(inst, order, base, other);
    LeastList(least, keys, base, 1);
    if !KeyListLess(least, keys) {
      assert forall k :: k in keys ==> k.line <= |other|;
      KeyPrefixIsPart(inst, order, base, chosen, other);
      if |other| == |order| {
        SameKeysSameChoice(inst, order, base, chosen, other);
      }
    }
  }

  // ------------------------------------------------------------- positions in the run

  lemma {:induction false} PartVisitedLater(part: seq<nat>, whole: seq<nat>)
    requires Ascending(part) && Ascending(whole) && part != whole
    requires forall p :: p in part ==> p in whole
    ensures VisitedBefore(whole, part)
  {
    if part != [] {
      assert part[0] in whole;
      if whole[0] == part[0] {
        assert part == [part[0]] + part[1..] && whole == [whole[0]] + whole[1..];
        forall p | p in part[1..] ensures p in whole[1..] {
          assert p in part;
        }
        PartVisitedLater(part[1..], whole[1..]);
      }
    }
  }

  lemma {:induction false} VisitedBeforeAsymmetric(a: seq<nat>, b: seq<nat>)
    ensures !(VisitedBefore(a, b) && VisitedBefore(b, a))
    ensures !VisitedBefore(a, a)
  {
    if a != [] {
      VisitedBeforeAsymmetric(a[1..], if b == [] then [] else b[1..]);
    }
  }

  lemma {:induction false} FoldFrom(inst: Instance, best: Best, leaves: seq<seq<nat>>)
    ensures Fold(inst, best, leaves) == best
         || exists i :: 0 <= i < |leaves| && Fold(inst, best, leaves) == Best(Score(inst, leaves[i]), leaves[i])
    decreases |leaves|
  {
    if leaves != [] {
      FoldFrom(inst, Consider(inst, best, leaves[0]), leaves[1..]);
      var r := Fold(inst, best, leaves);
      if r != best && r != Best(Score(inst, leaves[0]), leaves[0]) {
        var i :| 0 <= i < |leaves[1..]| && r == Best(Score(inst, leaves[1..][i]), leaves[1..][i]);
        assert leaves[1..][i] == leaves[i + 1];
      }
    }
  }

  lemma {:induction false} FoldStays(inst: Instance, best: Best, leaves: seq<seq<nat>>)
    requires forall i :: 0 <= i < |leaves| ==> Consider(inst, best, leaves[i]) == best
    ensures Fold(inst, best, leaves) == best
    decreases |leaves|
  {
    if leaves != [] {
      assert Consider(inst, best, leaves[0]) == best;
      FoldStays(inst, best, leaves[1..]);
    }
  }

  /** A total within the tolerance below the best one. */
  ghost predicate Near(inst: Instance, t: seq<nat>, o: seq<nat>) {
    && ConflictFree(inst, t) && Optimal(inst, o)
    && Score(inst, o) - TOLERANCE <= Score(inst, t) < Score(inst, o)
  }

  /** When the favoured near-optimal choice comes up, it takes over whatever was best. */
  lemma NearTakesOver(inst: Instance, order: seq<nat>, base: nat, i: nat, o: seq<nat>)
    requires var leaves := Leaves(Favour(inst, order, base), 0, []);
             i < |leaves| && Reorders(order, leaves[i]) && Near(Favour(inst, order, base), leaves[i], o)
    ensures var labelled, leaves := Favour(inst, order, base), Leaves(Favour(inst, order, base), 0, []);
            Fold(labelled, NoBest, leaves[..i + 1]) == Best(Score(labelled, leaves[i]), leaves[i])
  {
    var labelled := Favour(inst, order, base);
    var leaves := Leaves(labelled, 0, []);
    RootLeavesSound(labelled);
    var t := leaves[i];
    var before := Fold(labelled, NoBest, leaves[..i]);
    FoldFrom(labelled, NoBest, leaves[..i]);
    assert leaves[..i + 1] == leaves[..i] + [t];
    FoldConcat(labelled, NoBest, leaves[..i], [t]);
    var single: seq<seq<nat>> := [t];
    assert |single[1..]| == 0;
    if before.Best? {
      var j :| 0 <= j < |leaves[..i]| && before == Best(Score(labelled, leaves[..i][j]), leaves[..i][j]);
      var e := leaves[j];
      assert before.chosen == e;
      LeavesOrdered(labelled, 0, [], j, i);
      VisitedBeforeAsymmetric(e, t);
      assert ConflictFree(labelled, e) && ConflictFree(labelled, t);
      if forall p :: p in e ==> p in t {
        PartVisitedLater(e, t);
      }
      FavouredFirst(inst, order, base, t, e);
      assert Score(labelled, e) <= Score(labelled, o);
    }
  }

  /** The last optimal leaf in the order of the search. */
  lemma LastOptimal(inst: Instance) returns (i: nat)
    ensures i < |Leaves(inst, 0, [])| && Optimal(inst, Leaves(inst, 0, [])[i])
    ensures forall j :: i < j < |Leaves(inst, 0, [])| ==> !Optimal(inst, Leaves(inst, 0, [])[j])
  {
    var leaves := Leaves(inst, 0, []);
    var o := OptimalExists(inst);
    i := RootIndex(inst, o);
    while exists j :: i < j < |leaves| && Optimal(inst, leaves[j])
      invariant i < |leaves| && Optimal(inst, leaves[i])
      decreases |leaves| - i
    {
      var j :| i < j < |leaves| && Optimal(inst, leaves[j]);
      i := j;
    }
  }

  // ---------------------------------------------------------------- the two ways to lose

  /** A near-optimal choice that comes up after every optimal one is never undone by an optimal one. */
  lemma NearAfterEveryOptimal(inst: Instance, order: seq<nat>, base: nat, i: nat, o: seq<nat>)
    requires var leaves := Leaves(Favour(inst, order, base), 0, []);
             && i < |leaves| && Reorders(order, leaves[i]) && Near(Favour(inst, order, base), leaves[i], o)
             && forall j :: i < j < |leaves| ==> !Optimal(Favour(inst, order, base), leaves[j])
    ensures !Optimal(Favour(inst, order, base), Answer(Favour(inst, order, base)))
  {
    var labelled := Favour(inst, order, base);
    var leaves := Leaves(labelled, 0, []);
    NearTakesOver(inst, order, base, i, o);
    var best := Fold(labelled, NoBest, leaves[..i + 1]);
    var rest := leaves[i + 1..];
    assert leaves == leaves[..i + 1] + rest;
    FoldConcat(labelled, NoBest, leaves[..i + 1], rest);
    FoldFrom(labelled, best, rest);
    var r := Fold(labelled, best, rest);
    if r != best {
      var j :| 0 <= j < |rest| && r == Best(Score(labelled, rest[j]), rest[j]);
      assert rest[j] == leaves[i + 1 + j];
    }
  }

  lemma LastNotInPart(part: seq<nat>, whole: seq<nat>)
    requires Ascending(part) && Ascending(whole) && whole != []
    requires forall p :: p in part ==> p in whole
    requires part == [] || part[|part| - 1] != whole[|whole| - 1]
    ensures whole[|whole| - 1] !in part
  {
    if part != [] {
      assert part[|part| - 1] in whole;
      assert forall k :: 0 <= k < |part| ==> part[k] <= part[|part| - 1];
    }
  }

  lemma {:induction false} ScoreOfPart(inst: Instance, part: seq<nat>, whole: seq<nat>)
    requires inst.Valid() && Ascending(part) && Ascending(whole)
    requires forall p :: p in part ==> p in whole
    ensures Score(inst, part) <= Score(inst, whole)
    ensures forall x :: x in whole && x !in part ==> Score(inst, part) + WeightAt(inst, x) <= Score(inst, whole)
    decreases |whole|
  {
    if whole == [] {
      HasMember(part);
    } else {
      var last := whole[|whole| - 1];
      var shorter := whole[..|whole| - 1];
      assert whole == shorter + [last];
      if part != [] && part[|part| - 1] == last {
        var partShorter := part[..|part| - 1];
        assert part == partShorter + [last];
        forall p | p in partShorter ensures p in shorter { assert p in part; }
        ScoreOfPart(inst, partShorter, shorter);
      } else {
        LastNotInPart(part, whole);
        forall p | p in part ensures p in shorter && p != last {
          assert p in whole;
        }
        ScoreOfPart(inst, part, shorter);
      }
    }
  }

  /** Once best, a favoured near-optimal choice with a weight above the tolerance wins against any later leaf. */
  lemma NearResists(inst: Instance, order: seq<nat>, base: nat, t: seq<nat>, o: seq<nat>, e: seq<nat>)
    requires inst.Valid()
    requires Reorders(order, t) && Near(Favour(inst, order, base), t, o)
    requires ConflictFree(Favour(inst, order, base), e) && VisitedBefore(t, e)
    requires order != [] && WeightAt(inst, order[|order| - 1]) > TOLERANCE
    ensures var best := Best(Score(Favour(inst, order, base), t), t);
            Consider(Favour(inst, order, base), best, e) == best
  {
    var labelled := Favour(inst, order, base);
    VisitedBeforeAsymmetric(t, t);
    FavouredFirst(inst, order, base, t, e);
    assert Score(labelled, e) <= Score(labelled, o);
    if KeyListLess(KeysOf(labelled, t), KeysOf(labelled, e)) {
      NotBothLess(KeysOf(labelled, e), KeysOf(labelled, t));
    } else {
      var x := order[|order| - 1];
      assert x in order;
      assert WeightAt(labelled, x) == WeightAt(inst, x);
      ScoreOfPart(labelled, e, t);
    }
  }

  lemma NotBothLess(a: seq<Key>, b: seq<Key>)
    ensures !(KeyListLess(a, b) && KeyListLess(b, a))
  {
    KeyListLessIrreflexive(a);
    if KeyListLess(a, b) && KeyListLess(b, a) {
      KeyListLessTransitive(a, b, a);
    }
  }

  lemma LaterResisted(inst: Instance, order: seq<nat>, base: nat, i: nat, o: seq<nat>, j: nat)
    requires inst.Valid()
    requires var leaves := Leaves(Favour(inst, order, base), 0, []);
             && i < j < |leaves| && Reorders(order, leaves[i]) && Near(Favour(inst, order, base), leaves[i], o)
    requires order != [] && WeightAt(inst, order[|order| - 1]) > TOLERANCE
    ensures var labelled, leaves := Favour(inst, order, base), Leaves(Favour(inst, order, base), 0, []);
            var best := Best(Score(labelled, leaves[i]), leaves[i]);
            Consider(labelled, best, leaves[j]) == best
  {
    var labelled := Favour(inst, order, base);
    RootLeavesSound(labelled);
    LeavesOrdered(labelled, 0, [], i, j);
    NearResists(inst, order, base, Leaves(labelled, 0, [])[i], o, Leaves(labelled, 0, [])[j]);
  }

  /** A favoured near-optimal choice with a weight above the tolerance stays best to the end. */
  lemma NearHoldsOn(inst: Instance, order: seq<nat>, base: nat, i: nat, o: seq<nat>)
    requires inst.Valid()
    requires var leaves := Leaves(Favour(inst, order, base), 0, []);
             && i < |leaves| && Reorders(order, leaves[i]) && Near(Favour(inst, order, base), leaves[i], o)
    requires order != [] && WeightAt(inst, order[|order| - 1]) > TOLERANCE
    ensures !Optimal(Favour(inst, order, base), Answer(Favour(inst, order, base)))
  {
    var labelled := Favour(inst, order, base);
    var leaves := Leaves(labelled, 0, []);
    var t := leaves[i];
    NearTakesOver(inst, order, base, i, o);
    var best := Best(Score(labelled, t), t);
    var rest := leaves[i + 1..];
    assert leaves == leaves[..i + 1] + rest;
    FoldConcat(labelled, NoBest, leaves[..i + 1], rest);
    forall j | 0 <= j < |rest|
      ensures Consider(labelled, best, rest[j]) == best
    {
      assert rest[j] == leaves[i + 1 + j];
      LaterResisted(inst, order, base, i, o, i + 1 + j);
    }
    FoldStays(labelled, best, rest);
  }

  // -------------------------------------------------------------------- the exact condition

  /** No two keys share a line or a policy. */
  ghost predicate DistinctLabels(keys: seq<Key>) {
    forall i, j :: 0 <= i < j < |keys| ==> keys[i].line != keys[j].line && keys[i].policy != keys[j].policy
  }

  /** Line numbers from 1 and policy names of at least `base` letters. */
  ghost predicate PlainKeys(keys: seq<Key>, base: nat) {
    forall i :: 0 <= i < |keys| ==> keys[i].line >= 1 && |keys[i].policy| >= base
  }

  lemma FavourDistinct(inst: Instance, order: seq<nat>, base: nat)
    ensures DistinctLabels(Favour(inst, order, base).keys) && PlainKeys(Favour(inst, order, base).keys, base)
    ensures |Favour(inst, order, base).keys| == |inst.weights| && SameShape(inst, Favour(inst, order, base))
  {
    var keys := Favour(inst, order, base).keys;
    forall i, j | 0 <= i < j < |keys|
      ensures keys[i].line != keys[j].line && keys[i].policy != keys[j].policy
    {
      if keys[i].line == keys[j].line || keys[i].policy == keys[j].policy {
        PoliciesDiffer(base, keys[i].line, keys[j].line);
        LabelsInjective(order, base, i, j);
      }
    }
  }

  /** The last position of the last optimal choice weighs more than the tolerance, if nothing near follows it. */
  lemma LastWeightMatters(inst: Instance, i: nat)
    requires inst.Valid()
    requires var leaves := Leaves(inst, 0, []);
             && i < |leaves| && Optimal(inst, leaves[i]) && leaves[i] != []
             && forall j :: i < j < |leaves| ==> !Optimal(inst, leaves[j]) && !Near(inst, leaves[j], leaves[i])
    ensures var o := Leaves(inst, 0, [])[i];
            WeightAt(inst, o[|o| - 1]) > TOLERANCE
  {
    var leaves := Leaves(inst, 0, []);
    var o := leaves[i];
    var part := o[..|o| - 1];
    ConflictFreePrefix(inst, o, |o| - 1);
    var j := RootIndex(inst, part);
    PartVisitedLater(part, o);
    VisitedBeforeAsymmetric(o, part);
    if j < i {
      LeavesOrdered(inst, 0, [], j, i);
    }
    assert j > i;
    assert !Optimal(inst, part);
  }

  /** The position at which an earlier-visited choice departs from a later one. */
  lemma {:induction false} Departure(a: seq<nat>, b: seq<nat>) returns (k: nat)
    requires VisitedBefore(a, b) && Ascending(a) && Ascending(b)
    ensures k < |a| && k <= |b| && a[..k] == b[..k] && (k < |b| ==> a[k] < b[k])
  {
    if b == [] || a[0] < b[0] {
      k := 0;
    } else {
      k := Departure(a[1..], b[1..]);
      k := k + 1;
      assert a[..k] == [a[0]] + a[1..][..k - 1] && b[..k] == [b[0]] + b[1..][..k - 1];
    }
  }

  /** A near-optimal choice met before the last optimal one owns a position heavier than the tolerance. */
  lemma NearHasWeight(inst: Instance, i: nat, j: nat) returns (k: nat)
    requires inst.Valid() && Descending(inst.weights)
    requires var leaves := Leaves(inst, 0, []);
             && j < i < |leaves| && Near(inst, leaves[j], leaves[i])
             && forall l :: i < l < |leaves| ==> !Optimal(inst, leaves[l]) && !Near(inst, leaves[l], leaves[i])
    ensures k < |Leaves(inst, 0, [])[j]| && WeightAt(inst, Leaves(inst, 0, [])[j][k]) > TOLERANCE
  {
    var t, o := Leaves(inst, 0, [])[j], Leaves(inst, 0, [])[i];
    LeavesOrdered(inst, 0, [], j, i);
    k := Departure(t, o);
    if k == |o| {
      assert forall p :: p in o ==> p in t[..k];
      ScoreOfPart(inst, o, t);
      assert false;
    } else {
      LastWeightMatters(inst, i);
      assert t[k] < o[|o| - 1];
    }
  }

  function MoveLast(t: seq<nat>, k: nat): (order: seq<nat>)
    requires k < |t|
  {
    t[..k] + t[k + 1..] + [t[k]]
  }

  lemma MoveLastReorders(t: seq<nat>, k: nat)
    requires k < |t| && Ascending(t)
    ensures Reorders(MoveLast(t, k), t)
  {
    assert t == t[..k] + [t[k]] + t[k + 1..];
  }

  /** Without the gap, some labelling with distinct lines and policies makes the search return a choice that is not optimal. */
  lemma NearBreaksExactness(inst: Instance, base: nat) returns (labels: seq<Key>)
    requires inst.Valid() && Descending(inst.weights) && !TopGap(inst)
    ensures |labels| == |inst.weights| && DistinctLabels(labels) && PlainKeys(labels, base)
    ensures !Optimal(inst.(keys := labels), Answer(inst.(keys := labels)))
  {
    var t, o :| ConflictFree(inst, t) && Optimal(inst, o) && Score(inst, o) - TOLERANCE <= Score(inst, t) < Score(inst, o);
    var leaves := Leaves(inst, 0, []);
    var i := LastOptimal(inst);
    var last := leaves[i];
    var j := RootIndex(inst, t);
    assert Near(inst, t, last);
    var order;
    if exists l :: i < l < |leaves| && Near(inst, leaves[l], last) {
      var l :| i < l < |leaves| && Near(inst, leaves[l], last);
      order := leaves[l];
      Relabel(inst, order, base, leaves[l], last);
      NearAfterEveryOptimal(inst, order, base, l, last);
    } else {
      var k := NearHasWeight(inst, i, j);
      order := MoveLast(t, k);
      MoveLastReorders(t, k);
      Relabel(inst, order, base, t, last);
      NearHoldsOn(inst, order, base, j, last);
    }
    FavourDistinct(inst, order, base);
    labels := Favour(inst, order, base).keys;
    assert inst.(keys := labels) == Favour(inst, order, base);
  }

  lemma {:induction false} SameLeaves(a: Instance, b: Instance, position: nat, chosen: seq<nat>)
    requires SameShape(a, b) && position <= |a.weights|
    ensures Leaves(a, position, chosen) == Leaves(b, position, chosen)
    decreases |a.weights| - position
  {
    if position < |a.weights| {
      SameBlocked(a, b, chosen, position);
      SameLeaves(a, b, position + 1, chosen);
      SameLeaves(a, b, position + 1, chosen + [position]);
    }
  }

  lemma Relabel(inst: Instance, order: seq<nat>, base: nat, t: seq<nat>, o: seq<nat>)
    requires Near(inst, t, o)
    ensures Near(Favour(inst, order, base), t, o)
    ensures Leaves(Favour(inst, order, base), 0, []) == Leaves(inst, 0, [])
    ensures forall c :: Optimal(Favour(inst, order, base), c) ==> Optimal(inst, c)
  {
    var labelled := Favour(inst, order, base);
    FavourDistinct(inst, order, base);
    SameLeaves(inst, labelled, 0, []);
    SameConflictFree(inst, labelled, t);
    SameOptimal(inst, labelled, o);
    SameScore(inst, labelled, t);
    SameScore(inst, labelled, o);
    forall c | Optimal(labelled, c)
      ensures Optimal(inst, c)
    {
      SameOptimal(labelled, inst, c);
    }
  }

  /**
   The exact condition. For weights in descending order, the search returns an optimal
   choice under every labelling with distinct lines and distinct policies if and only if no
   conflict-free total lies below the best one by the tolerance or less.
   */
  lemma ExactIffTopGap(inst: Instance)
    requires inst.Valid() && Descending(inst.weights)
    ensures TopGap(inst) <==>
            forall keys :: |keys| == |inst.weights| && DistinctLabels(keys) ==>
              Optimal(inst.(keys := keys), Answer(inst.(keys := keys)))
  {
    if TopGap(inst) {
      forall keys | |keys| == |inst.weights| && DistinctLabels(keys)
        ensures Optimal(inst.(keys := keys), Answer(inst.(keys := keys)))
      {
        SameTopGap(inst, inst.(keys := keys));
        GapMakesExact(inst.(keys := keys));
      }
    } else {
      var labels := NearBreaksExactness(inst, 0);
    }
  }

  // --------------------------------------------------------- a gap a caller can check

  ghost predicate IsMultiple(x: real, step: real, n: int) {
    x == step * (n as real)
  }

  /** All weights are whole multiples of one step. */
  ghost predicate OnGrid(weights: seq<real>, step: real) {
    forall p :: 0 <= p < |weights| ==> exists n :: IsMultiple(weights[p], step, n)
  }

  lemma {:induction false} ScoreOnGrid(inst: Instance, step: real, chosen: seq<nat>) returns (n: int)
    requires OnGrid(inst.weights, step) && InRange(inst, chosen)
    ensures IsMultiple(Score(inst, chosen), step, n)
  {
    if chosen == [] {
      n := 0;
    } else {
      var last := chosen[|chosen| - 1];
      var m := ScoreOnGrid(inst, step, chosen[..|chosen| - 1]);
      var l :| IsMultiple(inst.weights[last], step, l);
      n := m + l;
      MultiplesAdd(Score(inst, chosen[..|chosen| - 1]), inst.weights[last], step, m, l);
    }
  }

  lemma MultiplesAdd(x: real, y: real, step: real, m: int, l: int)
    requires IsMultiple(x, step, m) && IsMultiple(y, step, l)
    ensures IsMultiple(x + y, step, m + l)
  {
    assert ((m + l) as real) == (m as real) + (l as real);
  }

  /** Two different multiples are at least a step apart. */
  lemma MultiplesApart(x: real, y: real, step: real, m: int, n: int)
    requires step > 0.0 && IsMultiple(x, step, m) && IsMultiple(y, step, n)
    ensures x < y ==> x + step <= y
  {
    var d := n - m;
    assert (n as real) == (m as real) + (d as real);
    assert y == x + step * (d as real);
    if d >= 1 {
      assert step * ((d as real) - 1.0) >= 0.0;
    } else {
      assert step * (-(d as real)) >= 0.0;
    }
  }

  /** Weights on a grid coarser than the tolerance leave a gap at the top. */
  lemma CoarseGridHasGap(inst: Instance, step: real)
    requires step > TOLERANCE && OnGrid(inst.weights, step)
    ensures TopGap(inst)
  {
    forall t, o | ConflictFree(inst, t) && Optimal(inst, o)
      ensures !(Score(inst, o) - TOLERANCE <= Score(inst, t) < Score(inst, o))
    {
      var n := ScoreOnGrid(inst, step, o);
      var m := ScoreOnGrid(inst, step, t);
      MultiplesApart(Score(inst, t), Score(inst, o), step, m, n);
    }
  }

  // ------------------------------------------------------------------- the loss, bounded

  lemma {:induction false} FoldLoss(inst: Instance, best: Best, leaves: seq<seq<nat>>)
    ensures var r := Fold(inst, best, leaves);
            && (best.Best? ==> r.Best? && r.score + TOLERANCE * (|leaves| as real) >= best.score)
            && forall i :: 0 <= i < |leaves| ==>
                 r.Best? && r.score + TOLERANCE * (|leaves| as real) >= Score(inst, leaves[i])
    decreases |leaves|
  {
    if leaves != [] {
      var next := Consider(inst, best, leaves[0]);
      FoldLoss(inst, next, leaves[1..]);
      assert |leaves| as real == (|leaves[1..]| as real) + 1.0;
      forall i | 0 <= i < |leaves|
        ensures Fold(inst, best, leaves).Best?
        ensures Fold(inst, best, leaves).score + TOLERANCE * (|leaves| as real) >= Score(inst, leaves[i])
      {
        if i > 0 {
          assert leaves[i] == leaves[1..][i - 1];
        }
      }
    }
  }

  /** For all weights whatever, the answer is short of the best total by at most one tolerance per leaf. */
  lemma LossBounded(inst: Instance, t: seq<nat>)
    requires ConflictFree(inst, t)
    ensures Exhaustive(inst).Best?
    ensures Exhaustive(inst).score + TOLERANCE * (|Leaves(inst, 0, [])| as real) >= Score(inst, t)
  {
    var i := RootIndex(inst, t);
    FoldLoss(inst, NoBest, Leaves(inst, 0, []));
  }
}
