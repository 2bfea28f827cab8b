/**
 What the exhaustive fold (and so the branch-and-bound search) returns: always a
 conflict-free choice, and, when no total falls just below the optimum, the one optimal
 choice that wins every tie-break.
 */
module ExactSearchOptimality {
  import opened SeqFacts
  import opened CandidateOrder
  import opened ExactSearch

  // ----------------------------------------------------------- leaves and choices

  /** Depth-first order: at the first difference the earlier choice takes the smaller position or goes on. */
  ghost predicate VisitedBefore(a: seq<nat>, b: seq<nat>) {
    a != [] && (b == [] || a[0] < b[0] || (a[0] == b[0] && VisitedBefore(a[1..], b[1..])))
  }

  lemma {:induction false} VisitedBeforePrefix(common: seq<nat>, a: seq<nat>, b: seq<nat>)
    requires VisitedBefore(a, b)
    ensures VisitedBefore(common + a, common + b)
  {
    if common == [] {
      assert common + a == a && common + b == b;
    } else {
      VisitedBeforePrefix(common[1..], a, b);
      assert (common + a)[1..] == common[1..] + a && (common + b)[1..] == common[1..] + b;
    }
  }

  /** `leaf` continues `chosen` with positions from `position` on. */
  ghost predicate Continues(leaf: seq<nat>, chosen: seq<nat>, position: nat) {
    && |leaf| >= |chosen| && leaf[..|chosen|] == chosen
    && (|leaf| > |chosen| ==> leaf[|chosen|] >= position)
  }

  lemma ContinuesShorter(leaf: seq<nat>, chosen: seq<nat>, position: nat)
    requires Continues(leaf, chosen + [position], position + 1)
    ensures Continues(leaf, chosen, position)
  {
    assert leaf[..|chosen|] == leaf[..|chosen| + 1][..|chosen|];
  }

  /** Every leaf extends the node's choice by positions not yet passed. */
  lemma {:induction false} LeavesExtend(inst: Instance, position: nat, chosen: seq<nat>, i: nat)
    requires position <= |inst.weights|
    requires i < |Leaves(inst, position, chosen)|
    ensures Continues(Leaves(inst, position, chosen)[i], chosen, position)
    decreases |inst.weights| - position
  {
    if position < |inst.weights| {
      var taken := if Blocked(inst, chosen, position) then [] else Leaves(inst, position + 1, chosen + [position]);
      if i < |taken| {
        LeavesExtend(inst, position + 1, chosen + [position], i);
        ContinuesShorter(taken[i], chosen, position);
      } else {
        LeavesExtend(inst, position + 1, chosen, i - |taken|);
      }
    }
  }

  lemma {:induction false} LeavesSound(inst: Instance, position: nat, chosen: seq<nat>, i: nat)
    requires position <= |inst.weights| && ConflictFree(inst, chosen)
    requires forall k :: 0 <= k < |chosen| ==> chosen[k] < position
    requires i < |Leaves(inst, position, chosen)|
    ensures ConflictFree(inst, Leaves(inst, position, chosen)[i])
    decreases |inst.weights| - position
  {
    if position < |inst.weights| {
      var taken := if Blocked(inst, chosen, position) then [] else Leaves(inst, position + 1, chosen + [position]);
      if i < |taken| {
        ConflictFreeSnoc(inst, chosen, position);
        LeavesSound(inst, position + 1, chosen + [position], i);
      } else {
        LeavesSound(inst, position + 1, chosen, i - |taken|);
      }
    }
  }

  lemma ConflictFreeSnoc(inst: Instance, chosen: seq<nat>, p: nat)
    requires ConflictFree(inst, chosen) && p < |inst.weights|
    requires forall k :: 0 <= k < |chosen| ==> chosen[k] < p
    requires !Blocked(inst, chosen, p)
    ensures ConflictFree(inst, chosen + [p])
  {
    var longer := chosen + [p];
    forall j | 0 <= j < |longer|
      ensures !Blocked(inst, longer[..j], longer[j])
    {
      assert longer[..j] == chosen[..j];
      assert chosen[..|chosen|] == chosen;
    }
  }

  lemma ConflictFreePrefix(inst: Instance, chosen: seq<nat>, k: nat)
    requires ConflictFree(inst, chosen) && k <= |chosen|
    ensures ConflictFree(inst, chosen[..k])
  {
    forall j | 0 <= j < k
      ensures !Blocked(inst, chosen[..k][..j], chosen[..k][j])
    {
      assert chosen[..k][..j] == chosen[..j];
    }
  }

  /** Every conflict-free choice is reached; `k` of its positions are already taken. */
  lemma {:induction false} LeavesComplete(inst: Instance, position: nat, whole: seq<nat>, k: nat) returns (i: nat)
    requires position <= |inst.weights| && ConflictFree(inst, whole) && k <= |whole|
    requires k < |whole| ==> position <= whole[k]
    ensures i < |Leaves(inst, position, whole[..k])| && Leaves(inst, position, whole[..k])[i] == whole
    decreases |inst.weights| - position
  {
    var chosen := whole[..k];
    if position == |inst.weights| {
      i := 0;
    } else {
      var taken := if Blocked(inst, chosen, position) then [] else Leaves(inst, position + 1, chosen + [position]);
      if k < |whole| && whole[k] == position {
        assert chosen + [position] == whole[..k + 1];
        i := LeavesComplete(inst, position + 1, whole, k + 1);
      } else {
        i := LeavesComplete(inst, position + 1, whole, k);
        i := i + |taken|;
      }
    }
  }

  /** A choice that takes `position` comes before one that agrees up to there and skips it. */
  lemma TakenBeforeSkipped(a: seq<nat>, b: seq<nat>, chosen: seq<nat>, position: nat)
    requires Continues(a, chosen + [position], position + 1) && Continues(b, chosen, position + 1)
    ensures VisitedBefore(a, b)
  {
    ContinuesShorter(a, chosen, position);
    assert a[|chosen|] == a[..|chosen| + 1][|chosen|] == position;
    VisitedBeforePrefix(chosen, a[|chosen|..], b[|chosen|..]);
    assert a == chosen + a[|chosen|..] && b == chosen + b[|chosen|..];
  }

  /** Leaves appear in depth-first order, so no choice is met twice. */
  lemma {:induction false} LeavesOrdered(inst: Instance, position: nat, chosen: seq<nat>, i: nat, j: nat)
    requires position <= |inst.weights|
    requires i < j < |Leaves(inst, position, chosen)|
    ensures VisitedBefore(Leaves(inst, position, chosen)[i], Leaves(inst, position, chosen)[j])
    decreases |inst.weights| - position
  {
    var taken := if Blocked(inst, chosen, position) then [] else Leaves(inst, position + 1, chosen + [position]);
    if j < |taken| {
      LeavesOrdered(inst, position + 1, chosen + [position], i, j);
    } else if i >= |taken| {
      LeavesOrdered(inst, position + 1, chosen, i - |taken|, j - |taken|);
    } else {
      LeavesExtend(inst, position + 1, chosen + [position], i);
      LeavesExtend(inst, position + 1, chosen, j - |taken|);
      TakenBeforeSkipped(taken[i], Leaves(inst, position + 1, chosen)[j - |taken|], chosen, position);
    }
  }

  // --------------------------------------------------------------- what is promised

  /** A conflict-free choice whose total no conflict-free choice exceeds. */
  ghost predicate Optimal(inst: Instance, chosen: seq<nat>) {
    ConflictFree(inst, chosen) && forall t :: ConflictFree(inst, t) ==> Score(inst, t) <= Score(inst, chosen)
  }

  /** No conflict-free total lies below the best one by the tolerance or less. */
  ghost predicate TopGap(inst: Instance) {
    forall t, o :: ConflictFree(inst, t) && Optimal(inst, o) ==>
      !(Score(inst, o) - TOLERANCE <= Score(inst, t) < Score(inst, o))
  }

  ghost predicate Sound(inst: Instance, best: Best) {
    best.Best? ==> ConflictFree(inst, best.chosen) && best.score == Score(inst, best.chosen)
  }

  lemma {:induction false} FoldSound(inst: Instance, best: Best, leaves: seq<seq<nat>>)
    requires Sound(inst, best)
    requires forall i :: 0 <= i < |leaves| ==> ConflictFree(inst, leaves[i])
    ensures Sound(inst, Fold(inst, best, leaves))
    ensures best.Best? || leaves != [] ==> Fold(inst, best, leaves).Best?
    decreases |leaves|
  {
    if leaves != [] {
      FoldSound(inst, Consider(inst, best, leaves[0]), leaves[1..]);
    }
  }

  lemma RootLeavesSound(inst: Instance)
    ensures forall i :: 0 <= i < |Leaves(inst, 0, [])| ==> ConflictFree(inst, Leaves(inst, 0, [])[i])
    ensures |Leaves(inst, 0, [])| > 0
  {
    forall i | 0 <= i < |Leaves(inst, 0, [])|
      ensures ConflictFree(inst, Leaves(inst, 0, [])[i])
    {
      LeavesSound(inst, 0, [], i);
    }
    var i := LeavesComplete(inst, 0, [], 0);
  }

  /** Whatever the weights, the search ends with a conflict-free choice and its true total. */
  lemma AnswerConflictFree(inst: Instance)
    ensures Exhaustive(inst).Best?
    ensures ConflictFree(inst, Exhaustive(inst).chosen)
    ensures Exhaustive(inst).score == Score(inst, Exhaustive(inst).chosen)
  {
    RootLeavesSound(inst);
    FoldSound(inst, NoBest, Leaves(inst, 0, []));
  }

  lemma RootIndex(inst: Instance, chosen: seq<nat>) returns (i: nat)
    requires ConflictFree(inst, chosen)
    ensures i < |Leaves(inst, 0, [])| && Leaves(inst, 0, [])[i] == chosen
  {
    assert chosen[..0] == [];
    i := LeavesComplete(inst, 0, chosen, 0);
  }

  lemma {:induction false} HeaviestLeaf(inst: Instance, leaves: seq<seq<nat>>) returns (m: nat)
    requires leaves != []
    ensures m < |leaves| && forall i :: 0 <= i < |leaves| ==> Score(inst, leaves[i]) <= Score(inst, leaves[m])
    decreases |leaves|
  {
    if |leaves| == 1 {
      m := 0;
    } else {
      m := HeaviestLeaf(inst, leaves[1..]);
      forall i | 1 <= i < |leaves|
        ensures Score(inst, leaves[i]) <= Score(inst, leaves[m + 1])
      {
        assert leaves[i] == leaves[1..][i - 1];
      }
      m := if Score(inst, leaves[m + 1]) >= Score(inst, leaves[0]) then m + 1 else 0;
    }
  }

  lemma OptimalExists(inst: Instance) returns (o: seq<nat>)
    ensures Optimal(inst, o)
  {
    var leaves := Leaves(inst, 0, []);
    RootLeavesSound(inst);
    var m := HeaviestLeaf(inst, leaves);
    o := leaves[m];
    forall t | ConflictFree(inst, t)
      ensures Score(inst, t) <= Score(inst, o)
    {
      var i := RootIndex(inst, t);
    }
  }

  // ------------------------------------------------------- enough: a gap at the top

  lemma {:induction false} KeyListLessTotal(a: seq<Key>, b: seq<Key>)
    ensures a == b || KeyListLess(a, b) || KeyListLess(b, a)
  {
    if a != [] && b != [] {
      TextLessTotal(a[0].policy, b[0].policy);
      KeyListLessTotal(a[1..], b[1..]);
      assert a == [a[0]] + a[1..] && b == [b[0]] + b[1..];
    }
  }

  /** "Not after" is transitive. */
  lemma NotLessTransitive(a: seq<Key>, b: seq<Key>, c: seq<Key>)
    requires !KeyListLess(a, b) && !KeyListLess(b, c)
    ensures !KeyListLess(a, c)
  {
    KeyListLessTotal(a, b);
    if KeyListLess(a, c) && KeyListLess(b, a) {
      KeyListLessTransitive(b, a, c);
    }
  }

  ghost predicate NoneEarlier(inst: Instance, best: Best, other: seq<nat>) {
    best.Best? && !KeyListLess(KeysOf(inst, other), KeysOf(inst, best.chosen))
  }

  ghost predicate Gapped(score: real, opt: real) {
    score == opt || score < opt - TOLERANCE
  }

  lemma {:induction false} FoldUnderGap(inst: Instance, best: Best, leaves: seq<seq<nat>>, opt: real)
    requires best.Best? ==> Gapped(best.score, opt)
    requires forall i :: 0 <= i < |leaves| ==> Gapped(Score(inst, leaves[i]), opt)
    ensures var r := Fold(inst, best, leaves);
            && (best.Best? && best.score == opt ==> r.Best? && r.score == opt && NoneEarlier(inst, r, best.chosen))
            && (forall i :: 0 <= i < |leaves| && Score(inst, leaves[i]) == opt ==>
                  r.Best? && r.score == opt && NoneEarlier(inst, r, leaves[i]))
    decreases |leaves|
  {
    if leaves == [] {
      if best.Best? {
        KeyListLessIrreflexive(KeysOf(inst, best.chosen));
      }
    } else {
      var next := Consider(inst, best, leaves[0]);
      var r := Fold(inst, best, leaves);
      FoldUnderGap(inst, next, leaves[1..], opt);
      if best.Best? && best.score == opt {
        if next != best {
          assert !KeyListLess(KeysOf(inst, best.chosen), KeysOf(inst, next.chosen)) by {
            if KeyListLess(KeysOf(inst, best.chosen), KeysOf(inst, next.chosen)) {
              KeyListLessTransitive(KeysOf(inst, best.chosen), KeysOf(inst, next.chosen), KeysOf(inst, best.chosen));
              KeyListLessIrreflexive(KeysOf(inst, best.chosen));
            }
          }
          NotLessTransitive(KeysOf(inst, best.chosen), KeysOf(inst, next.chosen), KeysOf(inst, r.chosen));
        }
      }
      if Score(inst, leaves[0]) == opt {
        assert next.score == opt;
        if next.chosen != leaves[0] {
          NotLessTransitive(KeysOf(inst, leaves[0]), KeysOf(inst, next.chosen), KeysOf(inst, r.chosen));
        }
      }
      forall i | 1 <= i < |leaves| && Score(inst, leaves[i]) == opt
        ensures r.Best? && r.score == opt && NoneEarlier(inst, r, leaves[i])
      {
        assert leaves[i] == leaves[1..][i - 1];
      }
    }
  }

  /**
   With a gap at the top the search is exact: it returns an optimal choice, and among
   the optimal ones none has a lexicographically smaller (line, policy) list.
   */
  lemma GapMakesExact(inst: Instance)
    requires TopGap(inst)
    ensures var r := Exhaustive(inst);
            && r.Best? && r.chosen == Answer(inst) && Optimal(inst, Answer(inst))
            && forall o :: Optimal(inst, o) ==> !KeyListLess(KeysOf(inst, o), KeysOf(inst, Answer(inst)))
  {
    var leaves := Leaves(inst, 0, []);
    var o := OptimalExists(inst);
    RootLeavesSound(inst);
    AnswerConflictFree(inst);
    forall i | 0 <= i < |leaves|
      ensures Gapped(Score(inst, leaves[i]), Score(inst, o))
    {
      assert ConflictFree(inst, leaves[i]);
    }
    FoldUnderGap(inst, NoBest, leaves, Score(inst, o));
    var r := Exhaustive(inst);
    forall o' | Optimal(inst, o')
      ensures r.score == Score(inst, o') && !KeyListLess(KeysOf(inst, o'), KeysOf(inst, r.chosen))
    {
      var i := RootIndex(inst, o');
      assert Score(inst, leaves[i]) == Score(inst, o);
      assert NoneEarlier(inst, r, leaves[i]);
    }
  }

  // --------------------------------------------------------- ties are always decided

  lemma SameRawKeys(inst: Instance, a: seq<nat>, b: seq<nat>)
    requires |inst.keys| == |inst.weights| && Distinct(inst.keys) && InRange(inst, a) && InRange(inst, b)
    requires multiset(RawKeys(inst, a)) == multiset(RawKeys(inst, b))
    ensures forall p :: p in a ==> p in b
  {
    forall p | p in a
      ensures p in b
    {
      var i :| 0 <= i < |a| && a[i] == p;
      assert RawKeys(inst, a)[i] in multiset(RawKeys(inst, a));
      assert inst.keys[p] in RawKeys(inst, b);
      var j :| 0 <= j < |b| && RawKeys(inst, b)[j] == inst.keys[p];
      assert inst.keys[b[j]] == inst.keys[p];
    }
  }

  /** With distinct keys, of two different choices exactly one wins the tie-break. */
  lemma TieBreakDecides(inst: Instance, a: seq<nat>, b: seq<nat>)
    requires |inst.keys| == |inst.weights| && Distinct(inst.keys)
    requires Ascending(a) && InRange(inst, a) && Ascending(b) && InRange(inst, b) && a != b
    ensures KeyListLess(KeysOf(inst, a), KeysOf(inst, b)) <==> !KeyListLess(KeysOf(inst, b), KeysOf(inst, a))
  {
    var left, right := KeysOf(inst, a), KeysOf(inst, b);
    if left == right {
      assert multiset(RawKeys(inst, a)) == multiset(left) && multiset(RawKeys(inst, b)) == multiset(right);
      SameRawKeys(inst, a, b);
      SameRawKeys(inst, b, a);
      AscendingUnique(a, b);
    }
    KeyListLessTotal(left, right);
    KeyListLessIrreflexive(left);
    if KeyListLess(left, right) && KeyListLess(right, left) {
      KeyListLessTransitive(left, right, left);
    }
  }

  /** With a gap and distinct keys the answer is determined: it wins the tie-break against every other optimal choice. */
  lemma AnswerWinsTies(inst: Instance)
    requires TopGap(inst) && |inst.keys| == |inst.weights| && Distinct(inst.keys)
    ensures Optimal(inst, Answer(inst))
    ensures forall o :: Optimal(inst, o) && o != Answer(inst) ==> KeyListLess(KeysOf(inst, Answer(inst)), KeysOf(inst, o))
  {
    GapMakesExact(inst);
    forall o | Optimal(inst, o) && o != Answer(inst)
      ensures KeyListLess(KeysOf(inst, Answer(inst)), KeysOf(inst, o))
    {
      TieBreakDecides(inst, Answer(inst), o);
    }
  }
}
