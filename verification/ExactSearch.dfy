/**
 The branch-and-bound search over one conflict component, on positions of the sorted
 component. `Leaves` enumerates every conflict-free choice in depth-first order, with no
 pruning; the search method is proved to leave behind exactly what a fold of the
 acceptance test over that full enumeration would.
 */
module ExactSearch {
  import opened Bounds
  import opened SeqFacts
  import opened CandidateOrder

  const TOLERANCE: real := 0.000001

  /**
   A component after sorting: the clamped utility of each position, the conflicting
   positions after it, and the key used to break ties.
   */
  datatype Instance = Instance(weights: seq<real>, later: seq<seq<nat>>, keys: seq<Key>) {
    ghost predicate Valid() {
      && |later| == |weights| == |keys|
      && (forall p :: 0 <= p < |weights| ==> weights[p] >= 0.0)
      && (forall p, q :: 0 <= p < |later| && q in later[p] ==> p < q < |weights|)
    }
  }

  /** The best choice so far; NoBest stands for the initial score f64::MIN. */
  datatype Best = NoBest | Best(score: real, chosen: seq<nat>)

  // ---------------------------------------------------------------- choices

  ghost predicate InRange(inst: Instance, chosen: seq<nat>) {
    forall i :: 0 <= i < |chosen| ==> chosen[i] < |inst.weights|
  }

  function WeightAt(inst: Instance, p: nat): real {
    if p < |inst.weights| then inst.weights[p] else 0.0
  }

  function KeyAt(inst: Instance, p: nat): Key {
    if p < |inst.keys| then inst.keys[p] else Key(0, "")
  }

  /** Position p lists q among its later conflicts. */
  predicate Rules(inst: Instance, p: nat, q: nat) {
    p < |inst.later| && q in inst.later[p]
  }

  /** Some chosen position lists q among its later conflicts. */
  ghost predicate Blocked(inst: Instance, chosen: seq<nat>, q: nat) {
    exists i :: 0 <= i < |chosen| && Rules(inst, chosen[i], q)
  }

  /** An ascending choice of positions no two of which conflict. */
  ghost predicate ConflictFree(inst: Instance, chosen: seq<nat>) {
    && InRange(inst, chosen)
    && Ascending(chosen)
    && forall j :: 0 <= j < |chosen| ==> !Blocked(inst, chosen[..j], chosen[j])
  }

  function Score(inst: Instance, chosen: seq<nat>): real {
    if chosen == [] then 0.0
    else Score(inst, chosen[..|chosen| - 1]) + WeightAt(inst, chosen[|chosen| - 1])
  }

  /** The (line, policy) pairs of a choice. */
  function RawKeys(inst: Instance, chosen: seq<nat>): seq<Key> {
    seq(|chosen|, i requires 0 <= i < |chosen| => KeyAt(inst, chosen[i]))
  }

  /** The sorted (line, policy) list of a choice. */
  function KeysOf(inst: Instance, chosen: seq<nat>): seq<Key> {
    SortKeys(RawKeys(inst, chosen))
  }

  // ------------------------------------------- reference: exhaustive enumeration

  /** The acceptance test at a leaf of the search. */
  ghost function Consider(inst: Instance, best: Best, chosen: seq<nat>): Best {
    var score := Score(inst, chosen);
    if best.NoBest? || score > best.score + TOLERANCE
       || (AbsReal(score - best.score) <= TOLERANCE && KeyListLess(KeysOf(inst, chosen), KeysOf(inst, best.chosen)))
    then Best(score, chosen) else best
  }

  /** What is left of `best` once every leaf has been put to the acceptance test in order. */
  ghost function Fold(inst: Instance, best: Best, leaves: seq<seq<nat>>): Best
    decreases |leaves|
  {
    if leaves == [] then best else Fold(inst, Consider(inst, best, leaves[0]), leaves[1..])
  }

  /** All ways to extend `chosen` by positions from `position` on, taking before skipping. */
  ghost function Leaves(inst: Instance, position: nat, chosen: seq<nat>): seq<seq<nat>>
    requires position <= |inst.weights|
    decreases |inst.weights| - position
  {
    if position == |inst.weights| then [chosen] else
      (if Blocked(inst, chosen, position) then [] else Leaves(inst, position + 1, chosen + [position]))
      + Leaves(inst, position + 1, chosen)
  }

  /** The outcome of the search: the acceptance test folded over every leaf. */
  ghost function Exhaustive(inst: Instance): Best {
    Fold(inst, NoBest, Leaves(inst, 0, []))
  }

  /** The positions the search returns. */
  ghost function Answer(inst: Instance): seq<nat> {
    match Exhaustive(inst)
    case NoBest => []
    case Best(_, chosen) => chosen
  }

  lemma {:induction false} FoldConcat(inst: Instance, best: Best, front: seq<seq<nat>>, back: seq<seq<nat>>)
    ensures Fold(inst, best, front + back) == Fold(inst, Fold(inst, best, front), back)
    decreases |front|
  {
    if front == [] {
      assert front + back == back;
    } else {
      assert (front + back)[1..] == front[1..] + back && (front + back)[0] == front[0];
      FoldConcat(inst, Consider(inst, best, front[0]), front[1..], back);
    }
  }

  // ------------------------------------------------------------ the pruning bound

  /** Sum of the weights from `position` on. */
  ghost function SuffixSum(weights: seq<real>, position: nat): real
    requires position <= |weights|
    decreases |weights| - position
  {
    if position == |weights| then 0.0 else SuffixSum(weights, position + 1) + weights[position]
  }

  lemma ScoreSnoc(inst: Instance, chosen: seq<nat>, q: nat)
    ensures Score(inst, chosen + [q]) == Score(inst, chosen) + WeightAt(inst, q)
  {
    assert (chosen + [q])[..|chosen|] == chosen;
  }

  /** No leaf below a node scores more than its running score plus the suffix sum. */
  lemma {:induction false} SuffixBoundAdmissible(inst: Instance, position: nat, chosen: seq<nat>)
    requires inst.Valid() && position <= |inst.weights|
    ensures forall i :: 0 <= i < |Leaves(inst, position, chosen)| ==>
              Score(inst, Leaves(inst, position, chosen)[i]) <= Score(inst, chosen) + SuffixSum(inst.weights, position)
    decreases |inst.weights| - position
  {
    if position < |inst.weights| {
      SuffixBoundAdmissible(inst, position + 1, chosen);
      SuffixBoundAdmissible(inst, position + 1, chosen + [position]);
      ScoreSnoc(inst, chosen, position);
    }
  }

  /** A batch of leaves that all fall short of the best by more than the tolerance changes nothing. */
  lemma {:induction false} FoldPruned(inst: Instance, best: Best, leaves: seq<seq<nat>>)
    requires best.Best?
    requires forall i :: 0 <= i < |leaves| ==> Score(inst, leaves[i]) + TOLERANCE < best.score
    ensures Fold(inst, best, leaves) == best
    decreases |leaves|
  {
    if leaves != [] {
      assert Score(inst, leaves[0]) + TOLERANCE < best.score;
      FoldPruned(inst, best, leaves[1..]);
    }
  }

  /** The unpruned search below a node: the taking branch, if there is one, then the skipping branch. */
  ghost function Unpruned(inst: Instance, best: Best, position: nat, chosen: seq<nat>): Best
    requires position <= |inst.weights|
    decreases |inst.weights| - position
  {
    if position == |inst.weights| then Consider(inst, best, chosen) else
      var afterTaking :=
        if Blocked(inst, chosen, position) then best
        else Unpruned(inst, best, position + 1, chosen + [position]);
      Unpruned(inst, afterTaking, position + 1, chosen)
  }

  lemma {:induction false} UnprunedIsFold(inst: Instance, best: Best, position: nat, chosen: seq<nat>)
    requires position <= |inst.weights|
    ensures Unpruned(inst, best, position, chosen) == Fold(inst, best, Leaves(inst, position, chosen))
    decreases |inst.weights| - position
  {
    if position == |inst.weights| {
      assert [chosen][1..] == [];
    } else {
      var skipped := Leaves(inst, position + 1, chosen);
      if Blocked(inst, chosen, position) {
        UnprunedIsFold(inst, best, position + 1, chosen);
        assert Leaves(inst, position, chosen) == skipped;
      } else {
        var taken := Leaves(inst, position + 1, chosen + [position]);
        UnprunedIsFold(inst, best, position + 1, chosen + [position]);
        UnprunedIsFold(inst, Fold(inst, best, taken), position + 1, chosen);
        FoldConcat(inst, best, taken, skipped);
      }
    }
  }

  /** A subtree whose bound falls short of the best by more than the tolerance changes nothing. */
  lemma SubtreePruned(inst: Instance, best: Best, position: nat, chosen: seq<nat>)
    requires inst.Valid() && position <= |inst.weights|
    requires best.Best?
    requires Score(inst, chosen) + SuffixSum(inst.weights, position) + TOLERANCE < best.score
    ensures Unpruned(inst, best, position, chosen) == best
  {
    UnprunedIsFold(inst, best, position, chosen);
    SuffixBoundAdmissible(inst, position, chosen);
    FoldPruned(inst, best, Leaves(inst, position, chosen));
  }

  // -------------------------------------------------------------------- the search

  /** The search state: `blocked` and `current` are changed on the way down and restored on the way up. */
  class ComponentSearch {
    const inst: Instance
    const suffix: seq<real>
    const blocked: array<bool>
    var current: seq<nat>
    var best: Best

    ghost predicate Valid()
      reads this
    {
      && inst.Valid()
      && |suffix| == |inst.weights| + 1
      && (forall p {:trigger suffix[p]} :: 0 <= p <= |inst.weights| ==> suffix[p] == SuffixSum(inst.weights, p))
      && blocked.Length == |inst.weights|
    }

    constructor (inst: Instance)
      requires inst.Valid()
      ensures Valid() && this.inst == inst && fresh(blocked)
      ensures current == [] && best == NoBest
      ensures forall q :: 0 <= q < blocked.Length ==> !blocked[q]
    {
      this.inst := inst;
      var bounds := [0.0];
      var p := |inst.weights|;
      while p > 0
        invariant 0 <= p <= |inst.weights|
        invariant |bounds| == |inst.weights| + 1 - p
        invariant forall k :: 0 <= k < |bounds| ==> bounds[k] == SuffixSum(inst.weights, p + k)
      {
        p := p - 1;
        bounds := [bounds[0] + inst.weights[p]] + bounds;
      }
      suffix := bounds;
      blocked := new bool[|inst.weights|](_ => false);
      current := [];
      best := NoBest;
    }

    /** The sorted (line, policy) list of the given positions. */
    method SortedKeys(positions: seq<nat>) returns (keys: seq<Key>)
      ensures keys == KeysOf(inst, positions)
    {
      var listed := [];
      for i := 0 to |positions|
        invariant |listed| == i && forall k :: 0 <= k < i ==> listed[k] == KeyAt(inst, positions[k])
      {
        listed := listed + [KeyAt(inst, positions[i])];
      }
      assert listed == RawKeys(inst, positions);
      keys := SortKeys(listed);
    }

    /** Whether the current choice wins a tie against another one. */
    method BetterTieBreak(right: seq<nat>) returns (better: bool)
      requires Valid()
      ensures better == KeyListLess(KeysOf(inst, current), KeysOf(inst, right))
    {
      var leftKeys := SortedKeys(current);
      var rightKeys := SortedKeys(right);
      better := KeyListLess(leftKeys, rightKeys);
    }

    /** The acceptance test on the current choice, with its score accumulated on the way down. */
    method AcceptLeaf(runningScore: real)
      requires Valid() && runningScore == Score(inst, current)
      modifies `best
      ensures Valid() && best == Consider(inst, old(best), current)
    {
      var isBetter := best.NoBest? || runningScore > best.score + TOLERANCE;
      var isTie := best.Best? && AbsReal(runningScore - best.score) <= TOLERANCE;
      var winsTie := false;
      if isTie {
        winsTie := BetterTieBreak(best.chosen);
      }
      if isBetter || (isTie && winsTie) {
        best := Best(runningScore, current);
      }
    }

    /** Blocks `position` and its later conflicts; `toggled` lists the flags this call raised. */
    method Block(position: nat) returns (toggled: seq<nat>)
      requires Valid() && position < |inst.weights| && !blocked[position]
      modifies blocked
      ensures forall k :: 0 <= k < |toggled| ==> toggled[k] < blocked.Length && !old(blocked[toggled[k]])
      ensures forall q :: 0 <= q < blocked.Length ==> (blocked[q] <==> old(blocked[q]) || q in toggled)
      ensures forall q :: position < q < blocked.Length ==> (q in toggled || old(blocked[q]) <==> q in inst.later[position] || old(blocked[q]))
    {
      blocked[position] := true;
      toggled := [position];
      for i := 0 to |inst.later[position]|
        invariant forall k :: 0 <= k < |toggled| ==> toggled[k] < blocked.Length && !old(blocked[toggled[k]])
        invariant forall q :: 0 <= q < blocked.Length ==> (blocked[q] <==> old(blocked[q]) || q in toggled)
        invariant forall q :: q in toggled ==> q == position || q in inst.later[position]
        invariant forall k :: 0 <= k < i ==> inst.later[position][k] in inst.later[position] && blocked[inst.later[position][k]]
      {
        var neighbor := inst.later[position][i];
        assert neighbor in inst.later[position];
        if !blocked[neighbor] {
          blocked[neighbor] := true;
          toggled := toggled + [neighbor];
        }
      }
    }

    /** Lowers the flags in `toggled`, and only those. */
    method Unblock(toggled: seq<nat>)
      requires forall k :: 0 <= k < |toggled| ==> toggled[k] < blocked.Length
      modifies blocked
      ensures forall q :: 0 <= q < blocked.Length ==> (blocked[q] <==> old(blocked[q]) && q !in toggled)
    {
      for k := 0 to |toggled|
        invariant forall q :: 0 <= q < blocked.Length ==> (blocked[q] <==> old(blocked[q]) && q !in toggled[..k])
      {
        blocked[toggled[k]] := false;
        assert toggled[..k + 1] == toggled[..k] + [toggled[k]];
      }
    }

    /**
     Explores every extension of `current` from `position` on. With pruning, backtracking
     and in-place marking, the best choice still ends as if every leaf had been considered.
     */
    method Dfs(position: nat, runningScore: real)
      requires Valid() && position <= |inst.weights|
      requires runningScore == Score(inst, current)
      requires forall q :: position <= q < blocked.Length ==> (blocked[q] <==> Blocked(inst, current, q))
      modifies this, blocked
      ensures Valid()
      ensures current == old(current) && blocked[..] == old(blocked[..])
      ensures best == Unpruned(inst, old(best), position, old(current))
      decreases |inst.weights| - position, 2
    {
      ghost var chosen := current;
      if position >= |inst.weights| {
        AcceptLeaf(runningScore);
        return;
      }
      if best.Best? && runningScore + suffix[position] + TOLERANCE < best.score {
        SubtreePruned(inst, best, position, chosen);
        return;
      }
      Branch(position, runningScore);
    }

    /** An inner node: take `position` if it is free, then skip it. */
    method Branch(position: nat, runningScore: real)
      requires Valid() && position < |inst.weights|
      requires runningScore == Score(inst, current)
      requires forall q :: position <= q < blocked.Length ==> (blocked[q] <==> Blocked(inst, current, q))
      modifies this, blocked
      ensures Valid()
      ensures current == old(current) && blocked[..] == old(blocked[..])
      ensures best == Unpruned(inst, old(best), position, old(current))
      decreases |inst.weights| - position, 1
    {
      ghost var flags := blocked[..];
      if !blocked[position] {
        Take(position, runningScore);
      }
      assert forall q :: 0 <= q < blocked.Length ==> blocked[q] == flags[q];
      Dfs(position + 1, runningScore);
    }

    /** The branch that takes `position`: mark, descend, unmark. */
    method Take(position: nat, runningScore: real)
      requires Valid() && position < |inst.weights| && !blocked[position]
      requires runningScore == Score(inst, current)
      requires forall q :: position <= q < blocked.Length ==> (blocked[q] <==> Blocked(inst, current, q))
      modifies this, blocked
      ensures Valid()
      ensures current == old(current) && blocked[..] == old(blocked[..])
      ensures best == Unpruned(inst, old(best), position + 1, old(current) + [position])
      decreases |inst.weights| - position, 0
    {
      ghost var before := blocked[..];
      var toggled := Push(position);
      ghost var marked := blocked[..];
      Dfs(position + 1, runningScore + inst.weights[position]);
      Backtrack(toggled, before, marked);
    }

    /** Takes `position` and marks it with its later conflicts. */
    method Push(position: nat) returns (toggled: seq<nat>)
      requires Valid() && position < |inst.weights| && !blocked[position]
      requires forall q :: position <= q < blocked.Length ==> (blocked[q] <==> Blocked(inst, current, q))
      modifies `current, blocked
      ensures Valid() && current == old(current) + [position]
      ensures Score(inst, current) == Score(inst, old(current)) + inst.weights[position]
      ensures forall k :: 0 <= k < |toggled| ==> toggled[k] < blocked.Length && !old(blocked[toggled[k]])
      ensures forall q :: 0 <= q < blocked.Length ==> (blocked[q] <==> old(blocked[q]) || q in toggled)
      ensures forall q :: position < q < blocked.Length ==> (blocked[q] <==> Blocked(inst, current, q))
    {
      ghost var before := blocked[..];
      toggled := Block(position);
      ScoreSnoc(inst, current, position);
      forall q | position < q < blocked.Length
        ensures blocked[q] <==> Blocked(inst, current + [position], q)
      {
        BlockedSnoc(inst, current, position, q);
        assert before[q] <==> Blocked(inst, current, q);
      }
      current := current + [position];
    }

    /** Drops the last position taken and restores the flags it had raised. */
    method Backtrack(toggled: seq<nat>, ghost before: seq<bool>, ghost marked: seq<bool>)
      requires current != []
      requires forall k :: 0 <= k < |toggled| ==> toggled[k] < blocked.Length
      requires |before| == |marked| == blocked.Length && blocked[..] == marked
      requires forall k :: 0 <= k < |toggled| ==> !before[toggled[k]]
      requires forall q :: 0 <= q < |marked| ==> (marked[q] <==> before[q] || q in toggled)
      modifies `current, blocked
      ensures current == old(current)[..|old(current)| - 1]
      ensures blocked[..] == before
    {
      current := current[..|current| - 1];
      Unblock(toggled);
      forall q | 0 <= q < blocked.Length
        ensures blocked[q] == before[q]
      {
        assert marked[q] <==> before[q] || q in toggled;
        assert old(blocked[q]) == marked[q];
      }
    }
  }

  lemma BlockedSnoc(inst: Instance, chosen: seq<nat>, p: nat, q: nat)
    ensures Blocked(inst, chosen + [p], q) <==> Blocked(inst, chosen, q) || Rules(inst, p, q)
  {
    var longer := chosen + [p];
    if Blocked(inst, chosen, q) {
      var i :| 0 <= i < |chosen| && Rules(inst, chosen[i], q);
      assert longer[i] == chosen[i];
    }
    if Rules(inst, p, q) {
      assert longer[|chosen|] == p;
    }
  }

  /** Runs the search from the root: the outcome is that of the exhaustive enumeration. */
  method Search(inst: Instance) returns (best: Best)
    requires inst.Valid()
    ensures best == Exhaustive(inst)
  {
    UnprunedIsFold(inst, NoBest, 0, []);
    var search := new ComponentSearch(inst);
    search.Dfs(0, 0.0);
    best := search.best;
  }
}
