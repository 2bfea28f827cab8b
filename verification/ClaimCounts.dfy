/**
 What the counts of claims count: real edits, not lines. A count exceeds the number of lines
 a policy has claimed exactly when it had several real edits on one line, and it is never
 below the number of lines that were taken from the policy.
 */
module ClaimCounts {
  import opened LineSuppression
  import opened Convergence
  import opened ConvergenceRuns
  import opened SeqFacts
  import opened Tallies

  /** The lines of the real edits. */
  function RealLines(edits: seq<Edit>): set<nat> { set e | e in edits && Real(e) :: e.line }

  /** No two real edits are on one line. */
  ghost predicate OnePerLine(edits: seq<Edit>) {
    forall i, j :: 0 <= i < j < |edits| && Real(edits[i]) && Real(edits[j]) ==> edits[i].line != edits[j].line
  }

  lemma RealLinesNext(edits: seq<Edit>)
    requires |edits| > 0
    ensures RealLines(edits) == RealLines(edits[1..]) + (if Real(edits[0]) then {edits[0].line} else {})
    ensures OnePerLine(edits) <==> OnePerLine(edits[1..]) && (Real(edits[0]) ==> edits[0].line !in RealLines(edits[1..]))
  {
    var e, rest := edits[0], edits[1..];
    assert forall x :: x in edits <==> x == e || x in rest;
    if OnePerLine(edits) {
      forall i, j | 0 <= i < j < |rest| && Real(rest[i]) && Real(rest[j])
        ensures rest[i].line != rest[j].line
      {
        assert edits[i + 1] == rest[i] && edits[j + 1] == rest[j];
      }
      forall k | 0 <= k < |rest| && Real(rest[k]) && Real(e)
        ensures rest[k].line != e.line
      {
        assert edits[k + 1] == rest[k];
      }
    }
    if OnePerLine(rest) && (Real(e) ==> e.line !in RealLines(rest)) {
      forall i, j | 0 <= i < j < |edits| && Real(edits[i]) && Real(edits[j])
        ensures edits[i].line != edits[j].line
      {
        assert edits[j] == rest[j - 1] && edits[j] in rest;
        if i > 0 {
          assert edits[i] == rest[i - 1];
        }
      }
    }
  }

  /** Real edits are at least as many as their lines, and as many exactly when no line has two. */
  lemma {:induction false} RealCountOfLines(edits: seq<Edit>)
    ensures RealCount(edits) >= |RealLines(edits)|
    ensures RealCount(edits) == |RealLines(edits)| <==> OnePerLine(edits)
  {
    if |edits| > 0 {
      RealLinesNext(edits);
      RealCountOfLines(edits[1..]);
    }
  }

  // ------------------------------------------------------------------------- whole runs

  /** The edits in the name of a policy. */
  function EditsOf(edits: seq<Edit>, policy: string): seq<Edit> {
    if |edits| == 0 then [] else (if edits[0].policy == policy then [edits[0]] else []) + EditsOf(edits[1..], policy)
  }

  lemma {:induction false} EditsOfConcat(a: seq<Edit>, b: seq<Edit>, policy: string)
    ensures EditsOf(a + b, policy) == EditsOf(a, policy) + EditsOf(b, policy)
  {
    if |a| == 0 {
      assert a + b == b;
    } else {
      assert (a + b)[1..] == a[1..] + b;
      EditsOfConcat(a[1..], b, policy);
    }
  }

  /** Edits all in one name are those of that name. */
  lemma {:induction false} EditsOfOwn(edits: seq<Edit>, owner: string, policy: string)
    requires forall e :: e in edits ==> e.policy == owner
    ensures EditsOf(edits, policy) == if policy == owner then edits else []
  {
    if |edits| > 0 {
      assert edits[0] in edits;
      assert forall e :: e in edits[1..] ==> e in edits;
      EditsOfOwn(edits[1..], owner, policy);
      assert edits == [edits[0]] + edits[1..];
    }
  }

  lemma {:induction false} RealCountConcat(a: seq<Edit>, b: seq<Edit>)
    ensures RealCount(a + b) == RealCount(a) + RealCount(b)
  {
    if |a| == 0 {
      assert a + b == b;
    } else {
      assert (a + b)[1..] == a[1..] + b;
      RealCountConcat(a[1..], b);
    }
  }

  /** The lines a policy has claimed: those of the real edits returned in its name. */
  function LinesClaimed(s: Progress, policy: string): set<nat> { RealLines(EditsOf(s.edits, policy)) }

  /** Counts are those of the returned edits; claims and suppressed lines are among the lines claimed. */
  ghost predicate Accounted(s: Progress) {
    && (forall policy :: CountOf(s.counts, policy) == RealCount(EditsOf(s.edits, policy)))
    && (forall line :: line in s.claims ==> line in LinesClaimed(s, s.claims[line].policy))
    && (forall policy :: SuppressedOf(s.suppressed, policy) <= LinesClaimed(s, policy))
  }

  /** What a call adds to the edits of each policy. */
  lemma CallAdds(p: Priorities, s: Progress, c: Call, s': Progress, policy: string)
    requires OwnEdits(c) && Called(p, s, c, s')
    ensures var kept := KeptEdits(c.edits, LostLines(s.claims, p(c.policy), c.edits));
            && EditsOf(s'.edits, policy) == EditsOf(s.edits, policy) + (if policy == c.policy then kept else [])
            && LinesClaimed(s', policy) == LinesClaimed(s, policy) + (if policy == c.policy then RealLines(kept) else {})
            && RealCount(EditsOf(s'.edits, policy)) == RealCount(EditsOf(s.edits, policy)) + (if policy == c.policy then RealCount(kept) else 0)
  {
    var lost := LostLines(s.claims, p(c.policy), c.edits);
    var kept := KeptEdits(c.edits, lost);
    KeptOnLine(c.edits, lost, 0);
    forall e | e in kept
      ensures e.policy == c.policy
    {
      assert e in c.edits;
    }
    EditsOfOwn(kept, c.policy, policy);
    EditsOfConcat(s.edits, kept, policy);
    RealCountConcat(EditsOf(s.edits, policy), if policy == c.policy then kept else []);
    var own: seq<Edit> := if policy == c.policy then kept else [];
    assert forall e :: e in EditsOf(s.edits, policy) + own <==> e in EditsOf(s.edits, policy) || e in own;
  }

  lemma CallAccounted(p: Priorities, s: Progress, c: Call, s': Progress)
    requires OwnEdits(c) && Called(p, s, c, s') && Accounted(s)
    ensures Accounted(s')
  {
    var kept := KeptEdits(c.edits, LostLines(s.claims, p(c.policy), c.edits));
    forall policy
      ensures CountOf(s'.counts, policy) == RealCount(EditsOf(s'.edits, policy))
      ensures SuppressedOf(s'.suppressed, policy) <= LinesClaimed(s', policy)
    {
      CallAdds(p, s, c, s', policy);
      forall line | line in SuppressedOf(s'.suppressed, policy)
        ensures line in LinesClaimed(s', policy)
      {
        assert IsSuppressed(s'.suppressed, policy, line);
        if IsSuppressed(s.suppressed, policy, line) {
          assert line in SuppressedOf(s.suppressed, policy);
        }
      }
    }
    forall line | line in s'.claims
      ensures line in LinesClaimed(s', s'.claims[line].policy)
    {
      CallAdds(p, s, c, s', s'.claims[line].policy);
      if ClaimsLine(kept, line) {
        var i :| 0 <= i < |kept| && Real(kept[i]) && kept[i].line == line;
        assert kept[i] in kept;
      }
    }
  }

  lemma {:induction false} RunAccounted(p: Priorities, calls: seq<Call>, states: seq<Progress>, n: nat)
    requires IsRun(p, calls, states) && n <= |calls|
    ensures Accounted(states[n])
  {
    if n > 0 {
      RunAccounted(p, calls, states, n - 1);
      CallAccounted(p, states[n - 1], calls[n - 1], states[n]);
    }
  }

  /**
   After any run: a policy's count of claimed lines is at least the number of lines it has
   claimed, and is that number exactly when no two real edits returned in its name are on
   one line.
   */
  lemma CountIsLinesExactly(p: Priorities, calls: seq<Call>, states: seq<Progress>, n: nat, policy: string)
    requires IsRun(p, calls, states) && n <= |calls|
    ensures var s := states[n];
            && CountOf(s.counts, policy) >= |LinesClaimed(s, policy)|
            && (CountOf(s.counts, policy) == |LinesClaimed(s, policy)| <==> OnePerLine(EditsOf(s.edits, policy)))
  {
    RunAccounted(p, calls, states, n);
    RealCountOfLines(EditsOf(states[n].edits, policy));
  }

  /** After any run no policy has more lines suppressed than it has claims counted, so the interference ratio is at most 1. */
  lemma SuppressedWithinCount(p: Priorities, calls: seq<Call>, states: seq<Progress>, n: nat, policy: string)
    requires IsRun(p, calls, states) && n <= |calls|
    ensures |SuppressedOf(states[n].suppressed, policy)| <= CountOf(states[n].counts, policy)
    ensures CountOf(states[n].counts, policy) > 0 ==>
              (|SuppressedOf(states[n].suppressed, policy)| as real) / (CountOf(states[n].counts, policy) as real) <= 1.0
  {
    var s := states[n];
    CountIsLinesExactly(p, calls, states, n, policy);
    RunAccounted(p, calls, states, n);
    SubsetSize(SuppressedOf(s.suppressed, policy), LinesClaimed(s, policy));
    if CountOf(s.counts, policy) > 0 {
      RatioWithinOne(|SuppressedOf(s.suppressed, policy)|, CountOf(s.counts, policy));
    }
  }

  lemma RatioWithinOne(part: nat, whole: nat)
    requires part <= whole && whole > 0
    ensures (part as real) / (whole as real) <= 1.0
  {
  }

  // ------------------------------------------------------------------------ an instance

  /** Two edits of one line, as a policy that rewrites a line twice returns them. */
  function Twice(): seq<Edit> { [Edit("p", 1, "a", "b"), Edit("p", 1, "b", "c")] }

  lemma TwiceOnOneLine()
    ensures RealCount(Twice()) == 2 && RealLines(Twice()) == {1} && |RealLines(Twice())| == 1
  {
    assert Twice()[1..] == [Twice()[1]] && Twice()[1..][1..] == [];
    assert RealLines(Twice()) == {1} by {
      assert Twice()[0] in Twice() && Real(Twice()[0]);
    }
  }

  /** One call with both edits claims one line and counts two. */
  method TwiceCounted(priorityOf: Priorities) returns (controller: ConvergenceController)
    ensures controller.claimedLines.Keys == {1} && CountOf(controller.claimedCount, "p") == 2
  {
    controller := new ConvergenceController(priorityOf);
    var r := controller.ReconcilePolicyResult("p", "a", PolicyResult("c", true, [], Twice(), []));
    TwiceOnOneLine();
    assert LostLines(map[], priorityOf("p"), Twice()) == {};
    assert r.edits == Twice();
    assert ClaimsLine(Twice(), 1) by {
      assert Real(Twice()[0]) && Twice()[0].line == 1;
    }
    assert forall line :: line in controller.claimedLines <==> line == 1;
  }
}
