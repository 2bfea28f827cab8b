/**
 Whole runs of the convergence controller. On every line the final report has exactly the
 real edits of one call: the earliest among the calls of greatest priority that proposed one.
 */
module ConvergenceRuns {
  import opened LineSuppression
  import opened Convergence
  import opened Tallies

  /** A call: its policy and the edits it proposes, all in its own name. */
  datatype Call = Call(policy: string, edits: seq<Edit>)

  /** The claims, the suppressed lines, the counts of claims and the edits returned so far. */
  datatype Progress = Progress(claims: Claims, suppressed: LinesBy, counts: map<string, nat>, edits: seq<Edit>)

  ghost predicate OwnEdits(c: Call) {
    forall i :: 0 <= i < |c.edits| ==> c.edits[i].policy == c.policy
  }

  /** What one call does: lost lines are dropped, won lines are taken over, real edits claim. */
  ghost predicate Called(p: Priorities, s: Progress, c: Call, s': Progress) {
    var lost := LostLines(s.claims, p(c.policy), c.edits);
    var kept := KeptEdits(c.edits, lost);
    && Claimed(s.claims, Claim(c.policy, p(c.policy)), kept, s'.claims)
    && Outranked(s.suppressed, s.claims, WonLines(s.claims, p(c.policy), c.edits), s'.suppressed)
    && Tallied(s.counts, c.policy, RealCount(kept), s'.counts)
    && s'.edits == s.edits + kept
  }

  /** The count of one policy has gone up, all others are as they were. */
  ghost predicate Tallied(counts: map<string, nat>, policy: string, more: nat, counts': map<string, nat>) {
    forall p :: CountOf(counts', p) == CountOf(counts, p) + if p == policy then more else 0
  }

  ghost predicate IsRun(p: Priorities, calls: seq<Call>, states: seq<Progress>) {
    && |states| == |calls| + 1 && states[0] == Progress(map[], map[], map[], [])
    && forall i :: 0 <= i < |calls| ==> OwnEdits(calls[i]) && Called(p, states[i], calls[i], states[i + 1])
  }

  /** The real edits on a line. */
  function OnLine(edits: seq<Edit>, line: nat): seq<Edit> {
    if |edits| == 0 then [] else
      (if Real(edits[0]) && edits[0].line == line then [edits[0]] else []) + OnLine(edits[1..], line)
  }

  /** The real edits on a line that are still in the report. */
  function Visible(edits: seq<Edit>, s: LinesBy, line: nat): seq<Edit> { OnLine(Unsuppressed(edits, s), line) }

  lemma {:induction false} OnLineConcat(a: seq<Edit>, b: seq<Edit>, line: nat)
    ensures OnLine(a + b, line) == OnLine(a, line) + OnLine(b, line)
  {
    if |a| == 0 {
      assert a + b == b;
    } else {
      assert (a + b)[1..] == a[1..] + b;
      OnLineConcat(a[1..], b, line);
    }
  }

  lemma VisibleConcat(a: seq<Edit>, b: seq<Edit>, s: LinesBy, line: nat)
    ensures Visible(a + b, s, line) == Visible(a, s, line) + Visible(b, s, line)
  {
    UnsuppressedConcat(a, b, s);
    OnLineConcat(Unsuppressed(a, s), Unsuppressed(b, s), line);
  }

  lemma {:induction false} VisibleStep(edits: seq<Edit>, s: LinesBy, line: nat)
    requires |edits| > 0
    ensures var e := edits[0];
            Visible(edits, s, line) == (if Real(e) && e.line == line && !IsSuppressed(s, e.policy, line) then [e] else []) + Visible(edits[1..], s, line)
  {
    var e := edits[0];
    var head: seq<Edit> := if IsSuppressed(s, e.policy, e.line) then [] else [e];
    OnLineConcat(head, Unsuppressed(edits[1..], s), line);
    assert |head| == 1 ==> head[1..] == [];
  }

  /** Edits in the name of one policy are all visible on a line, or none is. */
  lemma {:induction false} VisibleOwn(edits: seq<Edit>, policy: string, s: LinesBy, line: nat)
    requires forall i :: 0 <= i < |edits| ==> edits[i].policy == policy
    ensures Visible(edits, s, line) == if IsSuppressed(s, policy, line) then [] else OnLine(edits, line)
  {
    if |edits| > 0 {
      VisibleStep(edits, s, line);
      VisibleOwn(edits[1..], policy, s, line);
    }
  }

  /** When nothing changes about a line, its visible edits stay. */
  lemma {:induction false} VisibleSame(edits: seq<Edit>, s: LinesBy, s': LinesBy, line: nat)
    requires forall p :: IsSuppressed(s, p, line) == IsSuppressed(s', p, line)
    ensures Visible(edits, s, line) == Visible(edits, s', line)
  {
    if |edits| > 0 {
      VisibleStep(edits, s, line);
      VisibleStep(edits, s', line);
      VisibleSame(edits[1..], s, s', line);
    }
  }

  /** When all that was visible is in the name of a policy that is now suppressed, nothing stays. */
  lemma {:induction false} VisibleGone(edits: seq<Edit>, s: LinesBy, s': LinesBy, line: nat, policy: string)
    requires forall p :: IsSuppressed(s, p, line) || p == policy ==> IsSuppressed(s', p, line)
    requires forall e :: e in Visible(edits, s, line) ==> e.policy == policy
    ensures Visible(edits, s', line) == []
  {
    if |edits| > 0 {
      VisibleStep(edits, s, line);
      VisibleStep(edits, s', line);
      VisibleGone(edits[1..], s, s', line, policy);
    }
  }

  /** Dropping lines leaves the real edits of all other lines. */
  lemma {:induction false} KeptOnLine(edits: seq<Edit>, lost: set<nat>, line: nat)
    ensures OnLine(KeptEdits(edits, lost), line) == if line in lost then [] else OnLine(edits, line)
    ensures forall e :: e in KeptEdits(edits, lost) ==> e in edits
  {
    if |edits| > 0 {
      KeptOnLine(edits[1..], lost, line);
      var head: seq<Edit> := if edits[0].line in lost then [] else [edits[0]];
      OnLineConcat(head, KeptEdits(edits[1..], lost), line);
      assert |head| == 1 ==> head[1..] == [];
    }
  }

  lemma {:induction false} OnLineExists(edits: seq<Edit>, line: nat)
    ensures OnLine(edits, line) != [] <==> ClaimsLine(edits, line)
    ensures forall e :: e in OnLine(edits, line) <==> e in edits && Real(e) && e.line == line
  {
    if |edits| > 0 {
      OnLineExists(edits[1..], line);
      if ClaimsLine(edits, line) {
        var i :| 0 <= i < |edits| && Real(edits[i]) && edits[i].line == line;
        assert i > 0 ==> edits[1..][i - 1] == edits[i];
      }
      if ClaimsLine(edits[1..], line) {
        var i :| 0 <= i < |edits[1..]| && Real(edits[1..][i]) && edits[1..][i].line == line;
        assert edits[i + 1] == edits[1..][i];
      }
    }
  }

  // ---------------------------------------------------------------------------- the winner

  /** Among the first n calls, call w proposed a real edit on the line, with the greatest priority, first of those. */
  ghost predicate Wins(p: Priorities, calls: seq<Call>, n: nat, line: nat, w: nat) {
    && w < n <= |calls| && ClaimsLine(calls[w].edits, line)
    && forall i :: 0 <= i < n && ClaimsLine(calls[i].edits, line) ==>
         p(calls[i].policy) <= p(calls[w].policy) && (i < w ==> p(calls[i].policy) < p(calls[w].policy))
  }

  ghost predicate Untouched(calls: seq<Call>, n: nat, line: nat) {
    n <= |calls| && forall i :: 0 <= i < n ==> !ClaimsLine(calls[i].edits, line)
  }

  /** What the controller knows about a line after n calls. */
  ghost predicate Settled(p: Priorities, calls: seq<Call>, n: nat, s: Progress, line: nat) {
    if line !in s.claims then
      && Untouched(calls, n, line) && OnLine(s.edits, line) == []
      && forall q :: !IsSuppressed(s.suppressed, q, line)
    else
      exists w: nat :: Winner(p, calls, n, s, line, w)
  }

  /** The winner holds the claim, and its real edits are what is visible. */
  ghost predicate Winner(p: Priorities, calls: seq<Call>, n: nat, s: Progress, line: nat, w: nat) {
    && Wins(p, calls, n, line, w) && OwnEdits(calls[w])
    && line in s.claims && s.claims[line] == Claim(calls[w].policy, p(calls[w].policy))
    && Visible(s.edits, s.suppressed, line) == OnLine(calls[w].edits, line)
    && forall q :: IsSuppressed(s.suppressed, q, line) ==> p(q) < p(calls[w].policy)
  }

  lemma {:induction false} NothingVisible(edits: seq<Edit>, s: LinesBy, line: nat)
    requires OnLine(edits, line) == []
    ensures Visible(edits, s, line) == []
  {
    if |edits| > 0 {
      VisibleStep(edits, s, line);
      NothingVisible(edits[1..], s, line);
    }
  }

  /** The kept edits of a call, seen through the suppression after it. */
  lemma KeptVisible(c: Call, lost: set<nat>, s: LinesBy, line: nat)
    requires OwnEdits(c)
    ensures Visible(KeptEdits(c.edits, lost), s, line)
            == if IsSuppressed(s, c.policy, line) || line in lost then [] else OnLine(c.edits, line)
  {
    var kept := KeptEdits(c.edits, lost);
    KeptOnLine(c.edits, lost, line);
    forall i | 0 <= i < |kept|
      ensures kept[i].policy == c.policy
    {
      assert kept[i] in c.edits;
    }
    VisibleOwn(kept, c.policy, s, line);
  }

  /** What a call means for one line. */
  ghost predicate LineChanged(p: Priorities, s: Progress, c: Call, s': Progress, line: nat) {
    var proposes := ClaimsLine(c.edits, line);
    var lost := proposes && line in s.claims && s.claims[line].priority >= p(c.policy);
    && (line in s'.claims <==> line in s.claims || proposes)
    && (line in s'.claims ==> s'.claims[line] == if proposes && !lost then Claim(c.policy, p(c.policy)) else s.claims[line])
    && (forall q :: IsSuppressed(s'.suppressed, q, line) <==>
          IsSuppressed(s.suppressed, q, line) || (proposes && !lost && line in s.claims && s.claims[line].policy == q))
    && OnLine(s'.edits, line) == OnLine(s.edits, line) + (if lost then [] else OnLine(c.edits, line))
    && Visible(s'.edits, s'.suppressed, line)
       == Visible(s.edits, s'.suppressed, line) + (if lost || IsSuppressed(s'.suppressed, c.policy, line) then [] else OnLine(c.edits, line))
  }

  lemma LostExactly(claims: Claims, priority: nat, edits: seq<Edit>, line: nat)
    ensures line in LostLines(claims, priority, edits) <==> ClaimsLine(edits, line) && line in claims && claims[line].priority >= priority
    ensures line in WonLines(claims, priority, edits) <==> ClaimsLine(edits, line) && line in claims && claims[line].priority < priority
  {
    OnLineExists(edits, line);
    if ClaimsLine(edits, line) {
      var i :| 0 <= i < |edits| && Real(edits[i]) && edits[i].line == line;
      assert edits[i] in edits;
    }
  }

  lemma CallChangesLine(p: Priorities, s: Progress, c: Call, s': Progress, line: nat)
    requires OwnEdits(c) && Called(p, s, c, s')
    ensures LineChanged(p, s, c, s', line)
  {
    var lost := LostLines(s.claims, p(c.policy), c.edits);
    var kept := KeptEdits(c.edits, lost);
    LostExactly(s.claims, p(c.policy), c.edits, line);
    KeptVisible(c, lost, s'.suppressed, line);
    KeptOnLine(c.edits, lost, line);
    OnLineExists(kept, line);
    OnLineExists(c.edits, line);
    VisibleConcat(s.edits, kept, s'.suppressed, line);
    OnLineConcat(s.edits, kept, line);
  }

  /** A call keeps every line settled. */
  lemma CallSettles(p: Priorities, calls: seq<Call>, n: nat, s: Progress, s': Progress, line: nat)
    requires n < |calls| && OwnEdits(calls[n]) && LineChanged(p, s, calls[n], s', line) && Settled(p, calls, n, s, line)
    ensures Settled(p, calls, n + 1, s', line)
  {
    OnLineExists(calls[n].edits, line);
    if line !in s.claims {
      NothingVisible(s.edits, s'.suppressed, line);
      if ClaimsLine(calls[n].edits, line) {
        assert Winner(p, calls, n + 1, s', line, n);
      }
    } else {
      var w: nat :| Winner(p, calls, n, s, line, w);
      if ClaimsLine(calls[n].edits, line) && p(calls[n].policy) > p(calls[w].policy) {
        Overtaken(p, calls, n, s, s', line, w);
      } else {
        Defended(p, calls, n, s, s', line, w);
      }
    }
  }

  /** A call that proposes nothing on the line, or too little, changes nothing there. */
  lemma Defended(p: Priorities, calls: seq<Call>, n: nat, s: Progress, s': Progress, line: nat, w: nat)
    requires n < |calls| && OwnEdits(calls[n]) && LineChanged(p, s, calls[n], s', line) && Winner(p, calls, n, s, line, w)
    requires ClaimsLine(calls[n].edits, line) ==> p(calls[n].policy) <= p(calls[w].policy)
    ensures Winner(p, calls, n + 1, s', line, w)
  {
    OnLineExists(calls[n].edits, line);
    VisibleSame(s.edits, s.suppressed, s'.suppressed, line);
  }

  lemma NewWinner(p: Priorities, calls: seq<Call>, n: nat, line: nat, w: nat)
    requires n < |calls| && Wins(p, calls, n, line, w) && ClaimsLine(calls[n].edits, line) && p(calls[n].policy) > p(calls[w].policy)
    ensures Wins(p, calls, n + 1, line, n)
  {
  }

  /** A call of greater priority takes the line over. */
  lemma Overtaken(p: Priorities, calls: seq<Call>, n: nat, s: Progress, s': Progress, line: nat, w: nat)
    requires n < |calls| && OwnEdits(calls[n]) && LineChanged(p, s, calls[n], s', line) && Winner(p, calls, n, s, line, w)
    requires ClaimsLine(calls[n].edits, line) && p(calls[n].policy) > p(calls[w].policy)
    ensures Winner(p, calls, n + 1, s', line, n)
  {
    OnLineExists(calls[w].edits, line);
    forall e | e in Visible(s.edits, s.suppressed, line)
      ensures e.policy == calls[w].policy
    {
      assert e in calls[w].edits;
    }
    VisibleGone(s.edits, s.suppressed, s'.suppressed, line, calls[w].policy);
    NewWinner(p, calls, n, line, w);
  }

  /** After any number of calls every line is settled. */
  lemma {:induction false} RunSettles(p: Priorities, calls: seq<Call>, states: seq<Progress>, n: nat, line: nat)
    requires IsRun(p, calls, states) && n <= |calls|
    ensures Settled(p, calls, n, states[n], line)
  {
    if n > 0 {
      var m := n - 1;
      RunSettles(p, calls, states, m, line);
      assert Called(p, states[m], calls[m], states[m + 1]);
      CallChangesLine(p, states[m], calls[m], states[n], line);
      CallSettles(p, calls, m, states[m], states[n], line);
    }
  }

  /**
   The final report: on a line somebody proposed a real edit for, its real edits are those of
   the earliest call of greatest priority, and on any other line it has none.
   */
  lemma FinalReport(p: Priorities, calls: seq<Call>, states: seq<Progress>, line: nat)
    requires IsRun(p, calls, states)
    ensures var s := states[|calls|];
            var final := OnLine(Unsuppressed(s.edits, s.suppressed), line);
            && (Untouched(calls, |calls|, line) ==> final == [])
            && (!Untouched(calls, |calls|, line) ==> exists w: nat :: Wins(p, calls, |calls|, line, w) && final == OnLine(calls[w].edits, line))
  {
    var s := states[|calls|];
    RunSettles(p, calls, states, |calls|, line);
    if line in s.claims {
      var w: nat :| Winner(p, calls, |calls|, s, line, w);
    } else {
      NothingVisible(s.edits, s.suppressed, line);
    }
  }

  /** Whoever proposes to change the line of an edit is outranked by the call, or came later with no greater priority. */
  ghost predicate Prevails(p: Priorities, calls: seq<Call>, e: Edit, w: nat) {
    && w < |calls| && e in calls[w].edits
    && forall i, f :: 0 <= i < |calls| && f in calls[i].edits && f.line == e.line && f.before != f.after ==>
         p(calls[i].policy) <= p(calls[w].policy) && (i < w ==> p(calls[i].policy) < p(calls[w].policy))
  }

  /** An edit that changes a numbered line is in the final report exactly when it prevails. */
  lemma ReportExactly(p: Priorities, calls: seq<Call>, states: seq<Progress>, e: Edit)
    requires IsRun(p, calls, states) && e.line > 0 && e.before != e.after
    ensures var s := states[|calls|];
            e in Unsuppressed(s.edits, s.suppressed) <==> exists w: nat :: Prevails(p, calls, e, w)
  {
    var s := states[|calls|];
    FinalReport(p, calls, states, e.line);
    OnLineExists(Unsuppressed(s.edits, s.suppressed), e.line);
    forall i | 0 <= i < |calls|
      ensures ClaimsLine(calls[i].edits, e.line) <==> exists f :: f in calls[i].edits && f.line == e.line && f.before != f.after
    {
      ClaimedExactly(calls[i].edits, e.line);
    }
    if e in Unsuppressed(s.edits, s.suppressed) {
      var w: nat :| Wins(p, calls, |calls|, e.line, w) && e in OnLine(calls[w].edits, e.line);
      OnLineExists(calls[w].edits, e.line);
      assert Prevails(p, calls, e, w);
    }
    if w: nat :| Prevails(p, calls, e, w) {
      assert Wins(p, calls, |calls|, e.line, w);
      var v: nat :| Wins(p, calls, |calls|, e.line, v) && OnLine(Unsuppressed(s.edits, s.suppressed), e.line) == OnLine(calls[v].edits, e.line);
      WinnerUnique(p, calls, |calls|, e.line, v, w);
      OnLineExists(calls[w].edits, e.line);
    }
  }

  /** A line is claimed by an edit that changes it, and only by one; line zero never is. */
  lemma ClaimedExactly(edits: seq<Edit>, line: nat)
    ensures ClaimsLine(edits, line) <==> line > 0 && exists e :: e in edits && e.line == line && e.before != e.after
  {
    OnLineExists(edits, line);
    if e :| line > 0 && e in edits && e.line == line && e.before != e.after {
      assert e in OnLine(edits, line);
    }
  }

  /** There is only one winner. */
  lemma WinnerUnique(p: Priorities, calls: seq<Call>, n: nat, line: nat, v: nat, w: nat)
    requires Wins(p, calls, n, line, v) && Wins(p, calls, n, line, w)
    ensures v == w
  {
  }

  /** A line once claimed stays claimed, and its priority never falls. */
  lemma PriorityNeverFalls(p: Priorities, s: Progress, c: Call, s': Progress, line: nat)
    requires Called(p, s, c, s') && line in s.claims
    ensures line in s'.claims && s'.claims[line].priority >= s.claims[line].priority
  {
    var lost := LostLines(s.claims, p(c.policy), c.edits);
    var kept := KeptEdits(c.edits, lost);
    if ClaimsLine(kept, line) {
      KeptOnLine(c.edits, lost, line);
      OnLineExists(kept, line);
      OnLineExists(c.edits, line);
      assert line !in lost;
    }
  }

  /** The controller's own step is a call. */
  method Reconcile(controller: ConvergenceController, c: Call, before: string, text: string, ghost edits: seq<Edit>) returns (r: PolicyResult, ghost edits': seq<Edit>)
    modifies controller
    ensures Called(controller.priorityOf, Progress(old(controller.claimedLines), old(controller.suppressedLines), old(controller.claimedCount), edits), c,
                   Progress(controller.claimedLines, controller.suppressedLines, controller.claimedCount, edits'))
    ensures edits' == edits + r.edits
  {
    ghost var claims := controller.claimedLines;
    r := controller.ReconcilePolicyResult(c.policy, before, PolicyResult(text, true, [], c.edits, []));
    edits' := edits + r.edits;
    NothingLost(c.edits);
  }

  lemma {:induction false} NothingLost(edits: seq<Edit>)
    ensures KeptEdits(edits, {}) == edits
  {
    if |edits| > 0 {
      NothingLost(edits[1..]);
    }
  }
}
