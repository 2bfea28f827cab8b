/**
 Which policy's edit survives on a line. A line is claimed with the priority of the caller,
 the greater priority wins and the earlier caller wins ties; the loser's edits are dropped
 at once or left out of the final report.
 */
module Convergence {
  import opened LineSuppression
  import opened Tallies

  /** The priority of every policy: its profile, or the default of the catalog. */
  type Priorities = string -> nat

  datatype Claim = Claim(policy: string, priority: nat)

  type Claims = map<nat, Claim>
  type LinesBy = map<string, set<nat>>

  /** An edit that changes a line of the text. */
  predicate Real(e: Edit) { e.line != 0 && e.before != e.after }

  function SuppressedOf(s: LinesBy, policy: string): set<nat> { if policy in s then s[policy] else {} }

  predicate IsSuppressed(s: LinesBy, policy: string, line: nat) { line in SuppressedOf(s, policy) }

  /** Lines on which an earlier claim holds against the priority. */
  function LostLines(claims: Claims, priority: nat, edits: seq<Edit>): set<nat> {
    set e | e in edits && Real(e) && e.line in claims && claims[e.line].priority >= priority :: e.line
  }

  /** Lines on which an earlier claim is outranked. */
  function WonLines(claims: Claims, priority: nat, edits: seq<Edit>): set<nat> {
    set e | e in edits && Real(e) && e.line in claims && claims[e.line].priority < priority :: e.line
  }

  /** Every outranked line is suppressed for the policy that had claimed it. */
  ghost predicate Outranked(s: LinesBy, claims: Claims, won: set<nat>, s': LinesBy) {
    forall policy, line :: IsSuppressed(s', policy, line) <==>
      IsSuppressed(s, policy, line) || (line in won && line in claims && claims[line].policy == policy)
  }

  /** Every line with a real edit is claimed anew. */
  ghost predicate Claimed(claims: Claims, claim: Claim, edits: seq<Edit>, claims': Claims) {
    && (forall line :: line in claims' <==> line in claims || ClaimsLine(edits, line))
    && (forall line :: line in claims' ==> claims'[line] == if ClaimsLine(edits, line) then claim else claims[line])
  }

  predicate ClaimsLine(edits: seq<Edit>, line: nat) {
    exists i :: 0 <= i < |edits| && Real(edits[i]) && edits[i].line == line
  }

  function RealCount(edits: seq<Edit>): nat {
    if |edits| == 0 then 0 else (if Real(edits[0]) then 1 else 0) + RealCount(edits[1..])
  }

  // ------------------------------------------------------------------------ controller

  class ConvergenceController {
    const priorityOf: Priorities
    var claimedLines: Claims
    var suppressedLines: LinesBy
    var claimedCount: map<string, nat>
    var droppedCount: map<string, nat>

    constructor (priorityOf: Priorities)
      ensures this.priorityOf == priorityOf && claimedLines == map[] && suppressedLines == map[]
      ensures claimedCount == map[] && droppedCount == map[]
    {
      this.priorityOf := priorityOf;
      claimedLines, suppressedLines, claimedCount, droppedCount := map[], map[], map[], map[];
    }

    /** Settles the result of one policy against all earlier claims. */
    method ReconcilePolicyResult(policy: string, before: string, result: PolicyResult) returns (r: PolicyResult)
      modifies this
      ensures var lost := LostLines(old(claimedLines), priorityOf(policy), result.edits);
              var kept := Suppressed(before, result, lost);
              && r == (if lost == {} then result else kept.(warnings := result.warnings + [DroppedLines(|lost|, policy)]))
              && Claimed(old(claimedLines), Claim(policy, priorityOf(policy)), r.edits, claimedLines)
              && CountOf(droppedCount, policy) == CountOf(old(droppedCount), policy) + |lost|
              && CountOf(claimedCount, policy) == CountOf(old(claimedCount), policy) + RealCount(r.edits)
      ensures Outranked(old(suppressedLines), old(claimedLines), WonLines(old(claimedLines), priorityOf(policy), result.edits), suppressedLines)
      ensures forall p :: p != policy ==> CountOf(droppedCount, p) == CountOf(old(droppedCount), p) && CountOf(claimedCount, p) == CountOf(old(claimedCount), p)
    {
      r := result;
      if result.edits == [] {
        return;
      }
      var lost := Confront(priorityOf(policy), result.edits);
      if lost != {} {
        droppedCount := droppedCount[policy := CountOf(droppedCount, policy) + |lost|];
        r := ApplyLineSuppression(before, result, lost);
        r := r.(warnings := r.warnings + [DroppedLines(|lost|, policy)]);
      }
      ClaimLines(Claim(policy, priorityOf(policy)), r.edits);
    }

    /** Which lines are lost; won lines are taken from their claimants. */
    method Confront(priority: nat, edits: seq<Edit>) returns (lost: set<nat>)
      modifies `suppressedLines
      ensures lost == LostLines(claimedLines, priority, edits)
      ensures Outranked(old(suppressedLines), claimedLines, WonLines(claimedLines, priority, edits), suppressedLines)
    {
      lost := {};
      for i := 0 to |edits|
        invariant lost == LostLines(claimedLines, priority, edits[..i])
        invariant Outranked(old(suppressedLines), claimedLines, WonLines(claimedLines, priority, edits[..i]), suppressedLines)
      {
        var e := edits[i];
        FirstEdits(claimedLines, priority, edits, i);
        if Real(e) && e.line in claimedLines {
          var claim := claimedLines[e.line];
          if claim.priority >= priority {
            lost := lost + {e.line};
          } else {
            suppressedLines := suppressedLines[claim.policy := SuppressedOf(suppressedLines, claim.policy) + {e.line}];
          }
        }
      }
      assert edits[..|edits|] == edits;
    }

    /** Claims the line of every real edit. */
    method ClaimLines(claim: Claim, edits: seq<Edit>)
      modifies `claimedLines, `claimedCount
      ensures Claimed(old(claimedLines), claim, edits, claimedLines)
      ensures CountOf(claimedCount, claim.policy) == CountOf(old(claimedCount), claim.policy) + RealCount(edits)
      ensures forall p :: p != claim.policy ==> CountOf(claimedCount, p) == CountOf(old(claimedCount), p)
    {
      var count := 0;
      for i := 0 to |edits|
        invariant Claimed(old(claimedLines), claim, edits[..i], claimedLines)
        invariant count == RealCount(edits[..i]) && claimedCount == old(claimedCount)
      {
        var e := edits[i];
        ClaimsNext(edits, i);
        if Real(e) {
          claimedLines := claimedLines[e.line := claim];
          count := count + 1;
        }
      }
      assert edits[..|edits|] == edits;
      if count > 0 {
        claimedCount := claimedCount[claim.policy := CountOf(claimedCount, claim.policy) + count];
      }
    }

    /** Leaves out what was suppressed later. */
    method Finalize(edits: seq<Edit>, violations: seq<Violation>) returns (finalEdits: seq<Edit>, finalViolations: seq<Violation>)
      ensures finalEdits == Unsuppressed(edits, suppressedLines)
      ensures finalViolations == UnsuppressedViolations(violations, suppressedLines)
    {
      finalEdits, finalViolations := [], [];
      for i := 0 to |edits|
        invariant finalEdits == Unsuppressed(edits[..i], suppressedLines)
      {
        assert edits[..i + 1] == edits[..i] + [edits[i]];
        UnsuppressedConcat(edits[..i], [edits[i]], suppressedLines);
        if !IsSuppressed(suppressedLines, edits[i].policy, edits[i].line) {
          finalEdits := finalEdits + [edits[i]];
        }
      }
      for i := 0 to |violations|
        invariant finalViolations == UnsuppressedViolations(violations[..i], suppressedLines)
      {
        assert violations[..i + 1][..i] == violations[..i];
        if !IsSuppressed(suppressedLines, violations[i].policy, violations[i].line) {
          finalViolations := finalViolations + [violations[i]];
        }
      }
      assert edits[..|edits|] == edits && violations[..|violations|] == violations;
    }
  }

  lemma FirstEdits(claims: Claims, priority: nat, edits: seq<Edit>, i: nat)
    requires i < |edits|
    ensures var e := edits[i];
            && LostLines(claims, priority, edits[..i + 1]) == LostLines(claims, priority, edits[..i])
                 + (if Real(e) && e.line in claims && claims[e.line].priority >= priority then {e.line} else {})
            && WonLines(claims, priority, edits[..i + 1]) == WonLines(claims, priority, edits[..i])
                 + (if Real(e) && e.line in claims && claims[e.line].priority < priority then {e.line} else {})
  {
    assert forall x :: x in edits[..i + 1] <==> x in edits[..i] || x == edits[i];
  }

  lemma ClaimsNext(edits: seq<Edit>, i: nat)
    requires i < |edits|
    ensures forall line :: ClaimsLine(edits[..i + 1], line) <==> ClaimsLine(edits[..i], line) || (Real(edits[i]) && edits[i].line == line)
    ensures RealCount(edits[..i + 1]) == RealCount(edits[..i]) + (if Real(edits[i]) then 1 else 0)
  {
    var longer, shorter := edits[..i + 1], edits[..i];
    assert longer == shorter + [edits[i]];
    RealCountAppend(shorter, edits[i]);
    forall line
      ensures ClaimsLine(longer, line) <==> ClaimsLine(shorter, line) || (Real(edits[i]) && edits[i].line == line)
    {
      if ClaimsLine(shorter, line) {
        var k :| 0 <= k < |shorter| && Real(shorter[k]) && shorter[k].line == line;
        assert longer[k] == shorter[k];
      }
      assert longer[i] == edits[i];
    }
  }

  lemma {:induction false} RealCountAppend(edits: seq<Edit>, e: Edit)
    ensures RealCount(edits + [e]) == RealCount(edits) + (if Real(e) then 1 else 0)
  {
    if |edits| > 0 {
      assert (edits + [e])[1..] == edits[1..] + [e];
      RealCountAppend(edits[1..], e);
    } else {
      assert edits + [e] == [e];
    }
  }

  function Unsuppressed(edits: seq<Edit>, s: LinesBy): seq<Edit> {
    if |edits| == 0 then [] else
      (if IsSuppressed(s, edits[0].policy, edits[0].line) then [] else [edits[0]]) + Unsuppressed(edits[1..], s)
  }

  lemma {:induction false} UnsuppressedConcat(a: seq<Edit>, b: seq<Edit>, s: LinesBy)
    ensures Unsuppressed(a + b, s) == Unsuppressed(a, s) + Unsuppressed(b, s)
  {
    if |a| == 0 {
      assert a + b == b;
    } else {
      assert (a + b)[1..] == a[1..] + b;
      UnsuppressedConcat(a[1..], b, s);
    }
  }

  function UnsuppressedViolations(violations: seq<Violation>, s: LinesBy): seq<Violation> {
    if |violations| == 0 then [] else
      var last := violations[|violations| - 1];
      UnsuppressedViolations(violations[..|violations| - 1], s) + (if IsSuppressed(s, last.policy, last.line) then [] else [last])
  }
}
