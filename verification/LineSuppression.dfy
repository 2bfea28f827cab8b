/**
 Taking back the edits of some lines: their old text is put back line by line. The result
 has the intended lines exactly unless the old text's last line, not ended, lands in the middle.
 */
module LineSuppression {
  import opened Bounds
  import opened TextLines

  datatype Edit = Edit(policy: string, line: nat, before: string, after: string)

  datatype Violation = Violation(policy: string, line: nat)

  datatype Warning = Note(text: string) | DroppedLines(count: nat, policy: string)

  datatype PolicyResult = PolicyResult(text: string, changed: bool, violations: seq<Violation>, edits: seq<Edit>, warnings: seq<Warning>)

  function KeptEdits(edits: seq<Edit>, lines: set<nat>): seq<Edit> {
    if |edits| == 0 then [] else (if edits[0].line in lines then [] else [edits[0]]) + KeptEdits(edits[1..], lines)
  }

  function KeptViolations(violations: seq<Violation>, lines: set<nat>): seq<Violation> {
    if |violations| == 0 then [] else
      (if violations[0].line in lines then [] else [violations[0]]) + KeptViolations(violations[1..], lines)
  }

  /** Everything on the lines goes, and everything else stays as often as it was there. */
  lemma {:induction false} KeptExactly(edits: seq<Edit>, violations: seq<Violation>, lines: set<nat>, e: Edit, v: Violation)
    ensures multiset(KeptEdits(edits, lines))[e] == if e.line in lines then 0 else multiset(edits)[e]
    ensures multiset(KeptViolations(violations, lines))[v] == if v.line in lines then 0 else multiset(violations)[v]
    decreases |edits| + |violations|
  {
    if |edits| > 0 {
      assert edits == [edits[0]] + edits[1..];
      KeptExactly(edits[1..], [], lines, e, v);
    }
    if |violations| > 0 {
      assert violations == [violations[0]] + violations[1..];
      KeptExactly([], violations[1..], lines, e, v);
    }
  }

  /** The position a line number stands for; zero counts as one. */
  function IndexOf(line: nat): nat { if line == 0 then 0 else line - 1 }

  /** The position is that of one of the lines. */
  predicate Covered(lines: set<nat>, i: nat) { i + 1 in lines || (i == 0 && 0 in lines) }

  /** The new lines, with the disabled ones as they were as far as both texts have them. */
  function Spliced(before: seq<string>, after: seq<string>, lines: set<nat>): seq<string> {
    seq(|after|, i requires 0 <= i < |after| => if i < |before| && Covered(lines, i) then before[i] else after[i])
  }

  /** The result of taking back the edits on some lines. */
  function Suppressed(before: string, r: PolicyResult, lines: set<nat>): PolicyResult {
    var edits, violations := KeptEdits(r.edits, lines), KeptViolations(r.violations, lines);
    if lines == {} then r
    else if edits == [] then PolicyResult(before, false, violations, edits, r.warnings)
    else PolicyResult(Join(Spliced(LinesOf(before), LinesOf(r.text), lines)), true, violations, edits, r.warnings)
  }

  /** The old lines' last one is not ended but goes in front of another line. */
  predicate Misplaces(b: seq<string>, a: seq<string>, lines: set<nat>) {
    0 < |b| < |a| && Covered(lines, |b| - 1) && !Ended(b[|b| - 1])
  }

  predicate Misplaced(before: string, after: string, lines: set<nat>) {
    Misplaces(LinesOf(before), LinesOf(after), lines)
  }

  lemma SplicedCanonical(b: seq<string>, a: seq<string>, lines: set<nat>)
    requires Canonical(b) && Canonical(a)
    ensures Canonical(Spliced(b, a, lines)) <==> !Misplaces(b, a, lines)
  {
    var spliced := Spliced(b, a, lines);
    if Misplaces(b, a, lines) {
      var last := |b| - 1;
      assert spliced[last] == b[last];
      assert !Ended(spliced[last]);
    } else {
      forall i | 0 <= i < |spliced| - 1
        ensures Ended(spliced[i])
      {
        assert Ended(a[i]);
        assert i < |b| - 1 ==> Ended(b[i]);
      }
    }
  }

  /**
   Line by line the merged text is the old text on the disabled lines and the new text on all
   others, exactly when no unended last line is misplaced.
   */
  lemma SplicedExactly(before: string, after: string, lines: set<nat>)
    ensures var spliced := Spliced(LinesOf(before), LinesOf(after), lines);
            LinesOf(Join(spliced)) == spliced <==> !Misplaced(before, after, lines)
  {
    LinesCanonical(before);
    LinesCanonical(after);
    SplicedCanonical(LinesOf(before), LinesOf(after), lines);
    RoundTripExactly(Spliced(LinesOf(before), LinesOf(after), lines));
  }

  /** With as many lines before as after the result is exact. */
  lemma SameLineCountExact(before: string, after: string, lines: set<nat>)
    requires |LinesOf(before)| >= |LinesOf(after)|
    ensures var spliced := Spliced(LinesOf(before), LinesOf(after), lines);
            LinesOf(Join(spliced)) == spliced
            && forall i :: 0 <= i < |spliced| ==> spliced[i] == if Covered(lines, i) then LinesOf(before)[i] else LinesOf(after)[i]
  {
    SplicedExactly(before, after, lines);
  }

  lemma MergingLines()
    ensures LinesOf("a") == ["a"] && LinesOf("b\nc") == ["b\n", "c"]
  {
    assert Join(["a"]) == "a" by {
      assert ["a"][1..] == [];
    }
    SplitJoined(["a"]);
    assert Join(["b\n", "c"]) == "b\nc" by {
      assert ["b\n", "c"][1..] == ["c"] && ["c"][1..] == [];
    }
    SplitJoined(["b\n", "c"]);
  }

  /** "a" turned into "b", line feed, "c": one edit on line 1 and one on line 2. */
  function Growing(): PolicyResult {
    PolicyResult("b\nc", true, [], [Edit("p", 1, "a", "b"), Edit("p", 2, "", "c")], [])
  }

  /** Taking back line 1 keeps the edit on line 2, but leaves the one line "ac". */
  lemma LinesCanMerge()
    ensures Misplaced("a", Growing().text, {1})
    ensures Suppressed("a", Growing(), {1}) == PolicyResult("ac", true, [], [Edit("p", 2, "", "c")], [])
    ensures LinesOf("ac") == ["ac"]
  {
    MergingLines();
    var r := Growing();
    assert r.edits[1..] == [Edit("p", 2, "", "c")] && r.edits[1..][1..] == [];
    assert KeptEdits(r.edits[1..], {1}) == [Edit("p", 2, "", "c")];
    assert KeptEdits(r.edits, {1}) == [Edit("p", 2, "", "c")];
    var spliced := Spliced(["a"], ["b\n", "c"], {1});
    assert spliced == ["a", "c"];
    assert spliced[1..] == ["c"] && ["c"][1..] == [];
    assert Join(["ac"]) == "ac" by {
      assert ["ac"][1..] == [];
    }
    SplitJoined(["ac"]);
  }

  /** Puts back the old text of the disabled lines, one after the other. */
  method ApplyLineSuppression(before: string, r: PolicyResult, lines: set<nat>) returns (s: PolicyResult)
    ensures s == Suppressed(before, r, lines)
  {
    if lines == {} {
      return r;
    }
    var edits, violations := KeptEdits(r.edits, lines), KeptViolations(r.violations, lines);
    if edits == [] {
      return PolicyResult(before, false, violations, edits, r.warnings);
    }
    var b, a := LinesOf(before), LinesOf(r.text);
    var maxCount := MinNat(|b|, |a|);
    var merged := a;
    var rest := lines;
    while rest != {}
      invariant rest <= lines && merged == Spliced(b, a, lines - rest)
      decreases |rest|
    {
      var line :| line in rest;
      var index := IndexOf(line);
      if index < maxCount {
        merged := merged[index := b[index]];
      }
      SplicedNext(b, a, lines - rest, line);
      assert (lines - rest) + {line} == lines - (rest - {line});
      rest := rest - {line};
    }
    assert lines - rest == lines;
    s := PolicyResult(Join(merged), true, violations, edits, r.warnings);
  }

  lemma SplicedNext(b: seq<string>, a: seq<string>, lines: set<nat>, line: nat)
    ensures var s := Spliced(b, a, lines);
            var index := IndexOf(line);
            Spliced(b, a, lines + {line}) == if index < MinNat(|b|, |a|) then s[index := b[index]] else s
  {
  }
}
