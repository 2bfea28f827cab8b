/** Thinning collected spans to disjoint ones and replacing them in place from right to left. */
module RenameSubstitution {
  import opened ByteFields
  import opened Sorting
  import opened RenamePropagation

  // ----------------------------------------------------------------------------- thinning

  predicate StartsBefore(a: Span, b: Span) { a.start < b.start }

  lemma StartOrder()
    ensures WeakOrder(StartsBefore)
  {
  }

  /** In order, each ending before the next begins. */
  ghost predicate Disjoint(text: Bytes, spans: seq<Span>) {
    && (forall i :: 0 <= i < |spans| ==> GoodSpan(text, spans[i]))
    && (forall i :: 0 < i < |spans| ==> spans[i - 1].end <= spans[i].start)
  }

  /** Every span left out overlaps one that was kept and does not start later. */
  ghost predicate CoversAll(all: seq<Span>, kept: seq<Span>) {
    forall s :: s in all ==> s in kept || Shadowed(kept, s)
  }

  ghost predicate Shadowed(kept: seq<Span>, s: Span) {
    exists i :: 0 <= i < |kept| && kept[i].start <= s.start < kept[i].end
  }

  /** The first i sorted spans are thinned to those kept. */
  ghost predicate Thinned(text: Bytes, sorted: seq<Span>, i: nat, kept: seq<Span>) {
    && i <= |sorted| && Disjoint(text, kept) && CoversAll(sorted[..i], kept)
    && (forall s :: s in kept ==> s in sorted[..i])
    && (kept == [] <==> i == 0)
  }

  lemma ThinnedNext(text: Bytes, sorted: seq<Span>, i: nat, kept: seq<Span>)
    requires Thinned(text, sorted, i, kept) && i < |sorted| && Ordered(sorted, StartsBefore) && GoodSpan(text, sorted[i])
    ensures Thinned(text, sorted, i + 1, if kept == [] || kept[|kept| - 1].end <= sorted[i].start then kept + [sorted[i]] else kept)
  {
    var s := sorted[i];
    assert forall x :: x in sorted[..i + 1] <==> x in sorted[..i] || x == s;
    if kept == [] || kept[|kept| - 1].end <= s.start {
      StillCovers(sorted[..i], kept, s);
    } else {
      EarlierStart(sorted, i, kept[|kept| - 1]);
      assert Shadowed(kept, s);
    }
  }

  /** Keeps a span unless it starts inside the last one kept. */
  method Thin(text: Bytes, spans: seq<Span>) returns (kept: seq<Span>)
    requires forall s :: s in spans ==> GoodSpan(text, s)
    ensures Disjoint(text, kept) && CoversAll(spans, kept)
    ensures forall s :: s in kept ==> s in spans
    ensures spans != [] ==> kept != []
  {
    var sorted := SortBy(spans, StartsBefore);
    StartOrder();
    SortOrdered(spans, StartsBefore);
    SortContents(spans, StartsBefore);
    kept := [];
    var lastEnd := 0;
    for i := 0 to |sorted|
      invariant Thinned(text, sorted, i, kept)
      invariant kept != [] ==> lastEnd == kept[|kept| - 1].end
    {
      assert sorted[i] in sorted;
      ThinnedNext(text, sorted, i, kept);
      if kept == [] || lastEnd <= sorted[i].start {
        lastEnd := sorted[i].end;
        kept := kept + [sorted[i]];
      }
    }
    assert sorted[..|sorted|] == sorted;
  }

  lemma StillCovers(all: seq<Span>, kept: seq<Span>, s: Span)
    requires CoversAll(all, kept)
    ensures CoversAll(all, kept + [s])
  {
    forall x | x in all
      ensures x in kept + [s] || Shadowed(kept + [s], x)
    {
      if x !in kept {
        var i :| 0 <= i < |kept| && kept[i].start <= x.start < kept[i].end;
        assert (kept + [s])[i] == kept[i];
      }
    }
  }

  lemma EarlierStart(sorted: seq<Span>, i: nat, x: Span)
    requires Ordered(sorted, StartsBefore) && i < |sorted| && x in sorted[..i]
    ensures x.start <= sorted[i].start
  {
    var k :| 0 <= k < i && sorted[..i][k] == x;
    assert !StartsBefore(sorted[i], sorted[k]);
  }

  // ------------------------------------------------------------------------- substitution

  /** The text from a position on with all spans substituted at once. */
  function Substituted(text: Bytes, spans: seq<Span>, from: nat): Bytes
    requires from <= |text| && InOrder(text, spans, from)
  {
    if |spans| == 0 then text[from..]
    else text[from..spans[0].start] + spans[0].after + Substituted(text, spans[1..], spans[0].end)
  }

  /** The spans lie in order behind a position. */
  predicate InOrder(text: Bytes, spans: seq<Span>, from: nat) {
    if |spans| == 0 then from <= |text|
    else from <= spans[0].start <= spans[0].end <= |text| && InOrder(text, spans[1..], spans[0].end)
  }

  lemma {:induction false} DisjointInOrder(text: Bytes, spans: seq<Span>, k: nat)
    requires Disjoint(text, spans) && k <= |spans|
    ensures InOrder(text, spans[k..], if k == 0 then 0 else spans[k - 1].end)
    ensures k < |spans| ==> InOrder(text, spans[k..], spans[k].start)
    decreases |spans| - k
  {
    if k < |spans| {
      DisjointInOrder(text, spans, k + 1);
      assert spans[k..][1..] == spans[k + 1..];
      assert GoodSpan(text, spans[k]);
      assert k > 0 ==> spans[k - 1].end <= spans[k].start;
    } else if k > 0 {
      assert GoodSpan(text, spans[k - 1]);
    }
  }

  /** Everything before the first span is as it was. */
  lemma PrefixKept(text: Bytes, spans: seq<Span>, from: nat, upTo: nat)
    requires InOrder(text, spans, from) && from <= upTo <= |text| && InOrder(text, spans, upTo)
    ensures Substituted(text, spans, from) == text[from..upTo] + Substituted(text, spans, upTo)
  {
    if |spans| == 0 {
      assert text[from..] == text[from..upTo] + text[upTo..];
    } else {
      var gap, left, right := text[from..spans[0].start], text[from..upTo], text[upTo..spans[0].start];
      assert gap == left + right;
      Associate(left, right, spans[0].after, Substituted(text, spans[1..], spans[0].end));
    }
  }

  lemma Associate(a: Bytes, b: Bytes, c: Bytes, d: Bytes)
    ensures (a + b) + c + d == a + (b + c + d)
  {
  }

  lemma {:induction false} InOrderEarlier(text: Bytes, spans: seq<Span>, from: nat, earlier: nat)
    requires InOrder(text, spans, from) && earlier <= from
    ensures InOrder(text, spans, earlier)
  {
  }

  /** Replaces the bytes of a range. */
  function ReplaceRange(text: Bytes, start: nat, end: nat, name: Bytes): Bytes
    requires start <= end <= |text|
  {
    text[..start] + name + text[end..]
  }

  /** Valid text never begins inside a character. */
  predicate BeginsCleanly(name: Bytes) { |name| > 0 ==> StartsChar(name[0]) }

  predicate CleanNames(spans: seq<Span>) {
    forall i :: 0 <= i < |spans| ==> BeginsCleanly(spans[i].after)
  }

  /** The substituted rest begins at a boundary if the original rest does. */
  lemma {:induction false} RestBeginsCleanly(text: Bytes, spans: seq<Span>, k: nat, from: nat)
    requires Disjoint(text, spans) && CleanNames(spans) && k <= |spans|
    requires InOrder(text, spans[k..], from) && CharBoundary(text, from)
    ensures BeginsCleanly(Substituted(text, spans[k..], from))
    decreases |spans| - k
  {
    if k < |spans| {
      var s := spans[k];
      assert GoodSpan(text, s);
      assert spans[k..][1..] == spans[k + 1..];
      if from == s.start && |s.after| == 0 {
        RestBeginsCleanly(text, spans, k + 1, s.end);
        assert Substituted(text, spans[k..], from) == Substituted(text, spans[k + 1..], s.end);
      }
    }
  }

  /** One replacement, with everything to its right already replaced, is one more substitution. */
  lemma ReplaceOne(text: Bytes, spans: seq<Span>, k: nat)
    requires Disjoint(text, spans) && k < |spans|
    ensures InOrder(text, spans[k..], 0) && InOrder(text, spans[k + 1..], 0)
    ensures var now := Substituted(text, spans[k + 1..], 0);
            && spans[k].start <= spans[k].end <= |text| && spans[k].end <= |now| && now[..spans[k].end] == text[..spans[k].end]
            && ReplaceRange(now, spans[k].start, spans[k].end, spans[k].after) == Substituted(text, spans[k..], 0)
  {
    var s := spans[k];
    assert GoodSpan(text, s);
    DisjointInOrder(text, spans, k);
    DisjointInOrder(text, spans, k + 1);
    InOrderEarlier(text, spans[k..], s.start, 0);
    InOrderEarlier(text, spans[k + 1..], s.end, 0);
    PrefixKept(text, spans[k + 1..], 0, s.end);
    assert spans[k..][1..] == spans[k + 1..];
    var rest := Substituted(text, spans[k + 1..], s.end);
    var now := Substituted(text, spans[k + 1..], 0);
    assert now == text[..s.end] + rest;
    assert now[s.end..] == rest && now[..s.start] == text[..s.start];
  }

  /** Both ends of a span are boundaries of the text at the time it is replaced, so the replacement is safe. */
  lemma ReplacementSafe(text: Bytes, spans: seq<Span>, k: nat)
    requires Disjoint(text, spans) && CleanNames(spans) && k < |spans|
    requires InOrder(text, spans[k + 1..], 0)
    ensures var now := Substituted(text, spans[k + 1..], 0);
            CharBoundary(now, spans[k].start) && CharBoundary(now, spans[k].end)
  {
    var s := spans[k];
    assert GoodSpan(text, s);
    DisjointInOrder(text, spans, k + 1);
    PrefixKept(text, spans[k + 1..], 0, s.end);
    RestBeginsCleanly(text, spans, k + 1, s.end);
    var rest := Substituted(text, spans[k + 1..], s.end);
    var now := Substituted(text, spans[k + 1..], 0);
    assert now == text[..s.end] + rest;
    assert |rest| > 0 ==> now[s.end] == rest[0];
    assert s.start < s.end ==> now[s.start] == text[s.start];
  }

  // ----------------------------------------------------------------------------- in place

  /** An edit as the rename reports it, over bytes and without a policy. */
  datatype ByteEdit = ByteEdit(line: nat, before: Bytes, after: Bytes)

  /** The edits of spans, last span first. */
  function EditsOf(spans: seq<Span>): seq<ByteEdit> {
    if |spans| == 0 then [] else EditsOf(spans[1..]) + [ByteEdit(spans[0].line, spans[0].before, spans[0].after)]
  }

  class Buffer {
    var text: Bytes

    constructor (text: Bytes)
      ensures this.text == text
    {
      this.text := text;
    }

    /** Overwrites a range whose ends lie between characters. */
    method Replace(start: nat, end: nat, name: Bytes)
      requires start <= end <= |text| && CharBoundary(text, start) && CharBoundary(text, end)
      modifies this
      ensures text == ReplaceRange(old(text), start, end, name)
    {
      text := ReplaceRange(text, start, end, name);
    }

    /** Replaces the spans from right to left, in place. */
    method ReplaceAll(spans: seq<Span>) returns (edits: seq<ByteEdit>)
      requires Disjoint(text, spans) && CleanNames(spans)
      modifies this
      ensures InOrder(old(text), spans, 0) && text == Substituted(old(text), spans, 0)
      ensures edits == EditsOf(spans)
    {
      ghost var original := text;
      var k := |spans|;
      edits := [];
      DisjointInOrder(text, spans, |spans|);
      assert spans[|spans|..] == [];
      while k > 0
        invariant 0 <= k <= |spans|
        invariant InOrder(original, spans[k..], 0) && text == Substituted(original, spans[k..], 0)
        invariant edits == EditsOf(spans[k..])
      {
        k := k - 1;
        ReplaceOne(original, spans, k);
        ReplacementSafe(original, spans, k);
        Replace(spans[k].start, spans[k].end, spans[k].after);
        assert spans[k..][1..] == spans[k + 1..];
        edits := edits + [ByteEdit(spans[k].line, spans[k].before, spans[k].after)];
      }
      assert spans[0..] == spans;
    }
  }

  datatype Outcome = Unchanged | Renamed(text: Bytes, edits: seq<ByteEdit>)

  /** Applies renames to a text: nothing to do, or one simultaneous substitution of disjoint identifiers. */
  method ApplyRenames(text: Bytes, renames: seq<Rename>) returns (o: Outcome, ghost all: seq<Span>, ghost spans: seq<Span>)
    requires forall i :: 0 <= i < |renames| ==> BeginsCleanly(renames[i].newName)
    ensures Collected(text, renames, all) && Disjoint(text, spans) && CoversAll(all, spans) && forall s :: s in spans ==> s in all
    ensures o.Unchanged? <==> all == []
    ensures o.Renamed? ==> InOrder(text, spans, 0) && o.text == Substituted(text, spans, 0) && o.edits == EditsOf(spans)
  {
    var collected := Collect(text, renames);
    all := collected;
    if collected == [] {
      spans := [];
      return Unchanged, all, spans;
    }
    var kept := Thin(text, collected);
    spans := kept;
    forall i | 0 <= i < |kept|
      ensures BeginsCleanly(kept[i].after)
    {
      assert kept[i] in collected;
      var k :| 0 <= k < |renames| && FromRename(text, renames[k], kept[i]);
    }
    var buffer := new Buffer(text);
    var edits := buffer.ReplaceAll(kept);
    o := Renamed(buffer.text, edits);
  }

  // ----------------------------------------------------------------------------- going back

  /** The spans that undo a substitution, in terms of the new text; from and at are matching positions. */
  function Undo(text: Bytes, spans: seq<Span>, from: nat, at: nat): seq<Span>
    requires InOrder(text, spans, from)
  {
    if |spans| == 0 then [] else
      var s := spans[0];
      var start := at + (s.start - from);
      [Span(start, start + |s.after|, s.line, s.after, s.before)] + Undo(text, spans[1..], s.end, start + |s.after|)
  }

  /** Every span holds what it says it replaces. */
  predicate HoldsBefore(text: Bytes, spans: seq<Span>) {
    forall i :: 0 <= i < |spans| ==> spans[i].start <= spans[i].end <= |text| && text[spans[i].start..spans[i].end] == spans[i].before
  }

  lemma GapKept(prefix: Bytes, gap: Bytes, name: Bytes, rest: Bytes)
    ensures (prefix + gap + name + rest)[|prefix|..|prefix| + |gap|] == gap
  {
  }

  lemma TextParts(text: Bytes, from: nat, start: nat, end: nat)
    requires from <= start <= end <= |text|
    ensures text[from..] == text[from..start] + text[start..end] + text[end..]
  {
  }

  /** Substituting back restores the original, behind any prefix. */
  lemma {:induction false} UndoRestores(text: Bytes, spans: seq<Span>, from: nat, prefix: Bytes)
    requires InOrder(text, spans, from) && HoldsBefore(text, spans) && from <= |text|
    ensures var now := prefix + Substituted(text, spans, from);
            var back := Undo(text, spans, from, |prefix|);
            InOrder(now, back, |prefix|) && Substituted(now, back, |prefix|) == text[from..]
  {
    var now := prefix + Substituted(text, spans, from);
    if |spans| == 0 {
      assert now[|prefix|..] == text[from..];
    } else {
      var s := spans[0];
      var gap := text[from..s.start];
      var longer := prefix + gap + s.after;
      assert HoldsBefore(text, spans[1..]) by {
        assert forall i :: 0 <= i < |spans[1..]| ==> spans[1..][i] == spans[i + 1];
      }
      UndoRestores(text, spans[1..], s.end, longer);
      var rest := Substituted(text, spans[1..], s.end);
      Associate(prefix, gap, s.after, rest);
      assert now == longer + rest;
      var back := Undo(text, spans, from, |prefix|);
      assert back[1..] == Undo(text, spans[1..], s.end, |longer|);
      GapKept(prefix, gap, s.after, rest);
      assert now[|prefix|..back[0].start] == gap;
      TextParts(text, from, s.start, s.end);
    }
  }

  /** Renaming loses nothing: what was replaced can be put back. */
  lemma RenameReversible(text: Bytes, spans: seq<Span>)
    requires Disjoint(text, spans)
    ensures InOrder(text, spans, 0)
    ensures var now := Substituted(text, spans, 0);
            var back := Undo(text, spans, 0, 0);
            InOrder(now, back, 0) && Substituted(now, back, 0) == text
  {
    DisjointInOrder(text, spans, 0);
    assert spans[0..] == spans;
    assert HoldsBefore(text, spans) by {
      forall i | 0 <= i < |spans|
        ensures spans[i].start <= spans[i].end <= |text| && text[spans[i].start..spans[i].end] == spans[i].before
      {
        assert GoodSpan(text, spans[i]);
      }
    }
    UndoRestores(text, spans, 0, []);
    assert [] + Substituted(text, spans, 0) == Substituted(text, spans, 0);
    assert text[0..] == text;
  }
}
