/**
 Finding what a rename replaces: the line of an offset, whole identifiers, and the spans of
 all references that hold the old name.
 */
module RenamePropagation {
  import opened ByteFields
  import opened SeqFacts

  /** The byte does not continue a character. */
  predicate StartsChar(b: byte) { b < 128 || b >= 192 }

  /** A position between two characters. */
  predicate CharBoundary(text: Bytes, i: nat) { i == |text| || (i < |text| && StartsChar(text[i])) }

  predicate IsIdent(b: byte) {
    48 <= b <= 57 || 65 <= b <= 90 || 97 <= b <= 122 || b == 95
  }

  const LINE_FEED: byte := 10

  /** One declaration's rename and where it is referred to. */
  datatype Rename = Rename(offsets: seq<nat>, oldName: Bytes, newName: Bytes)

  /** Text to replace; the line is the one of the start. */
  datatype Span = Span(start: nat, end: nat, line: nat, before: Bytes, after: Bytes)

  predicate IdentifierBoundaries(text: Bytes, start: nat, end: nat)
    requires start <= end <= |text|
  {
    (start > 0 ==> !IsIdent(text[start - 1])) && (end < |text| ==> !IsIdent(text[end]))
  }

  // ------------------------------------------------------------------------------ lines

  /** Zero, and every position behind a line feed that is still in the text. */
  method LineStarts(text: Bytes) returns (starts: seq<nat>)
    ensures IsLineStarts(text, starts)
  {
    starts := [0];
    for i := 0 to |text|
      invariant Ascending(starts) && |starts| > 0 && starts[0] == 0
      invariant forall x: nat :: x in starts <==> x == 0 || (0 < x <= i && x < |text| && text[x - 1] == LINE_FEED)
    {
      if text[i] == LINE_FEED && i + 1 < |text| {
        forall k | 0 <= k < |starts|
          ensures starts[k] <= i
        {
          assert starts[k] in starts;
        }
        starts := starts + [i + 1];
      }
    }
  }

  ghost predicate IsLineStarts(text: Bytes, starts: seq<nat>) {
    && Ascending(starts) && |starts| > 0 && starts[0] == 0
    && forall x: nat :: x in starts <==> x == 0 || (0 < x < |text| && text[x - 1] == LINE_FEED)
  }

  /** Line feeds before a position. */
  function LineFeeds(text: Bytes, n: nat): nat
    requires n <= |text|
  {
    if n == 0 then 0 else LineFeeds(text, n - 1) + if text[n - 1] == LINE_FEED then 1 else 0
  }

  /** The one-based line of a position. */
  function LineAt(text: Bytes, offset: nat): nat
    requires offset <= |text|
  {
    1 + LineFeeds(text, if offset == |text| > 0 then offset - 1 else offset)
  }

  /** How many of the starts are at or before an offset. */
  ghost predicate Before(starts: seq<nat>, offset: nat, n: nat) {
    n <= |starts| && (forall k :: 0 <= k < n ==> starts[k] <= offset) && (forall k :: n <= k < |starts| ==> starts[k] > offset)
  }

  lemma LaterStarts(starts: seq<nat>)
    requires Ascending(starts) && |starts| > 0 && starts[0] == 0
    ensures forall k :: 1 <= k < |starts| ==> starts[k] > 0 && starts[k] in starts
  {
  }

  /** The number of line starts at or before an offset is the number of its line. */
  lemma {:induction false} StartsCountLines(text: Bytes, starts: seq<nat>, offset: nat, n: nat)
    requires IsLineStarts(text, starts) && offset < |text| && Before(starts, offset, n)
    ensures n == 1 + LineFeeds(text, offset)
  {
    LaterStarts(starts);
    assert starts[0] == 0 && n > 0;
    assert starts[n - 1] <= offset;
    if offset > 0 {
      var previous: nat := offset - 1;
      if text[previous] == LINE_FEED {
        assert offset in starts;
        var k :| 0 <= k < |starts| && starts[k] == offset;
        assert k == n - 1;
        StartsCountLines(text, starts, previous, n - 1);
      } else {
        assert offset !in starts;
        StartsCountLines(text, starts, previous, n);
      }
    }
  }

  /** Binary search for the line of an offset. */
  method LineForOffset(starts: seq<nat>, offset: nat) returns (line: nat)
    requires Ascending(starts) && |starts| > 0 && starts[0] == 0
    ensures Before(starts, offset, line)
  {
    var low, high := 0, |starts|;
    while low < high
      invariant 0 <= low <= high <= |starts|
      invariant forall k :: 0 <= k < low ==> starts[k] <= offset
      invariant forall k :: high <= k < |starts| ==> starts[k] > offset
    {
      var mid := (low + high) / 2;
      if starts[mid] <= offset {
        low := mid + 1;
      } else {
        high := mid;
      }
    }
    line := low;
  }

  // -------------------------------------------------------------------------- collection

  /** The span is a whole identifier that holds the old name, and is about to change. */
  ghost predicate GoodSpan(text: Bytes, s: Span) {
    && s.start <= s.end <= |text| && s.end == s.start + |s.before|
    && text[s.start..s.end] == s.before && s.after != s.before
    && CharBoundary(text, s.start) && CharBoundary(text, s.end)
    && IdentifierBoundaries(text, s.start, s.end)
    && s.line == LineAt(text, s.start)
  }

  lemma LineExact(text: Bytes, starts: seq<nat>, offset: nat, n: nat)
    requires IsLineStarts(text, starts) && offset <= |text| && Before(starts, offset, n)
    ensures n == LineAt(text, offset)
  {
    if offset < |text| {
      StartsCountLines(text, starts, offset, n);
    } else if |text| > 0 {
      assert forall k :: 0 <= k < |starts| ==> starts[k] in starts;
      StartsCountLines(text, starts, offset - 1, n);
    } else {
      LaterStarts(starts);
      assert starts[0] == 0 && n > 0;
      assert starts[n - 1] <= offset;
    }
  }

  /** The reference at an offset that a rename is to replace. */
  predicate Applies(text: Bytes, r: Rename, offset: nat) {
    var end := offset + |r.oldName|;
    && end <= |text| && CharBoundary(text, offset) && CharBoundary(text, end)
    && text[offset..end] != r.newName && text[offset..end] == r.oldName
    && IdentifierBoundaries(text, offset, end)
  }

  ghost predicate FromRename(text: Bytes, r: Rename, s: Span) {
    s.start in r.offsets && Applies(text, r, s.start) && s.before == r.oldName && s.after == r.newName
  }

  ghost predicate FromSome(text: Bytes, renames: seq<Rename>, s: Span) {
    exists k :: 0 <= k < |renames| && FromRename(text, renames[k], s)
  }

  ghost predicate Has(spans: seq<Span>, offset: nat, r: Rename) {
    exists s :: s in spans && s.start == offset && s.before == r.oldName && s.after == r.newName
  }

  /** Every applicable reference of the rename among the offsets has its span. */
  ghost predicate Complete(text: Bytes, r: Rename, offsets: seq<nat>, spans: seq<Span>) {
    forall offset: nat :: offset in offsets && Applies(text, r, offset) ==> Has(spans, offset, r)
  }

  /** Exactly the applicable references of the renames. */
  ghost predicate Collected(text: Bytes, renames: seq<Rename>, spans: seq<Span>) {
    && (forall s :: s in spans ==> GoodSpan(text, s) && FromSome(text, renames, s))
    && (forall k :: 0 <= k < |renames| ==> Complete(text, renames[k], renames[k].offsets, spans))
  }

  method Collect(text: Bytes, renames: seq<Rename>) returns (spans: seq<Span>)
    ensures Collected(text, renames, spans)
  {
    var starts := LineStarts(text);
    spans := [];
    for i := 0 to |renames|
      invariant Collected(text, renames[..i], spans)
    {
      var found := CollectOne(text, starts, renames[i]);
      CollectedNext(text, renames, i, spans, found);
      spans := spans + found;
    }
    assert renames[..|renames|] == renames;
  }

  ghost predicate CollectedOne(text: Bytes, r: Rename, offsets: seq<nat>, spans: seq<Span>) {
    && (forall s :: s in spans ==> GoodSpan(text, s) && FromRename(text, r, s))
    && Complete(text, r, offsets, spans)
  }

  method CollectOne(text: Bytes, starts: seq<nat>, r: Rename) returns (spans: seq<Span>)
    requires IsLineStarts(text, starts)
    ensures CollectedOne(text, r, r.offsets, spans)
  {
    spans := [];
    for i := 0 to |r.offsets|
      invariant CollectedOne(text, r, r.offsets[..i], spans)
    {
      var offset := r.offsets[i];
      assert forall x :: x in r.offsets[..i + 1] <==> x in r.offsets[..i] || x == offset;
      if Applies(text, r, offset) {
        var line := LineForOffset(starts, offset);
        LineExact(text, starts, offset, line);
        var s := Span(offset, offset + |r.oldName|, line, r.oldName, r.newName);
        assert GoodSpan(text, s) && FromRename(text, r, s);
        spans := spans + [s];
        assert spans[|spans| - 1] == s;
      }
    }
    assert r.offsets[..|r.offsets|] == r.offsets;
  }

  lemma StillComplete(text: Bytes, r: Rename, offsets: seq<nat>, spans: seq<Span>, all: seq<Span>)
    requires Complete(text, r, offsets, spans) && forall s :: s in spans ==> s in all
    ensures Complete(text, r, offsets, all)
  {
    forall offset: nat | offset in offsets && Applies(text, r, offset)
      ensures Has(all, offset, r)
    {
      assert Has(spans, offset, r);
      var s :| s in spans && s.start == offset && s.before == r.oldName && s.after == r.newName;
      assert s in all;
    }
  }

  lemma CollectedNext(text: Bytes, renames: seq<Rename>, i: nat, spans: seq<Span>, found: seq<Span>)
    requires i < |renames| && Collected(text, renames[..i], spans) && CollectedOne(text, renames[i], renames[i].offsets, found)
    ensures Collected(text, renames[..i + 1], spans + found)
  {
    var longer, shorter := renames[..i + 1], renames[..i];
    forall s | s in spans + found
      ensures GoodSpan(text, s) && FromSome(text, longer, s)
    {
      if s in spans {
        var k :| 0 <= k < |shorter| && FromRename(text, shorter[k], s);
        assert longer[k] == shorter[k];
      } else {
        assert longer[i] == renames[i];
      }
    }
    forall k | 0 <= k < |longer|
      ensures Complete(text, longer[k], longer[k].offsets, spans + found)
    {
      if k < i {
        assert longer[k] == shorter[k];
        StillComplete(text, longer[k], longer[k].offsets, spans, spans + found);
      } else {
        StillComplete(text, longer[k], longer[k].offsets, found, spans + found);
      }
    }
  }
}
