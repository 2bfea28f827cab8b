/** What a rename replaces and reports, said on the bytes of the text. */
module RenameLaws {
  import opened ByteFields
  import opened RenamePropagation
  import opened RenameSubstitution

  /** Letters, digits and the underscore. */
  predicate WordChar(c: char) { 'a' <= c <= 'z' || 'A' <= c <= 'Z' || '0' <= c <= '9' || c == '_' }

  predicate WordByte(b: byte) { b < 128 && WordChar(b as char) }

  /** In UTF-8 a byte 10xxxxxx goes on with a character. */
  predicate Continues(b: byte) { b / 64 == 2 }

  /** The text around a reference: nothing next to it makes it part of a longer word or cuts a character. */
  predicate Surrounded(prefix: Bytes, name: Bytes, suffix: Bytes) {
    && (|prefix| > 0 ==> !WordByte(prefix[|prefix| - 1]))
    && (|suffix| > 0 ==> !WordByte(suffix[0]) && !Continues(suffix[0]))
    && (|name| > 0 ==> !Continues(name[0]))
  }

  lemma BytesExactly(b: byte)
    ensures IsIdent(b) <==> WordByte(b)
    ensures StartsChar(b) <==> !Continues(b)
  {
  }

  /** A reference is replaced exactly when it is the whole old name, a word of its own, and the new name differs. */
  lemma AppliesExactly(prefix: Bytes, name: Bytes, suffix: Bytes, r: Rename)
    requires name != []
    ensures var text := prefix + name + suffix;
            |name| == |r.oldName| ==> (Applies(text, r, |prefix|) <==> name == r.oldName != r.newName && Surrounded(prefix, name, suffix))
  {
    var text := prefix + name + suffix;
    var start, end := |prefix|, |prefix| + |name|;
    assert text[start..end] == name;
    assert text[start] == name[0];
    assert |prefix| > 0 ==> text[start - 1] == prefix[|prefix| - 1];
    assert |suffix| > 0 ==> text[end] == suffix[0];
    BytesExactly(name[0]);
    if |prefix| > 0 {
      BytesExactly(prefix[|prefix| - 1]);
    }
    if |suffix| > 0 {
      BytesExactly(suffix[0]);
    }
  }

  /** All spans found for a single reference are the same one. */
  lemma SameSpan(text: Bytes, r: Rename, offset: nat, all: seq<Span>) returns (s: Span)
    requires r.offsets == [offset] && Applies(text, r, offset) && Collected(text, [r], all)
    ensures s in all && s.start == offset && s.end == offset + |r.oldName| && s.before == r.oldName && s.after == r.newName
    ensures forall t :: t in all ==> t == s
  {
    assert Complete(text, [r][0], [r][0].offsets, all);
    assert Has(all, offset, r);
    s :| s in all && s.start == offset && s.before == r.oldName && s.after == r.newName;
    forall t | t in all
      ensures t == s
    {
      assert FromSome(text, [r], t);
      assert t.start in r.offsets;
    }
  }

  lemma FirstTwo(text: Bytes, spans: seq<Span>)
    requires Disjoint(text, spans) && |spans| > 1
    ensures spans[0].end <= spans[1].start
  {
    assert spans[1 - 1].end <= spans[1].start;
  }

  lemma OneKept(text: Bytes, s: Span, all: seq<Span>, spans: seq<Span>)
    requires s in all && (forall t :: t in all ==> t == s) && s.start < s.end
    requires Disjoint(text, spans) && CoversAll(all, spans) && forall t :: t in spans ==> t in all
    ensures spans == [s]
  {
    assert s in spans || Shadowed(spans, s);
    assert forall i :: 0 <= i < |spans| ==> spans[i] in spans;
    if |spans| > 1 {
      FirstTwo(text, spans);
    }
  }

  lemma OneSubstituted(prefix: Bytes, name: Bytes, suffix: Bytes, s: Span)
    requires s.start == |prefix| && s.end == |prefix| + |name|
    ensures InOrder(prefix + name + suffix, [s], 0) && Substituted(prefix + name + suffix, [s], 0) == prefix + s.after + suffix
  {
    var text := prefix + name + suffix;
    assert [s][1..] == [];
    assert text[0..s.start] == prefix && text[s.end..] == suffix;
  }

  /** A single reference that is a word of its own is renamed, and nothing else is touched. */
  lemma OneRenamed(prefix: Bytes, r: Rename, suffix: Bytes, all: seq<Span>, spans: seq<Span>)
    requires r.oldName != [] && r.oldName != r.newName && r.offsets == [|prefix|] && Surrounded(prefix, r.oldName, suffix)
    requires var text := prefix + r.oldName + suffix;
             Collected(text, [r], all) && Disjoint(text, spans) && CoversAll(all, spans) && forall s :: s in spans ==> s in all
    ensures all != []
    ensures var text := prefix + r.oldName + suffix;
            InOrder(text, spans, 0) && Substituted(text, spans, 0) == prefix + r.newName + suffix
    ensures |spans| == 1 && spans[0].before == r.oldName && spans[0].after == r.newName
  {
    var text := prefix + r.oldName + suffix;
    AppliesExactly(prefix, r.oldName, suffix, r);
    var s := SameSpan(text, r, |prefix|, all);
    OneKept(text, s, all, spans);
    OneSubstituted(prefix, r.oldName, suffix, s);
  }

  /** The edits come last span first, each as it was made. */
  lemma {:induction false} EditsReversed(spans: seq<Span>, i: nat)
    requires i < |spans|
    ensures |EditsOf(spans)| == |spans|
    ensures EditsOf(spans)[|spans| - 1 - i] == ByteEdit(spans[i].line, spans[i].before, spans[i].after)
  {
    if |spans| > 1 {
      EditsReversed(spans[1..], if i > 0 then i - 1 else 0);
    }
  }
}
