/**
 The order on candidate keys, (line, policy) pairs, that the solver uses to break ties,
 and the lexicographic order it induces on sorted key lists.
 */
module CandidateOrder {
  import opened SeqFacts
  import opened Sorting

  datatype Key = Key(line: nat, policy: string)

  /** Byte-wise lexicographic order on policy names. */
  predicate TextLess(a: string, b: string) {
    b != [] && (a == [] || a[0] < b[0] || (a[0] == b[0] && TextLess(a[1..], b[1..])))
  }

  predicate KeyLess(a: Key, b: Key) {
    a.line < b.line || (a.line == b.line && TextLess(a.policy, b.policy))
  }

  /** Lexicographic order on key lists: a proper prefix comes first. */
  predicate KeyListLess(a: seq<Key>, b: seq<Key>) {
    b != [] && (a == [] || KeyLess(a[0], b[0]) || (a[0] == b[0] && KeyListLess(a[1..], b[1..])))
  }

  lemma {:induction false} TextLessTransitive(a: string, b: string, c: string)
    requires TextLess(a, b) && TextLess(b, c)
    ensures TextLess(a, c)
  {
    if a != [] && a[0] == b[0] && b[0] == c[0] {
      TextLessTransitive(a[1..], b[1..], c[1..]);
    }
  }

  lemma {:induction false} TextLessTotal(a: string, b: string)
    ensures a == b || TextLess(a, b) || TextLess(b, a)
    ensures !(TextLess(a, b) && TextLess(b, a)) && !TextLess(a, a)
  {
    if a != [] && b != [] {
      TextLessTotal(a[1..], b[1..]);
      assert a == [a[0]] + a[1..] && b == [b[0]] + b[1..];
      TextLessTotal(a[1..], a[1..]);
    } else if a != [] {
      TextLessTotal(a[1..], a[1..]);
    }
  }

  lemma KeyLessTransitive(a: Key, b: Key, c: Key)
    requires KeyLess(a, b) && KeyLess(b, c)
    ensures KeyLess(a, c)
  {
    if a.line == b.line == c.line {
      TextLessTransitive(a.policy, b.policy, c.policy);
    }
  }

  lemma {:induction false} KeyListLessTransitive(a: seq<Key>, b: seq<Key>, c: seq<Key>)
    requires KeyListLess(a, b) && KeyListLess(b, c)
    ensures KeyListLess(a, c)
  {
    if a != [] {
      if KeyLess(a[0], b[0]) && KeyLess(b[0], c[0]) {
        KeyLessTransitive(a[0], b[0], c[0]);
      } else if a[0] == b[0] == c[0] {
        KeyListLessTransitive(a[1..], b[1..], c[1..]);
      }
    }
  }

  lemma {:induction false} KeyListLessIrreflexive(a: seq<Key>)
    ensures !KeyListLess(a, a)
  {
    if a != [] {
      TextLessTotal(a[0].policy, a[0].policy);
      KeyListLessIrreflexive(a[1..]);
    }
  }

  /** Each line number is at most the next one. */
  ghost predicate LinesAscend(keys: seq<Key>) {
    forall i :: 0 < i < |keys| ==> keys[i - 1].line <= keys[i].line
  }

  lemma KeyOrder()
    ensures WeakOrder(KeyLess)
  {
    forall a, b | KeyLess(a, b)
      ensures !KeyLess(b, a)
    {
      TextLessTotal(a.policy, b.policy);
    }
    forall a, b, c | KeyLess(a, c)
      ensures KeyLess(a, b) || KeyLess(b, c)
    {
      TextLessTotal(a.policy, b.policy);
      TextLessTotal(b.policy, c.policy);
      if KeyLess(b, a) {
        KeyLessTransitive(b, a, c);
      }
    }
  }

  /** Stands for the library sort of a key vector. */
  function SortKeys(keys: seq<Key>): (sorted: seq<Key>)
    ensures multiset(sorted) == multiset(keys)
    ensures LinesAscend(sorted)
  {
    KeyOrder();
    SortContents(keys, KeyLess);
    SortOrdered(keys, KeyLess);
    SortBy(keys, KeyLess)
  }

  /** All on different lines, in line order. */
  ghost predicate LinesStrict(keys: seq<Key>) {
    forall i, j :: 0 <= i < j < |keys| ==> keys[i].line < keys[j].line
  }

  lemma {:induction false} StrictUnique(a: seq<Key>, b: seq<Key>)
    requires LinesStrict(a) && LinesStrict(b)
    requires (forall k :: k in a ==> k in b) && (forall k :: k in b ==> k in a)
    ensures a == b
  {
    if a == [] {
      HasMember(b);
    } else {
      assert a[0] in b && b[0] in a;
      assert a == [a[0]] + a[1..] && b == [b[0]] + b[1..];
      forall k | k in a[1..] ensures k in b[1..] { assert k in a; }
      forall k | k in b[1..] ensures k in a[1..] { assert k in b; }
      StrictUnique(a[1..], b[1..]);
    }
  }

  lemma {:induction false} AscendFar(keys: seq<Key>, i: nat, j: nat)
    requires LinesAscend(keys) && i < j < |keys|
    ensures keys[i].line <= keys[j].line
    decreases j
  {
    if i < j - 1 {
      AscendFar(keys, i, j - 1);
    }
  }

  ghost predicate LinesDiffer(keys: seq<Key>) {
    forall i, j :: 0 <= i < j < |keys| ==> keys[i].line != keys[j].line
  }

  lemma SortedStrict(keys: seq<Key>)
    requires LinesDiffer(keys)
    ensures LinesStrict(SortKeys(keys)) && forall k :: k in SortKeys(keys) <==> k in keys
  {
    var sorted := SortKeys(keys);
    DistinctCounts(keys);
    SameElements(keys, sorted);
    forall i, j | 0 <= i < j < |sorted|
      ensures sorted[i].line < sorted[j].line
    {
      AscendFar(sorted, i, j);
      assert sorted[i] in keys && sorted[j] in keys;
      if sorted[i] == sorted[j] {
        CountTwice(sorted, i, j);
      }
    }
  }

  /** The sorted list of keys on different lines depends on which keys they are, not on their order. */
  lemma SortKeysUnique(a: seq<Key>, b: seq<Key>)
    requires LinesDiffer(a) && LinesDiffer(b)
    requires (forall k :: k in a ==> k in b) && (forall k :: k in b ==> k in a)
    ensures SortKeys(a) == SortKeys(b)
  {
    SortedStrict(a);
    SortedStrict(b);
    StrictUnique(SortKeys(a), SortKeys(b));
  }

  // ------------------------------------------------------------- what the orders mean

  /** The lists agree on their first k elements, and there the first one ends or has the smaller element. */
  ghost predicate SmallerFrom<T>(a: seq<T>, b: seq<T>, less: (T, T) -> bool, k: nat) {
    k <= |a| && k < |b| && a[..k] == b[..k] && (k == |a| || less(a[k], b[k]))
  }

  function CharLess(): (char, char) -> bool { (x, y) => x < y }

  function KeyBefore(): (Key, Key) -> bool { (x, y) => KeyLess(x, y) }

  lemma ShiftSmaller<T>(a: seq<T>, b: seq<T>, less: (T, T) -> bool, k: nat)
    requires a != [] && b != [] && a[0] == b[0]
    ensures SmallerFrom(a[1..], b[1..], less, k) <==> SmallerFrom(a, b, less, k + 1)
  {
    assert a == [a[0]] + a[1..] && b == [b[0]] + b[1..];
    if k <= |a| - 1 && k <= |b| - 1 {
      assert a[..k + 1] == [a[0]] + a[1..][..k] && b[..k + 1] == [b[0]] + b[1..][..k];
    }
  }

  /** A name is less when it is a proper beginning of the other, or has the smaller character where they first differ. */
  lemma {:induction false} TextLessMeans(a: string, b: string)
    ensures TextLess(a, b) <==> exists k: nat :: SmallerFrom(a, b, CharLess(), k)
  {
    if TextLess(a, b) {
      if a == [] || a[0] < b[0] {
        assert SmallerFrom(a, b, CharLess(), 0);
      } else {
        TextLessMeans(a[1..], b[1..]);
        var k: nat :| SmallerFrom(a[1..], b[1..], CharLess(), k);
        ShiftSmaller(a, b, CharLess(), k);
      }
    }
    if k: nat :| SmallerFrom(a, b, CharLess(), k) {
      if k > 0 {
        assert a[0] == a[..k][0] && b[0] == b[..k][0];
        ShiftSmaller(a, b, CharLess(), k - 1);
        TextLessMeans(a[1..], b[1..]);
      }
    }
  }

  /** A key list is less when it is a proper beginning of the other, or has the smaller key where they first differ. */
  lemma {:induction false} KeyListLessMeans(a: seq<Key>, b: seq<Key>)
    ensures KeyListLess(a, b) <==> exists k: nat :: SmallerFrom(a, b, KeyBefore(), k)
  {
    if KeyListLess(a, b) {
      if a == [] || KeyLess(a[0], b[0]) {
        assert SmallerFrom(a, b, KeyBefore(), 0);
      } else {
        KeyListLessMeans(a[1..], b[1..]);
        var k: nat :| SmallerFrom(a[1..], b[1..], KeyBefore(), k);
        ShiftSmaller(a, b, KeyBefore(), k);
      }
    }
    if k: nat :| SmallerFrom(a, b, KeyBefore(), k) {
      if k > 0 {
        assert a[0] == a[..k][0] && b[0] == b[..k][0];
        ShiftSmaller(a, b, KeyBefore(), k - 1);
        KeyListLessMeans(a[1..], b[1..]);
      }
    }
  }
}
