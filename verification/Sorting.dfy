/** A stable sort by a strict weak order given as a test. */
module Sorting {
  import opened SeqFacts

  type Order<!T> = (T, T) -> bool

  /** Asymmetric, and whatever comes before c comes before b or lets b come before c. */
  ghost predicate WeakOrder<T(!new)>(before: Order<T>) {
    && (forall a, b :: before(a, b) ==> !before(b, a))
    && (forall a, b, c {:trigger before(a, b), before(b, c)} {:trigger before(a, c), before(b, c)} {:trigger before(a, c), before(a, b)} ::
          before(a, c) ==> before(a, b) || before(b, c))
  }

  /** No element comes before one that stands earlier. */
  ghost predicate Ordered<T>(s: seq<T>, before: Order<T>) {
    forall i, j :: 0 <= i < j < |s| ==> !before(s[j], s[i])
  }

  function Insert<T>(x: T, sorted: seq<T>, before: Order<T>): seq<T> {
    if |sorted| == 0 then [x]
    else if before(sorted[0], x) then [sorted[0]] + Insert(x, sorted[1..], before)
    else [x] + sorted
  }

  function SortBy<T>(items: seq<T>, before: Order<T>): seq<T> {
    if |items| == 0 then [] else Insert(items[0], SortBy(items[1..], before), before)
  }

  lemma {:induction false} InsertContents<T>(x: T, sorted: seq<T>, before: Order<T>)
    ensures multiset(Insert(x, sorted, before)) == multiset{x} + multiset(sorted)
  {
    if |sorted| > 0 {
      assert sorted == [sorted[0]] + sorted[1..];
      if before(sorted[0], x) {
        InsertContents(x, sorted[1..], before);
      }
    }
  }

  /** Sorting permutes. */
  lemma {:induction false} SortContents<T>(items: seq<T>, before: Order<T>)
    ensures multiset(SortBy(items, before)) == multiset(items)
    ensures |SortBy(items, before)| == |items|
    ensures forall x :: x in SortBy(items, before) <==> x in items
  {
    if |items| > 0 {
      assert items == [items[0]] + items[1..];
      SortContents(items[1..], before);
      InsertContents(items[0], SortBy(items[1..], before), before);
    }
    assert |multiset(SortBy(items, before))| == |multiset(items)|;
    forall x
      ensures x in SortBy(items, before) <==> x in items
    {
      assert x in multiset(SortBy(items, before)) <==> x in multiset(items);
    }
  }

  lemma {:induction false} InsertOrdered<T(!new)>(x: T, sorted: seq<T>, before: Order<T>)
    requires WeakOrder(before) && Ordered(sorted, before)
    ensures Ordered(Insert(x, sorted, before), before)
  {
    if |sorted| > 0 {
      var result := Insert(x, sorted, before);
      if before(sorted[0], x) {
        var rest := sorted[1..];
        assert forall i :: 0 <= i < |rest| ==> rest[i] == sorted[i + 1];
        InsertOrdered(x, rest, before);
        InsertContents(x, rest, before);
        var tail := Insert(x, rest, before);
        forall j | 0 <= j < |tail|
          ensures !before(tail[j], sorted[0])
        {
          assert tail[j] in multiset(tail);
          if tail[j] != x {
            assert tail[j] in rest;
          }
        }
      } else {
        forall j | 0 <= j < |sorted|
          ensures !before(sorted[j], x)
        {
          if j > 0 {
            assert !before(sorted[j], sorted[0]);
          }
        }
      }
    }
  }

  lemma {:induction false} SortOrdered<T(!new)>(items: seq<T>, before: Order<T>)
    requires WeakOrder(before)
    ensures Ordered(SortBy(items, before), before)
  {
    if |items| > 0 {
      SortOrdered(items[1..], before);
      InsertOrdered(items[0], SortBy(items[1..], before), before);
    }
  }

  lemma PrefixFirst<T>(sorted: seq<T>, n: nat, before: Order<T>)
    requires Ordered(sorted, before) && n <= |sorted|
    ensures multiset(sorted) - multiset(sorted[..n]) == multiset(sorted[n..])
    ensures forall k, d :: k in sorted[..n] && d in sorted[n..] ==> !before(d, k)
  {
    assert sorted == sorted[..n] + sorted[n..];
    forall k, d | k in sorted[..n] && d in sorted[n..]
      ensures !before(d, k)
    {
      var i :| 0 <= i < n && sorted[..n][i] == k;
      var j :| 0 <= j < |sorted| - n && sorted[n..][j] == d;
      assert sorted[i] == k && sorted[n + j] == d;
    }
  }

  ghost function Elements<T>(s: seq<T>): set<T> { set x | x in s }

  /** Distinct lists are as long as their sets are large. */
  lemma {:induction false} DistinctLength<T>(s: seq<T>)
    requires Distinct(s)
    ensures |Elements(s)| == |s|
  {
    if |s| > 0 {
      var rest := s[1..];
      assert forall i :: 0 <= i < |rest| ==> rest[i] == s[i + 1];
      DistinctLength(rest);
      assert Elements(s) == Elements(rest) + {s[0]};
    } else {
      assert Elements(s) == {};
    }
  }

  /** A permutation of a distinct list is distinct. */
  lemma DistinctPermutation<T>(a: seq<T>, b: seq<T>)
    requires Distinct(a) && multiset(a) == multiset(b)
    ensures Distinct(b)
  {
    DistinctCounts(a);
    forall i, j | 0 <= i < j < |b|
      ensures b[i] != b[j]
    {
      if b[i] == b[j] {
        CountTwice(b, i, j);
      }
    }
  }

  lemma SameLength<T>(a: seq<T>, b: seq<T>)
    requires multiset(a) == multiset(b)
    ensures |a| == |b|
  {
    assert |multiset(a)| == |multiset(b)|;
  }

  /** A list without its k-th element. */
  function Around<T>(s: seq<T>, k: nat): (r: seq<T>)
    requires k < |s|
    ensures |r| == |s| - 1
  {
    s[..k] + s[k + 1..]
  }

  lemma RemoveOne<T>(s: seq<T>, k: nat)
    requires k < |s|
    ensures multiset(s) == multiset(Around(s, k)) + multiset{s[k]}
    ensures multiset(Around(s, k)) == multiset(s) - multiset{s[k]}
  {
    assert s == s[..k] + ([s[k]] + s[k + 1..]);
  }

  predicate Less(a: nat, b: nat) { a < b }

  /** Stands for the library sort of an index vector. */
  function SortNats(s: seq<nat>): seq<nat> { SortBy(s, Less) }

  /** Sorting distinct nodes gives an ascending list of the same nodes. */
  lemma SortedAscending(s: seq<nat>)
    requires Distinct(s)
    ensures Ascending(SortNats(s)) && ToSet(SortNats(s)) == ToSet(s) && |SortNats(s)| == |s|
  {
    SortContents(s, Less);
    SortOrdered(s, Less);
    DistinctPermutation(s, SortNats(s));
  }
}
