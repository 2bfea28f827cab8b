/** Facts about sequences and finite sets. */
module SeqFacts {

  ghost predicate Ascending(s: seq<nat>) {
    forall i, j :: 0 <= i < j < |s| ==> s[i] < s[j]
  }

  ghost predicate Distinct<T>(s: seq<T>) {
    forall i, j :: 0 <= i < j < |s| ==> s[i] != s[j]
  }

  ghost function ToSet(s: seq<nat>): set<nat> {
    set x | x in s
  }

  /** v belongs to one of the lists. */
  ghost predicate InSome(lists: seq<seq<nat>>, v: nat) {
    exists i :: 0 <= i < |lists| && v in lists[i]
  }

  lemma HasMember<T>(s: seq<T>)
    ensures s != [] ==> exists p :: p in s
  {
    if s != [] {
      assert s[0] in s;
    }
  }

  lemma {:induction false} DistinctCounts<T>(s: seq<T>)
    requires Distinct(s)
    ensures forall x :: multiset(s)[x] <= 1
  {
    if s != [] {
      assert s == [s[0]] + s[1..];
      assert s[0] !in s[1..];
      DistinctCounts(s[1..]);
    }
  }

  lemma {:induction false} DistinctSize(s: seq<nat>)
    requires Distinct(s)
    ensures |ToSet(s)| == |s|
  {
    if s != [] {
      assert s == [s[0]] + s[1..];
      DistinctSize(s[1..]);
      assert s[0] !in s[1..];
      assert ToSet(s) == ToSet(s[1..]) + {s[0]};
    }
  }

  lemma CountTwice<T>(s: seq<T>, i: nat, j: nat)
    requires i < j < |s| && s[i] == s[j]
    ensures multiset(s)[s[i]] >= 2
  {
    assert s == s[..j] + s[j..];
    assert s[..j][i] == s[i] && s[j..][0] == s[i];
    assert multiset(s[..j])[s[i]] >= 1 && multiset(s[j..])[s[i]] >= 1;
  }

  lemma SameElements<T>(a: seq<T>, b: seq<T>)
    requires multiset(a) == multiset(b)
    ensures |a| == |b|
    ensures forall x :: x in a <==> x in b
  {
    assert |multiset(a)| == |multiset(b)|;
    assert forall x :: x in a <==> x in multiset(a);
    assert forall x :: x in b <==> x in multiset(b);
  }

  lemma DistinctPrefix(a: seq<nat>, b: seq<nat>)
    requires Distinct(a + b)
    ensures Distinct(a)
  {
    assert forall i :: 0 <= i < |a| ==> a[i] == (a + b)[i];
  }

  /** The nodes 0, 1, ..., n-1. */
  ghost function Range(n: nat): (r: set<nat>)
    ensures forall v: nat :: v in r <==> v < n
    ensures |r| == n
  {
    if n == 0 then {} else Range(n - 1) + {n - 1}
  }

  lemma BoundedSize(s: set<nat>, n: nat)
    requires forall x :: x in s ==> x < n
    ensures |s| <= n
  {
    SubsetSize(s, Range(n));
  }

  lemma SubsetSize<T>(a: set<T>, b: set<T>)
    requires a <= b
    ensures |a| <= |b|
  {
    assert b == a + (b - a);
  }

  lemma {:induction false} StepsAscend(s: seq<nat>, i: nat, j: nat)
    requires forall k :: 0 < k < |s| ==> s[k - 1] < s[k]
    requires i < j < |s|
    ensures s[i] < s[j]
    decreases j
  {
    if i < j - 1 {
      StepsAscend(s, i, j - 1);
    }
  }

  lemma {:induction false} AscendingUnique(a: seq<nat>, b: seq<nat>)
    requires Ascending(a) && Ascending(b)
    requires (forall p :: p in a ==> p in b) && (forall p :: p in b ==> p in a)
    ensures a == b
  {
    if a == [] {
      HasMember(b);
    } else {
      assert a[0] in b && b[0] in a;
      assert a[0] == b[0];
      assert a == [a[0]] + a[1..] && b == [b[0]] + b[1..];
      forall p | p in a[1..] ensures p in b[1..] { assert p in a; assert p != a[0]; }
      forall p | p in b[1..] ensures p in a[1..] { assert p in b; assert p != b[0]; }
      AscendingUnique(a[1..], b[1..]);
    }
  }
}
