/**
 Coverage checks over file results: a list of results covers a list of paths when both name
 the same files equally often, whatever their order.
 */
module Coverage {
  import opened Sorting
  import opened Tallies
  import CandidateOrder

  /** What identifies the file behind a path. */
  type Identity = string -> string

  datatype FileResult = FileResult(path: string, data: string)

  function Keys(identity: Identity, paths: seq<string>): seq<string> {
    seq(|paths|, i requires 0 <= i < |paths| => identity(paths[i]))
  }

  function Paths(results: seq<FileResult>): seq<string> {
    seq(|results|, i requires 0 <= i < |results| => results[i].path)
  }

  /** How often each file is named. */
  ghost function Named(identity: Identity, paths: seq<string>): multiset<string> { multiset(Keys(identity, paths)) }

  /** Both lists name the same files equally often. */
  ghost predicate Covers(identity: Identity, results: seq<FileResult>, paths: seq<string>) {
    Named(identity, Paths(results)) == Named(identity, paths)
  }

  lemma NamedNext(identity: Identity, paths: seq<string>, i: nat)
    requires i < |paths|
    ensures Named(identity, paths[..i + 1]) == Named(identity, paths[..i]) + multiset{identity(paths[i])}
  {
    assert Keys(identity, paths[..i + 1]) == Keys(identity, paths[..i]) + [identity(paths[i])];
  }

  lemma NamedConcat(identity: Identity, a: seq<string>, b: seq<string>)
    ensures Named(identity, a + b) == Named(identity, a) + Named(identity, b)
  {
    assert Keys(identity, a + b) == Keys(identity, a) + Keys(identity, b);
  }

  /** A count table holds exactly the positive multiplicities. */
  ghost predicate Counts(counts: map<string, nat>, named: multiset<string>) {
    && (forall k :: k in counts <==> k in named)
    && (forall k :: k in counts ==> counts[k] == named[k])
  }

  method PathCounts(identity: Identity, paths: seq<string>) returns (counts: map<string, nat>)
    ensures Counts(counts, Named(identity, paths))
  {
    counts := map[];
    for i := 0 to |paths|
      invariant Counts(counts, Named(identity, paths[..i]))
    {
      var key := identity(paths[i]);
      NamedNext(identity, paths, i);
      counts := counts[key := CountOf(counts, key) + 1];
    }
    assert paths[..|paths|] == paths;
  }

  lemma SameCounts(a: map<string, nat>, m: multiset<string>, b: map<string, nat>, n: multiset<string>)
    requires Counts(a, m) && Counts(b, n)
    ensures a == b <==> m == n
  {
    if a == b {
      forall k
        ensures m[k] == n[k]
      {
        assert k in a <==> k in m;
        assert k in b <==> k in n;
      }
    }
    if m == n {
      assert a.Keys == b.Keys;
    }
  }

  lemma Differs(m: multiset<string>, n: multiset<string>) returns (k: string)
    requires m != n
    ensures m[k] != n[k]
  {
    assert !(forall x :: m[x] == n[x]);
    k :| m[k] != n[k];
  }

  /** Files named too rarely, and files named too often. */
  datatype Verdict = Covered | Mismatch(missing: set<string>, extras: set<string>)

  /** Compares the counts; a mismatch says which files are short and which are extra. */
  method CompareCoverage(identity: Identity, results: seq<FileResult>, expected: seq<string>) returns (v: Verdict)
    ensures v.Covered? <==> Covers(identity, results, expected)
    ensures v.Mismatch? ==>
              && (forall k :: k in v.missing <==> Named(identity, Paths(results))[k] < Named(identity, expected)[k])
              && (forall k :: k in v.extras <==> Named(identity, Paths(results))[k] > Named(identity, expected)[k])
              && v.missing + v.extras != {}
  {
    var expectedCounts := PathCounts(identity, expected);
    var actualCounts := PathCounts(identity, Paths(results));
    ghost var m, n := Named(identity, Paths(results)), Named(identity, expected);
    SameCounts(actualCounts, m, expectedCounts, n);
    if expectedCounts == actualCounts {
      return Covered;
    }
    var missing := set k | k in expectedCounts && CountOf(actualCounts, k) < expectedCounts[k];
    var extras := set k | k in actualCounts && actualCounts[k] > CountOf(expectedCounts, k);
    assert forall k :: CountOf(actualCounts, k) == m[k] && CountOf(expectedCounts, k) == n[k];
    var k := Differs(m, n);
    assert k in missing + extras;
    v := Mismatch(missing, extras);
  }

  // --------------------------------------------------------------------------- final order

  datatype Keyed = Keyed(key: string, result: FileResult)

  predicate KeyedBefore(a: Keyed, b: Keyed) {
    CandidateOrder.TextLess(a.key, b.key) || (a.key == b.key && CandidateOrder.TextLess(a.result.path, b.result.path))
  }

  lemma KeyedOrder()
    ensures WeakOrder(KeyedBefore)
  {
    forall a, b | KeyedBefore(a, b)
      ensures !KeyedBefore(b, a)
    {
      CandidateOrder.TextLessTotal(a.key, b.key);
      CandidateOrder.TextLessTotal(a.result.path, b.result.path);
    }
    forall a, b, c | KeyedBefore(a, c)
      ensures KeyedBefore(a, b) || KeyedBefore(b, c)
    {
      KeyedSplits(a, b, c);
    }
  }

  lemma TextSplits(a: string, b: string, c: string)
    requires CandidateOrder.TextLess(a, c)
    ensures CandidateOrder.TextLess(a, b) || CandidateOrder.TextLess(b, c)
  {
    CandidateOrder.TextLessTotal(a, b);
    if CandidateOrder.TextLess(b, a) {
      CandidateOrder.TextLessTransitive(b, a, c);
    }
  }

  lemma KeyedSplits(a: Keyed, b: Keyed, c: Keyed)
    requires KeyedBefore(a, c)
    ensures KeyedBefore(a, b) || KeyedBefore(b, c)
  {
    if CandidateOrder.TextLess(a.key, c.key) {
      TextSplits(a.key, b.key, c.key);
    } else {
      TextSplits(a.result.path, b.result.path, c.result.path);
      CandidateOrder.TextLessTotal(a.key, b.key);
    }
  }

  function WithKeys(identity: Identity, results: seq<FileResult>): seq<Keyed> {
    seq(|results|, i requires 0 <= i < |results| => Keyed(identity(results[i].path), results[i]))
  }

  /** The order of the final results: by file key, then by path. */
  predicate ResultBefore(identity: Identity, a: FileResult, b: FileResult) {
    KeyedBefore(Keyed(identity(a.path), a), Keyed(identity(b.path), b))
  }

  datatype Ordering = Results(results: seq<FileResult>) | Refused(verdict: Verdict)

  /**
   Accepts results exactly when they cover the expected paths, and then returns the same
   results in order.
   */
  method ValidateAndOrder(identity: Identity, results: seq<FileResult>, expected: seq<string>) returns (o: Ordering)
    ensures o.Results? <==> Covers(identity, results, expected)
    ensures o.Results? ==> multiset(o.results) == multiset(results)
    ensures o.Results? ==> forall i, j :: 0 <= i < j < |o.results| ==> !ResultBefore(identity, o.results[j], o.results[i])
  {
    var v := CompareCoverage(identity, results, expected);
    if v.Mismatch? {
      return Refused(v);
    }
    var keyed := SortBy(WithKeys(identity, results), KeyedBefore);
    KeyedOrder();
    SortOrdered(WithKeys(identity, results), KeyedBefore);
    SortContents(WithKeys(identity, results), KeyedBefore);
    o := Results(Unkeyed(keyed));
    assert forall k :: k in keyed ==> k in WithKeys(identity, results);
    assert forall i :: 0 <= i < |keyed| ==> keyed[i] in keyed;
    UnkeyedPermutes(keyed, WithKeys(identity, results));
    assert Unkeyed(WithKeys(identity, results)) == results;
  }

  function Unkeyed(keyed: seq<Keyed>): seq<FileResult> {
    seq(|keyed|, i requires 0 <= i < |keyed| => keyed[i].result)
  }

  lemma UnkeyedConcat(a: seq<Keyed>, b: seq<Keyed>)
    ensures Unkeyed(a + b) == Unkeyed(a) + Unkeyed(b)
  {
  }

  lemma UnkeyedAround(b: seq<Keyed>, k: nat)
    requires k < |b|
    ensures multiset(Unkeyed(b)) == multiset(Unkeyed(Around(b, k))) + multiset{b[k].result}
  {
    assert b == b[..k] + ([b[k]] + b[k + 1..]);
    UnkeyedConcat(b[..k], [b[k]] + b[k + 1..]);
    UnkeyedConcat([b[k]], b[k + 1..]);
    UnkeyedConcat(b[..k], b[k + 1..]);
    assert Unkeyed([b[k]]) == [b[k].result];
  }

  /** Dropping the keys of a permutation gives a permutation. */
  lemma {:induction false} UnkeyedPermutes(a: seq<Keyed>, b: seq<Keyed>)
    requires multiset(a) == multiset(b)
    ensures multiset(Unkeyed(a)) == multiset(Unkeyed(b))
  {
    SameLength(a, b);
    if |a| > 0 {
      assert a[0] in multiset(b);
      var k :| 0 <= k < |b| && b[k] == a[0];
      RemoveOne(a, 0);
      RemoveOne(b, k);
      UnkeyedPermutes(Around(a, 0), Around(b, k));
      UnkeyedAround(a, 0);
      UnkeyedAround(b, k);
    }
  }
}
