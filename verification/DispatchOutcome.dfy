/**
 What a dispatch delivers: a run in which every controller finishes has merged each batch
 exactly once, from an attempt at that very batch, so its results cover the input and the
 final check accepts them. Every run ends within a bound fixed at its start.
 */
module DispatchOutcome {
  import opened Bounds
  import opened SeqFacts
  import opened Sorting
  import opened Coverage
  import opened Dispatch
  import opened DispatchInvariant

  // ----------------------------------------------------------------------- exactly once

  predicate AllFinished(s: System) {
    forall c :: 0 <= c < |s.controllers| ==> s.controllers[c].phase.Finished?
  }

  /** All merges, controller by controller. */
  function AllMerges(controllers: seq<Controller>): seq<Merge> {
    if |controllers| == 0 then [] else AllMerges(controllers[..|controllers| - 1]) + controllers[|controllers| - 1].merged
  }

  function Batches(merges: seq<Merge>): seq<nat> {
    seq(|merges|, i requires 0 <= i < |merges| => merges[i].batch)
  }

  lemma {:induction false} MergeOrigin(controllers: seq<Controller>, m: Merge)
    ensures m in AllMerges(controllers) <==> exists c :: 0 <= c < |controllers| && m in controllers[c].merged
  {
    if |controllers| > 0 {
      var init, last := controllers[..|controllers| - 1], controllers[|controllers| - 1];
      MergeOrigin(init, m);
      if m in AllMerges(init) {
        var c :| 0 <= c < |init| && m in init[c].merged;
        assert controllers[c] == init[c];
      }
      if c :| 0 <= c < |controllers| && m in controllers[c].merged {
        assert c < |init| ==> init[c] == controllers[c];
      }
    }
  }

  lemma {:induction false} MergesDistinct(p: Setup, s: System, n: nat)
    requires Inv(p, s) && n <= |s.controllers|
    ensures Distinct(Batches(AllMerges(s.controllers[..n])))
  {
    if n > 0 {
      var init := s.controllers[..n - 1];
      assert s.controllers[..n][..n - 1] == init;
      var before, last := AllMerges(init), s.controllers[n - 1].merged;
      MergesDistinct(p, s, n - 1);
      assert GoodController(p, s, n - 1);
      assert Batches(before + last) == Batches(before) + Batches(last);
      forall i, j | 0 <= i < |before| && 0 <= j < |last|
        ensures before[i].batch != last[j].batch
      {
        MergeOrigin(init, before[i]);
        var c :| 0 <= c < |init| && before[i] in init[c].merged;
        assert GoodController(p, s, c);
        assert GoodMerge(p, s, c, before[i]) && GoodMerge(p, s, n - 1, last[j]);
      }
    }
  }

  /** Each batch is merged exactly once, and only from a lease issued for it. */
  lemma ExactlyOnce(p: Setup, s: System)
    requires Inv(p, s) && AllFinished(s) && |s.controllers| > 0
    ensures var merges := AllMerges(s.controllers);
            && Distinct(Batches(merges))
            && (forall b: nat :: b in Batches(merges) <==> b < |p.tasks|)
            && (forall m :: m in merges ==> m.lease < |s.issued| && s.issued[m.lease] == m.batch && m.batch < |p.tasks|
                                            && Covers(p.identity, m.results, p.tasks[m.batch]))
  {
    var merges := AllMerges(s.controllers);
    assert s.controllers[..|s.controllers|] == s.controllers;
    MergesDistinct(p, s, |s.controllers|);
    assert GoodController(p, s, 0);
    forall m | m in merges
      ensures m.lease < |s.issued| && s.issued[m.lease] == m.batch && m.batch < |p.tasks| && Covers(p.identity, m.results, p.tasks[m.batch])
    {
      MergeOrigin(s.controllers, m);
      var c :| 0 <= c < |s.controllers| && m in s.controllers[c].merged;
      assert GoodController(p, s, c) && GoodMerge(p, s, c, m);
    }
    forall b: nat | b < |p.tasks|
      ensures b in Batches(merges)
    {
      assert Placed(s, b);
      var k := s.controllers[s.owner[b]];
      var i :| 0 <= i < |k.merged| && k.merged[i].batch == b;
      MergeOrigin(s.controllers, k.merged[i]);
      var j :| 0 <= j < |merges| && merges[j] == k.merged[i];
      assert Batches(merges)[j] == b;
    }
  }

  // ---------------------------------------------------------------------------- coverage

  function AllResults(merges: seq<Merge>): seq<FileResult> {
    if |merges| == 0 then [] else merges[0].results + AllResults(merges[1..])
  }

  function AllFiles(tasks: seq<seq<string>>): seq<string> {
    if |tasks| == 0 then [] else AllFiles(tasks[..|tasks| - 1]) + tasks[|tasks| - 1]
  }

  predicate InRange(batches: seq<nat>, n: nat) {
    forall i :: 0 <= i < |batches| ==> batches[i] < n
  }

  /** What the listed batches name. */
  ghost function NamedBy(p: Setup, batches: seq<nat>): multiset<string>
    requires InRange(batches, |p.tasks|)
  {
    if |batches| == 0 then multiset{} else Named(p.identity, p.tasks[batches[0]]) + NamedBy(p, batches[1..])
  }

  lemma {:induction false} NamedByAround(p: Setup, batches: seq<nat>, k: nat)
    requires k < |batches| && InRange(batches, |p.tasks|)
    ensures InRange(Around(batches, k), |p.tasks|)
    ensures NamedBy(p, batches) == NamedBy(p, Around(batches, k)) + Named(p.identity, p.tasks[batches[k]])
  {
    if k > 0 {
      NamedByAround(p, batches[1..], k - 1);
      assert batches[1..][k - 1] == batches[k];
      assert Around(batches, k)[1..] == Around(batches[1..], k - 1);
    } else {
      assert Around(batches, 0) == batches[1..];
    }
  }

  /** Exactly the numbers below n, in some order. */
  ghost predicate ListsAll(batches: seq<nat>, n: nat) {
    Distinct(batches) && InRange(batches, n) && forall b: nat :: b < n ==> b in batches
  }

  lemma ListsFewer(batches: seq<nat>, n: nat, k: nat)
    requires ListsAll(batches, n + 1) && k < |batches| && batches[k] == n
    ensures ListsAll(Around(batches, k), n)
  {
    var rest := Around(batches, k);
    assert forall i :: 0 <= i < |rest| ==> rest[i] == batches[if i < k then i else i + 1];
    forall b: nat | b < n
      ensures b in rest
    {
      assert b in batches;
      var j :| 0 <= j < |batches| && batches[j] == b;
      assert rest[if j < k then j else j - 1] == b;
    }
  }

  /** A listing of all batches names what the batches together name. */
  lemma {:induction false} NamedByAll(p: Setup, batches: seq<nat>, n: nat)
    requires n <= |p.tasks| && ListsAll(batches, n)
    ensures NamedBy(p, batches) == Named(p.identity, AllFiles(p.tasks[..n]))
  {
    if n > 0 {
      var last: nat := n - 1;
      assert last in batches;
      var k :| 0 <= k < |batches| && batches[k] == last;
      NamedByAround(p, batches, k);
      ListsFewer(batches, last, k);
      NamedByAll(p, Around(batches, k), last);
      assert p.tasks[..n][..last] == p.tasks[..last];
      NamedConcat(p.identity, AllFiles(p.tasks[..last]), p.tasks[last]);
    } else {
      assert |batches| == 0;
    }
  }

  /** Every merged output covers its batch. */
  ghost predicate AllCover(p: Setup, merges: seq<Merge>) {
    forall i :: 0 <= i < |merges| ==> merges[i].batch < |p.tasks| && Covers(p.identity, merges[i].results, p.tasks[merges[i].batch])
  }

  lemma NamedResults(identity: Identity, a: seq<FileResult>, b: seq<FileResult>)
    ensures Named(identity, Paths(a + b)) == Named(identity, Paths(a)) + Named(identity, Paths(b))
  {
    assert Paths(a + b) == Paths(a) + Paths(b);
    NamedConcat(identity, Paths(a), Paths(b));
  }

  lemma {:induction false} ResultsNamed(p: Setup, merges: seq<Merge>)
    requires AllCover(p, merges)
    ensures InRange(Batches(merges), |p.tasks|)
    ensures Named(p.identity, Paths(AllResults(merges))) == NamedBy(p, Batches(merges))
  {
    if |merges| > 0 {
      var first, rest := merges[0], merges[1..];
      assert AllCover(p, rest) by {
        assert forall i :: 0 <= i < |rest| ==> rest[i] == merges[i + 1];
      }
      ResultsNamed(p, rest);
      assert Batches(merges)[1..] == Batches(rest);
      NamedResults(p.identity, first.results, AllResults(rest));
      assert Covers(p.identity, first.results, p.tasks[first.batch]);
    }
  }

  /** A finished run's results are a permutation of its input files. */
  lemma ResultsCoverInput(p: Setup, s: System)
    requires Inv(p, s) && AllFinished(s) && |s.controllers| > 0
    ensures Covers(p.identity, AllResults(AllMerges(s.controllers)), AllFiles(p.tasks))
  {
    var merges := AllMerges(s.controllers);
    ExactlyOnce(p, s);
    ResultsNamed(p, merges);
    NamedByAll(p, Batches(merges), |p.tasks|);
    assert p.tasks[..|p.tasks|] == p.tasks;
  }

  // ----------------------------------------------------------------------------- outcome

  datatype Outcome = Ordered(results: seq<FileResult>) | WorkerError | LearnedStateError | CoverageError(verdict: Verdict)

  /**
   Joins the controllers: one that failed fails the run, and so do shards of learned state
   that cannot be merged; otherwise the results are put in order. When the batches partition
   the expected files the final check never refuses.
   */
  method Join(p: Setup, s: System, expected: seq<string>, stateMerges: bool) returns (o: Outcome)
    requires Inv(p, s) && |s.controllers| > 0
    requires forall c :: 0 <= c < |s.controllers| ==> s.controllers[c].phase.Finished? || s.controllers[c].phase.Failed?
    requires Named(p.identity, AllFiles(p.tasks)) == Named(p.identity, expected)
    ensures o.WorkerError? <==> !AllFinished(s)
    ensures o.LearnedStateError? <==> AllFinished(s) && !stateMerges
    ensures o.Ordered? <==> AllFinished(s) && stateMerges
    ensures o.Ordered? ==> multiset(o.results) == multiset(AllResults(AllMerges(s.controllers))) && Covers(p.identity, o.results, expected)
    ensures o.Ordered? ==> forall i, j :: 0 <= i < j < |o.results| ==> !ResultBefore(p.identity, o.results[j], o.results[i])
  {
    var merged := [];
    for c := 0 to |s.controllers|
      invariant merged == AllMerges(s.controllers[..c])
      invariant forall d :: 0 <= d < c ==> s.controllers[d].phase.Finished?
    {
      if s.controllers[c].phase.Failed? {
        return WorkerError;
      }
      assert s.controllers[..c + 1][..c] == s.controllers[..c];
      merged := merged + s.controllers[c].merged;
    }
    assert s.controllers[..|s.controllers|] == s.controllers;
    if !stateMerges {
      return LearnedStateError;
    }
    ResultsCoverInput(p, s);
    var results := AllResults(merged);
    var v := ValidateAndOrder(p.identity, results, expected);
    PathsPermute(p.identity, v.results, results);
    o := Ordered(v.results);
  }

  /** Permuted results name the same files. */
  lemma {:induction false} PathsPermute(identity: Identity, a: seq<FileResult>, b: seq<FileResult>)
    requires multiset(a) == multiset(b)
    ensures Named(identity, Paths(a)) == Named(identity, Paths(b))
  {
    SameLength(a, b);
    if |a| > 0 {
      assert a[0] in multiset(b);
      var k :| 0 <= k < |b| && b[k] == a[0];
      RemoveOne(a, 0);
      RemoveOne(b, k);
      PathsPermute(identity, Around(a, 0), Around(b, k));
      NamedAround(identity, a, 0);
      NamedAround(identity, b, k);
    }
  }

  lemma NamedAround(identity: Identity, s: seq<FileResult>, k: nat)
    requires k < |s|
    ensures Named(identity, Paths(s)) == Named(identity, Paths(Around(s, k))) + multiset{identity(s[k].path)}
  {
    var keys := Keys(identity, Paths(s));
    RemoveOne(keys, k);
    assert Around(keys, k) == Keys(identity, Paths(Around(s, k)));
  }

  // ------------------------------------------------------------------------ stale replies

  /**
   A controller never sees a reply to an earlier lease: the reply it receives answers the
   request of its current attempt, so shard index and shard fingerprint always match.
   */
  lemma ReplyIsCurrent(p: Setup, s: System, c: nat)
    requires Inv(p, s) && c < |s.controllers| && s.controllers[c].phase.Waiting?
    requires s.controllers[c].worker < |s.workers| && |s.workers[s.controllers[c].worker].outbox| > 0
    requires s.workers[s.controllers[c].worker].outbox[0].Reply?
    ensures var o := s.workers[s.controllers[c].worker].outbox[0].output;
            var phase := s.controllers[c].phase;
            && o.lease == phase.lease && o.shard == phase.batch < |p.tasks|
            && o.shardFingerprint == Fingerprint(p, p.tasks[phase.batch])
  {
    assert GoodController(p, s, c) && GoodChannel(p, s, c);
  }

  /** No batch is attempted more often than the budget allows. */
  lemma AttemptsBounded(p: Setup, states: seq<System>, steps: seq<Step>, n: nat, batch: nat)
    requires IsRun(p, states, steps) && n <= |steps| && batch < |p.tasks|
    ensures |states[n].tries| == |p.tasks| && states[n].tries[batch] <= p.maxRestarts + 1
  {
    RunsKeep(p, states, steps, n);
  }

  // -------------------------------------------------------------------------- termination

  /** The work a controller may still cause, counting four for each attempt left. */
  function Effort(p: Setup, k: Controller): nat {
    match k.phase
    case Claiming => 1
    case Sending(_, attempt) => 4 * (p.maxRestarts - MinNat(attempt, p.maxRestarts)) + 4
    case Waiting(_, attempt, _) => 4 * (p.maxRestarts - MinNat(attempt, p.maxRestarts)) + 2
    case Finished => 0
    case Failed => 0
  }

  function Efforts(p: Setup, controllers: seq<Controller>): nat {
    if |controllers| == 0 then 0 else Effort(p, controllers[0]) + Efforts(p, controllers[1..])
  }

  /** Requests a worker may still answer, and its death. */
  function Load(w: Worker): nat { |w.inbox| + if w.alive then 1 else 0 }

  function Loads(workers: seq<Worker>): nat {
    if |workers| == 0 then 0 else Load(workers[0]) + Loads(workers[1..])
  }

  /** Bounds the number of steps still possible. */
  function Measure(p: Setup, s: System): nat {
    (if s.next < |p.tasks| then (|p.tasks| - s.next) * (4 * p.maxRestarts + 4) else 0) + Efforts(p, s.controllers) + Loads(s.workers)
  }

  lemma {:induction false} EffortsChange(p: Setup, controllers: seq<Controller>, c: nat, k: Controller)
    requires c < |controllers|
    ensures Efforts(p, controllers[c := k]) == Efforts(p, controllers) - Effort(p, controllers[c]) + Effort(p, k)
  {
    if c > 0 {
      assert controllers[c := k][1..] == controllers[1..][c - 1 := k];
      EffortsChange(p, controllers[1..], c - 1, k);
    } else {
      assert controllers[0 := k][1..] == controllers[1..];
    }
  }

  lemma {:induction false} LoadsChange(workers: seq<Worker>, w: nat, worker: Worker)
    requires w < |workers|
    ensures Loads(workers[w := worker]) == Loads(workers) - Load(workers[w]) + Load(worker)
  {
    if w > 0 {
      assert workers[w := worker][1..] == workers[1..][w - 1 := worker];
      LoadsChange(workers[1..], w - 1, worker);
    } else {
      assert workers[0 := worker][1..] == workers[1..];
    }
  }

  lemma {:induction false} LoadsGrow(workers: seq<Worker>, worker: Worker)
    ensures Loads(workers + [worker]) == Loads(workers) + Load(worker)
  {
    if |workers| > 0 {
      assert (workers + [worker])[1..] == workers[1..] + [worker];
      LoadsGrow(workers[1..], worker);
    } else {
      assert workers + [worker] == [worker];
    }
  }

  lemma RetryShrinks(p: Setup, s: System, c: nat, batch: nat, attempt: nat, respawned: bool)
    requires c < |s.controllers| && attempt <= p.maxRestarts
    requires Effort(p, s.controllers[c]) >= 4 * (p.maxRestarts - attempt) + 2
    ensures Measure(p, Retry(p, s, c, batch, attempt, respawned)) < Measure(p, s)
    ensures Effort(p, s.controllers[c]) >= 4 * (p.maxRestarts - attempt) + 4 ==> Measure(p, Retry(p, s, c, batch, attempt, respawned)) < Measure(p, s) - 1
  {
    var s' := Retry(p, s, c, batch, attempt, respawned);
    EffortsChange(p, s.controllers, c, s'.controllers[c]);
    LoadsGrow(s.workers, FRESH);
  }

  lemma ClaimShrinks(p: Setup, s: System, c: nat)
    requires c < |s.controllers| && s.controllers[c].phase.Claiming?
    ensures Measure(p, ClaimNext(p, s, c)) < Measure(p, s)
  {
    EffortsChange(p, s.controllers, c, ClaimNext(p, s, c).controllers[c]);
    if s.next < |p.tasks| {
      var each := 4 * p.maxRestarts + 4;
      assert (|p.tasks| - s.next) * each == (|p.tasks| - s.next - 1) * each + each;
    }
  }

  lemma SendShrinks(p: Setup, s: System, c: nat)
    requires Inv(p, s) && Shaped(p, s) && Enabled(p, s, Send(c))
    ensures Measure(p, Take(p, s, Send(c))) < Measure(p, s)
  {
    assert GoodController(p, s, c);
    var s' := Take(p, s, Send(c));
    var w := s.controllers[c].worker;
    EffortsChange(p, s.controllers, c, s'.controllers[c]);
    LoadsChange(s.workers, w, s'.workers[w]);
  }

  lemma SendFailsShrinks(p: Setup, s: System, c: nat, delivered: bool, respawned: bool)
    requires Inv(p, s) && Shaped(p, s) && Enabled(p, s, SendFails(c, delivered, respawned))
    ensures Measure(p, Take(p, s, SendFails(c, delivered, respawned))) < Measure(p, s)
  {
    assert GoodController(p, s, c);
    var batch, attempt := s.controllers[c].phase.batch, s.controllers[c].phase.attempt;
    var w := s.controllers[c].worker;
    var tried := Attempted(s, batch);
    var mid := if delivered then Deliver(p, tried, w, batch) else tried;
    if delivered {
      LoadsChange(s.workers, w, mid.workers[w]);
    }
    RetryShrinks(p, mid, c, batch, attempt, respawned);
  }

  lemma ReceiveShrinks(p: Setup, s: System, c: nat, respawned: bool)
    requires Inv(p, s) && Shaped(p, s) && Enabled(p, s, Receive(c, respawned))
    ensures Measure(p, Take(p, s, Receive(c, respawned))) < Measure(p, s)
  {
    assert GoodController(p, s, c);
    var k := s.controllers[c];
    var w := k.worker;
    var popped := WithWorker(s, w, s.workers[w].(outbox := s.workers[w].outbox[1..]));
    LoadsChange(s.workers, w, popped.workers[w]);
    var response := s.workers[w].outbox[0];
    if response.Reply? && Accepts(p, k.phase.batch, response.output) {
      EffortsChange(p, s.controllers, c, TakeOver(popped, c, k.phase.batch, response.output).controllers[c]);
    } else {
      RetryShrinks(p, popped, c, k.phase.batch, k.phase.attempt, respawned);
    }
  }

  /** Every step uses up some of what a run may still do. */
  lemma StepShrinks(p: Setup, s: System, step: Step)
    requires Inv(p, s) && Shaped(p, s) && Enabled(p, s, step)
    ensures Measure(p, Take(p, s, step)) < Measure(p, s)
  {
    match step
    case Claim(c) => ClaimShrinks(p, s, c);
    case Send(c) => SendShrinks(p, s, c);
    case SendFails(c, delivered, respawned) => SendFailsShrinks(p, s, c, delivered, respawned);
    case Receive(c, respawned) => ReceiveShrinks(p, s, c, respawned);
    case GiveUp(c, respawned) =>
      assert GoodController(p, s, c);
      RetryShrinks(p, s, c, s.controllers[c].phase.batch, s.controllers[c].phase.attempt, respawned);
    case Process(w, _) => LoadsChange(s.workers, w, Take(p, s, step).workers[w]);
    case ProcessFails(w) => LoadsChange(s.workers, w, Take(p, s, step).workers[w]);
    case Garble(w) => LoadsChange(s.workers, w, Take(p, s, step).workers[w]);
    case Die(w) => LoadsChange(s.workers, w, Take(p, s, step).workers[w]);
  }

  /** No run is longer than the measure of its first state. */
  lemma {:induction false} RunsEnd(p: Setup, states: seq<System>, steps: seq<Step>, n: nat)
    requires IsRun(p, states, steps) && n <= |steps|
    ensures n + Measure(p, states[n]) <= Measure(p, states[0])
  {
    if n > 0 {
      var m := n - 1;
      RunsEnd(p, states, steps, m);
      RunsKeep(p, states, steps, m);
      assert Taken(p, states[m], steps[m], states[m + 1]);
      StepShrinks(p, states[m], steps[m]);
    }
  }

  /** A controller that is neither finished nor failed can always go on, whatever its worker does. */
  lemma NeverStuck(p: Setup, s: System, c: nat)
    requires Inv(p, s) && c < |s.controllers| && !s.controllers[c].phase.Finished? && !s.controllers[c].phase.Failed?
    ensures Shaped(p, s) && exists step :: Enabled(p, s, step) && (step.Claim? || step.Send? || step.GiveUp?) && step.c == c
  {
    InvShaped(p, s);
    match s.controllers[c].phase
    case Claiming => assert Enabled(p, s, Claim(c));
    case Sending(_, _) => assert Enabled(p, s, Send(c));
    case Waiting(_, _, _) => assert Enabled(p, s, GiveUp(c, true));
  }

  /** A run that cannot go on has brought every controller to an end; if none failed it is complete. */
  lemma MaximalRuns(p: Setup, states: seq<System>, steps: seq<Step>)
    requires IsRun(p, states, steps) && |states[0].controllers| > 0
    requires var last := states[|steps|]; Shaped(p, last) ==> forall step :: !Enabled(p, last, step)
    ensures var last := states[|steps|];
            && (forall c :: 0 <= c < |last.controllers| ==> last.controllers[c].phase.Finished? || last.controllers[c].phase.Failed?)
            && (AllFinished(last) && |last.controllers| > 0 ==>
                  Covers(p.identity, AllResults(AllMerges(last.controllers)), AllFiles(p.tasks)))
  {
    var last := states[|steps|];
    RunsKeep(p, states, steps, |steps|);
    forall c | 0 <= c < |last.controllers|
      ensures last.controllers[c].phase.Finished? || last.controllers[c].phase.Failed?
    {
      if !last.controllers[c].phase.Finished? && !last.controllers[c].phase.Failed? {
        NeverStuck(p, last, c);
      }
    }
    if AllFinished(last) && |last.controllers| > 0 {
      ResultsCoverInput(p, last);
    }
  }
}
