/**
 That dispatch gets its work done: an honest answer to the current attempt is taken over, a
 controller fails only when its budget is used up or no worker can be started, and a run in
 which nothing goes wrong ends with every controller finished.
 */
module DispatchLiveness {
  import opened Sorting
  import opened Coverage
  import opened Dispatch
  import opened DispatchInvariant
  import opened DispatchOutcome

  // --------------------------------------------------------------------- honest answers

  lemma CoveringLength(identity: Identity, results: seq<FileResult>, paths: seq<string>)
    requires Covers(identity, results, paths)
    ensures |results| == |paths|
  {
    SameLength(Keys(identity, Paths(results)), Keys(identity, paths));
  }

  /** Whatever a worker makes of the files, its answer to the request for a batch is accepted exactly when the results cover the batch. */
  lemma AcceptedExactly(p: Setup, batch: nat, lease: nat, results: seq<FileResult>)
    requires batch < |p.tasks|
    ensures Accepts(p, batch, Answer(p, RequestFor(p, batch, lease), results).output) <==> Covers(p.identity, results, p.tasks[batch])
  {
    if Covers(p.identity, results, p.tasks[batch]) {
      CoveringLength(p.identity, results, p.tasks[batch]);
    }
  }

  /** What is accepted names the shard and the fingerprint of the request, whatever its lease; so nothing is accepted for two batches. */
  lemma AcceptedEchoes(p: Setup, batch: nat, lease: nat, o: Output)
    requires batch < |p.tasks| && Accepts(p, batch, o)
    ensures o.shard == RequestFor(p, batch, lease).shard && o.shardFingerprint == RequestFor(p, batch, lease).fingerprint
    ensures forall other :: 0 <= other < |p.tasks| && other != batch ==> !Accepts(p, other, o)
  {
  }

  /** The controller waits for an answer to its current request, and the worker has answered it with these results. */
  ghost predicate Answered(p: Setup, s: System, c: nat, results: seq<FileResult>) {
    && c < |s.controllers| && s.controllers[c].phase.Waiting? && s.controllers[c].worker < |s.workers|
    && s.controllers[c].phase.batch < |p.tasks|
    && var phase := s.controllers[c].phase;
       s.workers[s.controllers[c].worker].outbox == [Answer(p, RequestFor(p, phase.batch, phase.lease), results)]
  }

  /** Covering results, answered to the request of the current attempt, are merged, and the controller goes on. */
  lemma HonestAnswerMerged(p: Setup, s: System, c: nat, results: seq<FileResult>, respawned: bool)
    requires Shaped(p, s) && Answered(p, s, c, results)
    requires Covers(p.identity, results, p.tasks[s.controllers[c].phase.batch])
    ensures Enabled(p, s, Receive(c, respawned))
    ensures var k, k' := s.controllers[c], Take(p, s, Receive(c, respawned)).controllers[c];
            k'.phase == Claiming && k'.merged == k.merged + [Merge(k.phase.batch, k.phase.lease, results)] && k'.worker == k.worker
  {
    AcceptedExactly(p, s.controllers[c].phase.batch, s.controllers[c].phase.lease, results);
  }

  // ---------------------------------------------------------------------- why one fails

  /** The step gives up on the controller's batch: its budget is used up, or no replacement could be started. */
  ghost predicate GivesUp(p: Setup, s: System, step: Step, s': System, c: nat) {
    && c < |s.controllers| && (s.controllers[c].phase.Sending? || s.controllers[c].phase.Waiting?)
    && ((step.SendFails? && step.c == c) || (step.Receive? && step.c == c) || (step.GiveUp? && step.c == c))
    && s.controllers[c].phase.batch < |s'.tries|
    && (s'.tries[s.controllers[c].phase.batch] == p.maxRestarts + 1 || !step.respawned)
  }

  lemma FailsOnlyBy(p: Setup, s: System, step: Step, s': System, c: nat)
    requires Inv(p, s) && Taken(p, s, step, s') && c < |s.controllers| && !s.controllers[c].phase.Failed?
    ensures c < |s'.controllers| && (s'.controllers[c].phase.Failed? ==> GivesUp(p, s, step, s', c))
  {
    assert GoodController(p, s, c);
  }

  lemma {:induction false} SameControllers(p: Setup, states: seq<System>, steps: seq<Step>, n: nat)
    requires IsRun(p, states, steps) && n <= |steps|
    ensures |states[n].controllers| == |states[0].controllers|
  {
    if n > 0 {
      var m := n - 1;
      SameControllers(p, states, steps, m);
      assert Taken(p, states[m], steps[m], states[m + 1]);
    }
  }

  /** A controller that started well and has failed gave up in some step, for one of the two reasons. */
  lemma {:induction false} FailureHasReason(p: Setup, states: seq<System>, steps: seq<Step>, n: nat, c: nat) returns (i: nat)
    requires IsRun(p, states, steps) && n <= |steps| && c < |states[0].controllers|
    requires |states[n].controllers| == |states[0].controllers|
    requires states[0].controllers[c].phase == Claiming && states[n].controllers[c].phase.Failed?
    ensures i < n && GivesUp(p, states[i], steps[i], states[i + 1], c)
  {
    var m := n - 1;
    SameControllers(p, states, steps, m);
    RunsKeep(p, states, steps, m);
    assert Taken(p, states[m], steps[m], states[m + 1]);
    if states[m].controllers[c].phase.Failed? {
      i := FailureHasReason(p, states, steps, m, c);
    } else {
      FailsOnlyBy(p, states[m], steps[m], states[n], c);
      i := m;
    }
  }

  // ------------------------------------------------------------------------ smooth runs

  /** A step in which nothing goes wrong; what a worker makes of its request covers it. */
  ghost predicate Smooth(p: Setup, s: System, step: Step) {
    match step
    case Claim(_) => true
    case Send(_) => true
    case Receive(_, _) => true
    case Process(w, results) => w < |s.workers| && |s.workers[w].inbox| > 0 && Covers(p.identity, results, s.workers[w].inbox[0].files)
    case _ => false
  }

  /** The request of the current attempt is with a worker that lives, or answered with covering results. */
  ghost predicate InGoodHands(p: Setup, s: System, c: nat)
    requires c < |s.controllers|
  {
    var k := s.controllers[c];
    && !k.phase.Failed? && k.worker < |s.workers| && s.workers[k.worker].alive
    && (k.phase.Waiting? ==> k.phase.batch < |p.tasks|)
    && (k.phase.Waiting? && s.workers[k.worker].inbox != [RequestFor(p, k.phase.batch, k.phase.lease)] ==>
          exists results :: Answered(p, s, c, results) && Covers(p.identity, results, p.tasks[k.phase.batch]))
  }

  ghost predicate AllInGoodHands(p: Setup, s: System) {
    forall c :: 0 <= c < |s.controllers| ==> InGoodHands(p, s, c)
  }

  lemma OthersStay(p: Setup, s: System, s': System, c: nat, d: nat)
    requires |s'.controllers| == |s.controllers| && d < |s.controllers| && InGoodHands(p, s, d)
    requires s'.controllers[d] == s.controllers[d] && |s.workers| <= |s'.workers| && s'.workers[s.controllers[d].worker] == s.workers[s.controllers[d].worker]
    ensures InGoodHands(p, s', d)
  {
    if s.controllers[d].phase.Waiting? && s.workers[s.controllers[d].worker].inbox != [RequestFor(p, s.controllers[d].phase.batch, s.controllers[d].phase.lease)] {
      var results :| Answered(p, s, d, results) && Covers(p.identity, results, p.tasks[s.controllers[d].phase.batch]);
      assert Answered(p, s', d, results);
    }
  }

  lemma ProcessedWell(p: Setup, s: System, w: nat, results: seq<FileResult>, c: nat)
    requires Inv(p, s) && Shaped(p, s) && AllInGoodHands(p, s) && Enabled(p, s, Process(w, results)) && Smooth(p, s, Process(w, results))
    requires c < |s.controllers|
    ensures InGoodHands(p, Take(p, s, Process(w, results)), c)
  {
    var s' := Take(p, s, Process(w, results));
    assert GoodController(p, s, c) && GoodChannel(p, s, c) && InGoodHands(p, s, c);
    if s.controllers[c].worker == w {
      var phase := s.controllers[c].phase;
      if phase.Waiting? {
        assert s.workers[w].inbox == [RequestFor(p, phase.batch, phase.lease)];
        assert Answered(p, s', c, results);
      }
    } else {
      OthersStay(p, s, s', c, c);
    }
  }

  lemma SmoothKeeps(p: Setup, s: System, step: Step)
    requires Inv(p, s) && Shaped(p, s) && Enabled(p, s, step) && Smooth(p, s, step) && AllInGoodHands(p, s)
    ensures AllInGoodHands(p, Take(p, s, step))
  {
    var s' := Take(p, s, step);
    forall d | 0 <= d < |s'.controllers|
      ensures InGoodHands(p, s', d)
    {
      assert GoodController(p, s, d) && GoodChannel(p, s, d) && InGoodHands(p, s, d);
      if step.Process? {
        ProcessedWell(p, s, step.w, step.results, d);
      } else if step.c != d {
        assert s.controllers[d].worker != s.controllers[step.c].worker by {
          assert d < step.c || step.c < d;
        }
        OthersStay(p, s, s', step.c, d);
      } else if step.Receive? {
        ReceivedWell(p, s, d, step.respawned);
      }
    }
  }

  lemma ReceivedWell(p: Setup, s: System, c: nat, respawned: bool)
    requires Inv(p, s) && Shaped(p, s) && Enabled(p, s, Receive(c, respawned)) && InGoodHands(p, s, c)
    ensures InGoodHands(p, Take(p, s, Receive(c, respawned)), c)
  {
    assert GoodController(p, s, c) && GoodChannel(p, s, c);
    var results :| Answered(p, s, c, results) && Covers(p.identity, results, p.tasks[s.controllers[c].phase.batch]);
    HonestAnswerMerged(p, s, c, results, respawned);
  }

  lemma {:induction false} SmoothRunKeeps(p: Setup, states: seq<System>, steps: seq<Step>, n: nat)
    requires IsRun(p, states, steps) && n <= |steps|
    requires forall c :: 0 <= c < |states[0].controllers| ==> states[0].controllers[c].phase == Claiming
    requires forall i :: 0 <= i < n ==> Smooth(p, states[i], steps[i])
    ensures AllInGoodHands(p, states[n])
  {
    if n > 0 {
      var m := n - 1;
      SmoothRunKeeps(p, states, steps, m);
      RunsKeep(p, states, steps, m);
      assert Taken(p, states[m], steps[m], states[m + 1]);
      SmoothKeeps(p, states[m], steps[m]);
    }
  }

  /** One result for each path. */
  function Untouched(paths: seq<string>): (results: seq<FileResult>)
    ensures |results| == |paths| && forall i :: 0 <= i < |paths| ==> results[i].path == paths[i]
  {
    seq(|paths|, i requires 0 <= i < |paths| => FileResult(paths[i], ""))
  }

  /** A controller at work, in good hands, can always go on smoothly. */
  lemma SmoothGoesOn(p: Setup, s: System, c: nat) returns (step: Step)
    requires Inv(p, s) && Shaped(p, s) && c < |s.controllers| && InGoodHands(p, s, c) && !s.controllers[c].phase.Finished?
    ensures Enabled(p, s, step) && Smooth(p, s, step)
  {
    var k := s.controllers[c];
    match k.phase
    case Claiming => step := Claim(c);
    case Sending(_, _) => step := Send(c);
    case Waiting(batch, _, lease) =>
      if s.workers[k.worker].inbox == [RequestFor(p, batch, lease)] {
        var files := p.tasks[batch];
        assert Paths(Untouched(files)) == files;
        step := Process(k.worker, Untouched(files));
      } else {
        step := Receive(c, true);
      }
  }

  /**
   A run from well-started controllers in which nothing goes wrong, carried on until no such
   step is left, ends with every controller finished, each batch merged once and all files covered.
   */
  lemma SmoothRunsFinish(p: Setup, states: seq<System>, steps: seq<Step>)
    requires IsRun(p, states, steps) && |states[0].controllers| > 0
    requires forall c :: 0 <= c < |states[0].controllers| ==> states[0].controllers[c].phase == Claiming
    requires forall i :: 0 <= i < |steps| ==> Smooth(p, states[i], steps[i])
    requires var last := states[|steps|]; Shaped(p, last) ==> forall step :: Enabled(p, last, step) ==> !Smooth(p, last, step)
    ensures var last := states[|steps|];
            AllFinished(last) && Covers(p.identity, AllResults(AllMerges(last.controllers)), AllFiles(p.tasks))
  {
    var last := states[|steps|];
    RunsKeep(p, states, steps, |steps|);
    SmoothRunKeeps(p, states, steps, |steps|);
    SameControllers(p, states, steps, |steps|);
    InvShaped(p, last);
    forall c | 0 <= c < |last.controllers|
      ensures last.controllers[c].phase.Finished?
    {
      assert InGoodHands(p, last, c);
      if !last.controllers[c].phase.Finished? {
        var step := SmoothGoesOn(p, last, c);
      }
    }
    ResultsCoverInput(p, last);
  }
}
