/** Every step of the dispatch keeps its invariant, so every reachable system satisfies it. */
module DispatchInvariant {
  import opened Dispatch

  /** From s to s' only controller c and its workers have moved. */
  ghost predicate OnlyMoved(s: System, s': System, c: nat) {
    && c < |s.controllers| == |s'.controllers|
    && (forall d :: 0 <= d < |s.controllers| && d != c ==> s'.controllers[d] == s.controllers[d])
    && s.owner <= s'.owner && s.issued <= s'.issued && s.next <= s'.next
    && (forall b :: |s.owner| <= b < |s'.owner| ==> s'.owner[b] == c)
    && |s.workers| <= |s'.workers|
    && (forall w :: 0 <= w < |s.workers| && w != s.controllers[c].worker ==> s'.workers[w] == s.workers[w])
    && (s'.controllers[c].worker == s.controllers[c].worker || s'.controllers[c].worker >= |s.workers|)
    && |s'.tries| == |s.tries|
    && (forall b :: 0 <= b < |s.tries| && (b >= |s'.owner| || s'.owner[b] != c) ==> s'.tries[b] == s.tries[b])
  }

  /** A controller that has not moved is as good as before. */
  lemma Bystander(p: Setup, s: System, s': System, c: nat, d: nat)
    requires Inv(p, s) && OnlyMoved(s, s', c) && d < |s.controllers| && d != c
    ensures GoodController(p, s', d) && GoodChannel(p, s', d)
  {
    assert GoodController(p, s, d) && GoodChannel(p, s, d);
    var k := s.controllers[d];
    forall i | 0 <= i < |k.merged|
      ensures GoodMerge(p, s', d, k.merged[i])
    {
      assert GoodMerge(p, s, d, k.merged[i]);
    }
    assert k.worker != s.controllers[c].worker by {
      assert c < d || d < c;
    }
    if k.phase.Sending? || k.phase.Waiting? {
      assert s'.owner[k.phase.batch] == d;
    }
  }

  lemma StillOwnWorkers(s: System, s': System, c: nat)
    requires OwnWorkers(s) && OnlyMoved(s, s', c)
    requires forall d :: 0 <= d < |s.controllers| ==> s.controllers[d].worker < |s.workers|
    ensures OwnWorkers(s')
  {
  }

  /** It is enough to look at the controller that has moved. */
  lemma InvFromOne(p: Setup, s: System, s': System, c: nat)
    requires Inv(p, s) && OnlyMoved(s, s', c) && |s'.owner| == Claimed(p, s')
    requires GoodController(p, s', c) && GoodChannel(p, s', c)
    requires forall b :: 0 <= b < |s'.owner| && s'.owner[b] == c ==> Placed(s', b) && b < |s'.tries| && s'.tries[b] <= p.maxRestarts + 1
    ensures Inv(p, s')
  {
    forall d | 0 <= d < |s'.controllers|
      ensures GoodController(p, s', d) && GoodChannel(p, s', d)
    {
      if d != c {
        Bystander(p, s, s', c, d);
      }
    }
    forall d | 0 <= d < |s.controllers|
      ensures s.controllers[d].worker < |s.workers|
    {
      assert GoodController(p, s, d);
    }
    StillOwnWorkers(s, s', c);
    forall b | 0 <= b < |s'.owner|
      ensures Placed(s', b)
    {
      if s'.owner[b] != c {
        assert Placed(s, b);
      }
    }
  }

  lemma InvShaped(p: Setup, s: System)
    requires Inv(p, s)
    ensures Shaped(p, s)
  {
    forall c | 0 <= c < |s.controllers|
      ensures s.controllers[c].worker < |s.workers|
      ensures (s.controllers[c].phase.Sending? || s.controllers[c].phase.Waiting?) ==> s.controllers[c].phase.batch < |p.tasks|
    {
      assert GoodController(p, s, c);
    }
  }

  lemma ClaimKeeps(p: Setup, s: System, c: nat)
    requires Inv(p, s) && Shaped(p, s) && Enabled(p, s, Claim(c))
    ensures Inv(p, Take(p, s, Claim(c)))
  {
    var s' := Take(p, s, Claim(c));
    var k := s.controllers[c];
    assert GoodController(p, s, c) && GoodChannel(p, s, c);
    forall i | 0 <= i < |k.merged|
      ensures GoodMerge(p, s', c, k.merged[i])
    {
      assert GoodMerge(p, s, c, k.merged[i]);
    }
    forall b | 0 <= b < |s'.owner| && s'.owner[b] == c
      ensures Placed(s', b)
    {
      if b < |s.owner| {
        assert Placed(s, b);
        assert HasMerged(s'.controllers[c], b);
      } else {
        assert Working(s'.controllers[c], b);
      }
    }
    InvFromOne(p, s, s', c);
  }

  /** A working controller's other batches are merged. */
  lemma OthersMerged(p: Setup, s: System, c: nat, b: nat)
    requires Inv(p, s) && c < |s.controllers| && b < |s.owner| && s.owner[b] == c
    requires (s.controllers[c].phase.Sending? || s.controllers[c].phase.Waiting?) && b != s.controllers[c].phase.batch
    ensures HasMerged(s.controllers[c], b)
  {
    assert Placed(s, b);
  }

  /** Outputs already merged stay good when only new batches and leases are added. */
  lemma MergesStayGood(p: Setup, s: System, s': System, c: nat)
    requires c < |s.controllers| && |s.tries| == |p.tasks| && GoodController(p, s, c)
    requires s.owner <= s'.owner && s.issued <= s'.issued
    ensures forall i :: 0 <= i < |s.controllers[c].merged| ==> GoodMerge(p, s', c, s.controllers[c].merged[i])
  {
    forall i | 0 <= i < |s.controllers[c].merged|
      ensures GoodMerge(p, s', c, s.controllers[c].merged[i])
    {
      assert GoodMerge(p, s, c, s.controllers[c].merged[i]);
    }
  }

  lemma SendKeeps(p: Setup, s: System, c: nat)
    requires Inv(p, s) && Shaped(p, s) && Enabled(p, s, Send(c))
    ensures Inv(p, Take(p, s, Send(c)))
  {
    var s' := Take(p, s, Send(c));
    assert GoodController(p, s, c) && GoodChannel(p, s, c);
    MergesStayGood(p, s, s', c);
    assert s'.workers[s.controllers[c].worker].inbox == [RequestFor(p, s.controllers[c].phase.batch, |s.issued|)];
    assert s'.controllers[c].merged == s.controllers[c].merged;
    forall b | 0 <= b < |s'.owner| && s'.owner[b] == c
      ensures Placed(s', b)
    {
      if b == s.controllers[c].phase.batch {
        assert Working(s'.controllers[c], b);
      } else {
        OthersMerged(p, s, c, b);
        assert HasMerged(s'.controllers[c], b);
      }
    }
    assert OnlyMoved(s, s', c);
    InvFromOne(p, s, s', c);
  }

  /**
   A failed attempt keeps the invariant: mid is the state in which the attempt counts as made,
   with whatever it left behind in the old worker's channel.
   */
  lemma RetryKeeps(p: Setup, s: System, mid: System, c: nat, batch: nat, attempt: nat, respawned: bool)
    requires Inv(p, s) && c < |s.controllers| && OnlyMoved(s, mid, c)
    requires mid.controllers == s.controllers && mid.owner == s.owner && mid.next == s.next && |mid.workers| == |s.workers|
    requires (s.controllers[c].phase.Sending? || s.controllers[c].phase.Waiting?)
    requires batch == s.controllers[c].phase.batch && attempt == s.controllers[c].phase.attempt
    requires batch < |mid.tries| && mid.tries[batch] == attempt + 1
    requires forall b :: 0 <= b < |s.tries| && b != batch ==> mid.tries[b] == s.tries[b]
    ensures Inv(p, Retry(p, mid, c, batch, attempt, respawned))
  {
    var s' := Retry(p, mid, c, batch, attempt, respawned);
    assert GoodController(p, s, c);
    MergesStayGood(p, s, s', c);
    assert s'.controllers[c].merged == s.controllers[c].merged;
    forall b | 0 <= b < |s'.owner| && s'.owner[b] == c
      ensures Placed(s', b)
    {
      if b == batch {
        assert s'.controllers[c].phase.Failed? || Working(s'.controllers[c], b);
      } else {
        OthersMerged(p, s, c, b);
        assert HasMerged(s'.controllers[c], b);
      }
    }
    assert HasMerged(s'.controllers[c], batch) == HasMerged(s.controllers[c], batch);
    assert OnlyMoved(s, s', c);
    InvFromOne(p, s, s', c);
  }

  lemma SendFailsKeeps(p: Setup, s: System, c: nat, delivered: bool, respawned: bool)
    requires Inv(p, s) && Shaped(p, s) && Enabled(p, s, SendFails(c, delivered, respawned))
    ensures Inv(p, Take(p, s, SendFails(c, delivered, respawned)))
  {
    var batch, attempt := s.controllers[c].phase.batch, s.controllers[c].phase.attempt;
    assert GoodController(p, s, c);
    var tried := Attempted(s, batch);
    var mid := if delivered then Deliver(p, tried, s.controllers[c].worker, batch) else tried;
    RetryKeeps(p, s, mid, c, batch, attempt, respawned);
  }

  lemma GiveUpKeeps(p: Setup, s: System, c: nat, respawned: bool)
    requires Inv(p, s) && Shaped(p, s) && Enabled(p, s, GiveUp(c, respawned))
    ensures Inv(p, Take(p, s, GiveUp(c, respawned)))
  {
    assert GoodController(p, s, c);
    RetryKeeps(p, s, s, c, s.controllers[c].phase.batch, s.controllers[c].phase.attempt, respawned);
  }

  lemma ReceiveKeeps(p: Setup, s: System, c: nat, respawned: bool)
    requires Inv(p, s) && Shaped(p, s) && Enabled(p, s, Receive(c, respawned))
    ensures Inv(p, Take(p, s, Receive(c, respawned)))
  {
    var k := s.controllers[c];
    var w := k.worker;
    var response := s.workers[w].outbox[0];
    var popped := WithWorker(s, w, s.workers[w].(outbox := s.workers[w].outbox[1..]));
    assert GoodController(p, s, c) && GoodChannel(p, s, c);
    if response.Reply? && Accepts(p, k.phase.batch, response.output) {
      assert s.workers[w].outbox[1..] == [];
      TakeOverKeeps(p, s, popped, c, response.output);
    } else {
      RetryKeeps(p, s, popped, c, k.phase.batch, k.phase.attempt, respawned);
    }
  }

  lemma TakeOverKeeps(p: Setup, s: System, popped: System, c: nat, o: Output)
    requires Inv(p, s) && c < |s.controllers| && s.controllers[c].phase.Waiting? && s.controllers[c].worker < |s.workers|
    requires popped == WithWorker(s, s.controllers[c].worker, s.workers[s.controllers[c].worker].(outbox := []))
    requires s.workers[s.controllers[c].worker].inbox == []
    requires s.controllers[c].phase.batch < |p.tasks| && Accepts(p, s.controllers[c].phase.batch, o)
    requires o.lease == s.controllers[c].phase.lease
    ensures Inv(p, TakeOver(popped, c, s.controllers[c].phase.batch, o))
  {
    var k := s.controllers[c];
    var batch := k.phase.batch;
    var s' := TakeOver(popped, c, batch, o);
    var k' := s'.controllers[c];
    assert GoodController(p, s, c) && GoodChannel(p, s, c);
    MergesStayGood(p, s, s', c);
    assert GoodMerge(p, s', c, Merge(batch, o.lease, o.results));
    forall i, j | 0 <= i < j < |k'.merged|
      ensures k'.merged[i].batch != k'.merged[j].batch
    {
      assert !HasMerged(k, batch);
    }
    forall b | 0 <= b < |s'.owner| && s'.owner[b] == c
      ensures Placed(s', b)
    {
      if b == batch {
        assert k'.merged[|k.merged|].batch == b;
      } else {
        OthersMerged(p, s, c, b);
        var i :| 0 <= i < |k.merged| && k.merged[i].batch == b;
        assert k'.merged[i].batch == b;
      }
      assert HasMerged(k', b);
    }
    assert OnlyMoved(s, s', c);
    InvFromOne(p, s, s', c);
  }

  /** A worker answers, or dies; only the controller it belongs to can notice. */
  lemma WorkerKeeps(p: Setup, s: System, w: nat, worker: Worker)
    requires Inv(p, s) && w < |s.workers|
    requires (worker.inbox == s.workers[w].inbox && worker.outbox == s.workers[w].outbox)
          || (|s.workers[w].inbox| > 0 && worker.inbox == s.workers[w].inbox[1..]
              && exists r :: worker.outbox == s.workers[w].outbox + [r] && (r.Reply? ==> AnswersRequest(r, s.workers[w].inbox[0])))
    ensures Inv(p, WithWorker(s, w, worker))
  {
    var s' := WithWorker(s, w, worker);
    forall c | 0 <= c < |s'.controllers|
      ensures GoodController(p, s', c) && GoodChannel(p, s', c)
    {
      assert GoodController(p, s, c) && GoodChannel(p, s, c);
      forall i | 0 <= i < |s.controllers[c].merged|
        ensures GoodMerge(p, s', c, s.controllers[c].merged[i])
      {
        assert GoodMerge(p, s, c, s.controllers[c].merged[i]);
      }
    }
    forall b | 0 <= b < |s'.owner|
      ensures Placed(s', b)
    {
      assert Placed(s, b);
    }
  }

  /** The reply echoes the request. */
  predicate AnswersRequest(r: Response, q: Request)
    requires r.Reply?
  {
    r.output.lease == q.lease && r.output.shard == q.shard && r.output.shardFingerprint == q.fingerprint
  }

  lemma StepKeeps(p: Setup, s: System, step: Step)
    requires Inv(p, s) && Shaped(p, s) && Enabled(p, s, step)
    ensures Inv(p, Take(p, s, step))
  {
    match step
    case Claim(c) => ClaimKeeps(p, s, c);
    case Send(c) => SendKeeps(p, s, c);
    case SendFails(c, delivered, respawned) => SendFailsKeeps(p, s, c, delivered, respawned);
    case Receive(c, respawned) => ReceiveKeeps(p, s, c, respawned);
    case GiveUp(c, respawned) => GiveUpKeeps(p, s, c, respawned);
    case Process(w, results) =>
      var r := Answer(p, s.workers[w].inbox[0], results);
      WorkerKeeps(p, s, w, s.workers[w].(inbox := s.workers[w].inbox[1..], outbox := s.workers[w].outbox + [r]));
    case ProcessFails(w) =>
      var r := Failure;
      WorkerKeeps(p, s, w, s.workers[w].(inbox := s.workers[w].inbox[1..], outbox := s.workers[w].outbox + [r]));
    case Garble(w) =>
      var r := Garbled;
      WorkerKeeps(p, s, w, s.workers[w].(inbox := s.workers[w].inbox[1..], outbox := s.workers[w].outbox + [r]));
    case Die(w) => WorkerKeeps(p, s, w, s.workers[w].(alive := false));
  }

  lemma InitialInv(p: Setup, s: System)
    requires Initial(p, s)
    ensures Inv(p, s)
  {
    forall c | 0 <= c < |s.controllers|
      ensures GoodController(p, s, c) && GoodChannel(p, s, c)
    {
      assert s.workers[c] == FRESH;
    }
  }

  // -------------------------------------------------------------------------------- runs

  ghost predicate IsRun(p: Setup, states: seq<System>, steps: seq<Step>) {
    && |states| == |steps| + 1 && Initial(p, states[0])
    && forall i :: 0 <= i < |steps| ==> Taken(p, states[i], steps[i], states[i + 1])
  }

  ghost predicate Taken(p: Setup, s: System, step: Step, s': System) {
    Shaped(p, s) && Enabled(p, s, step) && s' == Take(p, s, step)
  }

  /** Every state of every run satisfies the invariant. */
  lemma {:induction false} RunsKeep(p: Setup, states: seq<System>, steps: seq<Step>, n: nat)
    requires IsRun(p, states, steps) && n <= |steps|
    ensures Inv(p, states[n])
  {
    if n == 0 {
      InitialInv(p, states[0]);
    } else {
      var m := n - 1;
      RunsKeep(p, states, steps, m);
      assert Taken(p, states[m], steps[m], states[m + 1]);
      StepKeeps(p, states[m], steps[m]);
    }
  }
}
