/**
 Batch dispatch as a step relation. Controllers claim batches from one shared counter, each
 talks to a worker of its own, and a worker that fails or times out is replaced, channel and
 all, while the restart budget lasts.
 */
module Dispatch {
  import opened Coverage

  /** The batches, the restart budget, and how files and coverage are identified. */
  datatype Setup = Setup(tasks: seq<seq<string>>, maxRestarts: nat, identity: Identity, fingerprint: multiset<string> -> string)

  /** The lease tells attempts apart; no code reads it. */
  datatype Request = Request(lease: nat, shard: nat, fingerprint: string, files: seq<string>)

  datatype Output = Output(lease: nat, shard: nat, shardFingerprint: string, resultFingerprint: string, results: seq<FileResult>)

  datatype Response = Reply(output: Output) | Failure | Garbled

  datatype Worker = Worker(inbox: seq<Request>, outbox: seq<Response>, alive: bool)

  datatype Phase =
    | Claiming
    | Sending(batch: nat, attempt: nat)
    | Waiting(batch: nat, attempt: nat, lease: nat)
    | Finished
    | Failed

  /** A batch whose output has been taken over. */
  datatype Merge = Merge(batch: nat, lease: nat, results: seq<FileResult>)

  datatype Controller = Controller(phase: Phase, worker: nat, merged: seq<Merge>)

  /**
   The counter, the controllers and all workers ever spawned. The rest is history: who
   claimed a batch, how often it was attempted, and for which batch each lease was issued.
   */
  datatype System = System(next: nat, controllers: seq<Controller>, workers: seq<Worker>,
                           owner: seq<nat>, tries: seq<nat>, issued: seq<nat>)

  const FRESH: Worker := Worker([], [], true)

  function Fingerprint(p: Setup, paths: seq<string>): string { p.fingerprint(multiset(Keys(p.identity, paths))) }

  function RequestFor(p: Setup, batch: nat, lease: nat): Request
    requires batch < |p.tasks|
  {
    Request(lease, batch, Fingerprint(p, p.tasks[batch]), p.tasks[batch])
  }

  /** What the worker side answers: it echoes the manifest and reports on what it made of the files. */
  function Answer(p: Setup, r: Request, results: seq<FileResult>): Response {
    Reply(Output(r.lease, r.shard, r.fingerprint, Fingerprint(p, Paths(results)), results))
  }

  /** The checks an output has to pass. */
  predicate Accepts(p: Setup, batch: nat, o: Output)
    requires batch < |p.tasks|
  {
    && o.shard == batch
    && o.shardFingerprint == Fingerprint(p, p.tasks[batch])
    && o.resultFingerprint == Fingerprint(p, p.tasks[batch])
    && |o.results| == |p.tasks[batch]|
    && multiset(Keys(p.identity, Paths(o.results))) == multiset(Keys(p.identity, p.tasks[batch]))
  }

  // ------------------------------------------------------------------------------- steps

  datatype Step =
    | Claim(c: nat)
    | Send(c: nat)
    | SendFails(c: nat, delivered: bool, respawned: bool)
    | Receive(c: nat, respawned: bool)
    | GiveUp(c: nat, respawned: bool)
    | Process(w: nat, results: seq<FileResult>)
    | ProcessFails(w: nat)
    | Garble(w: nat)
    | Die(w: nat)

  function WithPhase(s: System, c: nat, phase: Phase): System
    requires c < |s.controllers|
  {
    s.(controllers := s.controllers[c := s.controllers[c].(phase := phase)])
  }

  function WithWorker(s: System, w: nat, worker: Worker): System
    requires w < |s.workers|
  {
    s.(workers := s.workers[w := worker])
  }

  /** A failed attempt: with budget left the worker is replaced by a fresh one and the batch tried again. */
  function Retry(p: Setup, s: System, c: nat, batch: nat, attempt: nat, respawned: bool): System
    requires c < |s.controllers|
  {
    if attempt >= p.maxRestarts || !respawned then WithPhase(s, c, Failed) else
      s.(workers := s.workers + [FRESH],
         controllers := s.controllers[c := s.controllers[c].(phase := Sending(batch, attempt + 1), worker := |s.workers|)])
  }

  /** Takes the next number; past the last batch the controller is done. */
  function ClaimNext(p: Setup, s: System, c: nat): System
    requires c < |s.controllers|
  {
    var taken := s.(next := s.next + 1);
    if s.next < |p.tasks| then WithPhase(taken.(owner := s.owner + [c]), c, Sending(s.next, 0))
    else WithPhase(taken, c, Finished)
  }

  /** One more attempt at a batch. */
  function Attempted(s: System, batch: nat): System
    requires batch < |s.tries|
  {
    s.(tries := s.tries[batch := s.tries[batch] + 1])
  }

  function Deliver(p: Setup, s: System, w: nat, batch: nat): System
    requires w < |s.workers| && batch < |p.tasks|
  {
    WithWorker(s, w, s.workers[w].(inbox := s.workers[w].inbox + [RequestFor(p, batch, |s.issued|)])).(issued := s.issued + [batch])
  }

  /** Takes over an output. */
  function TakeOver(s: System, c: nat, batch: nat, o: Output): System
    requires c < |s.controllers|
  {
    s.(controllers := s.controllers[c := s.controllers[c].(phase := Claiming, merged := s.controllers[c].merged + [Merge(batch, o.lease, o.results)])])
  }

  function Received(p: Setup, s: System, c: nat, batch: nat, attempt: nat, response: Response, respawned: bool): System
    requires c < |s.controllers| && batch < |p.tasks|
  {
    if response.Reply? && Accepts(p, batch, response.output) then TakeOver(s, c, batch, response.output)
    else Retry(p, s, c, batch, attempt, respawned)
  }

  function Respond(s: System, w: nat, response: Response): System
    requires w < |s.workers| && |s.workers[w].inbox| > 0
  {
    WithWorker(s, w, s.workers[w].(inbox := s.workers[w].inbox[1..], outbox := s.workers[w].outbox + [response]))
  }

  /** Sizes and indices fit together. */
  predicate Shaped(p: Setup, s: System) {
    && |s.tries| == |p.tasks|
    && (forall c :: 0 <= c < |s.controllers| ==>
          && s.controllers[c].worker < |s.workers|
          && ((s.controllers[c].phase.Sending? || s.controllers[c].phase.Waiting?) ==> s.controllers[c].phase.batch < |p.tasks|))
  }

  /** When a step can be taken. */
  predicate Enabled(p: Setup, s: System, step: Step)
    requires Shaped(p, s)
  {
    match step
    case Claim(c) => c < |s.controllers| && s.controllers[c].phase.Claiming?
    case Send(c) => c < |s.controllers| && s.controllers[c].phase.Sending?
    case SendFails(c, _, _) => c < |s.controllers| && s.controllers[c].phase.Sending?
    case Receive(c, _) => c < |s.controllers| && s.controllers[c].phase.Waiting? && |s.workers[s.controllers[c].worker].outbox| > 0
    case GiveUp(c, _) => c < |s.controllers| && s.controllers[c].phase.Waiting?
    case Process(w, _) => w < |s.workers| && s.workers[w].alive && |s.workers[w].inbox| > 0
    case ProcessFails(w) => w < |s.workers| && s.workers[w].alive && |s.workers[w].inbox| > 0
    case Garble(w) => w < |s.workers| && s.workers[w].alive && |s.workers[w].inbox| > 0
    case Die(w) => w < |s.workers| && s.workers[w].alive
  }

  function Take(p: Setup, s: System, step: Step): System
    requires Shaped(p, s) && Enabled(p, s, step)
  {
    match step
    case Claim(c) => ClaimNext(p, s, c)
    case Send(c) =>
      var batch, attempt := s.controllers[c].phase.batch, s.controllers[c].phase.attempt;
      WithPhase(Deliver(p, Attempted(s, batch), s.controllers[c].worker, batch), c, Waiting(batch, attempt, |s.issued|))
    case SendFails(c, delivered, respawned) =>
      var batch, attempt := s.controllers[c].phase.batch, s.controllers[c].phase.attempt;
      var tried := Attempted(s, batch);
      Retry(p, if delivered then Deliver(p, tried, s.controllers[c].worker, batch) else tried, c, batch, attempt, respawned)
    case Receive(c, respawned) =>
      var w := s.controllers[c].worker;
      var popped := WithWorker(s, w, s.workers[w].(outbox := s.workers[w].outbox[1..]));
      Received(p, popped, c, s.controllers[c].phase.batch, s.controllers[c].phase.attempt, s.workers[w].outbox[0], respawned)
    case GiveUp(c, respawned) =>
      Retry(p, s, c, s.controllers[c].phase.batch, s.controllers[c].phase.attempt, respawned)
    case Process(w, results) => Respond(s, w, Answer(p, s.workers[w].inbox[0], results))
    case ProcessFails(w) => Respond(s, w, Failure)
    case Garble(w) => Respond(s, w, Garbled)
    case Die(w) => WithWorker(s, w, s.workers[w].(alive := false))
  }

  /** Every controller starts with a worker of its own, or fails for want of one. */
  ghost predicate Initial(p: Setup, s: System) {
    && s.next == 0 && s.owner == [] && s.issued == []
    && s.tries == seq(|p.tasks|, _ => 0)
    && s.workers == seq(|s.controllers|, _ => FRESH)
    && forall c :: 0 <= c < |s.controllers| ==>
         && s.controllers[c].worker == c && s.controllers[c].merged == []
         && (s.controllers[c].phase == Claiming || s.controllers[c].phase == Failed)
  }

  // --------------------------------------------------------------------------- invariants

  function Claimed(p: Setup, s: System): nat { if s.next < |p.tasks| then s.next else |p.tasks| }

  /** The controller is at work on the batch. */
  predicate Working(k: Controller, batch: nat) {
    (k.phase.Sending? || k.phase.Waiting?) && k.phase.batch == batch
  }

  ghost predicate HasMerged(k: Controller, batch: nat) {
    exists i :: 0 <= i < |k.merged| && k.merged[i].batch == batch
  }

  /** What a merged output is: accepted for its batch, from a lease issued for that very batch. */
  ghost predicate GoodMerge(p: Setup, s: System, c: nat, m: Merge) {
    && m.batch < |s.owner| && s.owner[m.batch] == c && m.batch < |p.tasks|
    && m.lease < |s.issued| && s.issued[m.lease] == m.batch
    && Covers(p.identity, m.results, p.tasks[m.batch])
  }

  /** What one controller has done and is doing. */
  ghost predicate GoodController(p: Setup, s: System, c: nat)
    requires c < |s.controllers| && |s.tries| == |p.tasks|
  {
    var k := s.controllers[c];
    && k.worker < |s.workers|
    && (forall i :: 0 <= i < |k.merged| ==> GoodMerge(p, s, c, k.merged[i]))
    && (forall i, j :: 0 <= i < j < |k.merged| ==> k.merged[i].batch != k.merged[j].batch)
    && (k.phase.Sending? || k.phase.Waiting? ==>
          && k.phase.batch < |s.owner| && s.owner[k.phase.batch] == c && k.phase.batch < |p.tasks|
          && !HasMerged(k, k.phase.batch) && k.phase.attempt <= p.maxRestarts
          && s.tries[k.phase.batch] == k.phase.attempt + (if k.phase.Waiting? then 1 else 0))
    && (k.phase.Waiting? ==> k.phase.lease < |s.issued| && s.issued[k.phase.lease] == k.phase.batch)
    && (k.phase.Finished? ==> s.next >= |p.tasks|)
  }

  /** Nothing is under way for a controller unless it waits, and then only its own request or the answer to it. */
  ghost predicate GoodChannel(p: Setup, s: System, c: nat)
    requires c < |s.controllers| && s.controllers[c].worker < |s.workers|
  {
    var phase := s.controllers[c].phase;
    var w := s.workers[s.controllers[c].worker];
    && (phase.Claiming? || phase.Sending? ==> w.inbox == [] && w.outbox == [])
    && (phase.Waiting? && phase.batch < |p.tasks| ==>
          || (w.inbox == [RequestFor(p, phase.batch, phase.lease)] && w.outbox == [])
          || (w.inbox == [] && w.outbox == [])
          || (w.inbox == [] && |w.outbox| == 1 && IsAnswer(p, phase.batch, phase.lease, w.outbox[0])))
  }

  /** A reply carries the lease, the shard and the fingerprint of the request. */
  ghost predicate IsAnswer(p: Setup, batch: nat, lease: nat, response: Response)
    requires batch < |p.tasks|
  {
    response.Reply? ==>
      && response.output.lease == lease && response.output.shard == batch
      && response.output.shardFingerprint == Fingerprint(p, p.tasks[batch])
  }

  /** No two controllers share a worker. */
  predicate OwnWorkers(s: System) {
    forall c, d :: 0 <= c < d < |s.controllers| ==> s.controllers[c].worker != s.controllers[d].worker
  }

  /** A claimed batch is with the controller that claimed it: merged, in work, or given up with it. */
  ghost predicate Placed(s: System, batch: nat)
    requires batch < |s.owner|
  {
    var c := s.owner[batch];
    c < |s.controllers| && (HasMerged(s.controllers[c], batch) || Working(s.controllers[c], batch) || s.controllers[c].phase.Failed?)
  }

  ghost predicate Inv(p: Setup, s: System) {
    && |s.tries| == |p.tasks| && |s.owner| == Claimed(p, s)
    && (forall c :: 0 <= c < |s.controllers| ==> GoodController(p, s, c) && GoodChannel(p, s, c))
    && OwnWorkers(s)
    && (forall b :: 0 <= b < |s.owner| ==> Placed(s, b))
    && (forall b :: 0 <= b < |s.tries| ==> s.tries[b] <= p.maxRestarts + 1 && (b >= |s.owner| ==> s.tries[b] == 0))
  }
}
