/** Dispatcher with addRequest and addWorker each taken as one step, and as methods of a class. */
module Dispatcher {
  import opened Pool
  import opened PoolProgress

  datatype Call =
    | AddRequest(r: Request)
    | AddWorker(w: nat)
    | Process(w: nat)
    | Done(w: nat)
    | WakeUp(w: nat)

  /** No caller is within addRequest or addWorker. */
  ghost predicate Quiet(s: Pool) {
    && s.holder.NoOne? && s.entering == multiset{} && s.queueing == multiset{}
    && forall w :: 0 <= w < |s.workers| ==> !s.workers[w].phase.Pushing?
  }

  ghost predicate Between(s: Pool) {
    Shape(s) && Quiet(s) && s.arrived == s.handed + s.requests
  }

  predicate Possible(s: Pool, c: Call) {
    match c
    case AddRequest(r) => r !in s.submitted
    case AddWorker(w) => InPhase(s, w, Checking)
    case Process(w) => Enabled(s, Start(w))
    case Done(w) => Enabled(s, Finish(w))
    case WakeUp(w) => Enabled(s, Wake(w))
  }

  /** The steps that a call takes when nothing comes between them. */
  function Steps(s: Pool, c: Call): seq<Step> {
    match c
    case AddRequest(r) =>
      [Submit(r)] + (if s.idle != [] then [Assign(r), PopIdle]
                     else if s.threads < s.poolSize then [Spawn(r), CountThread]
                     else [FullPool(r), Enqueue(r)])
    case AddWorker(w) => if s.requests != [] then [TakeNext(w)] else [FindEmpty(w), Push(w)]
    case Process(w) => [Start(w)]
    case Done(w) => [Finish(w)]
    case WakeUp(w) => [Wake(w)]
  }

  lemma OneStep(s: Pool, t: Step)
    requires Enabled(s, t)
    ensures Can(s, [t]) && After(s, [t]) == Apply(s, t) && (NeverStale(s, [t]) <==> !Stale(s, t))
  {
    assert [t][1..] == [];
  }

  lemma FirstStep(s: Pool, t: Step, ts: seq<Step>)
    requires Enabled(s, t) && Can(Apply(s, t), ts)
    ensures Can(s, [t] + ts) && After(s, [t] + ts) == After(Apply(s, t), ts)
    ensures NeverStale(s, [t] + ts) <==> !Stale(s, t) && NeverStale(Apply(s, t), ts)
  {
    assert ([t] + ts)[1..] == ts;
  }

  lemma TwoSteps(s: Pool, t: Step, u: Step)
    requires Enabled(s, t) && Enabled(Apply(s, t), u)
    ensures Can(s, [t, u]) && After(s, [t, u]) == Apply(Apply(s, t), u)
    ensures NeverStale(s, [t, u]) <==> !Stale(s, t) && !Stale(Apply(s, t), u)
  {
    OneStep(Apply(s, t), u);
    FirstStep(s, t, [u]);
    assert [t, u] == [t] + [u];
  }

  /** The new state of addRequest. */
  function Added(s: Pool, r: Request): Pool
    requires s.idle != [] ==> s.idle[0] < |s.workers|
  {
    var s := s.(submitted := s.submitted + multiset{r});
    if s.idle != [] then s.(workers := SetRequest(s, s.idle[0], r), idle := s.idle[1..])
    else if s.threads < s.poolSize then s.(workers := s.workers + [Worker(Top, r, true)], threads := s.threads + 1)
    else s.(requests := s.requests + [r], arrived := s.arrived + [r])
  }

  lemma AddRequestSteps(s: Pool, r: Request)
    requires Between(s) && r !in s.submitted
    ensures s.idle != [] ==> s.idle[0] < |s.workers|
    ensures var ts := Steps(s, AddRequest(r)); Can(s, ts) && After(s, ts) == Added(s, r)
    ensures Conserving(s) ==> NeverStale(s, Steps(s, AddRequest(r)))
  {
    var s1 := Apply(s, Submit(r));
    assert s1.entering - multiset{r} == multiset{};
    if s.idle != [] {
      assert s.idle[0] in s.idle;
      TwoSteps(s1, Assign(r), PopIdle);
    } else if s.threads < s.poolSize {
      TwoSteps(s1, Spawn(r), CountThread);
    } else {
      TwoSteps(s1, FullPool(r), Enqueue(r));
    }
    FirstStep(s, Submit(r), Steps(s, AddRequest(r))[1..]);
  }

  /** The new state of addWorker. */
  function Returned(s: Pool, w: nat): Pool
    requires w < |s.workers|
  {
    if s.requests != []
    then s.(requests := s.requests[1..], handed := s.handed + [s.requests[0]],
            workers := s.workers[w := Worker(Top, s.requests[0], true)])
    else s.(workers := MoveTo(s, w, Parked), idle := s.idle + [w])
  }

  lemma AddWorkerSteps(s: Pool, w: nat)
    requires Between(s) && InPhase(s, w, Checking)
    ensures var ts := Steps(s, AddWorker(w)); Can(s, ts) && After(s, ts) == Returned(s, w)
    ensures NeverStale(s, Steps(s, AddWorker(w)))
  {
    if s.requests != [] {
      OneStep(s, TakeNext(w));
    } else {
      TwoSteps(s, FindEmpty(w), Push(w));
      assert MoveTo(s, w, Pushing)[w := s.workers[w].(phase := Parked)] == MoveTo(s, w, Parked);
    }
  }

  lemma OneStepQuiet(s: Pool, t: Step)
    requires Quiet(s) && Enabled(s, t) && (t.Start? || t.Finish? || t.Wake?)
    ensures Can(s, [t]) && NeverStale(s, [t]) && Quiet(After(s, [t]))
  {
    OneStep(s, t);
  }

  lemma CallQuiet(s: Pool, c: Call)
    requires Between(s) && Conserving(s) && Possible(s, c)
    ensures Can(s, Steps(s, c)) && NeverStale(s, Steps(s, c)) && Quiet(After(s, Steps(s, c)))
  {
    match c
    case AddRequest(r) => AddRequestSteps(s, r);
    case AddWorker(w) => AddWorkerSteps(s, w);
    case Process(w) => OneStepQuiet(s, Start(w));
    case Done(w) => OneStepQuiet(s, Finish(w));
    case WakeUp(w) => OneStepQuiet(s, Wake(w));
  }

  /** A run without a stale decision keeps all but the quiet. */
  lemma RunBetween(s: Pool, ts: seq<Step>)
    requires Between(s) && Conserving(s) && Can(s, ts) && NeverStale(s, ts) && Quiet(After(s, ts))
    ensures Between(After(s, ts)) && Conserving(After(s, ts))
  {
    RunShape(s, ts);
    QueueOrder(s, ts);
    ConservingIff(s, ts);
  }

  /** A call is a run of its steps, and leads from one state between calls to the next. */
  lemma CallSteps(s: Pool, c: Call)
    requires Between(s) && Conserving(s) && Possible(s, c)
    ensures Can(s, Steps(s, c)) && NeverStale(s, Steps(s, c))
    ensures Between(After(s, Steps(s, c))) && Conserving(After(s, Steps(s, c)))
  {
    CallQuiet(s, c);
    RunBetween(s, Steps(s, c));
  }

  ghost predicate Doable(s: Pool, cs: seq<Call>)
    decreases |cs|
  {
    cs == [] || (Possible(s, cs[0]) && Can(s, Steps(s, cs[0])) && Doable(After(s, Steps(s, cs[0])), cs[1..]))
  }

  ghost function AfterCalls(s: Pool, cs: seq<Call>): Pool
    requires Doable(s, cs)
    decreases |cs|
  {
    if cs == [] then s else AfterCalls(After(s, Steps(s, cs[0])), cs[1..])
  }

  /**
   * Work conservation: with addRequest and addWorker each taken as one step, in every state that can
   * be reached a non-empty queue means that no worker is idle and the pool is full, and requests
   * have left the queue in the order in which they arrived.
   */
  lemma {:induction false} WorkConserved(s: Pool, cs: seq<Call>)
    requires Between(s) && Conserving(s) && Doable(s, cs)
    ensures var s' := AfterCalls(s, cs);
      && Between(s') && Conserving(s') && s'.arrived == s'.handed + s'.requests
      && (s'.requests != [] ==> s'.idle == [] && |s'.workers| == s'.threads == s'.poolSize)
    decreases |cs|
  {
    if cs == [] {
      if s.idle != [] { assert s.idle[0] in s.idle; }
    } else {
      CallSteps(s, cs[0]);
      WorkConserved(After(s, Steps(s, cs[0])), cs[1..]);
    }
  }

  lemma {:induction false} JoinRuns(s: Pool, ts: seq<Step>, us: seq<Step>)
    requires Can(s, ts) && Can(After(s, ts), us)
    ensures Can(s, ts + us) && After(s, ts + us) == After(After(s, ts), us)
    decreases |ts|
  {
    if ts == [] {
      assert ts + us == us;
    } else {
      assert (ts + us)[1..] == ts[1..] + us;
      JoinRuns(Apply(s, ts[0]), ts[1..], us);
    }
  }

  /** What is proved of runs step by step holds of runs of whole calls, since these are such runs. */
  lemma {:induction false} CallsAreRuns(s: Pool, cs: seq<Call>) returns (ts: seq<Step>)
    requires Doable(s, cs)
    ensures Can(s, ts) && After(s, ts) == AfterCalls(s, cs)
    decreases |cs|
  {
    if cs == [] {
      ts := [];
    } else {
      var us := CallsAreRuns(After(s, Steps(s, cs[0])), cs[1..]);
      JoinRuns(s, Steps(s, cs[0]), us);
      ts := Steps(s, cs[0]) + us;
    }
  }

  // ---- The class ------------------------------------------------------------------

  class WorkerObject {
    var request: Request
    var ready: bool

    /** Without a request; the source leaves the pointer undefined. */
    constructor ()
      ensures !ready
    {
      request, ready := 0, false;
    }

    method SetRequest(request: Request)
      modifies this
      ensures this.request == request && ready
    {
      this.request := request;
      ready := true;
    }
  }

  /** The static members of Dispatcher; a pointer to a worker is its index in `allWorkers`. */
  class Queues {
    var poolSize: nat
    var requests: seq<Request>
    var workers: seq<nat>
    var allWorkers: seq<WorkerObject>
    var threads: nat
    ghost var model: Pool

    ghost predicate WorkersAre()
      reads this, allWorkers
    {
      && |allWorkers| == |model.workers|
      && (forall i, j :: 0 <= i < j < |allWorkers| ==> allWorkers[i] != allWorkers[j])
      && forall i :: 0 <= i < |allWorkers| ==>
           allWorkers[i].ready == model.workers[i].ready && allWorkers[i].request == model.workers[i].slot
    }

    ghost predicate Valid()
      reads this, allWorkers
    {
      && poolSize == model.poolSize && requests == model.requests && workers == model.idle
      && threads == model.threads && WorkersAre()
    }

    constructor (workers: nat)
      ensures Valid() && model == Init(workers)
    {
      poolSize, requests, this.workers, allWorkers, threads := workers, [], [], [], 0;
      model := Init(workers);
    }

    method AddRequest(request: Request)
      requires Valid() && Between(model) && request !in model.submitted
      modifies this, allWorkers
      ensures Valid() && model == Added(old(model), request)
    {
      AddRequestSteps(model, request);
      if workers != [] {
        assert workers[0] in workers;
        var worker := workers[0];
        allWorkers[worker].SetRequest(request);
        workers := workers[1..];
      } else if threads < poolSize {
        var w := new WorkerObject();
        w.SetRequest(request);
        allWorkers := allWorkers + [w];
        threads := threads + 1;
      } else {
        requests := requests + [request];
      }
      model := Added(model, request);
    }

    /** Whether the worker has to wait. */
    method AddWorker(worker: nat) returns (wait: bool)
      requires Valid() && Between(model) && InPhase(model, worker, Checking)
      modifies this, allWorkers
      ensures Valid() && model == Returned(old(model), worker)
      ensures wait <==> old(requests) == []
    {
      wait := true;
      if requests != [] {
        var request := requests[0];
        allWorkers[worker].SetRequest(request);
        requests := requests[1..];
        wait := false;
      } else {
        workers := workers + [worker];
      }
      model := Returned(model, worker);
    }
  }
}
