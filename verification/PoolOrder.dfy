/** The two queues of the dispatcher and what it has done, told from the steps of a run. */
module PoolOrder {
  import opened Pool

  /** The requests that are submitted in a run, in order. */
  function Submitted(ts: seq<Step>): seq<Request> {
    if ts == [] then [] else (if ts[0].Submit? then [ts[0].r] else []) + Submitted(ts[1..])
  }

  /** Those that are put into the queue. */
  function Enqueued(ts: seq<Step>): seq<Request> {
    if ts == [] then [] else (if ts[0].Enqueue? then [ts[0].r] else []) + Enqueued(ts[1..])
  }

  /** The workers that queue up. */
  function Pushed(ts: seq<Step>): seq<nat> {
    if ts == [] then [] else (if ts[0].Push? then [ts[0].w] else []) + Pushed(ts[1..])
  }

  /** The worker `w` has just been given `r`. */
  predicate Given(s: Pool, w: nat, r: Request) { w < |s.workers| && s.workers[w].ready && s.workers[w].slot == r }

  /** The step gives the request `r` to the worker `w`, which had none. */
  ghost predicate Gives(s: Pool, t: Step, w: nat, r: Request)
    requires Enabled(s, t)
  {
    && !(w < |s.workers| && s.workers[w].ready) && Given(Apply(s, t), w, r)
    && forall v: nat :: v < |s.workers| && v != w ==>
         v < |Apply(s, t).workers| && Apply(s, t).workers[v] == s.workers[v]
  }

  /** The workers that leave the idle queue in a run, in order: each as it is taken off behind the request
      that it was given. */
  function Popped(s: Pool, ts: seq<Step>): seq<nat>
    requires Can(s, ts)
    decreases |ts|
  {
    if ts == [] then []
    else (if ts[0].PopIdle? then [s.holder.w] else []) + Popped(Apply(s, ts[0]), ts[1..])
  }

  /** The requests that leave the queue in a run, in order: each with the worker that takes it. */
  function Taken(s: Pool, ts: seq<Step>): seq<Request>
    requires Can(s, ts)
    decreases |ts|
  {
    if ts == [] then []
    else
      var s' := Apply(s, ts[0]);
      (if ts[0].TakeNext? then [s'.workers[ts[0].w].slot] else []) + Taken(s', ts[1..])
  }

  /** The requests whose processing ends in a run, in order. */
  function Processed(s: Pool, ts: seq<Step>): seq<Request>
    requires Can(s, ts)
    decreases |ts|
  {
    if ts == [] then []
    else (if ts[0].Finish? then [s.workers[ts[0].w].phase.r] else []) + Processed(Apply(s, ts[0]), ts[1..])
  }

  lemma Regroup<T>(a: seq<T>, b: seq<T>, c: seq<T>)
    ensures a + b + c == a + (b + c)
  {
  }

  /** The idle queue is one: workers are given requests in the order in which they queued up. */
  lemma {:induction false} IdleOrder(s: Pool, ts: seq<Step>)
    requires Shape(s) && Can(s, ts)
    ensures s.idle + Pushed(ts) == Popped(s, ts) + After(s, ts).idle
    decreases |ts|
  {
    if ts == [] {
    } else {
      var t, s' := ts[0], Apply(s, ts[0]);
      StepShape(s, t);
      IdleOrder(s', ts[1..]);
      var p, q := if t.Push? then [t.w] else [], if t.PopIdle? then [s.holder.w] else [];
      IdleStep(s, t, p, q);
      Regroup(s.idle, p, Pushed(ts[1..]));
      Regroup(q, s'.idle, Pushed(ts[1..]));
      Regroup(q, Popped(s', ts[1..]), After(s, ts).idle);
    }
  }

  lemma IdleStep(s: Pool, t: Step, p: seq<nat>, q: seq<nat>)
    requires Enabled(s, t) && (t.PopIdle? ==> s.holder.w == s.idle[0])
    requires p == (if t.Push? then [t.w] else [])
    requires q == if t.PopIdle? then [s.holder.w] else []
    ensures s.idle + p == q + Apply(s, t).idle
  {
    if t.PopIdle? { assert s.idle == [s.idle[0]] + s.idle[1..]; }
  }

  /** So is the queue of requests. */
  lemma {:induction false} RequestOrder(s: Pool, ts: seq<Step>)
    requires Can(s, ts)
    ensures s.requests + Enqueued(ts) == Taken(s, ts) + After(s, ts).requests
    decreases |ts|
  {
    if ts == [] {
    } else {
      var t, s' := ts[0], Apply(s, ts[0]);
      RequestOrder(s', ts[1..]);
      var p, q := if t.Enqueue? then [t.r] else [], if t.TakeNext? then [s'.workers[t.w].slot] else [];
      RequestStep(s, t, p, q);
      Regroup(s.requests, p, Enqueued(ts[1..]));
      Regroup(q, s'.requests, Enqueued(ts[1..]));
      Regroup(q, Taken(s', ts[1..]), After(s, ts).requests);
    }
  }

  lemma RequestStep(s: Pool, t: Step, p: seq<Request>, q: seq<Request>)
    requires Enabled(s, t) && p == (if t.Enqueue? then [t.r] else [])
    requires q == if t.TakeNext? then [Apply(s, t).workers[t.w].slot] else []
    ensures s.requests + p == q + Apply(s, t).requests
  {
    if t.TakeNext? { assert s.requests == [s.requests[0]] + s.requests[1..]; }
  }

  /** What has been submitted and what has been processed is what the steps say. */
  lemma {:induction false} RecordTold(s: Pool, ts: seq<Step>)
    requires Can(s, ts)
    ensures After(s, ts).submitted == s.submitted + multiset(Submitted(ts))
    ensures After(s, ts).finished == s.finished + multiset(Processed(s, ts))
    decreases |ts|
  {
    if ts == [] {
    } else {
      RecordTold(Apply(s, ts[0]), ts[1..]);
    }
  }

  /** A request is given to a worker in three ways: at the front of the idle queue, by a new thread, or by
      the worker that takes it off the queue; and no other worker is touched. */
  lemma GivenTo(s: Pool, t: Step)
    requires Shape(s) && Enabled(s, t)
    ensures t.Assign? ==> Gives(s, t, s.idle[0], t.r) && Apply(s, t).holder == Assigning(s.idle[0])
    ensures t.Spawn? ==> Gives(s, t, |s.workers|, t.r)
    ensures t.TakeNext? ==> Gives(s, t, t.w, s.requests[0])
    ensures t.Start? ==> Apply(s, t).workers[t.w].phase == Running(s.workers[t.w].slot)
  {
    if t.Assign? { assert s.idle[0] in s.idle; }
  }

  // ---- Who is held up, and by whom -------------------------------------------------

  predicate OfWorker(t: Step, w: nat) {
    (t.Start? || t.Finish? || t.TakeNext? || t.FindEmpty? || t.Push? || t.Wake?) && t.w == w
  }

  /** The thread of a worker can go on unless it waits without a request, or has to queue up while
      workersMutex is held. */
  lemma WorkerHeldIff(s: Pool, w: nat)
    requires Shape(s) && w < |s.workers|
    ensures var x := s.workers[w];
      (exists t :: OfWorker(t, w) && Enabled(s, t))
      <==> !(x.phase.Parked? && !x.ready) && !(x.phase.Pushing? && !s.holder.NoOne?)
  {
    var x := s.workers[w];
    assert Settled(x);
    var t := match x.phase
      case Top => Start(w)
      case Running(_) => Finish(w)
      case Checking => if s.requests != [] then TakeNext(w) else FindEmpty(w)
      case Pushing => Push(w)
      case Parked => Wake(w);
    assert OfWorker(t, w);
  }

  predicate OfCaller(t: Step, r: Request) { (t.Assign? || t.Spawn? || t.FullPool? || t.Enqueue?) && t.r == r }

  /** A caller can go on unless it is ahead of workersMutex and that is held. Its request goes to the worker
      at the front if one is idle, else to a new thread unless there are enough, else to the queue. */
  lemma CallerHeldIff(s: Pool, r: Request)
    requires Shape(s) && (r in s.entering || r in s.queueing)
    ensures (exists t :: OfCaller(t, r) && Enabled(s, t)) <==> r in s.queueing || s.holder.NoOne?
    ensures Enabled(s, Assign(r)) <==> r in s.entering && s.holder.NoOne? && s.idle != []
    ensures Enabled(s, Spawn(r)) <==> r in s.entering && s.holder.NoOne? && s.idle == [] && |s.workers| < s.poolSize
    ensures Enabled(s, FullPool(r)) <==> r in s.entering && s.holder.NoOne? && s.idle == [] && |s.workers| == s.poolSize
  {
    if s.idle != [] { assert s.idle[0] < |s.workers|; }
    var t := if r in s.queueing then Enqueue(r) else if s.idle != [] then Assign(r)
      else if s.threads < s.poolSize then Spawn(r) else FullPool(r);
    assert OfCaller(t, r);
  }
}
