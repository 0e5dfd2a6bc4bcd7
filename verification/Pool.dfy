/** The worker pool, one step for each critical section of Dispatcher and each phase of Worker. */
module Pool {

  type Request = nat

  /** Where a worker's thread is in Worker::run: at the head of the loop, processing its request,
      looking for a queued request in addWorker, found none and about to queue up, or waiting. */
  datatype Phase = Top | Running(r: Request) | Checking | Pushing | Parked

  datatype Worker = Worker(phase: Phase, slot: Request, ready: bool)

  /** Who is inside the critical section of workersMutex: addRequest has given the front worker a
      request and not yet taken it off the queue, or started a thread and not yet counted it. */
  datatype Holder = NoOne | Assigning(w: nat) | Spawning

  /** The shared state. `entering` are the requests of callers at the head of addRequest, `queueing`
      those of callers between its two locks; `submitted`, `finished`, `arrived` and `handed` record
      what has happened so far. */
  datatype Pool = Pool(
    poolSize: nat,
    requests: seq<Request>,
    idle: seq<nat>,
    workers: seq<Worker>,
    threads: nat,
    holder: Holder,
    entering: multiset<Request>,
    queueing: multiset<Request>,
    submitted: multiset<Request>,
    finished: multiset<Request>,
    arrived: seq<Request>,
    handed: seq<Request>)

  function Init(poolSize: nat): Pool {
    Pool(poolSize, [], [], [], 0, NoOne, multiset{}, multiset{}, multiset{}, multiset{}, [], [])
  }

  datatype Step =
    | Submit(r: Request)       // a caller enters addRequest with a new request
    | Assign(r: Request)       // under workersMutex: setRequest and notify_one on the front worker
    | PopIdle                  // workers.pop and unlock
    | Spawn(r: Request)        // under workersMutex: a new worker with the request, and its thread
    | CountThread              // threads.push_back and unlock
    | FullPool(r: Request)     // under workersMutex: no idle worker and no thread to spare
    | Enqueue(r: Request)      // under requestsMutex: requests.push
    | Start(w: nat)            // ready is taken back, process begins
    | Finish(w: nat)           // finish returns
    | TakeNext(w: nat)         // under requestsMutex: the front request goes to the worker
    | FindEmpty(w: nat)        // under requestsMutex: there is none
    | Push(w: nat)             // under workersMutex: the worker queues up
    | Wake(w: nat)             // a waiting worker sees that it is ready

  predicate InPhase(s: Pool, w: nat, p: Phase) { w < |s.workers| && s.workers[w].phase == p }

  predicate Enabled(s: Pool, t: Step) {
    match t
    case Submit(r) => r !in s.submitted
    case Assign(r) => s.holder.NoOne? && r in s.entering && s.idle != [] && s.idle[0] < |s.workers|
    case PopIdle => s.holder.Assigning? && s.idle != []
    case Spawn(r) => s.holder.NoOne? && r in s.entering && s.idle == [] && s.threads < s.poolSize
    case CountThread => s.holder.Spawning?
    case FullPool(r) => s.holder.NoOne? && r in s.entering && s.idle == [] && s.threads >= s.poolSize
    case Enqueue(r) => r in s.queueing
    case Start(w) => InPhase(s, w, Top) && s.workers[w].ready
    case Finish(w) => w < |s.workers| && s.workers[w].phase.Running?
    case TakeNext(w) => InPhase(s, w, Checking) && s.requests != []
    case FindEmpty(w) => InPhase(s, w, Checking) && s.requests == []
    case Push(w) => InPhase(s, w, Pushing) && s.holder.NoOne?
    case Wake(w) => InPhase(s, w, Parked) && s.workers[w].ready
  }

  function SetRequest(s: Pool, w: nat, r: Request): seq<Worker>
    requires w < |s.workers|
  {
    s.workers[w := s.workers[w].(slot := r, ready := true)]
  }

  function MoveTo(s: Pool, w: nat, p: Phase): seq<Worker>
    requires w < |s.workers|
  {
    s.workers[w := s.workers[w].(phase := p)]
  }

  function Apply(s: Pool, t: Step): Pool
    requires Enabled(s, t)
  {
    match t
    case Submit(r) => s.(entering := s.entering + multiset{r}, submitted := s.submitted + multiset{r})
    case Assign(r) => s.(entering := s.entering - multiset{r},
      workers := SetRequest(s, s.idle[0], r), holder := Assigning(s.idle[0]))
    case PopIdle => s.(idle := s.idle[1..], holder := NoOne)
    case Spawn(r) => s.(entering := s.entering - multiset{r},
      workers := s.workers + [Worker(Top, r, true)], holder := Spawning)
    case CountThread => s.(threads := s.threads + 1, holder := NoOne)
    case FullPool(r) => s.(entering := s.entering - multiset{r}, queueing := s.queueing + multiset{r})
    case Enqueue(r) => s.(queueing := s.queueing - multiset{r},
      requests := s.requests + [r], arrived := s.arrived + [r])
    case Start(w) => s.(workers := s.workers[w := Worker(Running(s.workers[w].slot), s.workers[w].slot, false)])
    case Finish(w) => s.(workers := MoveTo(s, w, Checking),
      finished := s.finished + multiset{s.workers[w].phase.r})
    case TakeNext(w) => s.(requests := s.requests[1..], handed := s.handed + [s.requests[0]],
      workers := s.workers[w := Worker(Top, s.requests[0], true)])
    case FindEmpty(w) => s.(workers := MoveTo(s, w, Pushing))
    case Push(w) => s.(workers := MoveTo(s, w, Parked), idle := s.idle + [w])
    case Wake(w) => s.(workers := MoveTo(s, w, Top))
  }

  // ---- Runs -----------------------------------------------------------------------

  predicate Can(s: Pool, ts: seq<Step>)
    decreases |ts|
  {
    ts == [] || (Enabled(s, ts[0]) && Can(Apply(s, ts[0]), ts[1..]))
  }

  function After(s: Pool, ts: seq<Step>): Pool
    requires Can(s, ts)
    decreases |ts|
  {
    if ts == [] then s else After(Apply(s, ts[0]), ts[1..])
  }

  // ---- The shape of the pool ------------------------------------------------------

  /** A worker that waits without a request. */
  predicate Free(w: Worker) { w.phase.Parked? && !w.ready }

  /** `ready` is set from setRequest until the worker begins to process its request. */
  predicate Settled(w: Worker) {
    (w.phase.Top? ==> w.ready) && (w.ready ==> w.phase.Top? || w.phase.Parked?)
  }

  ghost predicate AllSettled(ws: seq<Worker>) {
    forall w :: 0 <= w < |ws| ==> Settled(ws[w])
  }

  /** The idle queue holds the workers that wait without a request, each once, and the one at the
      front that has just been given one. */
  ghost predicate IdleQueue(idle: seq<nat>, ws: seq<Worker>, h: Holder) {
    && (forall i :: 0 <= i < |idle| ==> idle[i] < |ws|)
    && (forall i, j :: 0 <= i < j < |idle| ==> idle[i] != idle[j])
    && (forall w: nat :: w < |ws| ==> (w in idle <==> Free(ws[w]) || h == Assigning(w)))
    && (h.Assigning? ==> idle != [] && h.w == idle[0] && !Free(ws[idle[0]]))
  }

  /** As many workers as threads, but for one whose thread is not counted yet, and never more than
      the pool size; exactly as many once a request has been sent to the queue. */
  ghost predicate Counts(s: Pool) {
    && |s.workers| == s.threads + (if s.holder.Spawning? then 1 else 0)
    && |s.workers| <= s.poolSize
    && (s.requests != [] || s.queueing != multiset{} ==> s.threads == s.poolSize)
  }

  /** What holds between any two steps. */
  ghost predicate Shape(s: Pool) {
    Counts(s) && AllSettled(s.workers) && IdleQueue(s.idle, s.workers, s.holder)
  }

  lemma StepCounts(s: Pool, t: Step)
    requires Shape(s) && Enabled(s, t)
    ensures Counts(Apply(s, t)) && Apply(s, t).poolSize == s.poolSize
  {
  }

  lemma SettledUpdate(ws: seq<Worker>, w: nat, x: Worker)
    requires AllSettled(ws) && w < |ws| && Settled(x)
    ensures AllSettled(ws[w := x])
  {
  }

  lemma StepSettled(s: Pool, t: Step)
    requires Shape(s) && Enabled(s, t)
    ensures AllSettled(Apply(s, t).workers)
  {
    var s' := Apply(s, t);
    match t
    case Assign(_) =>
      assert s.idle[0] in s.idle;
      SettledUpdate(s.workers, s.idle[0], s'.workers[s.idle[0]]);
    case Start(w) => SettledUpdate(s.workers, w, s'.workers[w]);
    case Finish(w) => SettledUpdate(s.workers, w, s'.workers[w]);
    case TakeNext(w) => SettledUpdate(s.workers, w, s'.workers[w]);
    case FindEmpty(w) => SettledUpdate(s.workers, w, s'.workers[w]);
    case Push(w) => SettledUpdate(s.workers, w, s'.workers[w]);
    case Wake(w) => SettledUpdate(s.workers, w, s'.workers[w]);
    case _ =>
  }

  lemma IdleUpdate(idle: seq<nat>, ws: seq<Worker>, h: Holder, w: nat, x: Worker)
    requires IdleQueue(idle, ws, h) && w < |ws| && Free(x) == Free(ws[w])
    ensures IdleQueue(idle, ws[w := x], h)
  {
  }

  lemma IdleAssign(idle: seq<nat>, ws: seq<Worker>, r: Request)
    requires IdleQueue(idle, ws, NoOne) && idle != []
    ensures IdleQueue(idle, ws[idle[0] := ws[idle[0]].(slot := r, ready := true)], Assigning(idle[0]))
  {
    assert idle[0] in idle;
  }

  lemma IdlePop(idle: seq<nat>, ws: seq<Worker>, w: nat)
    requires IdleQueue(idle, ws, Assigning(w))
    ensures IdleQueue(idle[1..], ws, NoOne)
  {
    assert idle == [idle[0]] + idle[1..];
    assert forall v :: v in idle[1..] <==> v in idle && v != w;
  }

  lemma IdleSpawn(idle: seq<nat>, ws: seq<Worker>, x: Worker)
    requires IdleQueue(idle, ws, NoOne) && !Free(x)
    ensures IdleQueue(idle, ws + [x], Spawning)
  {
    assert |ws| !in idle;
  }

  lemma IdlePush(idle: seq<nat>, ws: seq<Worker>, w: nat, x: Worker)
    requires IdleQueue(idle, ws, NoOne) && w < |ws| && !Free(ws[w]) && Free(x)
    ensures IdleQueue(idle + [w], ws[w := x], NoOne)
  {
  }

  lemma StepIdle(s: Pool, t: Step)
    requires Shape(s) && Enabled(s, t)
    ensures var s' := Apply(s, t); IdleQueue(s'.idle, s'.workers, s'.holder)
  {
    var s' := Apply(s, t);
    match t
    case Submit(_) =>
    case Assign(r) => IdleAssign(s.idle, s.workers, r);
    case PopIdle => IdlePop(s.idle, s.workers, s.holder.w);
    case Spawn(r) => IdleSpawn(s.idle, s.workers, Worker(Top, r, true));
    case CountThread =>
    case FullPool(_) =>
    case Enqueue(_) =>
    case Start(w) => IdleUpdate(s.idle, s.workers, s.holder, w, s'.workers[w]);
    case Finish(w) => IdleUpdate(s.idle, s.workers, s.holder, w, s'.workers[w]);
    case TakeNext(w) => IdleUpdate(s.idle, s.workers, s.holder, w, s'.workers[w]);
    case FindEmpty(w) => IdleUpdate(s.idle, s.workers, s.holder, w, s'.workers[w]);
    case Push(w) => IdlePush(s.idle, s.workers, w, s'.workers[w]);
    case Wake(w) => IdleUpdate(s.idle, s.workers, s.holder, w, s'.workers[w]);
  }

  lemma StepShape(s: Pool, t: Step)
    requires Shape(s) && Enabled(s, t)
    ensures Shape(Apply(s, t)) && Apply(s, t).poolSize == s.poolSize
  {
    StepCounts(s, t);
    StepSettled(s, t);
    StepIdle(s, t);
  }

  /** Pool shape, over whole runs. */
  lemma {:induction false} RunShape(s: Pool, ts: seq<Step>)
    requires Shape(s) && Can(s, ts)
    ensures Shape(After(s, ts)) && After(s, ts).poolSize == s.poolSize
    decreases |ts|
  {
    if ts == [] {
    } else {
      StepShape(s, ts[0]);
      RunShape(Apply(s, ts[0]), ts[1..]);
    }
  }

  // ---- Exactly once ---------------------------------------------------------------

  /** The worker has `r`: assigned and not begun, or being processed. */
  predicate Has(w: Worker, r: Request) {
    if w.phase.Running? then w.phase.r == r else w.ready && w.slot == r
  }

  function HoldersOf(ws: seq<Worker>, r: Request): nat {
    if ws == [] then 0 else HoldersOf(ws[..|ws| - 1], r) + if Has(ws[|ws| - 1], r) then 1 else 0
  }

  lemma {:induction false} HoldersUpdate(ws: seq<Worker>, w: nat, x: Worker, r: Request)
    requires w < |ws|
    ensures HoldersOf(ws[w := x], r) + (if Has(ws[w], r) then 1 else 0)
         == HoldersOf(ws, r) + (if Has(x, r) then 1 else 0)
    decreases |ws|
  {
    var n := |ws| - 1;
    if w < n {
      assert ws[w := x][..n] == ws[..n][w := x];
      HoldersUpdate(ws[..n], w, x, r);
    } else {
      assert ws[w := x][..n] == ws[..n];
    }
  }

  lemma HoldersSpawn(ws: seq<Worker>, x: Worker, r: Request)
    ensures HoldersOf(ws + [x], r) == HoldersOf(ws, r) + if Has(x, r) then 1 else 0
  {
    assert (ws + [x])[..|ws|] == ws;
  }

  lemma QueuePop(q: seq<Request>, r: Request)
    requires q != []
    ensures multiset(q)[r] == multiset(q[1..])[r] + if q[0] == r then 1 else 0
  {
    assert q == [q[0]] + q[1..];
  }

  /** In how many places `r` is: with a caller in addRequest, ahead of either lock; in the queue; with
      a worker; done. */
  function Places(s: Pool, r: Request): nat {
    s.entering[r] + s.queueing[r] + multiset(s.requests)[r] + HoldersOf(s.workers, r) + s.finished[r]
  }

  lemma StartKeeps(s: Pool, w: nat, r: Request)
    requires Enabled(s, Start(w))
    ensures Places(Apply(s, Start(w)), r) == Places(s, r)
  {
    HoldersUpdate(s.workers, w, Apply(s, Start(w)).workers[w], r);
  }

  lemma FinishKeeps(s: Pool, w: nat, r: Request)
    requires AllSettled(s.workers) && Enabled(s, Finish(w))
    ensures Places(Apply(s, Finish(w)), r) == Places(s, r)
  {
    HoldersUpdate(s.workers, w, Apply(s, Finish(w)).workers[w], r);
  }

  lemma TakeNextKeeps(s: Pool, w: nat, r: Request)
    requires AllSettled(s.workers) && Enabled(s, TakeNext(w))
    ensures Places(Apply(s, TakeNext(w)), r) == Places(s, r)
  {
    HoldersUpdate(s.workers, w, Apply(s, TakeNext(w)).workers[w], r);
    QueuePop(s.requests, r);
  }

  lemma MoveKeeps(s: Pool, w: nat, p: Phase, r: Request)
    requires w < |s.workers| && !s.workers[w].phase.Running? && !p.Running?
    ensures HoldersOf(MoveTo(s, w, p), r) == HoldersOf(s.workers, r)
  {
    HoldersUpdate(s.workers, w, MoveTo(s, w, p)[w], r);
  }

  lemma AssignKeeps(s: Pool, q: Request, r: Request)
    requires Shape(s) && Enabled(s, Assign(q))
    ensures Places(Apply(s, Assign(q)), r) == Places(s, r)
  {
    assert s.idle[0] in s.idle;
    HoldersUpdate(s.workers, s.idle[0], Apply(s, Assign(q)).workers[s.idle[0]], r);
  }

  /** A caller's request goes on to the next place. */
  lemma CallerKeeps(s: Pool, t: Step, r: Request)
    requires Enabled(s, t) && (t.FullPool? || t.Enqueue?)
    ensures Places(Apply(s, t), r) == Places(s, r)
  {
  }

  lemma SpawnKeeps(s: Pool, q: Request, r: Request)
    requires Enabled(s, Spawn(q))
    ensures Places(Apply(s, Spawn(q)), r) == Places(s, r)
  {
    HoldersSpawn(s.workers, Worker(Top, q, true), r);
  }

  lemma StepConserves(s: Pool, t: Step, r: Request)
    requires Shape(s) && Enabled(s, t)
    ensures Places(Apply(s, t), r) == Places(s, r) + if t == Submit(r) then 1 else 0
    ensures Apply(s, t).submitted[r] == s.submitted[r] + if t == Submit(r) then 1 else 0
  {
    match t
    case Submit(_) =>
    case Assign(q) => AssignKeeps(s, q, r);
    case PopIdle =>
    case Spawn(q) => SpawnKeeps(s, q, r);
    case CountThread =>
    case FullPool(_) => CallerKeeps(s, t, r);
    case Enqueue(_) => CallerKeeps(s, t, r);
    case Start(w) => StartKeeps(s, w, r);
    case Finish(w) => FinishKeeps(s, w, r);
    case TakeNext(w) => TakeNextKeeps(s, w, r);
    case FindEmpty(w) => MoveKeeps(s, w, Pushing, r);
    case Push(w) => MoveKeeps(s, w, Parked, r);
    case Wake(w) => MoveKeeps(s, w, Top, r);
  }

  lemma {:induction false} RunConserves(s: Pool, ts: seq<Step>, r: Request)
    requires Shape(s) && Can(s, ts) && Places(s, r) == s.submitted[r] <= 1
    ensures Places(After(s, ts), r) == After(s, ts).submitted[r] <= 1
    decreases |ts|
  {
    if ts == [] {
    } else {
      StepConserves(s, ts[0], r);
      StepShape(s, ts[0]);
      RunConserves(Apply(s, ts[0]), ts[1..], r);
    }
  }

  /**
   * In every run, each submitted request is in exactly one place, so none is lost and none is
   * processed twice; and nothing else is anywhere.
   */
  lemma ExactlyOnce(poolSize: nat, ts: seq<Step>, r: Request)
    requires Can(Init(poolSize), ts)
    ensures var s := After(Init(poolSize), ts); Places(s, r) == if r in s.submitted then 1 else 0
  {
    RunConserves(Init(poolSize), ts, r);
  }

  /** A worker's request is never replaced before it is processed. */
  lemma SlotKept(s: Pool, t: Step, w: nat)
    requires Shape(s) && Enabled(s, t) && w < |s.workers| && s.workers[w].ready
    ensures var x := Apply(s, t).workers[w];
      if t == Start(w) then x.phase == Running(s.workers[w].slot)
      else x.ready && x.slot == s.workers[w].slot
  {
    if t.Assign? { assert s.idle[0] in s.idle; }
  }

  /** A request that a worker processes stays with it until it is done. */
  lemma RunningKept(s: Pool, t: Step, w: nat)
    requires Shape(s) && Enabled(s, t) && w < |s.workers| && s.workers[w].phase.Running?
    ensures Apply(s, t).workers[w].phase == s.workers[w].phase
         || (t == Finish(w) && s.workers[w].phase.r in Apply(s, t).finished)
  {
  }

  /** The queue hands out requests in the order in which they were put into it. */
  lemma {:induction false} QueueOrder(s: Pool, ts: seq<Step>)
    requires Can(s, ts) && s.arrived == s.handed + s.requests
    ensures var s' := After(s, ts); s'.arrived == s'.handed + s'.requests
    ensures s.arrived <= After(s, ts).arrived && s.handed <= After(s, ts).handed
    decreases |ts|
  {
    if ts == [] {
    } else {
      var s' := Apply(s, ts[0]);
      assert s'.arrived == s'.handed + s'.requests;
      QueueOrder(s', ts[1..]);
    }
  }
}
