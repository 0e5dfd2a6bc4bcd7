/** Where runs of the pool lead: they come to rest, and when a request is left behind. */
module PoolProgress {
  import opened Pool

  // ---- Every run comes to rest ----------------------------------------------------

  /** How many steps a worker is away from waiting, and a request from a worker. */
  function Distance(w: Worker): nat {
    match w.phase
    case Top => 4
    case Running(_) => 3
    case Checking => 2
    case Pushing => 1
    case Parked => if w.ready then 5 else 0
  }

  function Distances(ws: seq<Worker>): nat {
    if ws == [] then 0 else Distances(ws[..|ws| - 1]) + Distance(ws[|ws| - 1])
  }

  lemma {:induction false} DistancesUpdate(ws: seq<Worker>, w: nat, x: Worker)
    requires w < |ws|
    ensures Distances(ws[w := x]) + Distance(ws[w]) == Distances(ws) + Distance(x)
    decreases |ws|
  {
    var n := |ws| - 1;
    if w < n {
      assert ws[w := x][..n] == ws[..n][w := x];
      DistancesUpdate(ws[..n], w, x);
    } else {
      assert ws[w := x][..n] == ws[..n];
    }
  }

  lemma DistancesSpawn(ws: seq<Worker>, x: Worker)
    ensures Distances(ws + [x]) == Distances(ws) + Distance(x)
  {
    assert (ws + [x])[..|ws|] == ws;
  }

  function Work(s: Pool): nat {
    10 * |s.entering| + 9 * |s.queueing| + 8 * |s.requests| + Distances(s.workers)
    + if s.holder.NoOne? then 0 else 1
  }

  lemma WorkerWork(s: Pool, t: Step)
    requires AllSettled(s.workers) && Enabled(s, t)
    requires t.Start? || t.Finish? || t.TakeNext? || t.FindEmpty? || t.Push? || t.Wake?
    ensures Work(Apply(s, t)) < Work(s)
  {
    DistancesUpdate(s.workers, t.w, Apply(s, t).workers[t.w]);
  }

  lemma AssignWork(s: Pool, r: Request)
    requires Shape(s) && Enabled(s, Assign(r))
    ensures Work(Apply(s, Assign(r))) < Work(s)
  {
    assert s.idle[0] in s.idle;
    DistancesUpdate(s.workers, s.idle[0], Apply(s, Assign(r)).workers[s.idle[0]]);
  }

  lemma StepWork(s: Pool, t: Step)
    requires Shape(s) && Enabled(s, t)
    ensures if t.Submit? then Work(Apply(s, t)) == Work(s) + 10 else Work(Apply(s, t)) < Work(s)
  {
    match t
    case Submit(_) =>
    case Assign(r) => AssignWork(s, r);
    case PopIdle =>
    case Spawn(r) => DistancesSpawn(s.workers, Worker(Top, r, true));
    case CountThread =>
    case FullPool(_) =>
    case Enqueue(_) =>
    case _ => WorkerWork(s, t);
  }

  function Submissions(ts: seq<Step>): nat {
    if ts == [] then 0 else Submissions(ts[1..]) + if ts[0].Submit? then 1 else 0
  }

  lemma {:induction false} RunWork(s: Pool, ts: seq<Step>)
    requires Shape(s) && Can(s, ts)
    ensures |ts| + Work(After(s, ts)) <= Work(s) + 11 * Submissions(ts)
    decreases |ts|
  {
    if ts == [] {
    } else {
      StepWork(s, ts[0]);
      StepShape(s, ts[0]);
      RunWork(Apply(s, ts[0]), ts[1..]);
    }
  }

  /** A run takes at most eleven steps for each request: left alone, the pool comes to rest. */
  lemma RunsEnd(poolSize: nat, ts: seq<Step>)
    requires Can(Init(poolSize), ts)
    ensures |ts| <= 11 * Submissions(ts)
  {
    RunWork(Init(poolSize), ts);
  }

  /** No caller is in addRequest, and every worker waits. */
  ghost predicate AtRest(s: Pool) {
    && s.holder.NoOne? && s.entering == multiset{} && s.queueing == multiset{}
    && forall w :: 0 <= w < |s.workers| ==> Free(s.workers[w])
  }

  /** There is no deadlock: as long as it is not at rest, the pool can take a step by itself. */
  lemma Progress(s: Pool) returns (t: Step)
    requires Shape(s) && !AtRest(s)
    ensures Enabled(s, t) && !t.Submit?
  {
    if s.holder.Assigning? {
      t := PopIdle;
    } else if s.holder.Spawning? {
      t := CountThread;
    } else if s.entering != multiset{} {
      var r :| r in s.entering;
      if s.idle != [] { assert s.idle[0] in s.idle; }
      t := if s.idle != [] then Assign(r) else if s.threads < s.poolSize then Spawn(r) else FullPool(r);
    } else if s.queueing != multiset{} {
      var r :| r in s.queueing;
      t := Enqueue(r);
    } else {
      var w :| 0 <= w < |s.workers| && !Free(s.workers[w]);
      t := match s.workers[w].phase
        case Top => Start(w)
        case Running(_) => Finish(w)
        case Checking => if s.requests != [] then TakeNext(w) else FindEmpty(w)
        case Pushing => Push(w)
        case Parked => Wake(w);
    }
  }

  lemma AtRestIff(s: Pool)
    requires Shape(s)
    ensures AtRest(s) <==> forall t :: Enabled(s, t) ==> t.Submit?
  {
    if !AtRest(s) {
      var t := Progress(s);
    }
  }

  /** From every state that can be reached, the pool can come to rest by itself. */
  lemma {:induction false} ComesToRest(s: Pool) returns (ts: seq<Step>)
    requires Shape(s)
    ensures Can(s, ts) && AtRest(After(s, ts)) && Submissions(ts) == 0
    decreases Work(s)
  {
    if AtRest(s) {
      ts := [];
    } else {
      var t := Progress(s);
      StepWork(s, t);
      StepShape(s, t);
      var us := ComesToRest(Apply(s, t));
      ts := [t] + us;
      assert ts[1..] == us;
    }
  }

  lemma {:induction false} NoneHolds(ws: seq<Worker>, r: Request)
    requires forall w :: 0 <= w < |ws| ==> Free(ws[w])
    ensures HoldersOf(ws, r) == 0
    decreases |ws|
  {
    if ws == [] {
    } else {
      NoneHolds(ws[..|ws| - 1], r);
    }
  }

  /** At rest, every request has been processed or is in the queue. */
  lemma RestDone(poolSize: nat, ts: seq<Step>, r: Request)
    requires Can(Init(poolSize), ts) && AtRest(After(Init(poolSize), ts))
    ensures var s := After(Init(poolSize), ts);
      r in s.submitted <==> r in s.finished || r in s.requests
  {
    ExactlyOnce(poolSize, ts, r);
    NoneHolds(After(Init(poolSize), ts).workers, r);
  }

  // ---- Requests left behind -------------------------------------------------------

  /** No worker waits while there is a request in the queue. */
  ghost predicate Conserving(s: Pool) {
    s.requests != [] ==> forall w :: 0 <= w < |s.workers| ==> !Free(s.workers[w])
  }

  /** A decision that has been overtaken between the two locks: a worker queues up though a request
      has come in, or a request is queued though a worker has become free. */
  ghost predicate Stale(s: Pool, t: Step) {
    (t.Push? && s.requests != []) || (t.Enqueue? && exists w :: 0 <= w < |s.workers| && Free(s.workers[w]))
  }

  lemma BacklogStep(s: Pool, t: Step)
    requires Shape(s) && Conserving(s) && Enabled(s, t)
    ensures Conserving(Apply(s, t)) <==> !Stale(s, t)
  {
    if t.Push? {
      assert Free(Apply(s, t).workers[t.w]);
    } else if t.Enqueue? {
      assert Apply(s, t).workers == s.workers;
    } else if t.Assign? {
      assert s.idle[0] in s.idle && Free(s.workers[s.idle[0]]);
    } else {
      QuietStep(s, t);
    }
  }

  /** The other steps neither fill the queue nor free a worker. */
  lemma QuietStep(s: Pool, t: Step)
    requires Conserving(s) && Enabled(s, t) && !t.Push? && !t.Enqueue? && !t.Assign?
    ensures Conserving(Apply(s, t))
  {
  }

  ghost predicate NeverStale(s: Pool, ts: seq<Step>)
    requires Can(s, ts)
    decreases |ts|
  {
    ts == [] || (!Stale(s, ts[0]) && NeverStale(Apply(s, ts[0]), ts[1..]))
  }

  ghost predicate AlwaysConserving(s: Pool, ts: seq<Step>)
    requires Can(s, ts)
    decreases |ts|
  {
    Conserving(s) && (ts == [] || AlwaysConserving(Apply(s, ts[0]), ts[1..]))
  }

  /** At lock granularity, work is conserved throughout a run if and only if no decision in it is
      overtaken. */
  lemma {:induction false} ConservingIff(s: Pool, ts: seq<Step>)
    requires Shape(s) && Conserving(s) && Can(s, ts)
    ensures AlwaysConserving(s, ts) <==> NeverStale(s, ts)
    ensures NeverStale(s, ts) ==> Conserving(After(s, ts))
    decreases |ts|
  {
    if ts == [] {
    } else {
      BacklogStep(s, ts[0]);
      StepShape(s, ts[0]);
      if !Stale(s, ts[0]) {
        ConservingIff(Apply(s, ts[0]), ts[1..]);
      } else if ts[1..] != [] {
        assert !Conserving(Apply(s, ts[0]));
      }
    }
  }

  /** A run without such a decision that has come to rest has processed every request. */
  lemma AllDone(poolSize: nat, ts: seq<Step>, r: Request)
    requires 0 < poolSize && Can(Init(poolSize), ts) && NeverStale(Init(poolSize), ts)
    requires AtRest(After(Init(poolSize), ts))
    ensures var s := After(Init(poolSize), ts); s.requests == [] && (r in s.submitted <==> r in s.finished)
  {
    var s := After(Init(poolSize), ts);
    ConservingIff(Init(poolSize), ts);
    RunShape(Init(poolSize), ts);
    RestDone(poolSize, ts, r);
    if s.workers != [] { assert Free(s.workers[0]); }
  }

  // ---- A run that leaves a request behind -----------------------------------------

  lemma {:induction false} Extend(s: Pool, ts: seq<Step>, t: Step)
    requires Can(s, ts) && Enabled(After(s, ts), t)
    ensures Can(s, ts + [t]) && After(s, ts + [t]) == Apply(After(s, ts), t)
    decreases |ts|
  {
    if ts == [] {
      assert ts + [t] == [t];
      assert [t][1..] == [];
    } else {
      assert (ts + [t])[1..] == ts[1..] + [t];
      Extend(Apply(s, ts[0]), ts[1..], t);
    }
  }

  /** A run from the start, and one step more. */
  lemma OneMore(n: nat, ts: seq<Step>, t: Step) returns (us: seq<Step>)
    requires Can(Init(n), ts) && Enabled(After(Init(n), ts), t)
    ensures Can(Init(n), us) && After(Init(n), us) == Apply(After(Init(n), ts), t)
  {
    Extend(Init(n), ts, t);
    us := ts + [t];
  }

  /** All threads there are run, the first `k` workers in one phase, and the others in another; only a
      worker at the head of its loop has a request. */
  ghost predicate Lined(s: Pool, count: nat, k: nat, first: Phase, others: Phase) {
    && |s.workers| == s.threads == count && s.holder.NoOne? && s.entering == multiset{}
    && forall w :: 0 <= w < count ==>
         s.workers[w].phase == (if w < k then first else others) && s.workers[w].ready == s.workers[w].phase.Top?
  }

  /** The requests below `k`, and no others, have each been given a worker of its own. */
  ghost predicate Given(s: Pool, k: nat, n: nat) {
    && Lined(s, k, 0, Top, Top) && s.poolSize == n && s.idle == [] && s.requests == []
    && s.queueing == multiset{} && forall r :: r in s.submitted ==> r < k
  }

  lemma GiveOne(s: Pool, k: nat, n: nat)
    requires Given(s, k, n) && k < n
    ensures Enabled(s, Submit(k)) && Enabled(Apply(s, Submit(k)), Spawn(k))
    ensures var s' := Apply(Apply(s, Submit(k)), Spawn(k));
      Enabled(s', CountThread) && Given(Apply(s', CountThread), k + 1, n)
  {
  }

  lemma SpawnOne(n: nat, before: seq<Step>, k: nat) returns (ts: seq<Step>)
    requires Can(Init(n), before) && Given(After(Init(n), before), k, n) && k < n
    ensures Can(Init(n), ts) && Given(After(Init(n), ts), k + 1, n)
  {
    GiveOne(After(Init(n), before), k, n);
    ts := OneMore(n, before, Submit(k));
    ts := OneMore(n, ts, Spawn(k));
    ts := OneMore(n, ts, CountThread);
  }

  /** As many requests as the pool has room for, each with a worker of its own. */
  lemma SpawnAll(n: nat) returns (ts: seq<Step>)
    ensures Can(Init(n), ts) && Given(After(Init(n), ts), n, n)
  {
    ts := [];
    for k := 0 to n
      invariant Can(Init(n), ts) && Given(After(Init(n), ts), k, n)
    {
      ts := SpawnOne(n, ts, k);
    }
  }

  /** Each of them is processed. */
  lemma ProcessAll(n: nat, before: seq<Step>) returns (ts: seq<Step>)
    requires Can(Init(n), before) && Lined(After(Init(n), before), n, 0, Top, Top)
    ensures Can(Init(n), ts) && Lined(After(Init(n), ts), n, n, Checking, Checking)
    ensures Same(After(Init(n), before), After(Init(n), ts))
  {
    ts := before;
    for k := 0 to n
      invariant Can(Init(n), ts) && Lined(After(Init(n), ts), n, k, Checking, Top)
      invariant Same(After(Init(n), before), After(Init(n), ts))
    {
      ts := OneMore(n, ts, Start(k));
      ts := OneMore(n, ts, Finish(k));
    }
  }

  /** The workers have moved, but no request has come or gone. */
  ghost predicate Same(s: Pool, s': Pool) {
    && s'.poolSize == s.poolSize && s'.requests == s.requests && s'.queueing == s.queueing
    && s'.submitted == s.submitted && s'.idle == s.idle
  }

  lemma FindEmptyAll(n: nat, before: seq<Step>) returns (ts: seq<Step>)
    requires Can(Init(n), before) && Lined(After(Init(n), before), n, n, Checking, Checking)
    requires After(Init(n), before).requests == []
    ensures Can(Init(n), ts) && Lined(After(Init(n), ts), n, n, Pushing, Pushing)
    ensures Same(After(Init(n), before), After(Init(n), ts))
  {
    ts := before;
    for k := 0 to n
      invariant Can(Init(n), ts) && Lined(After(Init(n), ts), n, k, Pushing, Checking)
      invariant Same(After(Init(n), before), After(Init(n), ts))
    {
      ts := OneMore(n, ts, FindEmpty(k));
    }
  }

  lemma PushAll(n: nat, before: seq<Step>) returns (ts: seq<Step>)
    requires Can(Init(n), before) && Lined(After(Init(n), before), n, n, Pushing, Pushing)
    ensures Can(Init(n), ts) && Lined(After(Init(n), ts), n, n, Parked, Parked)
    ensures After(Init(n), ts).requests == After(Init(n), before).requests
    ensures After(Init(n), ts).queueing == After(Init(n), before).queueing
  {
    ts := before;
    for k := 0 to n
      invariant Can(Init(n), ts) && Lined(After(Init(n), ts), n, k, Parked, Pushing)
      invariant After(Init(n), ts).requests == After(Init(n), before).requests
      invariant After(Init(n), ts).queueing == After(Init(n), before).queueing
    {
      ts := OneMore(n, ts, Push(k));
    }
  }

  lemma NotGiven(n: nat, ts: seq<Step>)
    requires Can(Init(n), ts) && Given(After(Init(n), ts), n, n)
    ensures Lined(After(Init(n), ts), n, 0, Top, Top) && Full(After(Init(n), ts), n)
  {
  }

  /** The pool has no room for the request `n`, which has not come yet, and nothing else is on its way. */
  ghost predicate Full(s: Pool, n: nat) {
    s.poolSize == n && s.idle == [] && s.requests == [] && s.queueing == multiset{} && n !in s.submitted
  }

  /** That request is sent to the queue. */
  lemma SendToQueue(n: nat, before: seq<Step>) returns (ts: seq<Step>)
    requires Can(Init(n), before) && Lined(After(Init(n), before), n, n, Checking, Checking)
    requires Full(After(Init(n), before), n)
    ensures Can(Init(n), ts) && Lined(After(Init(n), ts), n, n, Checking, Checking)
    ensures After(Init(n), ts).requests == [] && After(Init(n), ts).queueing == multiset{n}
  {
    ts := OneMore(n, before, Submit(n));
    ts := OneMore(n, ts, FullPool(n));
  }

  /**
   * Work conservation fails at lock granularity, for a pool of any size: when all workers have just
   * found the queue empty, a request that was sent to the queue because none of them was free can come
   * before they queue up. Then it waits, and so do all workers, and by `AtRestIff` nothing happens until
   * yet another request is submitted.
   */
  lemma LeftBehindReachable(poolSize: nat) returns (ts: seq<Step>)
    requires 0 < poolSize
    ensures Can(Init(poolSize), ts) && AtRest(After(Init(poolSize), ts))
    ensures After(Init(poolSize), ts).requests != [] && |After(Init(poolSize), ts).workers| == poolSize
  {
    var n := poolSize;
    ts := SpawnAll(n);
    NotGiven(n, ts);
    ts := ProcessAll(n, ts);
    ts := SendToQueue(n, ts);
    ts := FindEmptyAll(n, ts);
    ts := OneMore(n, ts, Enqueue(n));
    ts := PushAll(n, ts);
  }
}
