/** When work is conserved, told from the order of the critical sections alone. */
module PoolDecisions {
  import opened Pool
  import opened PoolProgress

  // ---- States along a run ---------------------------------------------------------

  lemma {:induction false} PrefixStep(s: Pool, ts: seq<Step>, k: nat)
    requires Can(s, ts) && k < |ts|
    ensures Can(s, ts[..k]) && Enabled(After(s, ts[..k]), ts[k])
    ensures Can(s, ts[..k + 1]) && After(s, ts[..k + 1]) == Apply(After(s, ts[..k]), ts[k])
    decreases k
  {
    if k > 0 {
      PrefixStep(Apply(s, ts[0]), ts[1..], k - 1);
      assert ts[..k][1..] == ts[1..][..k - 1] && ts[..k + 1][1..] == ts[1..][..k];
    } else {
      assert ts[..1] == [ts[0]] && ts[..1][1..] == [];
    }
  }

  /** The state ahead of step `k`. */
  ghost function At(n: nat, ts: seq<Step>, k: nat): Pool
    requires Can(Init(n), ts) && k <= |ts|
  {
    if k < |ts| then PrefixStep(Init(n), ts, k); After(Init(n), ts[..k]) else After(Init(n), ts)
  }

  lemma AtNext(n: nat, ts: seq<Step>, k: nat)
    requires Can(Init(n), ts) && k < |ts|
    ensures Enabled(At(n, ts, k), ts[k]) && At(n, ts, k + 1) == Apply(At(n, ts, k), ts[k])
  {
    PrefixStep(Init(n), ts, k);
    if k + 1 == |ts| { assert ts[..k + 1] == ts; }
  }

  lemma AtStart(n: nat, ts: seq<Step>)
    requires Can(Init(n), ts)
    ensures At(n, ts, 0) == Init(n)
  {
    if ts != [] { assert ts[..0] == []; }
  }

  lemma {:induction false} AtShape(n: nat, ts: seq<Step>, k: nat)
    requires Can(Init(n), ts) && k <= |ts|
    ensures Shape(At(n, ts, k))
    decreases k
  {
    if k == 0 {
      AtStart(n, ts);
    } else {
      AtShape(n, ts, k - 1);
      AtNext(n, ts, k - 1);
      StepShape(At(n, ts, k - 1), ts[k - 1]);
    }
  }

  // ---- What comes between two steps -----------------------------------------------

  /** From step `i` on and ahead of step `j`: requests put into the queue, less those taken from it. */
  function QueueGain(ts: seq<Step>, i: nat, j: nat): int
    requires i <= j <= |ts|
    decreases j
  {
    if i == j then 0
    else QueueGain(ts, i, j - 1) + if ts[j - 1].Enqueue? then 1 else if ts[j - 1].TakeNext? then -1 else 0
  }

  /** Likewise: workers that have queued up, less those that have been given a request. */
  function IdleGain(ts: seq<Step>, i: nat, j: nat): int
    requires i <= j <= |ts|
    decreases j
  {
    if i == j then 0
    else IdleGain(ts, i, j - 1) + if ts[j - 1].Push? then 1 else if ts[j - 1].Assign? then -1 else 0
  }

  function Frees(ws: seq<Worker>): nat {
    if ws == [] then 0 else Frees(ws[..|ws| - 1]) + if Free(ws[|ws| - 1]) then 1 else 0
  }

  lemma {:induction false} FreesUpdate(ws: seq<Worker>, w: nat, x: Worker)
    requires w < |ws|
    ensures Frees(ws[w := x]) + (if Free(ws[w]) then 1 else 0) == Frees(ws) + (if Free(x) then 1 else 0)
    decreases |ws|
  {
    var n := |ws| - 1;
    if w < n {
      assert ws[w := x][..n] == ws[..n][w := x];
      FreesUpdate(ws[..n], w, x);
    } else {
      assert ws[w := x][..n] == ws[..n];
    }
  }

  lemma {:induction false} FreesNone(ws: seq<Worker>)
    ensures Frees(ws) == 0 <==> forall w :: 0 <= w < |ws| ==> !Free(ws[w])
    decreases |ws|
  {
    if ws == [] {
    } else {
      FreesNone(ws[..|ws| - 1]);
      if Frees(ws) == 0 {
        forall w | 0 <= w < |ws| ensures !Free(ws[w]) {
          if w < |ws| - 1 { assert !Free(ws[..|ws| - 1][w]); }
        }
      }
    }
  }

  predicate ByAWorker(t: Step) { t.Start? || t.Finish? || t.TakeNext? || t.FindEmpty? || t.Push? || t.Wake? }

  lemma WorkerFrees(s: Pool, t: Step)
    requires Shape(s) && Enabled(s, t) && ByAWorker(t)
    ensures Frees(Apply(s, t).workers) == Frees(s.workers) + if t.Push? then 1 else 0
  {
    FreesUpdate(s.workers, t.w, Apply(s, t).workers[t.w]);
  }

  lemma StepFrees(s: Pool, t: Step)
    requires Shape(s) && Enabled(s, t)
    ensures Frees(Apply(s, t).workers) == Frees(s.workers) + if t.Push? then 1 else if t.Assign? then -1 else 0
  {
    var s' := Apply(s, t);
    match t
    case Assign(_) =>
      assert s.idle[0] in s.idle;
      FreesUpdate(s.workers, s.idle[0], s'.workers[s.idle[0]]);
    case Spawn(_) => assert s'.workers[..|s.workers|] == s.workers;
    case _ => if ByAWorker(t) { WorkerFrees(s, t); }
  }

  lemma GainNext(n: nat, ts: seq<Step>, i: nat, k: nat)
    requires Can(Init(n), ts) && i <= k < |ts|
    ensures |At(n, ts, k + 1).requests| - |At(n, ts, k).requests| == QueueGain(ts, i, k + 1) - QueueGain(ts, i, k)
    ensures Frees(At(n, ts, k + 1).workers) - Frees(At(n, ts, k).workers) == IdleGain(ts, i, k + 1) - IdleGain(ts, i, k)
  {
    AtNext(n, ts, k);
    AtShape(n, ts, k);
    StepFrees(At(n, ts, k), ts[k]);
    StepQueue(At(n, ts, k), ts[k]);
  }

  lemma StepQueue(s: Pool, t: Step)
    requires Enabled(s, t)
    ensures |Apply(s, t).requests| == |s.requests| + if t.Enqueue? then 1 else if t.TakeNext? then -1 else 0
  {
  }

  lemma {:induction false} Gains(n: nat, ts: seq<Step>, i: nat, j: nat)
    requires Can(Init(n), ts) && i <= j <= |ts|
    ensures |At(n, ts, j).requests| == |At(n, ts, i).requests| + QueueGain(ts, i, j)
    ensures Frees(At(n, ts, j).workers) == Frees(At(n, ts, i).workers) + IdleGain(ts, i, j)
    decreases j
  {
    if i == j {
    } else {
      Gains(n, ts, i, j - 1);
      GainNext(n, ts, i, j - 1);
    }
  }

  // ---- Decisions that are overtaken -----------------------------------------------

  /**
   * At `j` somebody acts on what was found at `i`, and it has been overtaken. Either a worker queues up
   * after it found the queue empty, though more requests have been put into the queue meanwhile than
   * others have taken; or a request is put into the queue after no worker was found free, though more
   * workers have queued up meanwhile than have been given requests.
   */
  predicate Overtaken(ts: seq<Step>, i: nat, j: nat) {
    i < j < |ts| &&
    match ts[j]
    case Push(w) => ts[i] == FindEmpty(w) && QueueGain(ts, i, j) > 0
    case Enqueue(r) => ts[i] == FullPool(r) && IdleGain(ts, i, j) > 0
    case _ => false
  }

  /** A worker that queues up has found the queue empty. */
  lemma {:induction false} PushingSince(n: nat, ts: seq<Step>, j: nat, w: nat) returns (i: nat)
    requires Can(Init(n), ts) && j <= |ts| && InPhase(At(n, ts, j), w, Pushing)
    ensures i < j && ts[i] == FindEmpty(w)
    decreases j
  {
    if j == 0 {
      AtStart(n, ts);
      assert false;
    } else {
      i := j - 1;
      AtNext(n, ts, i);
      if ts[i] != FindEmpty(w) { i := PushingSince(n, ts, i, w); }
    }
  }

  /** A request that is about to be put into the queue has found no worker. */
  lemma {:induction false} QueueingSince(n: nat, ts: seq<Step>, j: nat, r: Request) returns (i: nat)
    requires Can(Init(n), ts) && j <= |ts| && r in At(n, ts, j).queueing
    ensures i < j && ts[i] == FullPool(r)
    decreases j
  {
    if j == 0 {
      AtStart(n, ts);
      assert false;
    } else {
      i := j - 1;
      AtNext(n, ts, i);
      if ts[i] != FullPool(r) { i := QueueingSince(n, ts, i, r); }
    }
  }

  /** What was found at `i`: nothing in the queue, or no free worker. */
  lemma FoundNothing(n: nat, ts: seq<Step>, i: nat)
    requires Can(Init(n), ts) && i < |ts|
    ensures ts[i].FindEmpty? ==> At(n, ts, i).requests == []
    ensures ts[i].FullPool? ==> Frees(At(n, ts, i).workers) == 0
  {
    var s := At(n, ts, i);
    AtNext(n, ts, i);
    AtShape(n, ts, i);
    if ts[i].FullPool? {
      assert forall w: nat :: w < |s.workers| ==> w !in s.idle;
      FreesNone(s.workers);
    }
  }

  lemma StaleIff(n: nat, ts: seq<Step>, j: nat)
    requires Can(Init(n), ts) && j < |ts|
    ensures Stale(At(n, ts, j), ts[j]) <==> exists i :: Overtaken(ts, i, j)
  {
    var s := At(n, ts, j);
    AtNext(n, ts, j);
    FreesNone(s.workers);
    forall i: nat | i < j && (ts[i].FindEmpty? || ts[i].FullPool?)
      ensures ts[i].FindEmpty? ==> |s.requests| == QueueGain(ts, i, j)
      ensures ts[i].FullPool? ==> Frees(s.workers) == IdleGain(ts, i, j)
    {
      FoundNothing(n, ts, i);
      Gains(n, ts, i, j);
    }
    if Stale(s, ts[j]) {
      var i;
      if ts[j].Push? { i := PushingSince(n, ts, j, ts[j].w); } else { i := QueueingSince(n, ts, j, ts[j].r); }
      assert Overtaken(ts, i, j);
    }
  }

  lemma {:induction false} NeverStaleFrom(n: nat, ts: seq<Step>, k: nat)
    requires Can(Init(n), ts) && k <= |ts|
    ensures Can(At(n, ts, k), ts[k..])
    ensures NeverStale(At(n, ts, k), ts[k..]) <==> forall j :: k <= j < |ts| ==> !Stale(At(n, ts, j), ts[j])
    decreases |ts| - k
  {
    if k == |ts| {
    } else {
      AtNext(n, ts, k);
      NeverStaleFrom(n, ts, k + 1);
      assert ts[k..][0] == ts[k] && ts[k..][1..] == ts[k + 1..];
    }
  }

  /**
   * At lock granularity, work is conserved throughout a run if and only if no decision in it is
   * overtaken.
   */
  lemma ConservingIffNoneOvertaken(n: nat, ts: seq<Step>)
    requires Can(Init(n), ts)
    ensures AlwaysConserving(Init(n), ts) <==> forall i, j :: !Overtaken(ts, i, j)
  {
    AtStart(n, ts);
    assert ts[0..] == ts;
    NeverStaleFrom(n, ts, 0);
    ConservingIff(Init(n), ts);
    forall j | 0 <= j < |ts| ensures Stale(At(n, ts, j), ts[j]) <==> exists i :: Overtaken(ts, i, j) {
      StaleIff(n, ts, j);
    }
  }
}
