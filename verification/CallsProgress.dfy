/** No deadlock among the callers and the listener, and every call returns. */
module CallsProgress {
  import opened Calls
  import opened Options

  /** Steps that only the outside world can take: another call, another message. */
  predicate Outside(t: Step) { t.Begin? || t.Receive? }

  ghost predicate AllReturned(s: State) {
    s.listener.Idle? && forall c :: 0 <= c < |s.calls| ==> s.calls[c].stage.Returned?
  }

  /** The next step of the listener, or of the caller that keeps it waiting. */
  function ListenerNext(s: State): Step
    requires HasCall(s.listener) ==> s.listener.c < |s.calls|
  {
    match s.listener
    case Found(_, c) =>
      if s.calls[c].mutex.Nobody? then Lock
      else if s.calls[c].stage.Registered? then Send(c)
      else if s.calls[c].stage.Sent? then Wait(c)
      else Unlock(c)
    case Holding(_, _) => Store
    case Stored(_, _) => Release
    case _ => ReleaseMap
  }

  lemma ListenerGoesOn(s: State)
    requires Sound(s) && !s.listener.Idle?
    ensures Enabled(s, ListenerNext(s)) && !Outside(ListenerNext(s))
  {
  }

  /** The one that holds the innermost lock that is taken, or else the given caller. */
  function InTheWay(s: State, c: nat): nat {
    if s.listenersMutex.Some? then s.listenersMutex.value
    else if s.methodsMutex.Some? then s.methodsMutex.value
    else if s.instancesMutex.Some? then s.instancesMutex.value
    else c
  }

  /** The next step of a caller while the listener is idle. */
  function OwnNext(x: Call, c: nat): Step {
    match x.stage
    case Arriving => Admit(c)
    case Admitted => Prepare(c)
    case Fresh => Number(c)
    case Registering => Register(c)
    case Registered => Send(c)
    case Sent => Wait(c)
    case Waiting => if x.signalled then Notice(c) else TimeOut(c)
    case Waking(_) => Relock(c)
    case Locked(_) => Unlock(c)
    case Removing(_) => Remove(c)
    case Gone(_) => Return(c)
    case _ => Enter(c)
  }

  lemma ListenersHolderGoesOn(s: State)
    requires LocksExact(s) && OuterLocksExact(s) && s.listener.Idle? && s.listenersMutex.Some?
    ensures var d := s.listenersMutex.value; Enabled(s, OwnNext(s.calls[d], d))
  {
    assert UnderListeners(s.calls[s.listenersMutex.value].stage);
  }

  lemma MethodsHolderGoesOn(s: State)
    requires LocksExact(s) && OuterLocksExact(s) && s.listener.Idle? && s.listenersMutex.None? && s.methodsMutex.Some?
    ensures var d := s.methodsMutex.value; Enabled(s, OwnNext(s.calls[d], d))
  {
    var d := s.methodsMutex.value;
    assert UnderMethods(s.calls[d].stage) && !UnderListeners(s.calls[d].stage);
  }

  lemma FreeCallerGoesOn(s: State, c: nat)
    requires LocksExact(s) && OuterLocksExact(s) && s.listener.Idle? && s.listenersMutex.None? && s.methodsMutex.None?
    requires c < |s.calls| && !s.calls[c].stage.Returned?
    requires s.instancesMutex == Some(c) || s.instancesMutex.None?
    ensures Enabled(s, OwnNext(s.calls[c], c))
  {
    assert !UnderListeners(s.calls[c].stage) && !UnderMethods(s.calls[c].stage);
    assert s.calls[c].mutex.ByCaller? <==> CallerHolds(s.calls[c].stage);
    assert !s.calls[c].mutex.ByListener?;
  }

  lemma CallerGoesOn(s: State, c: nat)
    requires Sound(s) && s.listener.Idle? && c < |s.calls| && !s.calls[c].stage.Returned?
    ensures var d := InTheWay(s, c); d < |s.calls| && Enabled(s, OwnNext(s.calls[d], d))
  {
    if s.listenersMutex.Some? {
      ListenersHolderGoesOn(s);
    } else if s.methodsMutex.Some? {
      MethodsHolderGoesOn(s);
    } else {
      FreeCallerGoesOn(s, InTheWay(s, c));
    }
  }

  lemma GoesOn(s: State) returns (t: Step)
    requires Sound(s) && !AllReturned(s)
    ensures Enabled(s, t) && !Outside(t)
  {
    if !s.listener.Idle? {
      ListenerGoesOn(s);
      t := ListenerNext(s);
    } else {
      var c := SomeCaller(s);
      CallerGoesOn(s, c);
      t := OwnNext(s.calls[InTheWay(s, c)], InTheWay(s, c));
    }
  }

  lemma SomeCaller(s: State) returns (c: nat)
    requires s.listener.Idle? && !AllReturned(s)
    ensures c < |s.calls| && !s.calls[c].stage.Returned?
  {
    c :| 0 <= c < |s.calls| && !s.calls[c].stage.Returned?;
  }

  /**
   * No deadlock, though callers lock instancesMutex, methodsMutex, their request, listenersMutex and
   * messagesMutex in this order, and the listener locks messagesMutex before a request: in every state
   * that can be reached, either all calls have returned and the listener is idle, or one of them can
   * take a step.
   */
  lemma NoDeadlock(ts: seq<Step>)
    requires Can(INIT, ts)
    ensures AllReturned(After(INIT, ts)) || exists t :: Enabled(After(INIT, ts), t) && !Outside(t)
  {
    Reached(ts);
    if !AllReturned(After(INIT, ts)) {
      var t := GoesOn(After(INIT, ts));
    }
  }

  /** How many steps a caller is away from its return. */
  function ToGo(g: Stage): nat {
    match g
    case Arriving => 13
    case Admitted => 12
    case Fresh => 11
    case Numbered => 10
    case Registering => 9
    case Registered => 8
    case Sent => 7
    case Waiting => 6
    case Waking(_) => 5
    case Locked(_) => 4
    case Leaving(_) => 3
    case Removing(_) => 2
    case Gone(_) => 1
    case Returned(_) => 0
  }

  function AllToGo(calls: seq<Call>): nat {
    if calls == [] then 0 else AllToGo(calls[..|calls| - 1]) + ToGo(calls[|calls| - 1].stage)
  }

  function ListenerToGo(l: Listener): nat {
    match l
    case Idle => 0
    case Found(_, _) => 4
    case Holding(_, _) => 3
    case Stored(_, _) => 2
    case Releasing => 1
  }

  function Left(s: State): nat { AllToGo(s.calls) + ListenerToGo(s.listener) }

  lemma {:induction false} ToGoUpdate(calls: seq<Call>, c: nat, x: Call)
    requires c < |calls|
    ensures AllToGo(calls[c := x]) + ToGo(calls[c].stage) == AllToGo(calls) + ToGo(x.stage)
    decreases |calls|
  {
    var n := |calls| - 1;
    if c < n {
      assert calls[c := x][..n] == calls[..n][c := x];
      ToGoUpdate(calls[..n], c, x);
    } else {
      assert calls[c := x][..n] == calls[..n];
    }
  }

  lemma ToGoBegin(calls: seq<Call>, x: Call)
    ensures AllToGo(calls + [x]) == AllToGo(calls) + ToGo(x.stage)
  {
    assert (calls + [x])[..|calls|] == calls;
  }

  lemma CallerCloser(s: State, t: Step)
    requires ByACaller(t) && Enabled(s, t)
    ensures ToGo(Advance(s.calls[t.c], t, s.nextId).stage) < ToGo(s.calls[t.c].stage)
  {
  }

  lemma CallerLeft(s: State, t: Step)
    requires ByACaller(t) && Enabled(s, t)
    ensures Left(Apply(s, t)) < Left(s)
  {
    CallerCloser(s, t);
    ToGoUpdate(s.calls, t.c, Advance(s.calls[t.c], t, s.nextId));
  }

  lemma ListenerLeft(s: State, t: Step)
    requires (t.Lock? || t.Store? || t.Release? || t.ReleaseMap?) && Enabled(s, t)
    ensures Left(Apply(s, t)) < Left(s)
  {
    if !t.ReleaseMap? { ToGoUpdate(s.calls, s.listener.c, Apply(s, t).calls[s.listener.c]); }
  }

  lemma StepLeft(s: State, t: Step)
    requires Enabled(s, t)
    ensures Left(Apply(s, t)) + 1 <= Left(s) + if t.Begin? then 14 else if t.Receive? then 5 else 0
  {
    if ByACaller(t) {
      CallerLeft(s, t);
    } else if t.Begin? {
      ToGoBegin(s.calls, Call(Arriving, t.isPublic, 0, Nobody, false, None, 0));
    } else if !t.Receive? {
      ListenerLeft(s, t);
    }
  }

  function Begun(ts: seq<Step>): nat {
    if ts == [] then 0 else Begun(ts[1..]) + if ts[0].Begin? then 1 else 0
  }

  function Messages(ts: seq<Step>): nat {
    if ts == [] then 0 else Messages(ts[1..]) + if ts[0].Receive? then 1 else 0
  }

  lemma {:induction false} RunLeft(s: State, ts: seq<Step>)
    requires Can(s, ts)
    ensures |ts| + Left(After(s, ts)) <= Left(s) + 14 * Begun(ts) + 5 * Messages(ts)
    decreases |ts|
  {
    if ts == [] {
    } else {
      StepLeft(s, ts[0]);
      RunLeft(Apply(s, ts[0]), ts[1..]);
    }
  }

  /** Fourteen steps for each call and five for each message are all that a run can take; with
      `NoDeadlock`, every call returns as long as only finitely many messages come. */
  lemma CallsReturn(ts: seq<Step>)
    requires Can(INIT, ts)
    ensures |ts| <= 14 * Begun(ts) + 5 * Messages(ts)
  {
    RunLeft(INIT, ts);
  }

  /** From every state that can be reached, the callers and the listener can bring all calls to their
      return by themselves, without another message. */
  lemma {:induction false} Finishes(s: State) returns (ts: seq<Step>)
    requires Sound(s)
    ensures Can(s, ts) && AllReturned(After(s, ts)) && forall t :: t in ts ==> !Outside(t)
    decreases Left(s)
  {
    if AllReturned(s) {
      ts := [];
    } else {
      var t := GoesOn(s);
      StepLeft(s, t);
      StepSound(s, t);
      var us := Finishes(Apply(s, t));
      ts := [t] + us;
      assert ts[1..] == us;
    }
  }
}
