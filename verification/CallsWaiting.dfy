/** Who waits for whom among the callers and the listener, and a whole call on its own. */
module CallsWaiting {
  import opened Options
  import opened Calls
  import opened CallsOutcome
  import opened SocketListener

  // ---- Who is held up, and by whom -------------------------------------------------

  predicate OfCaller(t: Step, c: nat) { ByACaller(t) && t.c == c }

  ghost predicate CanGoOn(s: State, c: nat) { exists t :: OfCaller(t, c) && Enabled(s, t) }

  /** Some call is between these two turns of its script. */
  ghost predicate SomeoneAt(s: State, lo: nat, hi: nat) {
    exists d :: 0 <= d < |s.calls| && lo <= Done(s.calls[d].stage) <= hi
  }

  /** What a caller waits for, told by how far the others have come: at the public entry point for the
      public call under way; ahead of its request for the one that makes and sends its own; ahead of
      addMessage and removeMessage for the one inside; in them for the listener; after its wait for the
      listener to leave its request. */
  ghost predicate HeldUp(s: State, c: nat)
    requires c < |s.calls|
  {
    match Done(s.calls[c].stage)
    case 0 =>
      s.calls[c].isPublic
      && exists d :: 0 <= d < |s.calls| && s.calls[d].isPublic && 1 <= Done(s.calls[d].stage) <= 12
    case 1 => SomeoneAt(s, 2, 5)
    case 3 => SomeoneAt(s, 4, 4) || SomeoneAt(s, 11, 11)
    case 10 => SomeoneAt(s, 4, 4) || SomeoneAt(s, 11, 11)
    case 4 => !s.listener.Idle?
    case 11 => !s.listener.Idle?
    case 8 => (s.listener.Holding? || s.listener.Stored?) && s.listener.c == c
    case _ => s.calls[c].stage.Returned?
  }

  /** The only steps that a caller can take next. */
  lemma NextTurn(s: State, c: nat)
    requires ResponsesFit(s) && c < |s.calls|
    ensures var k := Done(s.calls[c].stage);
      CanGoOn(s, c) <==> k <= 12 && (Enabled(s, Turn(c, true, k)) || Enabled(s, Turn(c, false, k)))
  {
    var k := Done(s.calls[c].stage);
    assert OfCaller(Turn(c, true, k), c) && OfCaller(Turn(c, false, k), c);
    if t :| OfCaller(t, c) && Enabled(s, t) { OwnAdvance(s, t); }
  }

  lemma InstancesHeld(s: State)
    requires OuterLocksExact(s)
    ensures s.instancesMutex.Some? <==>
      exists d :: 0 <= d < |s.calls| && s.calls[d].isPublic && 1 <= Done(s.calls[d].stage) <= 12
  {
    if d :| 0 <= d < |s.calls| && s.calls[d].isPublic && 1 <= Done(s.calls[d].stage) <= 12 {
      assert UnderInstances(s.calls[d]);
    }
    if s.instancesMutex.Some? { assert UnderInstances(s.calls[s.instancesMutex.value]); }
  }

  lemma MethodsHeld(s: State)
    requires OuterLocksExact(s)
    ensures s.methodsMutex.Some? <==> SomeoneAt(s, 2, 5)
  {
    if d :| 0 <= d < |s.calls| && 2 <= Done(s.calls[d].stage) <= 5 { assert UnderMethods(s.calls[d].stage); }
    if s.methodsMutex.Some? { assert UnderMethods(s.calls[s.methodsMutex.value].stage); }
  }

  lemma ListenersHeld(s: State)
    requires LocksExact(s)
    ensures s.listenersMutex.Some? <==> SomeoneAt(s, 4, 4) || SomeoneAt(s, 11, 11)
  {
    if d :| 0 <= d < |s.calls| && (4 <= Done(s.calls[d].stage) <= 4 || 11 <= Done(s.calls[d].stage) <= 11) {
      assert UnderListeners(s.calls[d].stage);
    }
    if s.listenersMutex.Some? { assert UnderListeners(s.calls[s.listenersMutex.value].stage); }
  }

  lemma RequestHeld(s: State, c: nat)
    requires LocksExact(s) && c < |s.calls| && s.calls[c].stage.Waking?
    ensures s.calls[c].mutex.Nobody? <==> !((s.listener.Holding? || s.listener.Stored?) && s.listener.c == c)
  {
    assert InListener(s, c) <==> s.calls[c].mutex.ByListener?;
  }

  /** The lock that the next turn of a caller takes is held. */
  predicate LockTaken(s: State, c: nat)
    requires c < |s.calls|
  {
    match s.calls[c].stage
    case Arriving => s.calls[c].isPublic && s.instancesMutex.Some?
    case Admitted => s.methodsMutex.Some?
    case Numbered => s.listenersMutex.Some?
    case Leaving(_) => s.listenersMutex.Some?
    case Registering => !s.listener.Idle?
    case Removing(_) => !s.listener.Idle?
    case Waking(_) => !s.calls[c].mutex.Nobody?
    case _ => s.calls[c].stage.Returned?
  }

  lemma TurnEnabled(s: State, c: nat)
    requires c < |s.calls|
    ensures var k := Done(s.calls[c].stage);
      k <= 12 && (Enabled(s, Turn(c, true, k)) || Enabled(s, Turn(c, false, k))) <==> !LockTaken(s, c)
  {
  }

  lemma HeldByLock(s: State, c: nat)
    requires LocksExact(s) && OuterLocksExact(s) && c < |s.calls|
    ensures HeldUp(s, c) <==> LockTaken(s, c)
  {
    match s.calls[c].stage
    case Arriving => InstancesHeld(s);
    case Admitted => MethodsHeld(s);
    case Numbered => ListenersHeld(s);
    case Leaving(_) => ListenersHeld(s);
    case Waking(_) => RequestHeld(s, c);
    case _ =>
  }

  /** In every sound state, and so in every run, a caller can go on exactly if it is not held up so. */
  lemma CallerHeldIff(s: State, c: nat)
    requires Sound(s) && c < |s.calls|
    ensures CanGoOn(s, c) <==> !HeldUp(s, c)
  {
    NextTurn(s, c);
    TurnEnabled(s, c);
    HeldByLock(s, c);
  }

  /** The listener, once it has a message for a pending call, waits only for a caller that has its own
      request locked; and while it is idle it takes any message. */
  lemma ListenerHeldIff(s: State)
    requires Sound(s)
    ensures (exists t :: !ByACaller(t) && !t.Begin? && Enabled(s, t)) <==>
      !(s.listener.Found? && Done(s.calls[s.listener.c].stage) in {5, 6, 9})
    ensures s.listener.Idle? ==> forall m :: Enabled(s, Receive(m))
  {
    if s.listener.Found? {
      assert OnMap(s.calls[s.listener.c].stage);
      ListenerLock(s);
    }
    var t := match s.listener
      case Idle => Receive(Message(0, 0))
      case Found(_, _) => Lock
      case Holding(_, _) => Store
      case Stored(_, _) => Release
      case Releasing => ReleaseMap;
    assert !ByACaller(t) && !t.Begin?;
  }

  lemma ListenerLock(s: State)
    requires Sound(s) && s.listener.Found?
    ensures s.calls[s.listener.c].mutex.Nobody? <==> !(Done(s.calls[s.listener.c].stage) in {5, 6, 9})
  {
    assert OnMap(s.calls[s.listener.c].stage);
  }

  // ---- A whole call on its own -----------------------------------------------------

  /** The state with one more call. */
  function Beside(s: State, x: Call): State { s.(calls := s.calls + [x]) }

  lemma OwnTurn(s: State, x: Call, t: Step)
    requires ByACaller(t) && t.c == |s.calls| && Enabled(Beside(s, x), t)
    ensures Apply(Beside(s, x), t).calls == s.calls + [Advance(x, t, s.nextId)]
  {
  }

  /** The run `ts` leads from `s` to `b`. */
  predicate Leads(s: State, ts: seq<Step>, b: State) { Can(s, ts) && After(s, ts) == b }

  lemma TwoSteps(s: State, t: Step, u: Step, b: State)
    requires Enabled(s, t) && Enabled(Apply(s, t), u) && Apply(Apply(s, t), u) == b
    ensures Leads(s, [t, u], b)
  {
    PrependStep(Apply(s, t), u, []);
    PrependStep(s, t, [u]);
    assert [t] + [u] == [t, u];
  }

  lemma Arrives(s: State, p: bool) returns (b: State)
    requires p ==> s.instancesMutex.None?
    ensures b == Beside(s, Call(Admitted, p, 0, Nobody, false, None, 0)).(
      instancesMutex := if p then Some(|s.calls|) else s.instancesMutex)
    ensures Leads(s, [Begin(p), Admit(|s.calls|)], b)
  {
    var x := Call(Arriving, p, 0, Nobody, false, None, 0);
    OwnTurn(s, x, Admit(|s.calls|));
    b := Apply(Beside(s, x), Admit(|s.calls|));
    TwoSteps(s, Begin(p), Admit(|s.calls|), b);
  }

  lemma Prepares(s: State, x: Call) returns (b: State)
    requires x.stage.Admitted? && s.methodsMutex.None?
    ensures b == Beside(s, x.(stage := Numbered, id := s.nextId, mutex := ByCaller)).(
      methodsMutex := Some(|s.calls|), nextId := s.nextId + 1)
    ensures var c := |s.calls|; Leads(Beside(s, x), [Prepare(c), Number(c)], b)
  {
    var c := |s.calls|;
    OwnTurn(s, x, Prepare(c));
    var x' := Advance(x, Prepare(c), s.nextId);
    var m := Apply(Beside(s, x), Prepare(c));
    OwnTurn(m.(calls := s.calls), x', Number(c));
    assert m == Beside(m.(calls := s.calls), x');
    b := Apply(m, Number(c));
    TwoSteps(Beside(s, x), Prepare(c), Number(c), b);
  }

  lemma Registers(s: State, x: Call) returns (b: State)
    requires x.stage.Numbered? && s.listenersMutex.None? && s.listener.Idle? && x.id !in s.pending
    ensures b == Beside(s, x.(stage := Registered)).(pending := s.pending[x.id := |s.calls|])
    ensures var c := |s.calls|; Leads(Beside(s, x), [Enter(c), Register(c)], b)
  {
    var c := |s.calls|;
    OwnTurn(s, x, Enter(c));
    var x' := Advance(x, Enter(c), s.nextId);
    var m := Apply(Beside(s, x), Enter(c));
    OwnTurn(m.(calls := s.calls), x', Register(c));
    assert m == Beside(m.(calls := s.calls), x');
    b := Apply(m, Register(c));
    TwoSteps(Beside(s, x), Enter(c), Register(c), b);
  }

  lemma Sends(s: State, x: Call) returns (b: State)
    requires x.stage.Registered?
    ensures b == Beside(s, x.(stage := Waiting, mutex := Nobody)).(methodsMutex := None)
    ensures var c := |s.calls|; Leads(Beside(s, x), [Send(c), Wait(c)], b)
  {
    var c := |s.calls|;
    OwnTurn(s, x, Send(c));
    var x' := Advance(x, Send(c), s.nextId);
    var m := Apply(Beside(s, x), Send(c));
    OwnTurn(m.(calls := s.calls), x', Wait(c));
    assert m == Beside(m.(calls := s.calls), x');
    b := Apply(m, Wait(c));
    TwoSteps(Beside(s, x), Send(c), Wait(c), b);
  }

  lemma EndsWait(s: State, x: Call) returns (b: State)
    requires x.stage.Waiting? && x.mutex.Nobody?
    ensures b == Beside(s, x.(stage := Locked(x.signalled), mutex := ByCaller))
    ensures var c := |s.calls|; Leads(Beside(s, x), [(if x.signalled then Notice(c) else TimeOut(c)), Relock(c)], b)
  {
    var c := |s.calls|;
    OwnTurn(s, x, (if x.signalled then Notice(c) else TimeOut(c)));
    var x' := Advance(x, (if x.signalled then Notice(c) else TimeOut(c)), s.nextId);
    var m := Apply(Beside(s, x), (if x.signalled then Notice(c) else TimeOut(c)));
    OwnTurn(m.(calls := s.calls), x', Relock(c));
    assert m == Beside(m.(calls := s.calls), x');
    b := Apply(m, Relock(c));
    TwoSteps(Beside(s, x), (if x.signalled then Notice(c) else TimeOut(c)), Relock(c), b);
  }

  lemma Leaves(s: State, x: Call) returns (b: State)
    requires x.stage.Locked? && s.listenersMutex.None?
    ensures b == Beside(s, x.(stage := Removing(x.stage.ok), mutex := Nobody)).(listenersMutex := Some(|s.calls|))
    ensures var c := |s.calls|; Leads(Beside(s, x), [Unlock(c), Enter(c)], b)
  {
    var c := |s.calls|;
    OwnTurn(s, x, Unlock(c));
    var x' := Advance(x, Unlock(c), s.nextId);
    var m := Apply(Beside(s, x), Unlock(c));
    OwnTurn(m.(calls := s.calls), x', Enter(c));
    assert m == Beside(m.(calls := s.calls), x');
    b := Apply(m, Enter(c));
    TwoSteps(Beside(s, x), Unlock(c), Enter(c), b);
  }

  function Finished(x: Call): Call
    requires x.stage.Removing?
  {
    if x.stage.ok then x.(stage := Returned(x.response), freed := x.freed + 1) else x.(stage := Returned(None))
  }

  lemma Comes(s: State, x: Call) returns (b: State)
    requires x.stage.Removing? && s.listener.Idle?
    ensures b == Beside(s, Finished(x)).(pending := s.pending - {x.id}, listenersMutex := None,
      instancesMutex := if x.isPublic then None else s.instancesMutex)
    ensures var c := |s.calls|; Leads(Beside(s, x), [Remove(c), Return(c)], b)
  {
    var c := |s.calls|;
    OwnTurn(s, x, Remove(c));
    var x' := Advance(x, Remove(c), s.nextId);
    var m := Apply(Beside(s, x), Remove(c));
    OwnTurn(m.(calls := s.calls), x', Return(c));
    assert m == Beside(m.(calls := s.calls), x');
    b := Apply(m, Return(c));
    TwoSteps(Beside(s, x), Remove(c), Return(c), b);
  }

  /** Nobody holds what a call from this entry point needs. */
  predicate Free(s: State, p: bool) {
    s.listener.Idle? && s.methodsMutex.None? && s.listenersMutex.None? && (p ==> s.instancesMutex.None?)
  }

  /** The record of a call that waits, and of the same after its end. */
  function Asking(p: bool, id: nat): Call { Call(Waiting, p, id, Nobody, false, None, 0) }

  function Over(p: bool, id: nat, answer: Option<Message>): Call {
    Call(Returned(answer), p, id, Nobody, answer.Some?, answer, if answer.Some? then 1 else 0)
  }

  /** What a call leaves in the shared state while it waits. */
  function Pending(s: State, p: bool): State {
    s.(pending := s.pending[s.nextId := |s.calls|], nextId := s.nextId + 1,
       instancesMutex := if p then Some(|s.calls|) else s.instancesMutex)
  }

  lemma Then(s: State, ts: seq<Step>, b: State, us: seq<Step>, d: State)
    requires Leads(s, ts, b) && Leads(b, us, d)
    ensures Leads(s, ts + us, d)
  {
    JoinRuns(s, ts, us);
  }

  lemma TakesId(s: State, p: bool) returns (ts: seq<Step>, b: State)
    requires Free(s, p)
    ensures Leads(s, ts, b)
    ensures b == Beside(s, Call(Numbered, p, s.nextId, ByCaller, false, None, 0)).(nextId := s.nextId + 1,
      methodsMutex := Some(|s.calls|), instancesMutex := if p then Some(|s.calls|) else s.instancesMutex)
  {
    var c := |s.calls|;
    var b0 := Arrives(s, p);
    b := Prepares(s.(instancesMutex := b0.instancesMutex), Call(Admitted, p, 0, Nobody, false, None, 0));
    ts := [Begin(p), Admit(c)] + [Prepare(c), Number(c)];
    Then(s, [Begin(p), Admit(c)], b0, [Prepare(c), Number(c)], b);
  }

  lemma ComesToWait(s: State, x: Call) returns (ts: seq<Step>, b: State)
    requires x.stage.Numbered? && s.listenersMutex.None? && s.listener.Idle? && x.id !in s.pending
    ensures Leads(Beside(s, x), ts, b)
    ensures b == Beside(s, x.(stage := Waiting, mutex := Nobody)).(
      pending := s.pending[x.id := |s.calls|], methodsMutex := None)
  {
    var c := |s.calls|;
    var b1 := Registers(s, x);
    b := Sends(s.(pending := s.pending[x.id := c]), x.(stage := Registered));
    ts := [Enter(c), Register(c)] + [Send(c), Wait(c)];
    Then(Beside(s, x), [Enter(c), Register(c)], b1, [Send(c), Wait(c)], b);
  }

  lemma Asks(s: State, p: bool) returns (ts: seq<Step>)
    requires Free(s, p) && s.nextId !in s.pending
    ensures Leads(s, ts, Beside(Pending(s, p), Asking(p, s.nextId)))
  {
    var b, b', us;
    ts, b := TakesId(s, p);
    us, b' := ComesToWait(b.(calls := s.calls), Call(Numbered, p, s.nextId, ByCaller, false, None, 0));
    Then(s, ts, b, us, b');
    ts := ts + us;
  }

  lemma Ends(s: State, x: Call) returns (ts: seq<Step>)
    requires s.listener.Idle? && s.listenersMutex.None?
    requires x.stage.Waiting? && x.mutex.Nobody? && x.signalled == x.response.Some? && x.freed == 0
    ensures Leads(Beside(s, x), ts, Beside(s, Over(x.isPublic, x.id, x.response)).(
      pending := s.pending - {x.id}, instancesMutex := if x.isPublic then None else s.instancesMutex))
  {
    var c, end := |s.calls|, if x.signalled then Notice(|s.calls|) else TimeOut(|s.calls|);
    var b1 := EndsWait(s, x);
    var x1 := x.(stage := Locked(x.signalled), mutex := ByCaller);
    var b2 := Leaves(s, x1);
    var x2 := x1.(stage := Removing(x.signalled), mutex := Nobody);
    var b3 := Comes(s.(listenersMutex := Some(c)), x2);
    Then(Beside(s, x), [end, Relock(c)], b1, [Unlock(c), Enter(c)], b2);
    ts := [end, Relock(c)] + [Unlock(c), Enter(c)];
    Then(Beside(s, x), ts, b2, [Remove(c), Return(c)], b3);
    ts := ts + [Remove(c), Return(c)];
  }

  lemma Hears(s: State, x: Call, m: Message) returns (ts: seq<Step>)
    requires MapExact(s.calls + [x], s.pending) && s.listener.Idle? && x.mutex.Nobody? && x.stage.Waiting?
    requires m.replyId in s.pending && s.pending[m.replyId] == |s.calls|
    ensures Leads(Beside(s, x), ts, Beside(s.(log := s.log + [m]), x.(response := Some(m), signalled := true)))
  {
    HandlingSteps(Beside(s, x), m);
    ts := Handling(Beside(s, x), m);
  }

  /** The shared state when the call is over. */
  lemma LeftBehind(s: State, p: bool, log: seq<Message>, x: Call)
    requires s.nextId !in s.pending && (p ==> s.instancesMutex.None?)
    ensures var s' := Pending(s, p).(log := log);
      Beside(s', x).(pending := s'.pending - {s.nextId}, instancesMutex := if p then None else s'.instancesMutex)
      == s.(calls := s.calls + [x], nextId := s.nextId + 1, log := log)
  {
    assert s.pending[s.nextId := |s.calls|] - {s.nextId} == s.pending;
  }

  /** What a whole call makes of the state: one more call that is over, one message ID used up, the answer
      stored, and nothing else. */
  function WithCall(s: State, p: bool, answer: Option<Message>): State {
    s.(calls := s.calls + [Over(p, s.nextId, answer)], nextId := s.nextId + 1,
       log := s.log + if answer.Some? then [answer.value] else [])
  }

  lemma TimesOut(s: State, p: bool) returns (ts: seq<Step>)
    requires Sound(s) && Free(s, p)
    ensures Leads(s, ts, WithCall(s, p, None))
  {
    var x, s' := Asking(p, s.nextId), Pending(s, p);
    ts := Asks(s, p);
    var us := Ends(s', x);
    assert s.log + [] == s.log;
    LeftBehind(s, p, s.log, Over(p, s.nextId, None));
    Then(s, ts, Beside(s', x), us, WithCall(s, p, None));
    ts := ts + us;
  }

  lemma WaitsSound(s: State, p: bool, ts: seq<Step>)
    requires Sound(s) && Leads(s, ts, Beside(Pending(s, p), Asking(p, s.nextId)))
    ensures MapExact(s.calls + [Asking(p, s.nextId)], Pending(s, p).pending)
  {
    RunSound(s, ts);
  }

  lemma GetsAnswer(s: State, p: bool, m: Message) returns (ts: seq<Step>)
    requires Sound(s) && Free(s, p) && m.replyId == s.nextId
    ensures Leads(s, ts, WithCall(s, p, Some(m)))
  {
    var x, s' := Asking(p, s.nextId), Pending(s, p);
    ts := Asks(s, p);
    WaitsSound(s, p, ts);
    var heard := Hears(s', x, m);
    var x', log := x.(response := Some(m), signalled := true), s.log + [m];
    var us := Ends(s'.(log := log), x');
    LeftBehind(s, p, log, Over(p, s.nextId, Some(m)));
    Then(s, ts, Beside(s', x), heard, Beside(s'.(log := log), x'));
    Then(s, ts + heard, Beside(s'.(log := log), x'), us, WithCall(s, p, Some(m)));
    ts := ts + heard + us;
  }

  /**
   * A call on its own: whenever nobody holds what it needs, it can run to its end, with any answer or with
   * none. It then leaves the map, the locks and all other calls as they were; it has used up one message
   * ID, and what it returns is the answer.
   */
  lemma CallAlone(s: State, p: bool, answer: Option<Message>) returns (ts: seq<Step>)
    requires Sound(s) && Free(s, p) && (answer.Some? ==> answer.value.replyId == s.nextId)
    ensures Can(s, ts)
    ensures After(s, ts) == s.(nextId := s.nextId + 1,
      calls := s.calls
        + [Call(Returned(answer), p, s.nextId, Nobody, answer.Some?, answer, if answer.Some? then 1 else 0)],
      log := s.log + if answer.Some? then [answer.value] else [])
  {
    match answer
    case None => ts := TimesOut(s, p);
    case Some(m) => ts := GetsAnswer(s, p, m);
  }
}
