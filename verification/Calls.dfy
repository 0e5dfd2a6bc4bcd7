/** Calls in progress: the callers in callMethod, the listener thread of their connection, and the
    map of pending requests and the request objects that they share. */
module Calls {
  import opened Options

  /** A received message that is not a callback, as far as matching goes. */
  datatype Message = Message(replyId: nat, content: nat)

  /** Where a caller is. `ok` tells whether its wait ended with a signal or with a time-out. */
  datatype Stage =
    | Arriving                         // has called, and holds nothing
    | Admitted                         // holds instancesMutex, if it came by the public entry point
    | Fresh                            // holds methodsMutex, has made its request and locked it
    | Numbered                         // has taken a message ID
    | Registering                      // in NymphListener::addMessage, under listenersMutex
    | Registered                       // its request is pending
    | Sent                             // has released methodsMutex
    | Waiting                          // in tryWait: the request is unlocked
    | Waking(ok: bool)                 // leaves tryWait, but has to lock the request again
    | Locked(ok: bool)
    | Leaving(ok: bool)                // has unlocked the request
    | Removing(ok: bool)               // in NymphListener::removeMessage, under listenersMutex
    | Gone(ok: bool)                   // its request is no longer pending
    | Returned(result: Option<Message>)

  /** Who holds the mutex of a request. */
  datatype Owner = Nobody | ByCaller | ByListener

  /** A caller and its request. `isPublic`: by the public entry point, which holds instancesMutex over
      the whole call, and not by the one that synchronisation uses. `freed` counts how often the request
      has been deleted. */
  datatype Call = Call(
    stage: Stage, isPublic: bool, id: nat, mutex: Owner, signalled: bool, response: Option<Message>, freed: nat)

  /** Where the listener is; it holds messagesMutex unless it is idle. */
  datatype Listener =
    | Idle
    | Found(m: Message, c: nat)        // the request is in the map
    | Holding(m: Message, c: nat)      // and locked
    | Stored(m: Message, c: nat)       // the response is stored and signalled
    | Releasing                        // the request is unlocked, the map not yet

  /** `log` records the messages that have been stored in a request. */
  datatype State = State(
    calls: seq<Call>, pending: map<nat, nat>, nextId: nat,
    instancesMutex: Option<nat>, methodsMutex: Option<nat>, listenersMutex: Option<nat>,
    listener: Listener, log: seq<Message>)

  const INIT := State([], map[], 1, None, None, None, Idle, [])

  datatype Step =
    | Begin(isPublic: bool)
    | Admit(c: nat)          // lock instancesMutex, if need be
    | Prepare(c: nat)        // lock methodsMutex, make the request and lock it
    | Number(c: nat)
    | Enter(c: nat)          // lock listenersMutex, to add or to remove
    | Register(c: nat)       // insert under messagesMutex, unlock both
    | Send(c: nat)           // and unlock methodsMutex
    | Wait(c: nat)
    | TimeOut(c: nat)
    | Notice(c: nat)         // the signal has come
    | Relock(c: nat)
    | Unlock(c: nat)
    | Remove(c: nat)         // erase under messagesMutex, unlock both
    | Return(c: nat)         // and unlock instancesMutex
    | Receive(m: Message)    // the listener locks messagesMutex and looks for the reply ID
    | Lock
    | Store
    | Release
    | ReleaseMap

  predicate At(s: State, c: nat, g: Stage) { c < |s.calls| && s.calls[c].stage == g }

  predicate Enabled(s: State, t: Step) {
    match t
    case Begin(_) => true
    case Admit(c) => At(s, c, Arriving) && (s.calls[c].isPublic ==> s.instancesMutex.None?)
    case Prepare(c) => At(s, c, Admitted) && s.methodsMutex.None?
    case Number(c) => At(s, c, Fresh)
    case Enter(c) =>
      c < |s.calls| && (s.calls[c].stage.Numbered? || s.calls[c].stage.Leaving?) && s.listenersMutex.None?
    case Register(c) => At(s, c, Registering) && s.listener.Idle?
    case Send(c) => At(s, c, Registered)
    case Wait(c) => At(s, c, Sent)
    case TimeOut(c) => At(s, c, Waiting) && !s.calls[c].signalled
    case Notice(c) => At(s, c, Waiting) && s.calls[c].signalled
    case Relock(c) => c < |s.calls| && s.calls[c].stage.Waking? && s.calls[c].mutex.Nobody?
    case Unlock(c) => c < |s.calls| && s.calls[c].stage.Locked?
    case Remove(c) => c < |s.calls| && s.calls[c].stage.Removing? && s.listener.Idle?
    case Return(c) => c < |s.calls| && s.calls[c].stage.Gone?
    case Receive(_) => s.listener.Idle?
    case Lock => s.listener.Found? && s.listener.c < |s.calls| && s.calls[s.listener.c].mutex.Nobody?
    case Store => s.listener.Holding? && s.listener.c < |s.calls|
    case Release => s.listener.Stored? && s.listener.c < |s.calls|
    case ReleaseMap => s.listener.Releasing?
  }

  /** The step of a caller, on its own record. */
  function Advance(x: Call, t: Step, nextId: nat): Call {
    match t
    case Admit(_) => x.(stage := Admitted)
    case Prepare(_) => x.(stage := Fresh, mutex := ByCaller)
    case Number(_) => x.(stage := Numbered, id := nextId)
    case Enter(_) => x.(stage := if x.stage.Leaving? then Removing(x.stage.ok) else Registering)
    case Register(_) => x.(stage := Registered)
    case Send(_) => x.(stage := Sent)
    case Wait(_) => x.(stage := Waiting, mutex := Nobody)
    case TimeOut(_) => x.(stage := Waking(false))
    case Notice(_) => x.(stage := Waking(true))
    case Relock(_) => if x.stage.Waking? then x.(stage := Locked(x.stage.ok), mutex := ByCaller) else x
    case Unlock(_) => if x.stage.Locked? then x.(stage := Leaving(x.stage.ok), mutex := Nobody) else x
    case Remove(_) => if x.stage.Removing? then x.(stage := Gone(x.stage.ok)) else x
    case Return(_) =>
      if x.stage == Gone(true) then x.(stage := Returned(x.response), freed := x.freed + 1)
      else x.(stage := Returned(None))
    case _ => x
  }

  predicate ByACaller(t: Step) {
    || t.Admit? || t.Prepare? || t.Number? || t.Enter? || t.Register? || t.Send? || t.Wait? || t.TimeOut?
    || t.Notice? || t.Relock? || t.Unlock? || t.Remove? || t.Return?
  }

  /** storing and signalling; a signal that no caller waits for is lost */
  function Answer(x: Call, m: Message): Call {
    x.(response := Some(m), signalled := x.signalled || x.stage.Waiting?)
  }

  // What a step of a caller does to the map and to each of the three outer mutexes.

  function PendingAfter(s: State, t: Step): map<nat, nat>
    requires Enabled(s, t)
  {
    if t.Register? && s.calls[t.c].id !in s.pending then s.pending[s.calls[t.c].id := t.c]
    else if t.Remove? then s.pending - {s.calls[t.c].id}
    else s.pending
  }

  function InstancesAfter(s: State, t: Step): Option<nat>
    requires Enabled(s, t)
  {
    if t.Admit? && s.calls[t.c].isPublic then Some(t.c)
    else if t.Return? && s.calls[t.c].isPublic then None
    else s.instancesMutex
  }

  function MethodsAfter(s: State, t: Step): Option<nat> {
    if t.Prepare? then Some(t.c) else if t.Send? then None else s.methodsMutex
  }

  function ListenersAfter(s: State, t: Step): Option<nat> {
    if t.Enter? then Some(t.c) else if t.Register? || t.Remove? then None else s.listenersMutex
  }

  function ApplyCaller(s: State, t: Step): State
    requires ByACaller(t) && Enabled(s, t)
  {
    s.(calls := s.calls[t.c := Advance(s.calls[t.c], t, s.nextId)],
       pending := PendingAfter(s, t),
       nextId := if t.Number? then s.nextId + 1 else s.nextId,
       instancesMutex := InstancesAfter(s, t),
       methodsMutex := MethodsAfter(s, t),
       listenersMutex := ListenersAfter(s, t))
  }

  function Apply(s: State, t: Step): State
    requires Enabled(s, t)
  {
    if ByACaller(t) then ApplyCaller(s, t)
    else
      match t
      case Begin(p) => s.(calls := s.calls + [Call(Arriving, p, 0, Nobody, false, None, 0)])
      case Receive(m) => if m.replyId in s.pending then s.(listener := Found(m, s.pending[m.replyId])) else s
      case Lock => s.(listener := Holding(s.listener.m, s.listener.c),
        calls := s.calls[s.listener.c := s.calls[s.listener.c].(mutex := ByListener)])
      case Store => s.(listener := Stored(s.listener.m, s.listener.c), log := s.log + [s.listener.m],
        calls := s.calls[s.listener.c := Answer(s.calls[s.listener.c], s.listener.m)])
      case Release => s.(listener := Releasing,
        calls := s.calls[s.listener.c := s.calls[s.listener.c].(mutex := Nobody)])
      case _ => s.(listener := Idle)
  }

  // ---- Runs -----------------------------------------------------------------------

  predicate Can(s: State, ts: seq<Step>)
    decreases |ts|
  {
    ts == [] || (Enabled(s, ts[0]) && Can(Apply(s, ts[0]), ts[1..]))
  }

  function After(s: State, ts: seq<Step>): State
    requires Can(s, ts)
    decreases |ts|
  {
    if ts == [] then s else After(Apply(s, ts[0]), ts[1..])
  }

  // ---- What holds between any two steps -------------------------------------------

  /** The caller is between adding its request to the map and removing it. */
  predicate OnMap(g: Stage) {
    g.Registered? || g.Sent? || g.Waiting? || g.Waking? || g.Locked? || g.Leaving? || g.Removing?
  }

  /** The caller has not taken a message ID yet. */
  predicate NoId(g: Stage) { g.Arriving? || g.Admitted? || g.Fresh? }

  predicate UnderMethods(g: Stage) { g.Fresh? || g.Numbered? || g.Registering? || g.Registered? }

  predicate UnderInstances(x: Call) { x.isPublic && !x.stage.Arriving? && !x.stage.Returned? }

  predicate CallerHolds(g: Stage) {
    g.Fresh? || g.Numbered? || g.Registering? || g.Registered? || g.Sent? || g.Locked?
  }

  predicate UnderListeners(g: Stage) { g.Registering? || g.Removing? }

  predicate HasCall(l: Listener) { l.Found? || l.Holding? || l.Stored? }

  predicate Busy(l: Listener, c: nat) { HasCall(l) && l.c == c }

  predicate InListener(s: State, c: nat) {
    (s.listener.Holding? || s.listener.Stored?) && s.listener.c == c
  }

  /** Message IDs are at least 1, and no two calls have the same. */
  ghost predicate Distinct(calls: seq<Call>, nextId: nat) {
    && 1 <= nextId
    && (forall c :: 0 <= c < |calls| ==> if NoId(calls[c].stage) then calls[c].id == 0 else 1 <= calls[c].id < nextId)
    && forall c, d :: 0 <= c < d < |calls| && !NoId(calls[c].stage) && !NoId(calls[d].stage) ==>
         calls[c].id != calls[d].id
  }

  /** The map leads from the ID of each call that is on it to that call, and from no other ID. */
  ghost predicate MapExact(calls: seq<Call>, pending: map<nat, nat>) {
    && (forall k :: k in pending ==>
          pending[k] < |calls| && calls[pending[k]].id == k && OnMap(calls[pending[k]].stage))
    && forall c :: 0 <= c < |calls| && OnMap(calls[c].stage) ==> calls[c].id in pending && pending[calls[c].id] == c
  }

  /** The mutex of a request is held by whom the stages say. */
  ghost predicate LocksExact(s: State) {
    && (forall c :: 0 <= c < |s.calls| ==> (s.calls[c].mutex.ByCaller? <==> CallerHolds(s.calls[c].stage)))
    && (forall c :: 0 <= c < |s.calls| ==> (s.calls[c].mutex.ByListener? <==> InListener(s, c)))
    && (forall c :: 0 <= c < |s.calls| ==>
          (s.listenersMutex == Some(c) <==> UnderListeners(s.calls[c].stage)))
    && (s.listenersMutex.Some? ==> s.listenersMutex.value < |s.calls|)
  }

  /** So are the two mutexes of a call. */
  ghost predicate OuterLocksExact(s: State) {
    && (forall c :: 0 <= c < |s.calls| ==> (s.methodsMutex == Some(c) <==> UnderMethods(s.calls[c].stage)))
    && (forall c :: 0 <= c < |s.calls| ==> (s.instancesMutex == Some(c) <==> UnderInstances(s.calls[c])))
    && (s.methodsMutex.Some? ==> s.methodsMutex.value < |s.calls|)
    && (s.instancesMutex.Some? ==> s.instancesMutex.value < |s.calls|)
  }

  /** The call that the listener is busy with is the one that the reply ID belongs to, and is on the map. */
  ghost predicate ListenerExact(s: State) {
    HasCall(s.listener) ==>
      && s.listener.c < |s.calls| && OnMap(s.calls[s.listener.c].stage)
      && s.calls[s.listener.c].id == s.listener.m.replyId
  }

  /** The last message stored so far that replies to `id`. */
  function LastFor(log: seq<Message>, id: nat): Option<Message> {
    if log == [] then None
    else if log[|log| - 1].replyId == id then Some(log[|log| - 1])
    else LastFor(log[..|log| - 1], id)
  }

  /** What the signal and the result of a call say about its response. */
  predicate ResponseFits(x: Call) {
    && (NoId(x.stage) ==> x.response.None?)
    && (x.response.Some? ==> x.response.value.replyId == x.id)
    && (x.signalled ==> x.response.Some?)
    && (x.stage.Waking? && x.stage.ok ==> x.response.Some?)
    && (x.stage.Locked? && x.stage.ok ==> x.response.Some?)
    && (x.stage.Leaving? && x.stage.ok ==> x.response.Some?)
    && (x.stage.Removing? && x.stage.ok ==> x.response.Some?)
    && (x.stage.Gone? && x.stage.ok ==> x.response.Some?)
    && (x.stage.Returned? && x.stage.result.Some? ==> x.stage.result == x.response)
    && x.freed == (if x.stage.Returned? && x.stage.result.Some? then 1 else 0)
  }

  ghost predicate ResponsesFit(s: State) {
    forall c :: 0 <= c < |s.calls| ==> ResponseFits(s.calls[c])
  }

  /** The response of a call is the last message that was stored for it. */
  ghost predicate ResponsesLast(s: State) {
    && (forall c :: 0 <= c < |s.calls| && !NoId(s.calls[c].stage) ==>
          s.calls[c].response == LastFor(s.log, s.calls[c].id))
    && forall m :: m in s.log ==> 1 <= m.replyId < s.nextId
  }

  ghost predicate Sound(s: State) {
    && Distinct(s.calls, s.nextId) && MapExact(s.calls, s.pending) && LocksExact(s) && OuterLocksExact(s)
    && ListenerExact(s) && ResponsesFit(s) && ResponsesLast(s)
  }

  // ---- Each step keeps it ---------------------------------------------------------

  lemma DistinctUpdate(calls: seq<Call>, nextId: nat, c: nat, x: Call)
    requires Distinct(calls, nextId) && c < |calls|
    requires x.id == calls[c].id && NoId(x.stage) == NoId(calls[c].stage)
    ensures Distinct(calls[c := x], nextId)
  {
  }

  lemma DistinctNumber(calls: seq<Call>, nextId: nat, c: nat, x: Call)
    requires Distinct(calls, nextId) && c < |calls|
    requires NoId(calls[c].stage) && !NoId(x.stage) && x.id == nextId
    ensures Distinct(calls[c := x], nextId + 1)
  {
  }

  lemma CallerDistinct(s: State, t: Step)
    requires Distinct(s.calls, s.nextId) && Enabled(s, t) && ByACaller(t)
    ensures Distinct(Apply(s, t).calls, Apply(s, t).nextId)
  {
    var x := Advance(s.calls[t.c], t, s.nextId);
    if t.Number? {
      DistinctNumber(s.calls, s.nextId, t.c, x);
    } else {
      DistinctUpdate(s.calls, s.nextId, t.c, x);
    }
  }

  lemma StepDistinct(s: State, t: Step)
    requires Distinct(s.calls, s.nextId) && Enabled(s, t)
    ensures Distinct(Apply(s, t).calls, Apply(s, t).nextId)
  {
    var s' := Apply(s, t);
    if ByACaller(t) {
      CallerDistinct(s, t);
    } else if t.Lock? || t.Store? || t.Release? {
      DistinctUpdate(s.calls, s.nextId, s.listener.c, s'.calls[s.listener.c]);
    }
  }

  lemma MapUpdate(calls: seq<Call>, pending: map<nat, nat>, c: nat, x: Call)
    requires MapExact(calls, pending) && c < |calls| && OnMap(x.stage) == OnMap(calls[c].stage)
    requires OnMap(x.stage) ==> x.id == calls[c].id
    ensures MapExact(calls[c := x], pending)
  {
  }

  lemma MapRegister(calls: seq<Call>, nextId: nat, pending: map<nat, nat>, c: nat, x: Call)
    requires Distinct(calls, nextId) && MapExact(calls, pending) && c < |calls|
    requires !OnMap(calls[c].stage) && !NoId(calls[c].stage) && OnMap(x.stage) && x.id == calls[c].id
    ensures x.id !in pending && MapExact(calls[c := x], pending[x.id := c])
  {
  }

  lemma MapRemove(calls: seq<Call>, pending: map<nat, nat>, c: nat, x: Call)
    requires MapExact(calls, pending) && c < |calls|
    requires OnMap(calls[c].stage) && !OnMap(x.stage) && x.id == calls[c].id
    ensures MapExact(calls[c := x], pending - {x.id})
  {
  }

  lemma RegisterMap(s: State, c: nat)
    requires Distinct(s.calls, s.nextId) && MapExact(s.calls, s.pending) && Enabled(s, Register(c))
    ensures MapExact(Apply(s, Register(c)).calls, Apply(s, Register(c)).pending)
  {
    MapRegister(s.calls, s.nextId, s.pending, c, Apply(s, Register(c)).calls[c]);
  }

  lemma RemoveMap(s: State, c: nat)
    requires MapExact(s.calls, s.pending) && Enabled(s, Remove(c))
    ensures MapExact(Apply(s, Remove(c)).calls, Apply(s, Remove(c)).pending)
  {
    MapRemove(s.calls, s.pending, c, Apply(s, Remove(c)).calls[c]);
  }

  lemma CallerMap(s: State, t: Step)
    requires MapExact(s.calls, s.pending) && Enabled(s, t) && ByACaller(t) && !t.Register? && !t.Remove?
    ensures MapExact(Apply(s, t).calls, Apply(s, t).pending)
  {
    MapUpdate(s.calls, s.pending, t.c, Advance(s.calls[t.c], t, s.nextId));
  }

  lemma StepMap(s: State, t: Step)
    requires Distinct(s.calls, s.nextId) && MapExact(s.calls, s.pending) && Enabled(s, t)
    ensures MapExact(Apply(s, t).calls, Apply(s, t).pending)
  {
    if t.Register? {
      RegisterMap(s, t.c);
    } else if t.Remove? {
      RemoveMap(s, t.c);
    } else if ByACaller(t) {
      CallerMap(s, t);
    } else if t.Lock? || t.Store? || t.Release? {
      MapUpdate(s.calls, s.pending, s.listener.c, Apply(s, t).calls[s.listener.c]);
    }
  }

  lemma CallerListener(s: State, t: Step)
    requires ListenerExact(s) && Enabled(s, t) && ByACaller(t)
    ensures ListenerExact(Apply(s, t))
  {
  }

  lemma StepListener(s: State, t: Step)
    requires MapExact(s.calls, s.pending) && ListenerExact(s) && Enabled(s, t)
    ensures ListenerExact(Apply(s, t))
  {
    if ByACaller(t) { CallerListener(s, t); }
  }

  lemma CallerFits(x: Call, t: Step, nextId: nat)
    requires ResponseFits(x) && !x.stage.Returned?
    requires t.Number? || t.Admit? || t.Prepare? ==> NoId(x.stage)
    requires t.Notice? ==> x.signalled
    ensures ResponseFits(Advance(x, t, nextId))
  {
  }

  lemma StepFits(s: State, t: Step)
    requires ResponsesFit(s) && ListenerExact(s) && Enabled(s, t)
    ensures ResponsesFit(Apply(s, t))
  {
    var s' := Apply(s, t);
    if ByACaller(t) {
      CallerFits(s.calls[t.c], t, s.nextId);
    } else if t.Lock? || t.Store? || t.Release? {
      assert ResponseFits(s'.calls[s.listener.c]);
    }
  }

  lemma LastUnused(log: seq<Message>, id: nat)
    requires forall m :: m in log ==> m.replyId != id
    ensures LastFor(log, id) == None
    decreases |log|
  {
    if log != [] { assert log[|log| - 1] in log; }
  }

  lemma LastSnoc(log: seq<Message>, m: Message, id: nat)
    ensures LastFor(log + [m], id) == if m.replyId == id then Some(m) else LastFor(log, id)
  {
    assert (log + [m])[..|log|] == log;
  }

  lemma LastUpdate(s: State, s': State, c: nat, x: Call)
    requires ResponsesLast(s) && s'.log == s.log && s'.nextId == s.nextId
    requires c < |s.calls| && s'.calls == s.calls[c := x]
    requires NoId(x.stage) == NoId(s.calls[c].stage) && x.id == s.calls[c].id && x.response == s.calls[c].response
    ensures ResponsesLast(s')
  {
  }

  lemma NumberLast(s: State, c: nat)
    requires ResponsesLast(s) && ResponsesFit(s) && Distinct(s.calls, s.nextId) && Enabled(s, Number(c))
    ensures ResponsesLast(Apply(s, Number(c)))
  {
    LastUnused(s.log, s.nextId);
  }

  lemma StoreLast(s: State)
    requires ResponsesLast(s) && Distinct(s.calls, s.nextId) && ListenerExact(s) && Enabled(s, Store)
    ensures ResponsesLast(Apply(s, Store))
  {
    var s' := Apply(s, Store);
    forall c | 0 <= c < |s.calls| && !NoId(s'.calls[c].stage)
      ensures s'.calls[c].response == LastFor(s'.log, s'.calls[c].id)
    {
      LastSnoc(s.log, s.listener.m, s.calls[c].id);
    }
  }

  lemma CallerLast(s: State, t: Step)
    requires ResponsesLast(s) && Enabled(s, t) && ByACaller(t) && !t.Number?
    ensures ResponsesLast(Apply(s, t))
  {
    LastUpdate(s, Apply(s, t), t.c, Advance(s.calls[t.c], t, s.nextId));
  }

  lemma OtherLast(s: State, t: Step)
    requires ResponsesLast(s) && Enabled(s, t) && !ByACaller(t) && !t.Store?
    ensures ResponsesLast(Apply(s, t))
  {
    var s' := Apply(s, t);
    if t.Lock? || t.Release? { LastUpdate(s, s', s.listener.c, s'.calls[s.listener.c]); }
  }

  lemma StepLast(s: State, t: Step)
    requires ResponsesLast(s) && ResponsesFit(s) && Distinct(s.calls, s.nextId) && ListenerExact(s) && Enabled(s, t)
    ensures ResponsesLast(Apply(s, t))
  {
    if t.Number? {
      NumberLast(s, t.c);
    } else if ByACaller(t) {
      CallerLast(s, t);
    } else if t.Store? {
      StoreLast(s);
    } else {
      OtherLast(s, t);
    }
  }

  lemma LocksUpdate(s: State, s': State, c: nat, x: Call)
    requires LocksExact(s) && c < |s.calls| && s'.calls == s.calls[c := x] && s'.listener == s.listener
    requires x.mutex.ByCaller? <==> CallerHolds(x.stage)
    requires x.mutex.ByListener? <==> s.calls[c].mutex.ByListener?
    requires s'.listenersMutex ==
      if UnderListeners(x.stage) == UnderListeners(s.calls[c].stage) then s.listenersMutex
      else if UnderListeners(x.stage) then Some(c) else None
    requires s.listenersMutex.Some? && s.listenersMutex.value != c ==> !UnderListeners(x.stage)
    ensures LocksExact(s')
  {
  }

  lemma CallerLocks(s: State, t: Step)
    requires LocksExact(s) && ListenerExact(s) && Enabled(s, t) && ByACaller(t)
    ensures LocksExact(Apply(s, t))
  {
    LocksUpdate(s, Apply(s, t), t.c, Advance(s.calls[t.c], t, s.nextId));
  }

  lemma OtherLocks(s: State, t: Step)
    requires LocksExact(s) && ListenerExact(s) && Enabled(s, t) && !ByACaller(t)
    ensures LocksExact(Apply(s, t))
  {
  }

  lemma StepLocks(s: State, t: Step)
    requires LocksExact(s) && ListenerExact(s) && Enabled(s, t)
    ensures LocksExact(Apply(s, t))
  {
    if ByACaller(t) { CallerLocks(s, t); } else { OtherLocks(s, t); }
  }

  lemma OuterLocksUpdate(s: State, s': State, c: nat, x: Call)
    requires OuterLocksExact(s) && c < |s.calls| && s'.calls == s.calls[c := x]
    requires UnderMethods(x.stage) == UnderMethods(s.calls[c].stage) && s'.methodsMutex == s.methodsMutex
    requires UnderInstances(x) == UnderInstances(s.calls[c]) && s'.instancesMutex == s.instancesMutex
    ensures OuterLocksExact(s')
  {
  }

  lemma AdmitOuter(s: State, c: nat)
    requires OuterLocksExact(s) && Enabled(s, Admit(c))
    ensures OuterLocksExact(Apply(s, Admit(c)))
  {
  }

  lemma PrepareOuter(s: State, c: nat)
    requires OuterLocksExact(s) && Enabled(s, Prepare(c))
    ensures OuterLocksExact(Apply(s, Prepare(c)))
  {
  }

  lemma SendOuter(s: State, c: nat)
    requires OuterLocksExact(s) && Enabled(s, Send(c))
    ensures OuterLocksExact(Apply(s, Send(c)))
  {
  }

  lemma ReturnOuter(s: State, c: nat)
    requires OuterLocksExact(s) && Enabled(s, Return(c))
    ensures OuterLocksExact(Apply(s, Return(c)))
  {
  }

  lemma CallerOuter(s: State, t: Step)
    requires OuterLocksExact(s) && Enabled(s, t) && ByACaller(t)
    requires !t.Admit? && !t.Prepare? && !t.Send? && !t.Return?
    ensures OuterLocksExact(Apply(s, t))
  {
    OuterLocksUpdate(s, Apply(s, t), t.c, Advance(s.calls[t.c], t, s.nextId));
  }

  lemma OtherOuter(s: State, t: Step)
    requires OuterLocksExact(s) && Enabled(s, t) && !ByACaller(t)
    ensures OuterLocksExact(Apply(s, t))
  {
    if t.Lock? || t.Store? || t.Release? {
      OuterLocksUpdate(s, Apply(s, t), s.listener.c, Apply(s, t).calls[s.listener.c]);
    }
  }

  lemma StepOuterLocks(s: State, t: Step)
    requires OuterLocksExact(s) && Enabled(s, t)
    ensures OuterLocksExact(Apply(s, t))
  {
    match t
    case Admit(c) => AdmitOuter(s, c);
    case Prepare(c) => PrepareOuter(s, c);
    case Send(c) => SendOuter(s, c);
    case Return(c) => ReturnOuter(s, c);
    case _ => if ByACaller(t) { CallerOuter(s, t); } else { OtherOuter(s, t); }
  }

  lemma StepSound(s: State, t: Step)
    requires Sound(s) && Enabled(s, t)
    ensures Sound(Apply(s, t))
  {
    StepDistinct(s, t);
    StepMap(s, t);
    StepLocks(s, t);
    StepOuterLocks(s, t);
    StepListener(s, t);
    StepFits(s, t);
    StepLast(s, t);
  }

  lemma {:induction false} RunSound(s: State, ts: seq<Step>)
    requires Sound(s) && Can(s, ts)
    ensures Sound(After(s, ts))
    decreases |ts|
  {
    if ts == [] {
    } else {
      StepSound(s, ts[0]);
      RunSound(Apply(s, ts[0]), ts[1..]);
    }
  }

  lemma Reached(ts: seq<Step>)
    requires Can(INIT, ts)
    ensures Sound(After(INIT, ts))
  {
    RunSound(INIT, ts);
  }

  // ---- The life of a request ------------------------------------------------------

  /**
   * In every run, a request is deleted at most once, and only when its call has an answer, is off
   * the map, and the listener is not busy with it. The request of a call that timed out is never
   * deleted.
   */
  lemma Lifetime(ts: seq<Step>, c: nat)
    requires Can(INIT, ts) && c < |After(INIT, ts).calls|
    ensures var s := After(INIT, ts); var x := s.calls[c];
      && (x.freed == if x.stage.Returned? && x.stage.result.Some? then 1 else 0)
      && (x.freed == 1 ==> x.id !in s.pending && !Busy(s.listener, c))
  {
    Reached(ts);
  }

  /** So the listener never locks, writes, signals or unlocks a request that has been deleted. */
  lemma ListenerTouchesLive(ts: seq<Step>, t: Step)
    requires Can(INIT, ts) && Enabled(After(INIT, ts), t) && (t.Lock? || t.Store? || t.Release?)
    ensures var s := After(INIT, ts); s.calls[s.listener.c].freed == 0 && s.listener.c in s.pending.Values
  {
    Reached(ts);
    var s := After(INIT, ts);
    assert s.pending[s.calls[s.listener.c].id] == s.listener.c;
  }

  // ---- Correlation ----------------------------------------------------------------

  /**
   * In every run: IDs are at least 1 and distinct; what a call has been answered with is the last
   * message stored so far whose reply ID is its own; a call that has returned is not pending.
   */
  lemma Correlation(ts: seq<Step>, c: nat)
    requires Can(INIT, ts) && c < |After(INIT, ts).calls| && !NoId(After(INIT, ts).calls[c].stage)
    ensures var s := After(INIT, ts); var x := s.calls[c];
      && 1 <= x.id
      && (forall d :: 0 <= d < |s.calls| && d != c ==> s.calls[d].id != x.id)
      && x.response == LastFor(s.log, x.id)
      && (x.stage.Returned? && x.stage.result.Some? ==> x.stage.result == LastFor(s.log, x.id))
      && (x.stage.Returned? || x.stage.Gone? ==> x.id !in s.pending)
  {
    Reached(ts);
    var s := After(INIT, ts);
    forall d | 0 <= d < |s.calls| && d != c ensures s.calls[d].id != s.calls[c].id {
      if d < c && !NoId(s.calls[d].stage) { assert s.calls[d].id != s.calls[c].id; }
    }
  }

  /** The message at `i` replies to `id`, and none after it does. */
  ghost predicate LastAt(log: seq<Message>, id: nat, i: nat) {
    i < |log| && log[i].replyId == id && forall j :: i < j < |log| ==> log[j].replyId != id
  }

  lemma {:induction false} LastIsLast(log: seq<Message>, id: nat)
    ensures LastFor(log, id).None? <==> forall m :: m in log ==> m.replyId != id
    ensures LastFor(log, id).Some? ==> exists i: nat :: LastAt(log, id, i) && log[i] == LastFor(log, id).value
    decreases |log|
  {
    if log == [] {
    } else {
      var init, last := log[..|log| - 1], log[|log| - 1];
      assert log == init + [last];
      LastIsLast(init, id);
      if last.replyId == id {
        assert LastAt(log, id, |init|);
      } else if LastFor(init, id).Some? {
        var i: nat :| LastAt(init, id, i) && init[i] == LastFor(init, id).value;
        assert LastAt(log, id, i);
      }
    }
  }

  /** A message that replies to nothing, or to a call that is not pending, changes nothing. */
  lemma StrayReply(ts: seq<Step>, m: Message)
    requires Can(INIT, ts) && After(INIT, ts).listener.Idle?
    ensures var s := After(INIT, ts);
      m.replyId == 0 || (forall c :: 0 <= c < |s.calls| && s.calls[c].id == m.replyId ==> !OnMap(s.calls[c].stage))
      ==> Apply(s, Receive(m)) == s
  {
    Reached(ts);
    var s := After(INIT, ts);
    if m.replyId in s.pending { assert OnMap(s.calls[s.pending[m.replyId]].stage); }
  }

  /** Nobody but its own caller changes a call that is not pending. */
  lemma OffMapKept(s: State, t: Step, c: nat)
    requires Sound(s) && Enabled(s, t) && c < |s.calls| && !OnMap(s.calls[c].stage)
    requires !(ByACaller(t) && t.c == c)
    ensures |s.calls| <= |Apply(s, t).calls| && Apply(s, t).calls[c] == s.calls[c]
  {
  }

  /** What a call has returned, and its request, stay as they are whatever comes later. */
  lemma {:induction false} ReturnedKept(s: State, ts: seq<Step>, c: nat)
    requires Sound(s) && Can(s, ts) && c < |s.calls| && s.calls[c].stage.Returned?
    ensures c < |After(s, ts).calls| && After(s, ts).calls[c] == s.calls[c]
    decreases |ts|
  {
    if ts == [] {
    } else {
      OffMapKept(s, ts[0], c);
      StepSound(s, ts[0]);
      ReturnedKept(Apply(s, ts[0]), ts[1..], c);
    }
  }
}
