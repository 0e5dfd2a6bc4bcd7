/** What comes of a call, told from the steps of a run: the script of its caller, which messages are
    stored, and when a call returns an answer. */
module CallsOutcome {
  import opened Options
  import opened Calls

  // ---- Every caller follows one script --------------------------------------------

  /** The steps of callMethod in their order. `ok`: the wait ends with a signal. */
  function Turn(c: nat, ok: bool, k: nat): Step {
    match k
    case 0 => Admit(c) case 1 => Prepare(c) case 2 => Number(c) case 3 => Enter(c) case 4 => Register(c)
    case 5 => Send(c) case 6 => Wait(c) case 7 => if ok then Notice(c) else TimeOut(c)
    case 8 => Relock(c) case 9 => Unlock(c) case 10 => Enter(c) case 11 => Remove(c) case _ => Return(c)
  }

  function Script(c: nat, ok: bool): seq<Step> { seq(13, k requires 0 <= k < 13 => Turn(c, ok, k)) }

  /** The steps of the caller `c` in a run. */
  function Own(ts: seq<Step>, c: nat): seq<Step> {
    if ts == [] then []
    else (if ByACaller(ts[0]) && ts[0].c == c then [ts[0]] else []) + Own(ts[1..], c)
  }

  function StageAt(s: State, c: nat): Stage { if c < |s.calls| then s.calls[c].stage else Arriving }

  /** How far in the script a caller is. */
  function Done(g: Stage): nat {
    match g
    case Arriving => 0 case Admitted => 1 case Fresh => 2 case Numbered => 3 case Registering => 4
    case Registered => 5 case Sent => 6 case Waiting => 7 case Waking(_) => 8 case Locked(_) => 9
    case Leaving(_) => 10 case Removing(_) => 11 case Gone(_) => 12 case Returned(_) => 13
  }

  /** How its wait has ended, if it has. */
  predicate Told(g: Stage) {
    match g
    case Waking(ok) => ok case Locked(ok) => ok case Leaving(ok) => ok case Removing(ok) => ok case Gone(ok) => ok
    case Returned(r) => r.Some?
    case _ => true
  }

  lemma OwnAdvance(s: State, t: Step)
    requires Enabled(s, t) && ByACaller(t) && ResponseFits(s.calls[t.c])
    ensures var g, g' := s.calls[t.c].stage, Advance(s.calls[t.c], t, s.nextId).stage;
      && Done(g) <= 12 && Done(g') == Done(g) + 1 && t == Turn(t.c, Told(g'), Done(g))
      && (Done(g) >= 8 ==> Told(g') == Told(g))
  {
  }

  lemma OtherStage(s: State, t: Step, c: nat)
    requires Enabled(s, t) && !(ByACaller(t) && t.c == c)
    ensures StageAt(Apply(s, t), c) == StageAt(s, c)
  {
  }

  lemma OwnStep(s: State, t: Step, c: nat)
    requires ResponsesFit(s) && Enabled(s, t)
    ensures var g, g' := StageAt(s, c), StageAt(Apply(s, t), c);
      if ByACaller(t) && t.c == c then
        && Done(g) <= 12 && Done(g') == Done(g) + 1 && t == Turn(c, Told(g'), Done(g))
        && (Done(g) >= 8 ==> Told(g') == Told(g))
      else g' == g
  {
    if ByACaller(t) && t.c == c {
      OwnAdvance(s, t);
    } else {
      OtherStage(s, t, c);
    }
  }

  lemma Cut(c: nat, ok: bool, t: Step, i: nat, j: nat)
    requires i < j <= 13 && t == Turn(c, ok, i)
    ensures [t] + Script(c, ok)[i + 1..j] == Script(c, ok)[i..j]
  {
  }

  lemma OwnTurn(s: State, t: Step, c: nat, ok: bool, k: nat, rest: seq<Step>)
    requires ResponsesFit(s) && Enabled(s, t)
    requires var g := StageAt(Apply(s, t), c);
      Done(g) <= k <= 13 && (Done(g) >= 8 ==> ok == Told(g)) && rest == Script(c, ok)[Done(g)..k]
    ensures var g := StageAt(s, c);
      && Done(g) <= k && (Done(g) >= 8 ==> ok == Told(g))
      && (if ByACaller(t) && t.c == c then [t] else []) + rest == Script(c, ok)[Done(g)..k]
  {
    OwnStep(s, t, c);
    if ByACaller(t) && t.c == c { Cut(c, ok, t, Done(StageAt(s, c)), k); }
  }

  /** A run takes each caller from where it is on along its script, step by step. */
  lemma {:induction false} OwnSteps(s: State, ts: seq<Step>, c: nat)
    requires Sound(s) && Can(s, ts)
    ensures var g, g' := StageAt(s, c), StageAt(After(s, ts), c);
      && Done(g) <= Done(g') && (Done(g) >= 8 ==> Told(g') == Told(g))
      && Own(ts, c) == Script(c, Told(g'))[Done(g)..Done(g')]
    decreases |ts|
  {
    if ts == [] {
    } else {
      StepSound(s, ts[0]);
      OwnSteps(Apply(s, ts[0]), ts[1..], c);
      var g' := StageAt(After(s, ts), c);
      OwnTurn(s, ts[0], c, Told(g'), Done(g'), Own(ts[1..], c));
    }
  }

  /**
   * In every run, what a caller has done is the beginning of its script, and where it is, is how far it
   * has come: all of it exactly if the call has returned.
   */
  lemma ScriptFollowed(ts: seq<Step>, c: nat)
    requires Can(INIT, ts)
    ensures var g := StageAt(After(INIT, ts), c);
      && Own(ts, c) == Script(c, Told(g))[..Done(g)]
      && (Own(ts, c) == Script(c, Told(g)) <==> g.Returned?)
  {
    OwnSteps(INIT, ts, c);
    Beginnings(c, StageAt(After(INIT, ts), c), Own(ts, c));
  }

  lemma Beginnings(c: nat, g: Stage, own: seq<Step>)
    requires own == Script(c, Told(g))[Done(Arriving)..Done(g)]
    ensures own == Script(c, Told(g))[..Done(g)] && (own == Script(c, Told(g)) <==> g.Returned?)
  {
  }

  // ---- The message IDs ------------------------------------------------------------

  /** The callers in the order in which they take their message IDs. */
  function Numbered(ts: seq<Step>): seq<nat> {
    if ts == [] then [] else (if ts[0].Number? then [ts[0].c] else []) + Numbered(ts[1..])
  }

  predicate HasId(s: State, c: nat, id: nat) { c < |s.calls| && s.calls[c].id == id }

  lemma IdStays(s: State, t: Step, c: nat, id: nat)
    requires Enabled(s, t) && HasId(s, c, id) && !NoId(s.calls[c].stage)
    ensures HasId(Apply(s, t), c, id) && !NoId(Apply(s, t).calls[c].stage)
  {
  }

  lemma {:induction false} IdKept(s: State, ts: seq<Step>, c: nat, id: nat)
    requires Can(s, ts) && HasId(s, c, id) && !NoId(s.calls[c].stage)
    ensures HasId(After(s, ts), c, id)
    decreases |ts|
  {
    if ts == [] {
    } else {
      IdStays(s, ts[0], c, id);
      IdKept(Apply(s, ts[0]), ts[1..], c, id);
    }
  }

  lemma TakesId(s: State, t: Step)
    requires Enabled(s, t)
    ensures Apply(s, t).nextId == s.nextId + if t.Number? then 1 else 0
    ensures t.Number? ==> HasId(Apply(s, t), t.c, s.nextId) && !NoId(Apply(s, t).calls[t.c].stage)
  {
  }

  lemma {:induction false} IdsFrom(s: State, ts: seq<Step>)
    requires Can(s, ts)
    ensures After(s, ts).nextId == s.nextId + |Numbered(ts)|
    ensures forall k :: 0 <= k < |Numbered(ts)| ==> HasId(After(s, ts), Numbered(ts)[k], s.nextId + k)
    decreases |ts|
  {
    if ts == [] {
    } else {
      var s' := Apply(s, ts[0]);
      TakesId(s, ts[0]);
      IdsFrom(s', ts[1..]);
      if ts[0].Number? {
        IdKept(s', ts[1..], ts[0].c, s.nextId);
        assert Numbered(ts) == [ts[0].c] + Numbered(ts[1..]);
      }
    }
  }

  /** Message IDs are 1, 2, 3 and so on, in the order in which the callers take them. */
  lemma IdsInOrder(ts: seq<Step>)
    requires Can(INIT, ts)
    ensures forall k :: 0 <= k < |Numbered(ts)| ==> HasId(After(INIT, ts), Numbered(ts)[k], k + 1)
  {
    IdsFrom(INIT, ts);
  }

  // ---- What a call returns ---------------------------------------------------------

  lemma {:induction false} OwnIn(ts: seq<Step>, t: Step)
    requires ByACaller(t)
    ensures t in ts <==> t in Own(ts, t.c)
    decreases |ts|
  {
    if ts == [] {
    } else {
      OwnIn(ts[1..], t);
    }
  }

  lemma WaitInScript(c: nat, ok: bool)
    ensures (Notice(c) in Script(c, ok) <==> ok) && (TimeOut(c) in Script(c, ok) <==> !ok)
  {
    assert Script(c, ok)[7] == Turn(c, ok, 7);
  }

  /**
   * What a call returns, told by the end of its wait: an answer if it was signalled, which is then the
   * last one stored under its ID, and the request is deleted; nothing if it timed out, and the request
   * stays.
   */
  lemma SignalledReturns(ts: seq<Step>, c: nat)
    requires Can(INIT, ts) && c < |After(INIT, ts).calls| && After(INIT, ts).calls[c].stage.Returned?
    ensures var s := After(INIT, ts); var x := s.calls[c];
      && (x.stage.result.Some? <==> Notice(c) in ts) && (x.stage.result.None? <==> TimeOut(c) in ts)
      && (Notice(c) in ts ==> x.stage.result == LastFor(s.log, x.id) && x.freed == 1)
      && (TimeOut(c) in ts ==> x.freed == 0)
  {
    ScriptFollowed(ts, c);
    OwnIn(ts, Notice(c));
    OwnIn(ts, TimeOut(c));
    WaitInScript(c, Told(StageAt(After(INIT, ts), c)));
    Correlation(ts, c);
    Lifetime(ts, c);
  }

  // ---- Which messages are stored --------------------------------------------------

  /** The request of a call under this ID is pending. */
  ghost predicate Awaited(s: State, m: Message) {
    exists c :: 0 <= c < |s.calls| && OnMap(s.calls[c].stage) && s.calls[c].id == m.replyId
  }

  /** The messages of a run that come while a call under their ID is pending. */
  ghost function Matched(s: State, ts: seq<Step>): seq<Message>
    requires Can(s, ts)
    decreases |ts|
  {
    if ts == [] then []
    else (if ts[0].Receive? && Awaited(s, ts[0].m) then [ts[0].m] else []) + Matched(Apply(s, ts[0]), ts[1..])
  }

  /** The message that the listener is about to store. */
  function InHand(l: Listener): seq<Message> { if l.Found? || l.Holding? then [l.m] else [] }

  lemma MatchedStep(s: State, t: Step)
    requires Sound(s) && Enabled(s, t)
    ensures s.log + InHand(s.listener) + (if t.Receive? && Awaited(s, t.m) then [t.m] else [])
         == Apply(s, t).log + InHand(Apply(s, t).listener)
  {
    if t.Receive? && t.m.replyId in s.pending { assert OnMap(s.calls[s.pending[t.m.replyId]].stage); }
  }

  lemma Join(a: seq<Message>, b: seq<Message>, c: seq<Message>)
    ensures a + b + c == a + (b + c)
  {
  }

  lemma {:induction false} MatchedKept(s: State, ts: seq<Step>)
    requires Sound(s) && Can(s, ts)
    ensures s.log + InHand(s.listener) + Matched(s, ts) == After(s, ts).log + InHand(After(s, ts).listener)
    decreases |ts|
  {
    if ts == [] {
    } else {
      MatchedStep(s, ts[0]);
      StepSound(s, ts[0]);
      MatchedKept(Apply(s, ts[0]), ts[1..]);
      Join(s.log + InHand(s.listener), if ts[0].Receive? && Awaited(s, ts[0].m) then [ts[0].m] else [],
           Matched(Apply(s, ts[0]), ts[1..]));
    }
  }

  /** No answer is lost: in every run, the messages that came for a pending call are those that have been
      stored in a request, in this order, and the one that the listener is at. */
  lemma EveryMatchStored(ts: seq<Step>)
    requires Can(INIT, ts)
    ensures Matched(INIT, ts) == After(INIT, ts).log + InHand(After(INIT, ts).listener)
  {
    MatchedKept(INIT, ts);
  }

  lemma Beginning(c: nat, ok: bool, k: nat)
    requires k <= 13
    ensures |Script(c, ok)| == 13 && (Register(c) in Script(c, ok)[..k] <==> k >= 5)
    ensures Remove(c) in Script(c, ok)[..k] <==> k >= 12
  {
    assert forall i :: 0 <= i < k ==> Script(c, ok)[..k][i] == Turn(c, ok, i);
    if k >= 5 { assert Script(c, ok)[..k][4] == Register(c); }
    if k >= 12 { assert Script(c, ok)[..k][11] == Remove(c); }
  }

  /** A call is pending from its step Register on until its step Remove. */
  lemma PendingIff(ts: seq<Step>, c: nat)
    requires Can(INIT, ts)
    ensures OnMap(StageAt(After(INIT, ts), c)) <==> Register(c) in ts && Remove(c) !in ts
  {
    var g := StageAt(After(INIT, ts), c);
    ScriptFollowed(ts, c);
    OwnIn(ts, Register(c));
    OwnIn(ts, Remove(c));
    Beginning(c, Told(g), Done(g));
  }

  // ---- When a call is answered in time --------------------------------------------

  /** In this run a message is stored in the request of `c`, and `c` has not timed out before. */
  predicate StoredInTime(s: State, ts: seq<Step>, c: nat)
    requires Can(s, ts)
    decreases |ts|
  {
    && ts != [] && ts[0] != TimeOut(c)
    && ((ts[0].Store? && s.listener.c == c) || StoredInTime(Apply(s, ts[0]), ts[1..], c))
  }

  predicate Signalled(s: State, c: nat) { c < |s.calls| && s.calls[c].signalled }

  /** Storing signals a caller that has not been told yet, and nothing takes a signal back. */
  lemma SignalStep(s: State, t: Step, c: nat)
    requires LocksExact(s) && ListenerExact(s) && ResponsesFit(s) && Enabled(s, t) && Done(StageAt(s, c)) <= 7
    requires t != TimeOut(c) && t != Notice(c)
    ensures Done(StageAt(Apply(s, t), c)) <= 7
    ensures Signalled(Apply(s, t), c) <==> Signalled(s, c) || (t.Store? && s.listener.c == c)
  {
    OwnStep(s, t, c);
    if ByACaller(t) { CallerSignals(s, t, c); } else { ListenerSignals(s, t, c); }
  }

  lemma CallerSignals(s: State, t: Step, c: nat)
    requires Enabled(s, t) && ByACaller(t)
    ensures Signalled(Apply(s, t), c) == Signalled(s, c)
  {
  }

  lemma ListenerSignals(s: State, t: Step, c: nat)
    requires LocksExact(s) && ListenerExact(s) && Enabled(s, t) && !ByACaller(t) && Done(StageAt(s, c)) <= 7
    ensures Signalled(Apply(s, t), c) <==> Signalled(s, c) || (t.Store? && s.listener.c == c)
  {
    if t.Store? && s.listener.c == c { assert s.calls[c].stage.Waiting?; }
  }

  lemma ToldBy(s: State, t: Step, c: nat)
    requires Enabled(s, t) && (t == TimeOut(c) || t == Notice(c))
    ensures StageAt(Apply(s, t), c) == Waking(t == Notice(c)) && Signalled(s, c) == (t == Notice(c))
  {
  }

  lemma ToldKept(s: State, ts: seq<Step>, c: nat)
    requires Sound(s) && Can(s, ts) && Done(StageAt(s, c)) >= 8
    ensures Told(StageAt(After(s, ts), c)) == Told(StageAt(s, c))
  {
    OwnSteps(s, ts, c);
  }

  lemma InTimeEnd(s: State, ts: seq<Step>, c: nat, ok: bool)
    requires Sound(s) && Can(s, ts) && StageAt(s, c) == Waking(ok) && StageAt(After(s, ts), c).Returned?
    ensures StageAt(After(s, ts), c).result.Some? == ok
  {
    ToldKept(s, ts, c);
  }

  lemma {:induction false} InTimeFrom(s: State, ts: seq<Step>, c: nat)
    requires Sound(s) && Can(s, ts) && StageAt(After(s, ts), c).Returned? && Done(StageAt(s, c)) <= 7
    ensures StageAt(After(s, ts), c).result.Some? <==> Signalled(s, c) || StoredInTime(s, ts, c)
    decreases |ts|
  {
    if ts == [] {
    } else if ts[0] == TimeOut(c) || ts[0] == Notice(c) {
      ToldBy(s, ts[0], c);
      StepSound(s, ts[0]);
      InTimeEnd(Apply(s, ts[0]), ts[1..], c, ts[0] == Notice(c));
    } else {
      StepSound(s, ts[0]);
      SignalStep(s, ts[0], c);
      InTimeFrom(Apply(s, ts[0]), ts[1..], c);
    }
  }

  /** A call that has returned has returned an answer exactly if one was stored for it before it timed out. */
  lemma AnsweredInTime(ts: seq<Step>, c: nat)
    requires Can(INIT, ts) && c < |After(INIT, ts).calls| && After(INIT, ts).calls[c].stage.Returned?
    ensures After(INIT, ts).calls[c].stage.result.Some? <==> StoredInTime(INIT, ts, c)
  {
    InTimeFrom(INIT, ts, c);
  }

  lemma SignalKept(s: State, t: Step, c: nat)
    requires LocksExact(s) && ListenerExact(s) && ResponsesFit(s) && Enabled(s, t) && Done(StageAt(s, c)) >= 8
    ensures Signalled(Apply(s, t), c) == Signalled(s, c) && Done(StageAt(Apply(s, t), c)) >= 8
  {
    OwnStep(s, t, c);
  }

  lemma SignalTurn(s: State, t: Step, c: nat)
    requires LocksExact(s) && ListenerExact(s) && ResponsesFit(s) && Enabled(s, t)
    ensures var early, late := Done(StageAt(s, c)) <= 7, Done(StageAt(Apply(s, t), c)) >= 8;
      && (early && t == TimeOut(c) ==> late && !Signalled(s, c) && !Signalled(Apply(s, t), c))
      && (early && t == Notice(c) ==> late && Signalled(s, c) && Signalled(Apply(s, t), c))
      && (!early ==> late && Signalled(Apply(s, t), c) == Signalled(s, c))
      && (early && t != TimeOut(c) && t != Notice(c) ==>
            !late && (Signalled(Apply(s, t), c) <==> Signalled(s, c) || (t.Store? && s.listener.c == c)))
  {
    if Done(StageAt(s, c)) >= 8 {
      SignalKept(s, t, c);
    } else if t == TimeOut(c) || t == Notice(c) {
      ToldBy(s, t, c);
    } else {
      SignalStep(s, t, c);
    }
  }

  lemma {:induction false} SignalFrom(s: State, ts: seq<Step>, c: nat)
    requires Sound(s) && Can(s, ts)
    ensures Signalled(After(s, ts), c) <==>
      Signalled(s, c) || (Done(StageAt(s, c)) <= 7 && StoredInTime(s, ts, c))
    decreases |ts|
  {
    if ts == [] {
    } else {
      StepSound(s, ts[0]);
      SignalFrom(Apply(s, ts[0]), ts[1..], c);
      SignalTurn(s, ts[0], c);
    }
  }

  /** A request has been signalled exactly if an answer was stored in it before its caller timed out: a signal
      that nobody waits for is lost. */
  lemma SignalledInTime(ts: seq<Step>, c: nat)
    requires Can(INIT, ts)
    ensures Signalled(After(INIT, ts), c) <==> StoredInTime(INIT, ts, c)
  {
    SignalFrom(INIT, ts, c);
  }
}
