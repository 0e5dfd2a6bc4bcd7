/** The map of NymphSocketListener, changed in place, and the handling of one message when no caller
    comes in between. */
module SocketListener {
  import opened Calls
  import opened Options

  /** A NymphRequest: `waiting` tells whether its caller is in tryWait on `condition`. */
  class NymphRequest {
    var messageId: nat
    var response: Option<Message>
    var waiting: bool
    var signalled: bool

    constructor (messageId: nat, waiting: bool)
      ensures this.messageId == messageId && this.waiting == waiting && response == None && !signalled
    {
      this.messageId, this.waiting, response, signalled := messageId, waiting, None, false;
    }

    ghost predicate Is(x: Call)
      reads this
    {
      messageId == x.id && response == x.response && signalled == x.signalled && waiting == x.stage.Waiting?
    }

    /** Stores the response and signals the condition. */
    method Answer(m: Message)
      modifies this
      ensures response == Some(m) && signalled == (old(signalled) || waiting)
      ensures messageId == old(messageId) && waiting == old(waiting)
    {
      response := Some(m);
      if waiting { signalled := true; }
    }
  }

  /** The steps of handling one message. */
  function Handling(s: State, m: Message): seq<Step> {
    if m.replyId in s.pending then [Receive(m), Lock, Store, Release, ReleaseMap] else [Receive(m)]
  }

  /** Where they lead: only the matching call changes, and only in its response and signal. */
  function Handled(s: State, m: Message): State
    requires m.replyId in s.pending ==> s.pending[m.replyId] < |s.calls|
  {
    if m.replyId !in s.pending then s
    else
      var c := s.pending[m.replyId];
      s.(calls := s.calls[c := Calls.Answer(s.calls[c], m)], log := s.log + [m])
  }

  lemma PrependStep(s: State, t: Step, ts: seq<Step>)
    requires Enabled(s, t) && Can(Apply(s, t), ts)
    ensures Can(s, [t] + ts) && After(s, [t] + ts) == After(Apply(s, t), ts)
  {
    assert ([t] + ts)[1..] == ts;
  }

  lemma LockAndStore(s: State, m: Message, c: nat) returns (s': State)
    requires s.listener == Found(m, c) && c < |s.calls| && s.calls[c].mutex.Nobody?
    ensures Can(s, [Lock, Store]) && After(s, [Lock, Store]) == s'
    ensures s' == s.(listener := Stored(m, c), log := s.log + [m],
      calls := s.calls[c := Calls.Answer(s.calls[c].(mutex := ByListener), m)])
  {
    var s1 := Apply(s, Lock);
    s' := Apply(s1, Store);
    PrependStep(s1, Store, []);
    PrependStep(s, Lock, [Store]);
    assert [Lock] + [Store] == [Lock, Store];
    assert s.calls[c := s1.calls[c]][c := s'.calls[c]] == s.calls[c := s'.calls[c]];
  }

  lemma ReleaseBoth(s: State, m: Message, c: nat)
    requires s.listener == Stored(m, c) && c < |s.calls|
    ensures Can(s, [Release, ReleaseMap])
    ensures After(s, [Release, ReleaseMap]) == s.(listener := Idle, calls := s.calls[c := s.calls[c].(mutex := Nobody)])
  {
    var s1 := Apply(s, Release);
    PrependStep(s1, ReleaseMap, []);
    PrependStep(s, Release, [ReleaseMap]);
    assert [Release] + [ReleaseMap] == [Release, ReleaseMap];
  }

  lemma {:induction false} JoinRuns(s: State, ts: seq<Step>, us: seq<Step>)
    requires Can(s, ts) && Can(After(s, ts), us)
    ensures Can(s, ts + us) && After(s, ts + us) == After(After(s, ts), us)
    decreases |ts|
  {
    if ts == [] {
      assert ts + us == us;
    } else {
      assert (ts + us)[1..] == ts[1..] + us;
      JoinRuns(Apply(s, ts[0]), ts[1..], us);
    }
  }

  /** The request is found, answered and left. */
  lemma FoundSteps(s: State, m: Message, c: nat)
    requires s.listener == Found(m, c) && c < |s.calls| && s.calls[c].mutex.Nobody?
    ensures var ts := [Lock, Store] + [Release, ReleaseMap];
      && Can(s, ts)
      && After(s, ts) == s.(listener := Idle, log := s.log + [m], calls := s.calls[c := Calls.Answer(s.calls[c], m)])
  {
    var s' := LockAndStore(s, m, c);
    ReleaseBoth(s', m, c);
    JoinRuns(s, [Lock, Store], [Release, ReleaseMap]);
    assert s'.calls[c := s'.calls[c].(mutex := Nobody)] == s.calls[c := Calls.Answer(s.calls[c], m)];
  }

  lemma HandlingSteps(s: State, m: Message)
    requires MapExact(s.calls, s.pending) && s.listener.Idle?
    requires m.replyId in s.pending ==> s.calls[s.pending[m.replyId]].mutex.Nobody?
    ensures Can(s, Handling(s, m)) && After(s, Handling(s, m)) == Handled(s, m)
  {
    if m.replyId in s.pending {
      var c := s.pending[m.replyId];
      FoundSteps(s.(listener := Found(m, c)), m, c);
      PrependStep(s, Receive(m), [Lock, Store] + [Release, ReleaseMap]);
      assert Handling(s, m) == [Receive(m)] + ([Lock, Store] + [Release, ReleaseMap]);
    } else {
      PrependStep(s, Receive(m), []);
    }
  }

  /** A pointer to a request is its index in `requests`. */
  class SocketListener {
    var messages: map<nat, nat>
    var requests: seq<NymphRequest>
    ghost var model: State

    ghost predicate RequestsAre(calls: seq<Call>)
      reads this`requests, requests
    {
      && |requests| == |calls|
      && (forall c, d :: 0 <= c < d < |requests| ==> requests[c] != requests[d])
      && forall c :: 0 <= c < |requests| ==> requests[c].Is(calls[c])
    }

    ghost predicate Valid()
      reads this, requests
    {
      messages == model.pending && RequestsAre(model.calls)
    }

    constructor ()
      ensures Valid() && model == INIT
    {
      messages, requests := map[], [];
      model := INIT;
    }

    method AddMessage(request: nat)
      requires Valid() && Enabled(model, Register(request))
      modifies this`messages, this`model
      ensures Valid() && model == Apply(old(model), Register(request))
    {
      if requests[request].messageId !in messages {
        messages := messages[requests[request].messageId := request];
      }
      model := Apply(model, Register(request));
    }

    /** `request` is the one that removes its own message. */
    method RemoveMessage(messageId: nat, ghost request: nat)
      requires Valid() && Enabled(model, Remove(request)) && model.calls[request].id == messageId
      modifies this`messages, this`model
      ensures Valid() && model == Apply(old(model), Remove(request))
    {
      if messageId in messages {
        messages := messages - {messageId};
      }
      model := Apply(model, Remove(request));
    }

    /** Under messagesMutex, and the mutex of the request that is found. */
    method HandleMessage(m: Message)
      requires Valid() && Sound(model) && model.listener.Idle?
      modifies this`model, requests
      ensures Valid() && model == Handled(old(model), m)
    {
      if m.replyId in messages {
        requests[messages[m.replyId]].Answer(m);
      }
      model := Handled(model, m);
    }
  }
}
