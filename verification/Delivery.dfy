/** From the octets of a connection to the callers that wait at its end. */
module Delivery {
  import opened Bytes
  import opened Options
  import opened MethodTable
  import opened Messages
  import opened Framing
  import opened Registry
  import opened Dispatch
  import opened Rpc
  import Calls
  import CallsOutcome

  /** What the listener makes of a body: the message ID that it replies to, and the body. */
  predicate HeardAs(bodies: seq<seq<Byte>>, j: nat, m: Calls.Message) {
    j < |bodies| && ParseMessage(bodies[j]).Received? && m == Calls.Message(ParseMessage(bodies[j]).m.responseId, j)
  }

  /** In this run, the listener receives nothing but these bodies, in any order and any number of times. */
  ghost predicate Hears(ts: seq<Calls.Step>, bodies: seq<seq<Byte>>) {
    forall t :: t in ts && t.Receive? ==> exists j: nat :: HeardAs(bodies, j, t.m)
  }

  /** What has been stored in a request has been received. */
  lemma {:induction false} StoredFrom(s: Calls.State, ts: seq<Calls.Step>, m: Calls.Message)
    requires Calls.Can(s, ts) && m in Calls.After(s, ts).log
    ensures m in s.log || (Calls.HasCall(s.listener) && s.listener.m == m) || Calls.Receive(m) in ts
    decreases |ts|
  {
    if ts == [] {
    } else {
      StoredFrom(Calls.Apply(s, ts[0]), ts[1..], m);
    }
  }

  /** A call that has returned an answer has returned a body that replies to its message ID. */
  lemma ReturnedHeard(ts: seq<Calls.Step>, bodies: seq<seq<Byte>>, c: nat) returns (j: nat)
    requires Calls.Can(Calls.INIT, ts) && Hears(ts, bodies) && c < |Calls.After(Calls.INIT, ts).calls|
    requires var g := Calls.After(Calls.INIT, ts).calls[c].stage; g.Returned? && g.result.Some?
    ensures var x := Calls.After(Calls.INIT, ts).calls[c];
      x.stage.result.value.content == j && HeardAs(bodies, j, Calls.Message(x.id, j))
  {
    var s := Calls.After(Calls.INIT, ts);
    var x := s.calls[c];
    Calls.Correlation(ts, c);
    Calls.LastIsLast(s.log, x.id);
    var m := x.stage.result.value;
    StoredFrom(Calls.INIT, ts, m);
    j :| HeardAs(bodies, j, m);
  }

  /** Call `i` of the session was made by the caller `callers[i]` of the run, under the message ID that this
      caller took. */
  ghost predicate MadeBy(s: Calls.State, calls: seq<Asked>, callers: seq<nat>) {
    && |callers| == |calls|
    && (forall i :: 0 <= i < |callers| ==>
          callers[i] < |s.calls| && !Calls.NoId(s.calls[callers[i]].stage) && s.calls[callers[i]].id == calls[i].id)
    && forall i, k :: 0 <= i < k < |callers| ==> callers[i] != callers[k]
  }

  lemma CallIdsApart(ts: seq<Calls.Step>, calls: seq<Asked>, callers: seq<nat>, i: nat, k: nat)
    requires Calls.Can(Calls.INIT, ts) && MadeBy(Calls.After(Calls.INIT, ts), calls, callers)
    requires i < |calls| && k < |calls| && calls[i].id == calls[k].id
    ensures i == k
  {
    Calls.Correlation(ts, callers[i]);
    assert callers[i] == callers[k];
  }

  /** Once it returns, a caller has got what it asked for if it was told `inTime`, and else nothing. */
  ghost predicate Got(r: Registry, h: Handlers, a: Asked, x: Calls.Call, i: nat, bodies: seq<seq<Byte>>, inTime: bool)
    requires a.n in r.methods
  {
    x.stage.Returned? ==>
      && (x.stage.result.Some? <==> inTime)
      && (inTime ==>
            && x.stage.result.value.content == i < |bodies|
            && Answered(r.methods[a.n].ret, Result(WithSync(r, h), a.n, a.vs), x.id, bodies[i]))
  }

  /**
   * Delivery. In a session as in `Rpc.Session`, whose calls are made by any callers in any run of them
   * with their listener, which receives the bodies of the connection in any way: a caller that returns
   * has got the answer to its own call, which holds what its own method computed from its own values, if
   * it was signalled, which is if the answer was stored before it timed out; and else it has got nothing.
   */
  lemma AnswersDelivered(ops: seq<Op>, r: Registry, h: Handlers, calls: seq<Asked>, up: Connection, down: Connection,
                         ts: seq<Calls.Step>, callers: seq<nat>, i: nat)
    requires Legal(Start(), ops) && KeepsSync(ops) && Clean({SYNC}, {}, ops) && r == Run(Start(), ops)
    requires Flows(up) && Flows(down) && |up.messages| == |down.messages| == |calls|
    requires forall k :: 0 <= k < |calls| ==> Callable(r, calls[k], k) && Exchange(r, h, calls[k], k, up, down)
    requires Calls.Can(Calls.INIT, ts) && Hears(ts, Bodies(down.buffers))
    requires MadeBy(Calls.After(Calls.INIT, ts), calls, callers) && i < |calls|
    ensures calls[i].n in r.methods
    ensures var x := Calls.After(Calls.INIT, ts).calls[callers[i]];
      && Got(r, h, calls[i], x, i, Bodies(down.buffers), Calls.Notice(callers[i]) in ts)
      && Got(r, h, calls[i], x, i, Bodies(down.buffers), CallsOutcome.StoredInTime(Calls.INIT, ts, callers[i]))
  {
    var x := Calls.After(Calls.INIT, ts).calls[callers[i]];
    Session(ops, r, h, calls, up, down);
    assert Succeeds(r, h, calls[i], i, up, down);
    if x.stage.Returned? {
      CallsOutcome.SignalledReturns(ts, callers[i]);
      CallsOutcome.AnsweredInTime(ts, callers[i]);
    }
    if x.stage.Returned? && x.stage.result.Some? {
      var j := ReturnedHeard(ts, Bodies(down.buffers), callers[i]);
      assert Succeeds(r, h, calls[j], j, up, down);
      CallIdsApart(ts, calls, callers, i, j);
    }
  }
}
