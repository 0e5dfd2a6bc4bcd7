/** A whole call: signature check, message, dispatch by ID, handler, return type check, reply. */
module Rpc {
  import opened Bytes
  import opened Values
  import opened Parser
  import opened Messages
  import opened Framing
  import opened MethodTable
  import opened Registry
  import opened Dispatch

  // ---- The caller's side ----------------------------------------------------------

  predicate Fits(param: TypeCode, v: Value) { TypeOf(v) == param || param == TYPE_ANY }

  /** The values match the signature pointwise. */
  predicate Matches(params: seq<TypeCode>, vs: seq<Value>) {
    |vs| == |params| && forall i :: 0 <= i < |vs| ==> Fits(params[i], vs[i])
  }

  datatype Prepared = NoSuchMethod | WrongCount | TypeMismatch(i: nat) | Prepared(m: Message)

  /** The first value from `i` on that does not fit, or the number of values. */
  function FirstMisfit(params: seq<TypeCode>, vs: seq<Value>, i: nat): (r: nat)
    requires |vs| == |params| && i <= |vs|
    ensures i <= r <= |vs|
    decreases |vs| - i
  {
    if i == |vs| || !Fits(params[i], vs[i]) then i else FirstMisfit(params, vs, i + 1)
  }

  /** The message of a method, or of a callback of the client. */
  function MessageFor(meth: Method, isCallback: bool, vs: seq<Value>): Message {
    if isCallback then Message(meth.id, FLAG_CALLBACK, 0, 0, meth.name, vs, Null)
    else Message(meth.id, 0, 0, 0, [], vs, Null)
  }

  /** NymphMethod::call, up to the message. */
  function PrepareWith(meth: Method, isCallback: bool, vs: seq<Value>): Prepared {
    if |vs| != |meth.params| then WrongCount
    else
      var i := FirstMisfit(meth.params, vs, 0);
      if i < |vs| then TypeMismatch(i) else Prepared(MessageFor(meth, isCallback, vs))
  }

  /** NymphServerInstance::callMethod, up to the message. */
  function Prepare(c: Registry, n: Name, vs: seq<Value>): Prepared {
    if n !in c.methods then NoSuchMethod else PrepareWith(c.methods[n], false, vs)
  }

  lemma {:induction false} FirstMisfitIs(params: seq<TypeCode>, vs: seq<Value>, i: nat)
    requires |vs| == |params| && i <= |vs|
    ensures var r := FirstMisfit(params, vs, i);
      && (forall j :: i <= j < r ==> Fits(params[j], vs[j]))
      && (r < |vs| ==> !Fits(params[r], vs[r]))
    decreases |vs| - i
  {
    if i == |vs| {
    } else if Fits(params[i], vs[i]) {
      FirstMisfitIs(params, vs, i + 1);
    }
  }

  /** The signature check. It passes exactly if there are as many values as parameters and each has the
      type that its parameter declares, or its parameter declares Any; if not, it names the first that has
      not. The message then carries the method's ID and the values, and for a callback also its name. */
  lemma PrepareWithIs(meth: Method, isCallback: bool, vs: seq<Value>)
    ensures var p := PrepareWith(meth, isCallback, vs); var ps := meth.params;
      && (p.WrongCount? <==> |vs| != |ps|)
      && (p.Prepared? <==> |vs| == |ps| && forall i :: 0 <= i < |vs| ==> ps[i] == TYPE_ANY || TypeOf(vs[i]) == ps[i])
      && (p.TypeMismatch? ==> p.i < |vs| == |ps| && ps[p.i] != TYPE_ANY && TypeOf(vs[p.i]) != ps[p.i]
                              && forall j :: 0 <= j < p.i ==> ps[j] == TYPE_ANY || TypeOf(vs[j]) == ps[j])
      && (p.Prepared? ==>
            && p.m.methodId == meth.id && p.m.values == vs && p.m.response == Null
            && p.m.callbackName == (if isCallback then meth.name else [])
            && IsCallback(p.m.flags) == isCallback && !IsReply(p.m.flags) && !IsException(p.m.flags))
  {
    if |vs| == |meth.params| { FirstMisfitIs(meth.params, vs, 0); }
  }

  /** A message is built exactly for a known method and values that match its signature; it carries
      these values and the caller's ID of the method. */
  lemma PreparedIff(c: Registry, n: Name, vs: seq<Value>)
    ensures Prepare(c, n, vs).Prepared? <==>
      && n in c.methods && |vs| == |c.methods[n].params|
      && var ps := c.methods[n].params;
         forall i :: 0 <= i < |vs| ==> ps[i] == TYPE_ANY || TypeOf(vs[i]) == ps[i]
    ensures Prepare(c, n, vs).Prepared? <==> n in c.methods && Matches(c.methods[n].params, vs)
    ensures Prepare(c, n, vs).NoSuchMethod? <==> n !in c.methods
    ensures Prepare(c, n, vs).Prepared? ==>
      Prepare(c, n, vs).m == Message(c.methods[n].id, 0, 0, 0, [], vs, Null)
  {
    if n in c.methods { PrepareWithIs(c.methods[n], false, vs); }
  }

  /** The message of a callback, once it is numbered and sent, is read as a callback under the name of the
      method, with the values. */
  lemma CallbackRead(meth: Method, vs: seq<Value>, id: nat, slack: seq<Byte>)
    requires meth.id < Pow256(4) && id < Pow256(8) && StringFits(meth.name) && AllInRange(vs) && NoEmptyKeysAll(vs)
    ensures var r := ParseMessage(Body(Numbered(MessageFor(meth, true, vs), id)) + slack);
      && r.Received? && !r.corrupt && r.state == 0 && IsCallback(r.m.flags) && !IsReply(r.m.flags)
      && r.m.callbackName == meth.name && r.m.methodId == meth.id && r.m.messageId == id && r.m.responseId == 0
      && r.m.values == NormaliseAll(vs)
  {
    Pow256Values();
    MessageRebuilt(Numbered(MessageFor(meth, true, vs), id), slack);
  }

  // ---- The server's side ----------------------------------------------------------

  /** What the registered callbacks compute, by name. Null stands for no response. */
  type Handlers = (Name, seq<Value>) -> Value

  datatype Served = Unmodelled | Dropped | UnknownId | WrongReturn | Replied(reply: Message)

  /** getReplyMessage and setResultValue, as callbacks use them. */
  function ReplyTo(m: Message, v: Value): Message {
    Message(m.methodId, FLAG_REPLY, (m.messageId + 1) % 0x1_0000_0000_0000_0000, m.messageId, [], [], v)
  }

  /** NymphMethod::callCallback. Without a response it is a failure, or for a method that returns
      Null, which the source does not handle. */
  function CallCallback(h: Handlers, meth: Method, m: Message): Served {
    var v := h(meth.name, m.values);
    if v.Null? then if meth.ret != TYPE_NULL then WrongReturn else Unmodelled
    else if TypeOf(v) != meth.ret then WrongReturn
    else Replied(ReplyTo(m, v))
  }

  /** callMethodCallback */
  function CallById(r: Registry, h: Handlers, m: Message): Served {
    match Lookup(r, m.methodId)
    case NotFound => UnknownId
    case Leads(meth) => CallCallback(h, meth, m)
    case Dangling => Unmodelled
  }

  /** NymphSession::run on the body of one message. */
  function Serve(r: Registry, h: Handlers, body: seq<Byte>): Served {
    match ParseMessage(body)
    case Received(m, corrupt, state) =>
      if corrupt || state != 0 then Dropped
      else CallById(r, h, m)
    case _ => Unmodelled
  }

  /** A message that arrives is answered exactly if its ID leads to a method whose callback, on the
      values as the parser rebuilds them, returns a value of just the declared type; the reply then
      carries that value, under the ID of the message. Else the server knows no such ID, or the callback
      has returned no value or one of another type. A reply is served like a call without values. */
  lemma ServeIff(r: Registry, h: Handlers, m: Message, slack: seq<Byte>)
    requires Sendable(m) && Readable(m)
    ensures Serve(r, h, Body(m) + slack).Replied? <==>
      && m.methodId in r.ids && LiveAt(r, m.methodId)
      && var v := h(r.ids[m.methodId].name, NormaliseAll(Carried(m).values));
         !v.Null? && TypeOf(v) == r.ids[m.methodId].ret
    ensures Serve(r, h, Body(m) + slack).Replied? ==> var x := Serve(r, h, Body(m) + slack).reply;
      && x.response == h(r.ids[m.methodId].name, NormaliseAll(Carried(m).values)) && x.responseId == m.messageId
    ensures Serve(r, h, Body(m) + slack).UnknownId? <==> m.methodId !in r.ids
    ensures Serve(r, h, Body(m) + slack).WrongReturn? <==>
      && m.methodId in r.ids && LiveAt(r, m.methodId)
      && var v, ret := h(r.ids[m.methodId].name, NormaliseAll(Carried(m).values)), r.ids[m.methodId].ret;
         TypeOf(v) != ret
    ensures !Serve(r, h, Body(m) + slack).Dropped?
  {
    MessageRebuilt(m, slack);
  }

  /** Whatever octets arrive, an answer is sent only by a method that the server has under the ID in them,
      with a value of its declared type, and to the message ID in them; and it is nothing but a reply. */
  lemma AnswersAreTyped(r: Registry, h: Handlers, body: seq<Byte>)
    requires Serve(r, h, body).Replied?
    ensures 17 <= |body| && var x := Serve(r, h, body).reply; var k := FromLE(body[1..5]);
      && k in r.ids && LiveAt(r, k) && TypeOf(x.response) == r.ids[k].ret != TYPE_NULL
      && x.methodId == k && x.responseId == FromLE(body[9..17])
      && x.messageId == (x.responseId + 1) % 0x1_0000_0000_0000_0000 && x.callbackName == [] && x.values == []
      && IsReply(x.flags) && !IsException(x.flags) && !IsCallback(x.flags)
  {
  }

  /** Any stands for all types in a parameter, but for none as a return type: such a method never
      answers. */
  lemma AnyNeverReplies(r: Registry, h: Handlers, m: Message)
    requires m.methodId in r.ids && r.ids[m.methodId].ret == TYPE_ANY
    ensures !CallById(r, h, m).Replied?
    ensures forall v: Value :: Fits(TYPE_ANY, v)
  {
    var v := h(r.ids[m.methodId].name, m.values);
    assert TypeOf(v) != TYPE_ANY;
  }

  /** A call that has lost its terminator is not run. */
  lemma TruncatedDropped(r: Registry, h: Handlers, m: Message)
    requires Sendable(m) && Readable(m) && !IsReply(m.flags) && !IsCallback(m.flags)
    ensures Serve(r, h, Header(m) + Payload(m)) == Dropped
  {
    TruncationNoticed(m);
  }

  /** Nor is a message of another protocol version, whatever else is in it. */
  lemma OtherVersionDropped(r: Registry, h: Handlers, body: seq<Byte>)
    requires 5 <= |body| && body[0] != 0
    ensures Serve(r, h, body) == Dropped
    ensures ParseMessage(body).Received? && ParseMessage(body).corrupt && ParseMessage(body).m.responseId == 0
  {
  }

  // ---- Across the wire ------------------------------------------------------------

  lemma {:induction false} NormaliseAllLength(vs: seq<Value>)
    ensures |NormaliseAll(vs)| == |vs|
    decreases |vs|
  {
    if vs == [] {
    } else {
      NormaliseAllLength(vs[1..]);
    }
  }

  lemma {:induction false} NormaliseAllAt(vs: seq<Value>, i: nat)
    requires i < |vs|
    ensures |NormaliseAll(vs)| == |vs| && NormaliseAll(vs)[i] == Normalise(vs[i])
    decreases |vs|
  {
    NormaliseAllLength(vs);
    if i == 0 {
    } else {
      NormaliseAllAt(vs[1..], i - 1);
    }
  }

  /** Values keep their types when they are sent, so that they still match a signature. */
  lemma MatchesAcross(params: seq<TypeCode>, vs: seq<Value>)
    requires Matches(params, vs)
    ensures Matches(params, NormaliseAll(vs))
    ensures |NormaliseAll(vs)| == |vs| && forall i :: 0 <= i < |vs| ==> TypeOf(NormaliseAll(vs)[i]) == TypeOf(vs[i])
  {
    NormaliseAllLength(vs);
    forall i | 0 <= i < |vs| ensures TypeOf(NormaliseAll(vs)[i]) == TypeOf(vs[i]) { NormaliseAllAt(vs, i); }
    forall i | 0 <= i < |vs| ensures |NormaliseAll(vs)| == |vs| && Fits(params[i], NormaliseAll(vs)[i]) {
      NormaliseAllAt(vs, i);
    }
  }

  /** A serialised message as it is handed to the socket: see `NymphMessage.Serialize`. */
  ghost predicate Serialised(m: Message, buffer: seq<Byte>) {
    8 <= |buffer| < 0x8000_0000 && Prefix(|buffer| - 8) + Body(m) <= buffer
  }

  /** One direction of a connection: the messages sent over it, their buffers, and the portions in which
      these arrive. */
  datatype Connection = Connection(messages: seq<Message>, buffers: seq<seq<Byte>>, chunks: Chunks)

  function BodyOf(buffer: seq<Byte>): seq<Byte> { if |buffer| < 8 then [] else buffer[8..] }

  function Bodies(buffers: seq<seq<Byte>>): (bs: seq<seq<Byte>>)
    ensures |bs| == |buffers| && forall i :: 0 <= i < |bs| ==> bs[i] == BodyOf(buffers[i])
  {
    if buffers == [] then [] else [BodyOf(buffers[0])] + Bodies(buffers[1..])
  }

  ghost predicate Sent(m: Message, buffer: seq<Byte>) {
    Sendable(m) && Readable(m) && Serialised(m, buffer)
  }

  ghost predicate AllSent(ms: seq<Message>, buffers: seq<seq<Byte>>)
    decreases |ms|
  {
    if ms == [] then buffers == []
    else buffers != [] && Sent(ms[0], buffers[0]) && AllSent(ms[1..], buffers[1..])
  }

  lemma {:induction false} SentAt(ms: seq<Message>, buffers: seq<seq<Byte>>, i: nat)
    requires AllSent(ms, buffers) && i < |ms| == |buffers|
    ensures Sent(ms[i], buffers[i])
    decreases |ms|
  {
    if i == 0 {
    } else {
      SentAt(ms[1..], buffers[1..], i - 1);
      assert ms[1..][i - 1] == ms[i] && buffers[1..][i - 1] == buffers[i];
    }
  }

  /** The buffers arrive one after the other, in any portions that do not split a header. */
  ghost predicate Flows(c: Connection) {
    && |c.messages| == |c.buffers| && AllSent(c.messages, c.buffers) && NonEmpty(c.chunks)
    && Flatten(c.chunks) == Flatten(c.buffers) && HeadersWhole(c.chunks, Bodies(c.buffers), 0)
  }

  lemma PrefixOff(p: seq<Byte>, x: seq<Byte>, buffer: seq<Byte>) returns (slack: seq<Byte>)
    requires p + x <= buffer
    ensures buffer == p + buffer[|p|..] && buffer[|p|..] == x + slack
  {
    slack := buffer[|p + x|..];
  }

  lemma SplitOff(p: seq<Byte>, x: seq<Byte>, buffer: seq<Byte>) returns (slack: seq<Byte>)
    requires 8 <= |buffer| < 0x8000_0000 && p == Prefix(|buffer| - 8) && p + x <= buffer
    ensures buffer == Frame(BodyOf(buffer)) && |BodyOf(buffer)| < 0x8000_0000 && BodyOf(buffer) == x + slack
  {
    assert |p| == 8;
    slack := PrefixOff(p, x, buffer);
  }

  lemma BufferParsed(m: Message, buffer: seq<Byte>)
    requires Sent(m, buffer)
    ensures buffer == Frame(BodyOf(buffer)) && |BodyOf(buffer)| < 0x8000_0000
    ensures ParseMessage(BodyOf(buffer)) == Received(Normalised(Carried(m)), false, 0)
  {
    var slack := SplitOff(Prefix(|buffer| - 8), Body(m), buffer);
    MessageRebuilt(m, slack);
  }

  lemma {:induction false} BuffersAreWire(ms: seq<Message>, buffers: seq<seq<Byte>>)
    requires AllSent(ms, buffers)
    ensures Flatten(buffers) == Wire(Bodies(buffers)) && Framable(Bodies(buffers))
    decreases |ms|
  {
    if ms == [] {
    } else {
      BufferParsed(ms[0], buffers[0]);
      BuffersAreWire(ms[1..], buffers[1..]);
      WireFirst(BodyOf(buffers[0]), Bodies(buffers[1..]));
    }
  }

  /** Every message sent over a connection is handed on, in order, and read back. */
  lemma ConnectionArrives(c: Connection)
    requires Flows(c)
    ensures Frames(c.chunks) == Outcome(Bodies(c.buffers), 0, false)
    ensures forall i :: 0 <= i < |c.messages| ==>
      ParseMessage(Bodies(c.buffers)[i]) == Received(Normalised(Carried(c.messages[i])), false, 0)
  {
    BuffersAreWire(c.messages, c.buffers);
    FramesIff(c.chunks, Bodies(c.buffers));
    forall i | 0 <= i < |c.messages|
      ensures ParseMessage(Bodies(c.buffers)[i]) == Received(Normalised(Carried(c.messages[i])), false, 0)
    {
      SentAt(c.messages, c.buffers, i);
      BufferParsed(c.messages[i], c.buffers[i]);
    }
  }

  /** Any messages of moderate length can be sent so: each in a buffer and a portion of its own. */
  function InWholePortions(ms: seq<Message>): Connection {
    Connection(ms, FramesOf(ms), FramesOf(ms))
  }

  function FramesOf(ms: seq<Message>): seq<seq<Byte>> {
    if ms == [] then [] else [Frame(Body(ms[0]))] + FramesOf(ms[1..])
  }

  lemma HeaderBehind(chunks: Chunks)
    requires chunks != []
    ensures forall k: nat :: HeaderWhole(chunks[1..], k) <==> HeaderWhole(chunks, k + |chunks[0]|)
  {
  }

  lemma HeadersBehind(chunks: Chunks, bodies: seq<seq<Byte>>)
    requires chunks != []
    ensures HeadersWhole(chunks[1..], bodies, 0) <==> HeadersWhole(chunks, bodies, |chunks[0]|)
  {
    HeaderBehind(chunks);
    HeadersShift(chunks, chunks[1..], bodies, 0, |chunks[0]|);
  }

  lemma FirstOwnPortion(buffers: seq<seq<Byte>>)
    requires buffers != [] && 8 <= |buffers[0]|
    ensures Bodies(buffers)[1..] == Bodies(buffers[1..]) && 8 + |Bodies(buffers)[0]| == |buffers[0]|
    ensures HeaderWhole(buffers, 0)
  {
  }

  /** A buffer in a portion of its own does not split its header. */
  lemma {:induction false} OwnPortions(buffers: seq<seq<Byte>>)
    requires forall b :: b in buffers ==> 8 <= |b|
    ensures HeadersWhole(buffers, Bodies(buffers), 0)
    decreases |buffers|
  {
    if buffers == [] {
    } else {
      var rest := buffers[1..];
      assert buffers[0] in buffers;
      OwnPortions(rest);
      FirstOwnPortion(buffers);
      HeadersBehind(buffers, Bodies(rest));
    }
  }

  lemma FrameSent(m: Message)
    requires Sendable(m) && Readable(m) && |Body(m)| < 0x7fff_fff8
    ensures Sent(m, Frame(Body(m))) && 8 <= |Frame(Body(m))|
  {
    OneFrame(Body(m));
  }

  lemma {:induction false} FramesSent(ms: seq<Message>)
    requires forall m :: m in ms ==> Sendable(m) && Readable(m) && |Body(m)| < 0x7fff_fff8
    ensures |FramesOf(ms)| == |ms| && AllSent(ms, FramesOf(ms)) && forall b :: b in FramesOf(ms) ==> 8 <= |b|
    decreases |ms|
  {
    if ms == [] {
    } else {
      FrameSent(ms[0]);
      FramesSent(ms[1..]);
    }
  }

  lemma WholePortionsFlow(ms: seq<Message>)
    requires forall m :: m in ms ==> Sendable(m) && Readable(m) && |Body(m)| < 0x7fff_fff8
    ensures Flows(InWholePortions(ms))
  {
    FramesSent(ms);
    OwnPortions(FramesOf(ms));
  }

  lemma OneFrame(body: seq<Byte>)
    ensures Frame(body) == Prefix(|body|) + body && |Prefix(|body|)| == 8
  {
  }

  // ---- End to end -----------------------------------------------------------------

  /** The message of a call: method ID, values, message ID. */
  function Request(methodId: nat, vs: seq<Value>, id: nat): Message {
    Message(methodId, 0, id, 0, [], vs, Null)
  }

  /** What the callback `n` computes from values that have been sent. */
  function Result(h: Handlers, n: Name, vs: seq<Value>): Value { h(n, NormaliseAll(vs)) }

  function ReplyMessage(h: Handlers, n: Name, methodId: nat, vs: seq<Value>, id: nat): Message {
    ReplyTo(Request(methodId, NormaliseAll(vs), id), Result(h, n, vs))
  }

  /** The caller keeps to the signature, and so does the callback. */
  ghost predicate Proper(meth: Method, h: Handlers, n: Name, vs: seq<Value>) {
    Matches(meth.params, vs) && TypeOf(Result(h, n, vs)) == meth.ret
  }

  /** The caller builds the message, and the server, on its body, runs the method `n` with the values,
      which still match its signature, and sends the result. */
  ghost predicate Runs(c: Registry, r: Registry, h: Handlers, n: Name, vs: seq<Value>, id: nat, body: seq<Byte>)
    requires n in c.methods && n in r.methods
  {
    var k := c.methods[n].id;
    && Prepare(c, n, vs).Prepared? && Numbered(Prepare(c, n, vs).m, id) == Request(k, vs, id)
    && Serve(r, h, body) == Replied(ReplyMessage(h, n, k, vs, id))
    && Matches(r.methods[n].params, NormaliseAll(vs))
  }

  /** The caller reads the result in the body, with the declared type, under the ID of its own message. */
  ghost predicate Answered(ret: TypeCode, v: Value, id: nat, body: seq<Byte>) {
    && ParseMessage(body).Received?
    && var r := ParseMessage(body);
    && !r.corrupt && r.state == 0 && IsReply(r.m.flags) && r.m.responseId == id
    && r.m.response == Normalise(v) && TypeOf(r.m.response) == ret
  }

  lemma RequestRuns(c: Registry, r: Registry, h: Handlers, n: Name, vs: seq<Value>, id: nat, up: Connection, i: nat)
    requires n in c.methods && n in r.methods && r.methods[n].name == n && c.methods[n].params == r.methods[n].params
    requires Lookup(r, c.methods[n].id) == Leads(r.methods[n]) && Proper(r.methods[n], h, n, vs)
    requires Flows(up) && i < |up.messages| && up.messages[i] == Request(c.methods[n].id, vs, id)
    requires !Result(h, n, vs).Null?
    ensures Runs(c, r, h, n, vs, id, Bodies(up.buffers)[i])
  {
    ConnectionArrives(up);
    PreparedIff(c, n, vs);
    MatchesAcross(r.methods[n].params, vs);
  }

  lemma ReplyReceived(m: Message, v: Value, down: Connection, j: nat)
    requires Flows(down) && j < |down.messages| && down.messages[j] == ReplyTo(m, v)
    ensures Answered(TypeOf(v), v, m.messageId, Bodies(down.buffers)[j]) && InRange(v)
  {
    ConnectionArrives(down);
    SentAt(down.messages, down.buffers, j);
  }

  /** A call under an ID that leads to the method of that name, as message `i` of one direction and
      answered as message `j` of the other. */
  lemma CallThrough(c: Registry, r: Registry, h: Handlers, n: Name, vs: seq<Value>, id: nat,
                    up: Connection, i: nat, down: Connection, j: nat)
    requires n in c.methods && n in r.methods && r.methods[n].name == n && c.methods[n].params == r.methods[n].params
    requires Lookup(r, c.methods[n].id) == Leads(r.methods[n]) && Proper(r.methods[n], h, n, vs)
    requires Flows(up) && i < |up.messages| && up.messages[i] == Request(c.methods[n].id, vs, id)
    requires Flows(down) && j < |down.messages|
    requires down.messages[j] == ReplyMessage(h, n, c.methods[n].id, vs, id)
    ensures Runs(c, r, h, n, vs, id, Bodies(up.buffers)[i])
    ensures Answered(r.methods[n].ret, Result(h, n, vs), id, Bodies(down.buffers)[j])
  {
    ReplyReceived(Request(c.methods[n].id, NormaliseAll(vs), id), Result(h, n, vs), down, j);
    RequestRuns(c, r, h, n, vs, id, up, i);
  }

  /**
   * End to end, for a client that has synchronised and a method with no gap in the server's IDs before
   * it, wherever in the two directions of their connection the call and its answer stand: signature
   * check, message, framing, parser, lookup by ID, handler, return type check, and all the way back.
   */
  lemma EndToEnd(r: Registry, h: Handlers, n: Name, vs: seq<Value>, id: nat,
                 up: Connection, i: nat, down: Connection, j: nat)
    requires Sound(r) && Live(r) && SyncFirst(r)
    requires n in r.methods && n in Client(r).methods && NoGapBefore(r, n) && Proper(r.methods[n], h, n, vs)
    requires Flows(up) && i < |up.messages| && up.messages[i] == Request(Client(r).methods[n].id, vs, id)
    requires Flows(down) && j < |down.messages|
    requires down.messages[j] == ReplyMessage(h, n, Client(r).methods[n].id, vs, id)
    ensures Runs(Client(r), r, h, n, vs, id, Bodies(up.buffers)[i])
    ensures Answered(r.methods[n].ret, Result(h, n, vs), id, Bodies(down.buffers)[j])
  {
    DispatchIff(r, n);
    CallThrough(Client(r), r, h, n, vs, id, up, i, down, j);
  }

  /** The callbacks of a server: its own, and nymphsync, which returns the table that
      `Methods.SyncMethods` prints. */
  function WithSync(r: Registry, h: Handlers): Handlers {
    var table := ServerTableOf(r);
    (n: Name, vs: seq<Value>) => if n == SYNC then Str(table) else h(n, vs)
  }

  lemma AnsweredText(text: seq<Byte>, id: nat, body: seq<Byte>)
    requires Answered(TYPE_STRING, Str(text), id, body)
    ensures ParseMessage(body).m.response == Str(text)
  {
  }

  /** With the entry that `Start` has, nymphsync can be called before the client knows any other ID. */
  lemma SyncThrough(r: Registry, c: Registry, h: Handlers, n: Name, vs: seq<Value>, id: nat,
                    up: Connection, i: nat, down: Connection, j: nat)
    requires n in c.methods && c.methods[n] == SYNC_METHOD && n in r.methods && r.methods[n] == SYNC_METHOD
    requires Lookup(r, SYNC_METHOD.id) == Leads(r.methods[n]) && n == SYNC && vs == [] && Result(h, n, vs).Str?
    requires Flows(up) && i < |up.messages| && up.messages[i] == Request(c.methods[n].id, vs, id)
    requires Flows(down) && j < |down.messages|
    requires down.messages[j] == ReplyMessage(h, n, c.methods[n].id, vs, id)
    ensures Runs(c, r, h, n, vs, id, Bodies(up.buffers)[i])
    ensures Answered(TYPE_STRING, Result(h, n, vs), id, Bodies(down.buffers)[j])
  {
    CallThrough(c, r, h, n, vs, id, up, i, down, j);
  }

  lemma SyncLeads(r: Registry)
    requires Sound(r) && Live(r) && SyncFirst(r)
    ensures SYNC in Start().methods && Start().methods[SYNC] == SYNC_METHOD
    ensures Lookup(r, SYNC_METHOD.id) == Leads(r.methods[SYNC])
  {
  }

  /** The call of nymphsync, with the entry that a client starts with, goes through likewise, and what it
      returns leads to the maps that `EndToEnd` is about. */
  lemma SyncEndToEnd(r: Registry, h: Handlers, id: nat, up: Connection, i: nat, down: Connection, j: nat)
    requires Sound(r) && Live(r) && SyncFirst(r) && Printable(r)
    requires Flows(up) && i < |up.messages| && up.messages[i] == Request(Start().methods[SYNC].id, [], id)
    requires Flows(down) && j < |down.messages|
    requires down.messages[j] == ReplyMessage(WithSync(r, h), SYNC, Start().methods[SYNC].id, [], id)
    ensures Runs(Start(), r, WithSync(r, h), SYNC, [], id, Bodies(up.buffers)[i])
    ensures Answered(TYPE_STRING, Str(ServerTableOf(r)), id, Bodies(down.buffers)[j])
    ensures ParseMessage(Bodies(down.buffers)[j]).m.response == Str(ServerTableOf(r))
    ensures SyncWith(Start(), ServerTableOf(r)) == Synced(true, Client(r))
  {
    SyncLeads(r);
    SyncThrough(r, Start(), WithSync(r, h), SYNC, [], id, up, i, down, j);
    AnsweredText(ServerTableOf(r), id, Bodies(down.buffers)[j]);
    SyncReadsTable(r);
  }

  // ---- A whole session ------------------------------------------------------------

  datatype Asked = Asked(n: Name, vs: seq<Value>, id: nat)

  /** The client's maps at call `i`: the first is nymphsync. */
  ghost function Maps(r: Registry, i: nat): Registry {
    if i == 0 then Start() else Client(r)
  }

  /** The call can reach its method: the first is nymphsync without values, and any other is of a method
      with no gap before it. */
  ghost predicate Callable(r: Registry, a: Asked, i: nat) {
    if i == 0 then a.n == SYNC && a.vs == []
    else a.n in r.methods && a.n in Client(r).methods && NoGapBefore(r, a.n)
  }

  /** Message `i` of one direction is what the client prepared for the call, and message `i` of the other
      is what the server answered to the body that it received. */
  ghost predicate Exchange(r: Registry, h: Handlers, a: Asked, i: nat, up: Connection, down: Connection) {
    && i < |up.messages| == |up.buffers| && i < |down.messages|
    && Prepare(Maps(r, i), a.n, a.vs).Prepared?
    && up.messages[i] == Numbered(Prepare(Maps(r, i), a.n, a.vs).m, a.id)
    && Serve(r, WithSync(r, h), Bodies(up.buffers)[i]) == Replied(down.messages[i])
  }

  ghost predicate Succeeds(r: Registry, h: Handlers, a: Asked, i: nat, up: Connection, down: Connection)
    requires i < |up.buffers| && i < |down.buffers|
  {
    && a.n in Maps(r, i).methods && a.n in r.methods
    && Runs(Maps(r, i), r, WithSync(r, h), a.n, a.vs, a.id, Bodies(up.buffers)[i])
    && Answered(r.methods[a.n].ret, Result(WithSync(r, h), a.n, a.vs), a.id, Bodies(down.buffers)[i])
  }

  /** The client's ID leads to the method of the called name. */
  lemma CallableLeads(r: Registry, a: Asked, i: nat)
    requires Sound(r) && Live(r) && SyncFirst(r) && Callable(r, a, i)
    ensures var c := Maps(r, i);
      && a.n in c.methods && a.n in r.methods && r.methods[a.n].name == a.n
      && c.methods[a.n].params == r.methods[a.n].params && Lookup(r, c.methods[a.n].id) == Leads(r.methods[a.n])
  {
    if i == 0 { SyncLeads(r); } else { DispatchIff(r, a.n); }
  }

  /** What the server answers to a call that has arrived. */
  lemma ServedReply(r: Registry, h: Handlers, n: Name, vs: seq<Value>, k: nat, id: nat,
                    up: Connection, i: nat, m: Message)
    requires n in r.methods && r.methods[n].name == n && Lookup(r, k) == Leads(r.methods[n])
    requires Flows(up) && i < |up.messages| && up.messages[i] == Request(k, vs, id)
    requires Serve(r, h, Bodies(up.buffers)[i]) == Replied(m)
    ensures m == ReplyMessage(h, n, k, vs, id) && TypeOf(Result(h, n, vs)) == r.methods[n].ret
  {
    ConnectionArrives(up);
  }

  lemma ExchangeSucceeds(r: Registry, h: Handlers, a: Asked, i: nat, up: Connection, down: Connection)
    requires Sound(r) && Live(r) && SyncFirst(r) && Callable(r, a, i)
    requires Flows(up) && Flows(down) && Exchange(r, h, a, i, up, down)
    ensures Succeeds(r, h, a, i, up, down)
  {
    var c, g := Maps(r, i), WithSync(r, h);
    CallableLeads(r, a, i);
    PreparedIff(c, a.n, a.vs);
    ServedReply(r, g, a.n, a.vs, c.methods[a.n].id, a.id, up, i, down.messages[i]);
    CallThrough(c, r, g, a.n, a.vs, a.id, up, i, down, i);
  }

  /**
   * A whole session with a server of any history that leaves nymphsync and no dangling ID: the client
   * synchronises and then calls any methods that have no gap before them. Over one connection, however
   * its octets arrive as long as no header is split, every call runs the method of the called name with
   * the values sent, and every answer that is sent can be read, under the ID of its call. That it is
   * handed to the caller is `Delivery.AnswersDelivered`.
   */
  lemma Session(ops: seq<Op>, r: Registry, h: Handlers, calls: seq<Asked>, up: Connection, down: Connection)
    requires Legal(Start(), ops) && KeepsSync(ops) && Clean({SYNC}, {}, ops) && r == Run(Start(), ops)
    requires Flows(up) && Flows(down) && |up.messages| == |down.messages| == |calls|
    requires forall i :: 0 <= i < |calls| ==> Callable(r, calls[i], i) && Exchange(r, h, calls[i], i, up, down)
    ensures Frames(up.chunks) == Outcome(Bodies(up.buffers), 0, false)
    ensures Frames(down.chunks) == Outcome(Bodies(down.buffers), 0, false)
    ensures Printable(r) ==> SyncWith(Start(), ServerTableOf(r)) == Synced(true, Client(r))
    ensures forall i :: 0 <= i < |calls| ==> Succeeds(r, h, calls[i], i, up, down)
  {
    StartSound();
    HistoryLive(ops);
    SyncStays(Start(), ops);
    ConnectionArrives(up);
    ConnectionArrives(down);
    if Printable(r) { SyncReadsTable(r); }
    forall i | 0 <= i < |calls| ensures Succeeds(r, h, calls[i], i, up, down) {
      ExchangeSucceeds(r, h, calls[i], i, up, down);
    }
  }
}
