/** The NymphMessage objects: building a message, writing it into its buffer, and reading one. */
module NymphMessages {
  import opened Bytes
  import opened Values
  import opened Parser
  import opened Lengths
  import opened NymphTypes
  import opened Messages

  /** NymphUtilities: the counter that numbers the messages of a process. */
  class NymphUtilities {
    var messageId: nat

    constructor ()
      ensures messageId == 1
    {
      messageId := 1;
    }

    method GetMessageId() returns (id: nat)
      modifies this
      ensures id == old(messageId) && messageId == id + 1
    {
      id := messageId;
      messageId := messageId + 1;
    }
  }

  /** The lengths of the values that the value loop reads from `i` on. */
  function ValueLengths(b: seq<Byte>, i: nat): seq<nat>
    requires i <= |b|
    decreases |b| - i
  {
    if i >= |b| || b[i] == NONE || ParseTagged(b, i).OutOfBounds? then []
    else [LengthTagged(b, i)] + ValueLengths(b, ParseTagged(b, i).next)
  }

  /** What the value loop has made of the octets from `from` on when it has come to `i`. */
  ghost predicate ValuesSoFar(b: seq<Byte>, from: nat, i: nat, vs: seq<Value>, ls: seq<nat>) {
    && from <= i <= |b| && ParseValues(b, i, vs).ValuesRead? && ParseValues(b, i, vs) == ParseValues(b, from, [])
    && ls + ValueLengths(b, i) == ValueLengths(b, from)
  }

  /** And when it ends. */
  ghost predicate ValuesDone(b: seq<Byte>, from: nat, vs: seq<Value>, ls: seq<nat>, damaged: bool)
    requires from <= |b|
  {
    ParseValues(b, from, []) == ValuesRead(vs, damaged) && ls == ValueLengths(b, from)
  }

  lemma ValuesTurn(b: seq<Byte>, from: nat, i: nat, vs: seq<Value>, ls: seq<nat>)
    requires ValuesSoFar(b, from, i, vs, ls) && i < |b| && b[i] != NONE
    ensures ParseTagged(b, i).Parsed?
    ensures var t := ParseTagged(b, i);
      if t.next >= |b| then ValuesDone(b, from, vs + [t.v], ls + [LengthTagged(b, i)], true)
      else ValuesSoFar(b, from, t.next, vs + [t.v], ls + [LengthTagged(b, i)])
  {
    var l, rest := LengthTagged(b, i), ValueLengths(b, ParseTagged(b, i).next);
    assert ls + [l] + rest == ls + ([l] + rest);
  }

  lemma ValuesEnd(b: seq<Byte>, from: nat, i: nat, vs: seq<Value>, ls: seq<nat>)
    requires ValuesSoFar(b, from, i, vs, ls) && (i == |b| || b[i] == NONE)
    ensures ValuesDone(b, from, vs, ls, false)
  {
  }

  /** The lengths of the response, or of the values, of a received message. */
  function ReceivedLengths(b: seq<Byte>): seq<nat>
    requires ParseMessage(b).Received?
  {
    if b[0] != 0 then []
    else if IsReply(FromLE(b[5..9])) then [LengthTagged(b, 25)]
    else if IsCallback(FromLE(b[5..9])) then ValueLengths(b, ParseTagged(b, 17).next)
    else if |b| <= 17 then []
    else ValueLengths(b, 17)
  }

  class NymphMessage {
    var methodId: nat
    var flags: nat
    var messageId: nat
    var responseId: nat
    var callbackName: seq<Byte>
    var values: seq<NymphType>
    var response: NymphType?
    var corrupt: bool
    var state: int
    var dataBuffer: array?<Byte>
    var bufferLength: nat    // while building: the size of the content; then: the size of the buffer

    ghost predicate HeadIs(m: Message)
      reads this`methodId, this`flags, this`messageId, this`responseId, this`callbackName
    {
      && methodId == m.methodId && flags == m.flags && messageId == m.messageId && responseId == m.responseId
      && callbackName == m.callbackName
    }

    /** This object holds the message `m`, whose values are made of the objects in `repr`. */
    ghost predicate Holds(m: Message, repr: set<NymphType>)
      reads this, repr
    {
      && HeadIs(m)
      && AllAre(values, m.values, repr)
      && (response == null ==> m.response == Null)
      && (response != null ==> Is(response, m.response, repr))
    }

    /** The same, and no object occurs twice in its values and its response. */
    ghost predicate HoldsApart(m: Message, repr: set<NymphType>)
      reads this, repr
    {
      && Holds(m, repr)
      && ObjectsAll(values, m.values, repr)
           + (if response == null then multiset{} else Objects(response, m.response, repr)) <= multiset(repr)
    }

    /** The lengths of the response, if there is one, or else of the values. */
    ghost predicate LengthsAre(ls: seq<nat>)
      reads this`values, this`response, values, if response == null then {} else {response}
    {
      if response != null then ls == [response.length]
      else |ls| == |values| && forall k :: 0 <= k < |ls| ==> values[k].length == ls[k]
    }

    /** Not serialised yet; `extra` is what the sum of the sizes counts beyond what will be sent. It is
        negative if a reply has been given values that are smaller than its result. */
    ghost predicate Building(m: Message, repr: set<NymphType>, extra: int)
      reads this, repr
    {
      Holds(m, repr) && dataBuffer == null && !corrupt && state == 0 && bufferLength == ContentSize(m) + extra
    }

    constructor (methodId: nat)
      ensures Building(Message(methodId, 0, messageId, 0, [], [], Null), {}, 0)
      ensures messageId == 0 && response == null
    {
      this.methodId, flags, messageId, responseId := methodId, 0, 0, 0;
      callbackName, values, response := [], [], null;
      corrupt, state, dataBuffer, bufferLength := false, 0, null, 0;
    }

    method AddValue(value: NymphType, ghost v: Value, ghost m: Message, ghost repr: set<NymphType>, ghost extra: int)
      requires Building(m, repr, extra) && Is(value, v, repr) && value.length == Size(v)
      modifies this
      ensures Building(m.(values := m.values + [v]), repr, if IsReply(flags) then extra + Size(v) else extra)
    {
      SizeAllConcat(m.values, [v]);
      values := values + [value];
      bufferLength := bufferLength + value.length;
    }

    /** Puts these values in the place of those there were. */
    method AddValues(vs: seq<NymphType>, ghost ms: seq<Value>,
                     ghost m: Message, ghost repr: set<NymphType>, ghost extra: int)
      requires Building(m, repr, extra) && AllAre(vs, ms, repr)
      requires forall k :: 0 <= k < |vs| ==> vs[k].length == Size(ms[k])
      modifies this
      ensures Building(m.(values := ms), repr, if IsReply(flags) then SizeAll(ms) - Size(m.response) else 0)
    {
      values := vs;
      bufferLength := SumLengths(vs, ms);
    }

    /** Makes this message a reply with the given result. */
    method SetResultValue(value: NymphType, ghost v: Value,
                          ghost m: Message, ghost repr: set<NymphType>, ghost extra: int)
      requires Building(m, repr, extra) && Is(value, v, repr) && value.length == Size(v)
      modifies this
      ensures Building(m.(flags := WithReply(m.flags), response := v), repr, 0)
    {
      flags := WithReply(flags);
      response := value;
      bufferLength := value.length;
    }

    method SetCallback(name: seq<Byte>, ghost m: Message, ghost repr: set<NymphType>, ghost extra: int)
      requires Building(m, repr, extra)
      modifies this
      ensures Building(m.(flags := WithCallback(m.flags), callbackName := name), repr, extra)
    {
      flags := WithCallback(flags);
      callbackName := name;
    }

    /** Despite what is written at its head in the source, this does not set the reply flag. */
    method SetInReplyTo(msgId: nat, ghost m: Message, ghost repr: set<NymphType>, ghost extra: int)
      requires Building(m, repr, extra)
      modifies this
      ensures Building(m.(responseId := msgId, messageId := (msgId + 1) % 0x1_0000_0000_0000_0000), repr, extra)
    {
      responseId := msgId;
      messageId := (msgId + 1) % 0x1_0000_0000_0000_0000;
    }

    method GetReplyMessage() returns (msg: NymphMessage)
      ensures fresh(msg)
      ensures msg.Building(
        Message(methodId, 0, (messageId + 1) % 0x1_0000_0000_0000_0000, messageId, [], [], Null), {}, 0)
    {
      msg := new NymphMessage(methodId);
      msg.SetInReplyTo(messageId, Message(methodId, 0, 0, 0, [], [], Null), {}, 0);
    }

    // ---- serialize ----------------------------------------------------------------

    /** Gives the message its ID unless it is a reply, and writes it into a new buffer. */
    method Serialize(ids: NymphUtilities, ghost m: Message, ghost repr: set<NymphType>, ghost extra: nat)
      requires Building(m, repr, extra) && (IsReply(flags) ==> response != null)
      requires IsReply(flags) || !IsException(flags)
      requires AnnouncedLength(m, bufferLength) < 0x8000_0000
      modifies this, ids
      ensures Holds(Numbered(m, old(ids.messageId)), repr)
      ensures dataBuffer != null && fresh(dataBuffer)
      ensures dataBuffer != null && dataBuffer.Length == bufferLength == 8 + AnnouncedLength(m, old(bufferLength))
      ensures dataBuffer != null &&
        Prefix(AnnouncedLength(m, old(bufferLength))) + Body(Numbered(m, old(ids.messageId))) <= dataBuffer[..]
      ensures ids.messageId == old(ids.messageId) + if IsReply(m.flags) then 0 else 1
    {
      var cbn := new NymphType();
      cbn.SetString(callbackName);
      var messageLength := MessageLength(cbn, m, repr);
      var buf := AssignIdAndWrite(messageLength, cbn, ids, m, repr, extra);
      dataBuffer, bufferLength := buf, messageLength + 8;
    }

    method AssignIdAndWrite(messageLength: nat, cbn: NymphType, ids: NymphUtilities,
                            ghost m: Message, ghost repr: set<NymphType>, ghost extra: nat) returns (buf: array<Byte>)
      requires Holds(m, repr) && IsString(cbn, m.callbackName, {cbn}) && (IsReply(flags) ==> response != null)
      requires IsReply(flags) || !IsException(flags)
      requires messageLength == AnnouncedLength(m, ContentSize(m) + extra)
      modifies this`messageId, ids
      ensures Holds(Numbered(m, old(ids.messageId)), repr)
      ensures ids.messageId == old(ids.messageId) + if IsReply(m.flags) then 0 else 1
      ensures fresh(buf) && buf.Length == messageLength + 8
      ensures Prefix(messageLength) + Body(Numbered(m, old(ids.messageId))) <= buf[..]
    {
      if !IsReply(flags) { messageId := ids.GetMessageId(); }
      buf := WriteMessage(messageLength, cbn, Numbered(m, old(ids.messageId)), repr, extra);
    }

    method MessageLength(cbn: NymphType, ghost m: Message, ghost repr: set<NymphType>) returns (length: nat)
      requires Holds(m, repr) && cbn.length == BinaryStringLength(|m.callbackName|)
      ensures length == AnnouncedLength(m, bufferLength)
    {
      length := 18 + bufferLength;
      if IsReply(flags) { length := length + 8; }
      if IsException(flags) { length := length + 8; }
      else if IsCallback(flags) { length := length + cbn.length; }
    }

    method WriteMessage(messageLength: nat, cbn: NymphType,
                        ghost m: Message, ghost repr: set<NymphType>, ghost extra: nat)
      returns (buf: array<Byte>)
      requires Holds(m, repr) && IsString(cbn, m.callbackName, {cbn}) && (IsReply(flags) ==> response != null)
      requires IsReply(flags) || !IsException(flags)
      requires messageLength == AnnouncedLength(m, ContentSize(m) + extra)
      ensures fresh(buf) && buf.Length == messageLength + 8 && Prefix(messageLength) + Body(m) <= buf[..]
    {
      buf := new Byte[messageLength + 8];
      BodyLength(m);
      ghost var start, head := buf[..], Prefix(messageLength) + Header(m);
      var next := WriteHeader(buf, messageLength, m, repr);
      next := WritePayload(buf, next, start, head, cbn, m, repr);
      next := PutNext(buf, start, 0, head + Payload(m), next, [NONE]);
      WroteAtStart(start, buf[..], Prefix(messageLength), Header(m), Payload(m), [NONE]);
    }

    method WriteHeader(buf: array<Byte>, messageLength: nat, ghost m: Message, ghost repr: set<NymphType>)
      returns (next: nat)
      requires Holds(m, repr) && 25 <= buf.Length
      modifies buf
      ensures next == 25 && Wrote(old(buf[..]), buf[..], 0, Prefix(messageLength) + Header(m))
      ensures |Prefix(messageLength) + Header(m)| == 25
    {
      ghost var start, done := buf[..], Prefix(messageLength);
      next := Put(buf, 0, LE(SIGNATURE, 4));
      next := PutNext(buf, start, 0, LE(SIGNATURE, 4), next, LE(messageLength, 4));
      ghost var mid := buf[..];
      next := Put(buf, next, [0]);
      next := PutNext(buf, mid, 8, [0], next, LE(methodId, 4));
      next := PutNext(buf, mid, 8, [0] + LE(methodId, 4), next, LE(flags, 4));
      next := PutNext(buf, mid, 8, [0] + LE(methodId, 4) + LE(flags, 4), next, LE(messageId, 8));
      WroteThen(start, mid, buf[..], 0, done, Header(m));
    }

    method WritePayload(buf: array<Byte>, index: nat, ghost start: seq<Byte>, ghost head: seq<Byte>,
                        cbn: NymphType, ghost m: Message, ghost repr: set<NymphType>) returns (next: nat)
      requires Holds(m, repr) && IsString(cbn, m.callbackName, {cbn}) && (IsReply(flags) ==> response != null)
      requires Wrote(start, buf[..], 0, head) && index == |head|
      requires index + |Payload(m)| <= buf.Length
      modifies buf
      ensures next == index + |Payload(m)| && Wrote(start, buf[..], 0, head + Payload(m))
    {
      if IsReply(flags) {
        next := WriteReply(buf, index, start, head, m, repr);
      } else if IsCallback(flags) {
        next := WriteCallback(buf, index, start, head, cbn, m, repr);
      } else {
        next := SerializeElements(values, buf, index, start, 0, head, m.values, repr);
      }
    }

    method WriteReply(buf: array<Byte>, index: nat, ghost start: seq<Byte>, ghost head: seq<Byte>,
                      ghost m: Message, ghost repr: set<NymphType>) returns (next: nat)
      requires Holds(m, repr) && response != null && Wrote(start, buf[..], 0, head) && index == |head|
      requires index + |LE(m.responseId, 8) + Encode(m.response)| <= buf.Length
      modifies buf
      ensures next == index + |LE(m.responseId, 8) + Encode(m.response)|
      ensures Wrote(start, buf[..], 0, head + (LE(m.responseId, 8) + Encode(m.response)))
    {
      next := PutNext(buf, start, 0, head, index, LE(responseId, 8));
      ghost var mid := buf[..];
      next := response.Serialize(buf, next, m.response, repr);
      WroteBehind(start, mid, buf[..], 0, head, LE(responseId, 8), Encode(m.response));
    }

    method WriteCallback(buf: array<Byte>, index: nat, ghost start: seq<Byte>, ghost head: seq<Byte>,
                         cbn: NymphType, ghost m: Message, ghost repr: set<NymphType>) returns (next: nat)
      requires Holds(m, repr) && IsString(cbn, m.callbackName, {cbn})
      requires Wrote(start, buf[..], 0, head) && index == |head|
      requires index + |EncodeString(m.callbackName) + EncodeAll(m.values)| <= buf.Length
      modifies buf
      ensures next == index + |EncodeString(m.callbackName) + EncodeAll(m.values)|
      ensures Wrote(start, buf[..], 0, head + (EncodeString(m.callbackName) + EncodeAll(m.values)))
    {
      next := WriteName(buf, index, start, head, cbn, m.callbackName);
      ghost var named := head + EncodeString(m.callbackName);
      next := SerializeElements(values, buf, next, start, 0, named, m.values, repr);
      assert named + EncodeAll(m.values) == head + (EncodeString(m.callbackName) + EncodeAll(m.values));
    }

    static method WriteName(buf: array<Byte>, index: nat, ghost start: seq<Byte>, ghost head: seq<Byte>,
                            cbn: NymphType, ghost name: seq<Byte>) returns (next: nat)
      requires IsString(cbn, name, {cbn}) && Wrote(start, buf[..], 0, head) && index == |head|
      requires index + |EncodeString(name)| <= buf.Length
      modifies buf
      ensures next == index + |EncodeString(name)| && Wrote(start, buf[..], 0, head + EncodeString(name))
    {
      ghost var mid := buf[..];
      next := cbn.SerializeString(buf, index);
      assert cbn.emptyString ==> [EMPTY_STRING] + name == EncodeString(name);
      WroteThen(start, mid, buf[..], 0, head, EncodeString(name));
    }

    // ---- The parsing constructor ----------------------------------------------------

    /** Reads the octets that followed the signature and the length on the wire. */
    static method Parse(binmsg: array<Byte>) returns (msg: NymphMessage, ghost repr: set<NymphType>)
      requires binmsg.Length < 0x8000_0000 && ParseMessage(binmsg[..]).Received?
      ensures fresh(msg) && fresh(repr)
      ensures var r := ParseMessage(binmsg[..]);
        msg.HoldsApart(r.m, repr) && msg.corrupt == r.corrupt && msg.state == r.state
      ensures msg.LengthsAre(ReceivedLengths(binmsg[..]))
    {
      ghost var b := binmsg[..];
      assert b[1..5] == binmsg[1..5];
      msg := new NymphMessage(FromLE(binmsg[1..5]));
      msg.messageId := 0;
      repr := {};
      if binmsg[0] != 0 {
        msg.state, msg.corrupt := -1, true;
        return;
      }
      assert b[5..9] == binmsg[5..9] && b[9..17] == binmsg[9..17];
      msg.flags := FromLE(binmsg[5..9]);
      msg.messageId := FromLE(binmsg[9..17]);
      ghost var h := Message(msg.methodId, msg.flags, msg.messageId, 0, [], [], Null);
      if IsReply(msg.flags) {
        repr := msg.ParseReplyBody(binmsg, h);
      } else if IsCallback(msg.flags) {
        repr := msg.ParseCallbackBody(binmsg, h);
      } else if 17 < binmsg.Length {
        repr := msg.ParseValuesFrom(binmsg, 17, h);
      } else {
        msg.corrupt := true;
      }
    }

    method ParseReplyBody(binmsg: array<Byte>, ghost h: Message) returns (ghost repr: set<NymphType>)
      requires 17 <= binmsg.Length < 0x8000_0000 && ParseReply(binmsg[..], h).Received?
      requires Holds(h, {}) && values == [] && response == null && !corrupt && state == 0
      modifies this
      ensures var r := ParseReply(binmsg[..], h); HoldsApart(r.m, repr) && corrupt == r.corrupt && state == r.state
      ensures LengthsAre([LengthTagged(binmsg[..], 25)])
      ensures fresh(repr)
    {
      ghost var b := binmsg[..];
      assert b[17..25] == binmsg[17..25];
      responseId := FromLE(binmsg[17..25]);
      assert ParseTagged(b, 25).Parsed?;
      repr := ReadResponse(binmsg, h.(responseId := responseId));
    }

    method ReadResponse(binmsg: array<Byte>, ghost h: Message) returns (ghost repr: set<NymphType>)
      requires 25 < binmsg.Length < 0x8000_0000 && ParseTagged(binmsg[..], 25).Parsed?
      requires HeadIs(h) && values == [] && h.values == []
      modifies this`response, this`corrupt
      ensures var r := ParseTagged(binmsg[..], 25);
        HoldsApart(h.(response := r.v), repr) && corrupt == (r.next >= binmsg.Length || binmsg[r.next] != NONE)
      ensures LengthsAre([LengthTagged(binmsg[..], 25)])
      ensures fresh(repr)
    {
      var value := new NymphType();
      var ok, index;
      ok, index, repr := value.ReadTagged(binmsg, 25);
      HoldResponse(value, index >= binmsg.Length || binmsg[index] != NONE, h, ParseTagged(binmsg[..], 25).v, repr);
    }

    method HoldResponse(value: NymphType, damaged: bool, ghost h: Message, ghost v: Value, ghost repr: set<NymphType>)
      requires HeadIs(h) && values == [] && h.values == [] && Apart(value, v, repr)
      modifies this`response, this`corrupt
      ensures HoldsApart(h.(response := v), repr) && corrupt == damaged && LengthsAre([value.length])
    {
      response, corrupt := value, damaged;
      ResponseApart(h, v, repr);
    }

    lemma ResponseApart(h: Message, v: Value, repr: set<NymphType>)
      requires HeadIs(h) && values == [] && h.values == [] && response != null && Apart(response, v, repr)
      ensures HoldsApart(h.(response := v), repr)
    {
      assert ObjectsAll(values, h.values, repr) == multiset{};
    }

    method ParseCallbackBody(binmsg: array<Byte>, ghost h: Message) returns (ghost repr: set<NymphType>)
      requires 17 <= binmsg.Length < 0x8000_0000 && ParseCallback(binmsg[..], h).Received?
      requires Holds(h, {}) && callbackName == [] && values == [] && response == null && !corrupt && state == 0
      modifies this
      ensures var r := ParseCallback(binmsg[..], h); HoldsApart(r.m, repr) && corrupt == r.corrupt && state == r.state
      ensures LengthsAre(ValueLengths(binmsg[..], ParseTagged(binmsg[..], 17).next))
      ensures fresh(repr)
    {
      ghost var b := binmsg[..];
      assert ParseTagged(b, 17).Parsed?;
      var value := new NymphType();
      var ok, index;
      ok, index, repr := value.ReadTagged(binmsg, 17);
      if value.data.Chars? { callbackName := value.data.chars; }
      ghost var named := h.(callbackName := callbackName);
      repr := ParseValuesFrom(binmsg, index, named);
    }

    /** These are the values so far, with their lengths, and no object occurs twice in them. */
    ghost predicate ValuesAre(vs: seq<Value>, ls: seq<nat>, repr: set<NymphType>)
      reads this`values, this`response, values, repr
    {
      response == null && AllApart(values, vs, repr) && LengthsAre(ls)
    }

    /** One turn of the value loop. */
    method AppendValue(binmsg: array<Byte>, ghost from: nat, index: nat, ghost vs: seq<Value>, ghost ls: seq<nat>,
                       ghost repr: set<NymphType>)
      returns (next: nat, ghost us: seq<Value>, ghost ms: seq<nat>, ghost more: set<NymphType>)
      requires binmsg.Length < 0x8000_0000 && ValuesSoFar(binmsg[..], from, index, vs, ls) && ValuesAre(vs, ls, repr)
      requires index < binmsg.Length && binmsg[index] != NONE
      modifies this`values
      ensures ValuesAre(us, ms, repr + more) && fresh(more) && index < next
      ensures if next >= binmsg.Length then ValuesDone(binmsg[..], from, us, ms, true)
              else ValuesSoFar(binmsg[..], from, next, us, ms)
    {
      ValuesTurn(binmsg[..], from, index, vs, ls);
      us := vs + [ParseTagged(binmsg[..], index).v];
      ms := ls + [LengthTagged(binmsg[..], index)];
      values, next, more := ReadElement(binmsg, index, values, vs, repr);
    }

    /** The value loop. */
    method ReadValues(binmsg: array<Byte>, from: nat)
      returns (damaged: bool, ghost vs: seq<Value>, ghost ls: seq<nat>, ghost repr: set<NymphType>)
      requires from <= binmsg.Length < 0x8000_0000 && ParseValues(binmsg[..], from, []).ValuesRead?
      requires values == [] && response == null
      modifies this`values
      ensures ValuesDone(binmsg[..], from, vs, ls, damaged) && ValuesAre(vs, ls, repr) && fresh(repr)
    {
      var index := from;
      ghost var b := binmsg[..];
      damaged, vs, ls, repr := false, [], [], {};
      while index < binmsg.Length && binmsg[index] != NONE
        invariant binmsg[..] == b && ValuesSoFar(b, from, index, vs, ls)
        invariant ValuesAre(vs, ls, repr) && fresh(repr)
      {
        ghost var r;
        index, vs, ls, r := AppendValue(binmsg, from, index, vs, ls, repr);
        repr := repr + r;
        if index >= binmsg.Length { return true, vs, ls, repr; }
      }
      ValuesEnd(b, from, index, vs, ls);
    }

    lemma ValuesHeld(h: Message, vs: seq<Value>, ls: seq<nat>, repr: set<NymphType>)
      requires HeadIs(h) && h.response == Null && ValuesAre(vs, ls, repr)
      ensures HoldsApart(h.(values := vs), repr)
    {
    }

    method ParseValuesFrom(binmsg: array<Byte>, from: nat, ghost h: Message) returns (ghost repr: set<NymphType>)
      requires from <= binmsg.Length < 0x8000_0000 && ParseValues(binmsg[..], from, []).ValuesRead?
      requires Holds(h, {}) && values == [] && response == null && !corrupt && state == 0
      modifies this
      ensures var r := WithValues(h, ParseValues(binmsg[..], from, []));
        HoldsApart(r.m, repr) && corrupt == r.corrupt && state == r.state
      ensures LengthsAre(ValueLengths(binmsg[..], from))
      ensures fresh(repr)
    {
      var damaged;
      ghost var vs, ls;
      damaged, vs, ls, repr := ReadValues(binmsg, from);
      if damaged { corrupt := true; }
      ValuesHeld(h, vs, ls, repr);
    }
  }

  // ---- The lengths of what was sent -----------------------------------------------

  function Sizes(vs: seq<Value>): (ls: seq<nat>)
    ensures |ls| == |vs| && forall k :: 0 <= k < |ls| ==> ls[k] == Size(vs[k])
  {
    if vs == [] then [] else [Size(vs[0])] + Sizes(vs[1..])
  }

  lemma {:induction false} ValueLengthsEncoded(vs: seq<Value>, b: seq<Byte>, i: nat, end: nat)
    requires AllInRange(vs) && NoEmptyKeysAll(vs) && At(b, i, EncodeAll(vs)) && end == i + |EncodeAll(vs)|
    requires end < |b| && b[end] == NONE
    ensures ValueLengths(b, i) == Sizes(vs)
    decreases |vs|
  {
    if vs == [] {
    } else {
      AtConcat(b, i, Encode(vs[0]), EncodeAll(vs[1..]));
      StartsWithTypecode(vs[0]);
      AtFirst(b, i, Encode(vs[0]));
      ParseEncoded(vs[0], b, i);
      LengthEncoded(vs[0], b, i);
      ValueLengthsEncoded(vs[1..], b, i + |Encode(vs[0])|, end);
    }
  }

  lemma CallbackLengths(m: Message, b: seq<Byte>, end: nat)
    requires Sendable(m) && Readable(m) && !IsReply(m.flags)
    requires At(b, 17, EncodeString(m.callbackName) + EncodeAll(m.values))
    requires end == 17 + |EncodeString(m.callbackName) + EncodeAll(m.values)| < |b| && b[end] == NONE
    ensures ParseTagged(b, 17).Parsed? && ValueLengths(b, ParseTagged(b, 17).next) == Sizes(m.values)
  {
    AtConcat(b, 17, EncodeString(m.callbackName), EncodeAll(m.values));
    ParseEncodedString(m.callbackName, b, 17);
    ValueLengthsEncoded(m.values, b, 17 + |EncodeString(m.callbackName)|, end);
  }

  lemma ReplyLength(m: Message, b: seq<Byte>)
    requires Sendable(m) && Readable(m) && IsReply(m.flags) && At(b, 17, LE(m.responseId, 8) + Encode(m.response))
    ensures 25 <= |b| && LengthTagged(b, 25) == Size(m.response)
  {
    AtConcat(b, 17, LE(m.responseId, 8), Encode(m.response));
    LengthEncoded(m.response, b, 25);
  }

  /** What `Parse` leaves in a message that was sent are the sizes that the sender announced, so that the
      values it holds can be sent again: see `AddValue` and `SetResultValue`. */
  lemma LengthsReceived(m: Message, slack: seq<Byte>)
    requires Sendable(m) && Readable(m)
    ensures ParseMessage(Body(m) + slack).Received?
    ensures ReceivedLengths(Body(m) + slack) == if IsReply(m.flags) then [Size(m.response)] else Sizes(m.values)
  {
    var b := Body(m) + slack;
    MessageRebuilt(m, slack);
    LaidWithSlack(Header(m), Payload(m), slack, b);
    ReadHeader(m, b);
    if IsReply(m.flags) {
      ReplyLength(m, b);
    } else if IsCallback(m.flags) {
      CallbackLengths(m, b, 17 + |Payload(m)|);
    } else {
      ValueLengthsEncoded(m.values, b, 17, 17 + |Payload(m)|);
    }
  }

  lemma WroteAtStart(a: seq<Byte>, b: seq<Byte>, p: seq<Byte>, q: seq<Byte>, r: seq<Byte>, e: seq<Byte>)
    requires Wrote(a, b, 0, p + q + r + e)
    ensures p + (q + r + e) <= b
  {
    assert a[..0] == [];
    assert p + q + r + e == p + (q + r + e);
  }

  /** flags | FLAG_REPLY */
  function WithReply(flags: nat): (f: nat)
    ensures IsReply(f) && IsException(f) == IsException(flags) && IsCallback(f) == IsCallback(flags)
    ensures f / 8 == flags / 8
  {
    if IsReply(flags) then flags else flags + FLAG_REPLY
  }

  /** flags | FLAG_CALLBACK */
  function WithCallback(flags: nat): (f: nat)
    ensures IsCallback(f) && IsReply(f) == IsReply(flags) && IsException(f) == IsException(flags)
    ensures f / 8 == flags / 8
  {
    if IsCallback(flags) then flags else flags + FLAG_CALLBACK
  }
}
