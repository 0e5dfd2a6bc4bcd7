/** NymphRPC messages: their wire form, its announced length, and how a receiver reads it. */
module Messages {
  import opened Bytes
  import opened Values
  import opened Parser

  const SIGNATURE: nat := 0x4452_474e

  const FLAG_REPLY: nat := 1
  const FLAG_CALLBACK: nat := 4

  // The three flag bits, told by the last octal digit.
  predicate IsReply(flags: nat) { flags % 8 in {1, 3, 5, 7} }
  predicate IsException(flags: nat) { flags % 8 in {2, 3, 6, 7} }
  predicate IsCallback(flags: nat) { flags % 8 in {4, 5, 6, 7} }

  /** A message as its fields; `response` is Null when there is none. */
  datatype Message = Message(
    methodId: nat,
    flags: nat,
    messageId: nat,
    responseId: nat,
    callbackName: seq<Byte>,
    values: seq<Value>,
    response: Value)

  // ---- Writing --------------------------------------------------------------------

  function Header(m: Message): seq<Byte> {
    [0] + LE(m.methodId, 4) + LE(m.flags, 4) + LE(m.messageId, 8)
  }

  /** What stands between the header and the terminator, exception messages apart. */
  function Payload(m: Message): seq<Byte> {
    if IsReply(m.flags) then LE(m.responseId, 8) + Encode(m.response)
    else if IsCallback(m.flags) then EncodeString(m.callbackName) + EncodeAll(m.values)
    else EncodeAll(m.values)
  }

  function Body(m: Message): seq<Byte> {
    Header(m) + Payload(m) + [NONE]
  }

  /** The sum that adding values, or setting the result, leaves behind. */
  function ContentSize(m: Message): nat {
    if IsReply(m.flags) then Size(m.response) else SizeAll(m.values)
  }

  /** The length that serialize computes from such a sum. */
  function AnnouncedLength(m: Message, contentSize: nat): nat {
    18 + contentSize
    + (if IsReply(m.flags) then 8 else 0)
    + (if IsException(m.flags) then 8
       else if IsCallback(m.flags) then BinaryStringLength(|m.callbackName|) else 0)
  }

  function EmptyStringsIn(m: Message): nat {
    if IsReply(m.flags) then EmptyStrings(m.response)
    else EmptyStringsAll(m.values) + (if IsCallback(m.flags) then IsEmptyString(m.callbackName) else 0)
  }

  /**
   * Writing never runs past the announced length, and falls short of it by two octets for each
   * empty string (and, in a reply with a second flag, by what is counted for that flag but not sent).
   */
  lemma BodyLength(m: Message)
    requires IsReply(m.flags) || !IsException(m.flags)
    ensures AnnouncedLength(m, ContentSize(m)) == |Body(m)| + 2 * EmptyStringsIn(m)
      + (if !IsReply(m.flags) then 0
         else if IsException(m.flags) then 8
         else if IsCallback(m.flags) then BinaryStringLength(|m.callbackName|) else 0)
  {
    if IsReply(m.flags) {
      SizeLaw(m.response);
    } else {
      SizeLawAll(m.values);
      EncodeStringLength(m.callbackName);
    }
  }

  /** The terminator is the last announced octet exactly when no empty string is sent. */
  lemma TerminatorLast(m: Message)
    requires !IsException(m.flags) && !(IsReply(m.flags) && IsCallback(m.flags))
    ensures |Body(m)| == AnnouncedLength(m, ContentSize(m)) <==> EmptyStringsIn(m) == 0
  {
    BodyLength(m);
  }

  /** A message that starts an exchange gets the next ID; a reply keeps the one it has. */
  function Numbered(m: Message, id: nat): Message {
    if IsReply(m.flags) then m else m.(messageId := id)
  }

  /** What stands before the body on the wire. */
  function Prefix(length: nat): seq<Byte> {
    LE(SIGNATURE, 4) + LE(length, 4)
  }

  // ---- Reading --------------------------------------------------------------------

  /** `Overrun`: an octet past the end would be read, which the source does not guard.
      `ExceptionReceived`: an exception message; its body is not modelled. */
  datatype Reception =
    | Overrun
    | ExceptionReceived
    | Received(m: Message, corrupt: bool, state: int)

  datatype ValuesParse = ValuesOverrun | ValuesRead(vs: seq<Value>, corrupt: bool)

  /** The loop that reads values up to a terminator or the end of the message. */
  function ParseValues(b: seq<Byte>, i: nat, acc: seq<Value>): ValuesParse
    requires i <= |b|
    decreases |b| - i
  {
    if i >= |b| || b[i] == NONE then ValuesRead(acc, false)
    else
      match ParseTagged(b, i)
      case OutOfBounds => ValuesOverrun
      case Parsed(_, v, j) => if j >= |b| then ValuesRead(acc + [v], true) else ParseValues(b, j, acc + [v])
  }

  /** The parsing constructor, on the octets that follow the signature and the length. */
  function ParseMessage(b: seq<Byte>): Reception {
    if |b| < 5 then Overrun
    else
      var m := Message(FromLE(b[1..5]), 0, 0, 0, [], [], Null);
      if b[0] != 0 then Received(m, true, -1)
      else if |b| < 17 then Overrun
      else
        var m := m.(flags := FromLE(b[5..9]), messageId := FromLE(b[9..17]));
        if IsReply(m.flags) then ParseReply(b, m)
        else if IsException(m.flags) then ExceptionReceived
        else if IsCallback(m.flags) then ParseCallback(b, m)
        else if |b| <= 17 then Received(m, true, 0)
        else WithValues(m, ParseValues(b, 17, []))
  }

  function ParseReply(b: seq<Byte>, m: Message): Reception
    requires 17 <= |b|
  {
    if |b| < 25 then Overrun
    else
      match ParseTagged(b, 25)
      case OutOfBounds => Overrun
      case Parsed(_, v, j) =>
        Received(m.(responseId := FromLE(b[17..25]), response := v), j >= |b| || b[j] != NONE, 0)
  }

  function ParseCallback(b: seq<Byte>, m: Message): Reception
    requires 17 <= |b|
  {
    match ParseTagged(b, 17)
    case OutOfBounds => Overrun
    case Parsed(_, v, j) =>
      WithValues(m.(callbackName := if v.Str? then v.chars else []), ParseValues(b, j, []))
  }

  function WithValues(m: Message, p: ValuesParse): Reception {
    match p
    case ValuesOverrun => Overrun
    case ValuesRead(vs, corrupt) => Received(m.(values := vs), corrupt, 0)
  }

  // ---- Round trip -----------------------------------------------------------------

  /** Messages whose fields fit the wire; exception messages have no agreed layout. */
  predicate Sendable(m: Message) {
    && m.methodId < Pow256(4) && m.flags < Pow256(4) && m.messageId < Pow256(8) && m.responseId < Pow256(8)
    && (IsReply(m.flags) || !IsException(m.flags))
    && (IsReply(m.flags) ==> InRange(m.response))
    && (!IsReply(m.flags) ==> AllInRange(m.values))
    && StringFits(m.callbackName)
  }

  /** No empty struct key in what is sent. */
  predicate Readable(m: Message) {
    if IsReply(m.flags) then NoEmptyKeys(m.response) else NoEmptyKeysAll(m.values)
  }

  ghost predicate InOrder(m: Message) {
    if IsReply(m.flags) then KeysInOrder(m.response) else KeysInOrderAll(m.values)
  }

  /** The part of a message that its type of message carries. */
  function Carried(m: Message): Message {
    if IsReply(m.flags) then m.(callbackName := [], values := [])
    else m.(responseId := 0, response := Null, callbackName := if IsCallback(m.flags) then m.callbackName else [])
  }

  function Normalised(m: Message): Message {
    m.(values := NormaliseAll(m.values), response := Normalise(m.response))
  }

  /** One turn of the value loop. */
  lemma OneValue(b: seq<Byte>, i: nat, acc: seq<Value>, us: seq<Value>, ok: bool, v: Value, j: nat)
    requires i < |b| && b[i] != NONE && ParseTagged(b, i) == Parsed(ok, v, j) && us == acc + [v]
    ensures ParseValues(b, i, acc) == if j >= |b| then ValuesRead(us, true) else ParseValues(b, j, us)
  {
  }

  lemma ParseEncodedFirst(v: Value, rest: seq<Byte>, b: seq<Byte>, i: nat, acc: seq<Value>) returns (j: nat)
    requires InRange(v) && NoEmptyKeys(v) && At(b, i, Encode(v) + rest)
    ensures j == i + |Encode(v)| && At(b, j, rest)
    ensures ParseValues(b, i, acc) ==
      if j >= |b| then ValuesRead(acc + [Normalise(v)], true) else ParseValues(b, j, acc + [Normalise(v)])
  {
    j := i + |Encode(v)|;
    AtConcat(b, i, Encode(v), rest);
    FirstOctet(v);
    AtFirst(b, i, Encode(v));
    ParseEncoded(v, b, i);
    OneValue(b, i, acc, acc + [Normalise(v)], true, Normalise(v), j);
  }

  lemma {:induction false} ParseEncodedValues(vs: seq<Value>, b: seq<Byte>, i: nat, end: nat, acc: seq<Value>)
    requires AllInRange(vs) && NoEmptyKeysAll(vs) && At(b, i, EncodeAll(vs)) && end == i + |EncodeAll(vs)|
    requires end < |b| ==> b[end] == NONE
    ensures ParseValues(b, i, acc) == ValuesRead(acc + NormaliseAll(vs), end == |b| && vs != [])
    decreases |vs|
  {
    if vs == [] {
      assert acc + [] == acc;
    } else {
      var rest, more := vs[1..], acc + [Normalise(vs[0])];
      var j := ParseEncodedFirst(vs[0], EncodeAll(rest), b, i, acc);
      NormaliseFirst(vs, acc);
      if j < |b| {
        ParseEncodedValues(rest, b, j, end, more);
      } else {
        NothingEncoded(rest);
      }
    }
  }

  lemma NormaliseFirst(vs: seq<Value>, acc: seq<Value>)
    requires vs != []
    ensures acc + [Normalise(vs[0])] + NormaliseAll(vs[1..]) == acc + NormaliseAll(vs)
  {
  }

  lemma NothingEncoded(vs: seq<Value>)
    requires AllInRange(vs) && |EncodeAll(vs)| == 0
    ensures vs == []
  {
    if vs != [] { FirstOctet(vs[0]); }
  }

  lemma ReadHeader(m: Message, b: seq<Byte>)
    requires Sendable(m) && At(b, 0, Header(m))
    ensures 17 <= |b| && b[0] == 0 && FromLE(b[1..5]) == m.methodId
    ensures FromLE(b[5..9]) == m.flags && FromLE(b[9..17]) == m.messageId
  {
    AtConcat3(b, 0, [0] + LE(m.methodId, 4), LE(m.flags, 4), LE(m.messageId, 8));
    AtConcat(b, 0, [0], LE(m.methodId, 4));
    AtFirst(b, 0, [0]);
    ReadInteger(m.methodId, 4, b, 1);
    ReadInteger(m.flags, 4, b, 5);
    ReadInteger(m.messageId, 8, b, 9);
  }

  /** How the octets of a message, with or without its terminator, lie in a buffer. */
  ghost predicate Laid(m: Message, b: seq<Byte>, end: nat) {
    At(b, 0, Header(m)) && At(b, 17, Payload(m)) && end == 17 + |Payload(m)| && (end < |b| ==> b[end] == NONE)
  }

  lemma ReadReply(m: Message, b: seq<Byte>, end: nat, h: Message)
    requires Sendable(m) && Readable(m) && IsReply(m.flags) && Laid(m, b, end) && 17 <= |b|
    ensures ParseReply(b, h) ==
      Received(h.(responseId := m.responseId, response := Normalise(m.response)), end == |b|, 0)
  {
    AtConcat(b, 17, LE(m.responseId, 8), Encode(m.response));
    ReadInteger(m.responseId, 8, b, 17);
    ParseEncoded(m.response, b, 25);
  }

  lemma ReadCallback(m: Message, b: seq<Byte>, end: nat, h: Message)
    requires Sendable(m) && Readable(m) && !IsReply(m.flags) && IsCallback(m.flags) && Laid(m, b, end) && 17 <= |b|
    ensures ParseCallback(b, h) == Received(h.(callbackName := m.callbackName, values := NormaliseAll(m.values)),
      end == |b| && m.values != [], 0)
  {
    AtConcat(b, 17, EncodeString(m.callbackName), EncodeAll(m.values));
    ParseEncodedString(m.callbackName, b, 17);
    var j := 17 + |EncodeString(m.callbackName)|;
    NamedCallback(b, h, m.callbackName, j);
    ParseEncodedValues(m.values, b, j, end, []);
    assert [] + NormaliseAll(m.values) == NormaliseAll(m.values);
  }

  lemma NamedCallback(b: seq<Byte>, h: Message, name: seq<Byte>, j: nat)
    requires 17 <= j <= |b| && ParseTagged(b, 17) == Parsed(true, Str(name), j)
    ensures ParseCallback(b, h) == WithValues(h.(callbackName := name), ParseValues(b, j, []))
  {
  }

  lemma ReadRegular(m: Message, b: seq<Byte>, end: nat)
    requires Sendable(m) && Readable(m) && !IsReply(m.flags) && !IsCallback(m.flags) && Laid(m, b, end) && 17 <= |b|
    ensures ParseValues(b, 17, []) == ValuesRead(NormaliseAll(m.values), end == |b| && m.values != [])
  {
    ParseEncodedValues(m.values, b, 17, end, []);
    assert [] + NormaliseAll(m.values) == NormaliseAll(m.values);
  }

  lemma ReadLaid(m: Message, b: seq<Byte>, end: nat)
    requires Sendable(m) && Readable(m) && Laid(m, b, end)
    ensures ParseMessage(b) == Received(Normalised(Carried(m)),
      end == |b| && !(IsCallback(m.flags) && !IsReply(m.flags) && m.values == []), 0)
  {
    ReadHeader(m, b);
    var h := Message(m.methodId, m.flags, m.messageId, 0, [], [], Null);
    if IsReply(m.flags) {
      ReadReply(m, b, end, h);
    } else if IsCallback(m.flags) {
      ReadCallback(m, b, end, h);
    } else {
      ReadRegular(m, b, end);
    }
  }

  lemma LaidThen(head: seq<Byte>, payload: seq<Byte>, x: Byte, slack: seq<Byte>, b: seq<Byte>)
    requires b == head + payload + [x] + slack
    ensures At(b, 0, head) && At(b, |head|, payload)
    ensures |head| + |payload| < |b| && b[|head| + |payload|] == x
  {
    AtWhole(b);
    AtConcat3(b, 0, head + payload, [x], slack);
    AtConcat(b, 0, head, payload);
    AtFirst(b, |head + payload|, [x]);
  }

  lemma LaidWithSlack(head: seq<Byte>, payload: seq<Byte>, slack: seq<Byte>, b: seq<Byte>)
    requires b == head + payload + [NONE] + slack
    ensures At(b, 0, head) && At(b, |head|, payload)
    ensures |head| + |payload| < |b| && b[|head| + |payload|] == NONE
  {
    LaidThen(head, payload, NONE, slack, b);
  }

  lemma CarriedInOrder(m: Message)
    requires InOrder(m)
    ensures Normalised(Carried(m)) == Carried(m)
  {
    if IsReply(m.flags) { NormaliseInOrder(m.response); } else { NormaliseAllInOrder(m.values); }
  }

  /** Whatever stands behind the terminator, the receiver recovers the IDs, the flags and the content, as
      its maps rebuild it, and never takes the message for a corrupt one. */
  lemma MessageRebuilt(m: Message, slack: seq<Byte>)
    requires Sendable(m) && Readable(m)
    ensures ParseMessage(Body(m) + slack) == Received(Normalised(Carried(m)), false, 0)
  {
    var b := Body(m) + slack;
    LaidWithSlack(Header(m), Payload(m), slack, b);
    ReadLaid(m, b, 17 + |Payload(m)|);
  }

  lemma {:induction false} ValuesExtend(b: seq<Byte>, i: nat, acc: seq<Value>)
    requires i <= |b| && ParseValues(b, i, acc).ValuesRead?
    ensures acc <= ParseValues(b, i, acc).vs
    decreases |b| - i
  {
    if i == |b| || b[i] == NONE {
    } else {
      var t := ParseTagged(b, i);
      if t.next < |b| { ValuesExtend(b, t.next, acc + [t.v]); }
    }
  }

  /** Every struct that the receiver finds in a message, from any octets, is in map order. */
  lemma {:induction false} ValuesInOrder(b: seq<Byte>, i: nat, acc: seq<Value>)
    requires i <= |b| && ParseValues(b, i, acc).ValuesRead? && KeysInOrderAll(acc)
    ensures KeysInOrderAll(ParseValues(b, i, acc).vs)
    decreases |b| - i
  {
    if i == |b| || b[i] == NONE {
    } else {
      var t := ParseTagged(b, i);
      ParsedInOrder(b, i);
      KeysInOrderAppend(acc, t.v);
      if t.next < |b| { ValuesInOrder(b, t.next, acc + [t.v]); }
    }
  }

  /** A value that is read wrong stays wrong. */
  lemma WrongValueStays(vs: seq<Value>, b: seq<Byte>, i: nat, acc: seq<Value>)
    requires vs != [] && i < |b| && b[i] != NONE && (ParseTagged(b, i).Parsed? ==> ParseTagged(b, i).v != vs[0])
    ensures var r := ParseValues(b, i, acc); r.ValuesRead? ==> r.vs != acc + vs
  {
    var t, r := ParseTagged(b, i), ParseValues(b, i, acc);
    if r.ValuesRead? {
      if t.next < |b| { ValuesExtend(b, t.next, acc + [t.v]); }
      assert r.vs[|acc|] == (acc + [t.v])[|acc|] == t.v;
      assert (acc + vs)[|acc|] == vs[0];
    }
  }

  /** Values with an empty struct key somewhere are not read back. */
  lemma {:induction false} ValuesLost(vs: seq<Value>, b: seq<Byte>, i: nat, acc: seq<Value>)
    requires AllInRange(vs) && KeysInOrderAll(vs) && !NoEmptyKeysAll(vs) && At(b, i, EncodeAll(vs))
    ensures i <= |b|
    ensures var r := ParseValues(b, i, acc); r.ValuesRead? ==> r.vs != acc + vs
    decreases |vs|
  {
    AtConcat(b, i, Encode(vs[0]), EncodeAll(vs[1..]));
    if NoEmptyKeys(vs[0]) {
      var j := ParseEncodedFirst(vs[0], EncodeAll(vs[1..]), b, i, acc);
      NormaliseInOrder(vs[0]);
      assert acc + [vs[0]] + vs[1..] == acc + vs;
      if j < |b| { ValuesLost(vs[1..], b, j, acc + [vs[0]]); }
    } else {
      StartsWithTypecode(vs[0]);
      AtFirst(b, i, Encode(vs[0]));
      EmptyKeyLost(vs[0], b, i);
      WrongValueStays(vs, b, i, acc);
    }
  }

  /** If the values of a message are read back as they were sent, they are readable and in order. */
  lemma ValuesBack(vs: seq<Value>, b: seq<Byte>, i: nat)
    requires AllInRange(vs) && At(b, i, EncodeAll(vs)) && i <= |b|
    requires ParseValues(b, i, []).ValuesRead? && ParseValues(b, i, []).vs == vs
    ensures NoEmptyKeysAll(vs) && KeysInOrderAll(vs)
  {
    ValuesInOrder(b, i, []);
    assert [] + vs == vs;
    if !NoEmptyKeysAll(vs) { ValuesLost(vs, b, i, []); }
  }

  lemma ReplyBack(m: Message, b: seq<Byte>, h: Message)
    requires Sendable(m) && IsReply(m.flags) && 17 <= |b| && At(b, 17, Payload(m))
    requires ParseReply(b, h).Received? && ParseReply(b, h).m.response == m.response
    ensures Readable(m) && InOrder(m)
  {
    AtConcat(b, 17, LE(m.responseId, 8), Encode(m.response));
    ParsedInOrder(b, 25);
    if !NoEmptyKeys(m.response) { EmptyKeyLost(m.response, b, 25); }
  }

  lemma CallbackBack(m: Message, b: seq<Byte>, h: Message)
    requires Sendable(m) && !IsReply(m.flags) && IsCallback(m.flags) && 17 <= |b| && At(b, 17, Payload(m))
    requires ParseCallback(b, h).Received? && ParseCallback(b, h).m.values == m.values
    ensures Readable(m) && InOrder(m)
  {
    AtConcat(b, 17, EncodeString(m.callbackName), EncodeAll(m.values));
    ParseEncodedString(m.callbackName, b, 17);
    var j := 17 + |EncodeString(m.callbackName)|;
    NamedCallback(b, h, m.callbackName, j);
    ValuesBack(m.values, b, j);
  }

  lemma RegularBack(m: Message, b: seq<Byte>, h: Message)
    requires Sendable(m) && !IsReply(m.flags) && !IsCallback(m.flags) && 17 <= |b| && At(b, 17, Payload(m))
    requires var r := WithValues(h, ParseValues(b, 17, [])); r.Received? && r.m.values == m.values
    ensures Readable(m) && InOrder(m)
  {
    ValuesBack(m.values, b, 17);
  }

  /**
   * Message round trip. Whatever stands behind the terminator, the receiver recovers the very IDs,
   * flags and content, and does not take the message for a corrupt one, if and only if no struct in it
   * has an empty key and all list their keys in map order.
   */
  lemma MessageRoundTrip(m: Message, slack: seq<Byte>)
    requires Sendable(m)
    ensures ParseMessage(Body(m) + slack) == Received(Carried(m), false, 0) <==> Readable(m) && InOrder(m)
  {
    var b := Body(m) + slack;
    if Readable(m) {
      MessageRebuilt(m, slack);
      if InOrder(m) { CarriedInOrder(m); }
    }
    if ParseMessage(b) == Received(Carried(m), false, 0) {
      LaidWithSlack(Header(m), Payload(m), slack, b);
      ReadHeader(m, b);
      var h := Message(m.methodId, m.flags, m.messageId, 0, [], [], Null);
      if IsReply(m.flags) {
        ReplyBack(m, b, h);
      } else if IsCallback(m.flags) {
        CallbackBack(m, b, h);
      } else if |b| > 17 {
        RegularBack(m, b, h);
      }
    }
  }

  /** A message cut off before its terminator is marked corrupt, unless it is a callback without values. */
  lemma TruncationNoticed(m: Message)
    requires Sendable(m) && Readable(m)
    ensures var r := ParseMessage(Header(m) + Payload(m));
      r.Received? && (r.corrupt <==> IsReply(m.flags) || !IsCallback(m.flags) || m.values != [])
  {
    var b := Header(m) + Payload(m);
    AtConcat(b, 0, Header(m), Payload(m));
    ReadLaid(m, b, |b|);
  }

  /** Whatever octets arrive, a message that is not a reply replies to no message ID. */
  lemma NonReplyMatchesNothing(b: seq<Byte>)
    ensures var r := ParseMessage(b); r.Received? && r.state == 0 && !IsReply(r.m.flags) ==> r.m.responseId == 0
  {
  }

  lemma EmptyKeyOctets(b: seq<Byte>, i: nat)
    requires i + 4 < |b| && b[i] == STRUCT && b[i + 1] == EMPTY_STRING && b[i + 2] == BOOLEAN_TRUE && b[i + 3] == NONE
    ensures ParseValues(b, i, []) == ValuesRead([Null, Str([]), Bool(true)], false)
  {
    assert ParsePair(b, i + 1) == BadPair(i + 1);
    assert ParseTagged(b, i) == ParseValue(b[i], b, i + 1) == ParseStruct(b, i + 1);
    OneValue(b, i, [], [Null], false, Null, i + 1);
    OneValue(b, i + 1, [Null], [Null, Str([])], true, Str([]), i + 2);
    OneValue(b, i + 2, [Null, Str([])], [Null, Str([]), Bool(true)], true, Bool(true), i + 3);
  }

  lemma RegularParsed(m: Message, b: seq<Byte>, vs: seq<Value>)
    requires Sendable(m) && !IsReply(m.flags) && !IsCallback(m.flags) && At(b, 0, Header(m)) && 17 < |b|
    requires ParseValues(b, 17, []) == ValuesRead(vs, false)
    ensures ParseMessage(b) == Received(Message(m.methodId, m.flags, m.messageId, 0, [], vs, Null), false, 0)
  {
    ReadHeader(m, b);
  }

  lemma EmptyKeyBody(m: Message, y: seq<Byte>, b: seq<Byte>)
    requires Sendable(m) && !IsReply(m.flags) && !IsCallback(m.flags) && b == Header(m) + y + [NONE]
    requires y == [STRUCT, EMPTY_STRING, BOOLEAN_TRUE, NONE]
    ensures ParseMessage(b)
      == Received(Message(m.methodId, m.flags, m.messageId, 0, [], [Null, Str([]), Bool(true)], Null), false, 0)
  {
    assert b + [] == b;
    LaidWithSlack(Header(m), y, [], b);
    EmptyKeyOctets(b, 17);
    RegularParsed(m, b, [Null, Str([]), Bool(true)]);
  }

  lemma EmptyKeyPayload(f: Field)
    requires f.key == [] && f.val == Bool(true)
    ensures EncodeAll([Struct([f])]) == [STRUCT, EMPTY_STRING, BOOLEAN_TRUE, NONE]
  {
    EncodeOneField(f);
    assert EncodeAll([Struct([f])]) == Encode(Struct([f])) + EncodeAll([]);
  }

  /** A reply whose last octet is not the terminator is marked corrupt. */
  lemma WrongReplyTerminator(m: Message, x: Byte, slack: seq<Byte>)
    requires Sendable(m) && Readable(m) && IsReply(m.flags) && x != NONE
    ensures ParseMessage(Header(m) + Payload(m) + [x] + slack) == Received(Normalised(Carried(m)), true, 0)
  {
    var b := Header(m) + Payload(m) + [x] + slack;
    LaidThen(Header(m), Payload(m), x, slack, b);
    ReadHeader(m, b);
    WrongEnd(m, b, Message(m.methodId, m.flags, m.messageId, 0, [], [], Null));
  }

  lemma WrongEnd(m: Message, b: seq<Byte>, h: Message)
    requires Sendable(m) && Readable(m) && IsReply(m.flags) && 17 + |Payload(m)| < |b| && At(b, 17, Payload(m))
    requires b[17 + |Payload(m)|] != NONE
    ensures ParseReply(b, h) == Received(h.(responseId := m.responseId, response := Normalise(m.response)), true, 0)
  {
    AtConcat(b, 17, LE(m.responseId, 8), Encode(m.response));
    ReadInteger(m.responseId, 8, b, 17);
    ParseEncoded(m.response, b, 25);
  }

  /** What the receiver takes a call for whose one value is a struct with one empty key: for a call with three
      values, and it does not notice. */
  lemma EmptyKeyCallMistaken(m: Message, f: Field)
    requires Sendable(m) && !IsReply(m.flags) && !IsCallback(m.flags)
    requires m.values == [Struct([f])] && f.key == [] && f.val == Bool(true)
    ensures ParseMessage(Body(m))
      == Received(Message(m.methodId, m.flags, m.messageId, 0, [], [Null, Str([]), Bool(true)], Null), false, 0)
  {
    EmptyKeyPayload(f);
    EmptyKeyBody(m, Payload(m), Body(m));
  }
}
