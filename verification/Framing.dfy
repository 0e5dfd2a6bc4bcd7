/** Framing: how both sides cut the octets of a connection back into message bodies. */
module Framing {
  import opened Bytes
  import opened Messages

  /** What is still to arrive, in the portions in which it will. */
  type Chunks = seq<seq<Byte>>

  ghost predicate NonEmpty(chunks: Chunks) { forall c :: c in chunks ==> c != [] }

  function Flatten(chunks: Chunks): seq<Byte> {
    if chunks == [] then [] else chunks[0] + Flatten(chunks[1..])
  }

  datatype Portion = Portion(data: seq<Byte>, rest: Chunks)

  /** receiveBytes: at most `n` octets of the next portion; none if the peer has disconnected. */
  function Receive(chunks: Chunks, n: nat): (r: Portion)
    ensures |r.data| <= n
  {
    if chunks == [] || n == 0 then Portion([], chunks)
    else if |chunks[0]| <= n then Portion(chunks[0], chunks[1..])
    else Portion(chunks[0][..n], [chunks[0][n..]] + chunks[1..])
  }

  lemma ReceiveKeeps(chunks: Chunks, n: nat)
    requires NonEmpty(chunks)
    ensures var r := Receive(chunks, n);
      && NonEmpty(r.rest) && r.data + Flatten(r.rest) == Flatten(chunks)
      && |r.data| <= n && |Flatten(r.rest)| == |Flatten(chunks)| - |r.data|
      && (r.data == [] <==> chunks == [] || n == 0)
  {
    var r := Receive(chunks, n);
    if chunks != [] && n != 0 {
      assert chunks[0] in chunks;
      if |chunks[0]| <= n {
        assert forall c :: c in r.rest ==> c in chunks;
      } else {
        assert r.rest[1..] == chunks[1..];
        assert chunks[0] == chunks[0][..n] + chunks[0][n..];
        assert forall c :: c in r.rest ==> c == chunks[0][n..] || c in chunks;
        assert chunks[0][..n] + (chunks[0][n..] + Flatten(chunks[1..])) == Flatten(chunks);
      }
    }
  }

  /** The outcome of reading a body: the buffer was filled, or the peer left before. */
  datatype BodyRead = Cut | Whole(body: seq<Byte>, rest: Chunks)

  /** The loop that collects a body. */
  function ReadBody(chunks: Chunks, unread: nat): BodyRead
    decreases unread
  {
    if unread == 0 then Whole([], chunks)
    else
      var r := Receive(chunks, unread);
      if r.data == [] then Cut else Behind(r.data, ReadBody(r.rest, unread - |r.data|))
  }

  function Behind(data: seq<Byte>, b: BodyRead): BodyRead {
    if b.Cut? then Cut else Whole(data + b.body, b.rest)
  }

  /** The outcome of a whole connection: the bodies handed on, how many octets were dropped because
      of short or bad headers, and whether the connection ended within a body. */
  datatype Outcome = Outcome(bodies: seq<seq<Byte>>, dropped: nat, cut: bool)

  function Then(bodies: seq<seq<Byte>>, dropped: nat, o: Outcome): Outcome {
    Outcome(bodies + o.bodies, dropped + o.dropped, o.cut)
  }

  ghost function Frames(chunks: Chunks): Outcome
    requires NonEmpty(chunks)
    decreases |Flatten(chunks)|
  {
    ReceiveKeeps(chunks, 8);
    var r := Receive(chunks, 8);
    if |r.data| == 0 then Outcome([], 0, false)
    else if |r.data| < 8 || FromLE(r.data[..4]) != SIGNATURE then Then([], |r.data|, Frames(r.rest))
    else
      ReadBodyKeeps(r.rest, FromLE(r.data[4..]));
      match ReadBody(r.rest, FromLE(r.data[4..]))
      case Cut => Outcome([], 0, true)
      case Whole(body, rest) => Then([body], 0, Frames(rest))
  }

  lemma {:induction false} ReadBodyKeeps(chunks: Chunks, n: nat)
    requires NonEmpty(chunks)
    ensures ReadBody(chunks, n).Whole? <==> n <= |Flatten(chunks)|
    ensures var b := ReadBody(chunks, n); b.Whole? ==>
      && NonEmpty(b.rest) && |b.body| == n && b.body + Flatten(b.rest) == Flatten(chunks)
    decreases n
  {
    if n == 0 {
    } else {
      ReceiveKeeps(chunks, n);
      var r := Receive(chunks, n);
      if r.data != [] {
        ReadBodyKeeps(r.rest, n - |r.data|);
        var b := ReadBody(r.rest, n - |r.data|);
        if b.Whole? {
          assert r.data + (b.body + Flatten(b.rest)) == (r.data + b.body) + Flatten(b.rest);
        }
      }
    }
  }

  /** No octet is lost without being counted, as long as the connection does not end in a body. */
  lemma {:induction false} Conservation(chunks: Chunks)
    requires NonEmpty(chunks)
    ensures var o := Frames(chunks);
      !o.cut ==> |Flatten(chunks)| == |Wire(o.bodies)| + o.dropped
    decreases |Flatten(chunks)|
  {
    ReceiveKeeps(chunks, 8);
    var r := Receive(chunks, 8);
    if |r.data| == 0 {
    } else if |r.data| < 8 || FromLE(r.data[..4]) != SIGNATURE {
      Conservation(r.rest);
      assert [] + Frames(r.rest).bodies == Frames(r.rest).bodies;
    } else {
      ReadBodyKeeps(r.rest, FromLE(r.data[4..]));
      var b := ReadBody(r.rest, FromLE(r.data[4..]));
      if b.Whole? {
        Conservation(b.rest);
        WireFirst(b.body, Frames(b.rest).bodies);
      }
    }
  }

  // ---- What the sender puts on the wire -------------------------------------------

  function Frame(body: seq<Byte>): seq<Byte> { Prefix(|body|) + body }

  function Wire(bodies: seq<seq<Byte>>): seq<Byte> {
    if bodies == [] then [] else Frame(bodies[0]) + Wire(bodies[1..])
  }

  lemma WireFirst(body: seq<Byte>, bodies: seq<seq<Byte>>)
    ensures Wire([body] + bodies) == Frame(body) + Wire(bodies)
    ensures |Frame(body)| == 8 + |body|
  {
    assert ([body] + bodies)[1..] == bodies;
  }

  /** The portion that holds the octet at `at` holds the seven octets after it as well. */
  predicate HeaderWhole(chunks: Chunks, at: nat) {
    chunks != [] &&
    if at < |chunks[0]| then at + 8 <= |chunks[0]| else HeaderWhole(chunks[1..], at - |chunks[0]|)
  }

  /** This is so for the first octet of each message, if the first message starts at `at`. */
  predicate HeadersWhole(chunks: Chunks, bodies: seq<seq<Byte>>, at: nat) {
    bodies == [] || (HeaderWhole(chunks, at) && HeadersWhole(chunks, bodies[1..], at + 8 + |bodies[0]|))
  }

  ghost predicate Framable(bodies: seq<seq<Byte>>) {
    forall b :: b in bodies ==> |b| < 0x8000_0000
  }

  lemma PrefixRead(n: nat)
    requires n < Pow256(4)
    ensures |Prefix(n)| == 8 && FromLE(Prefix(n)[..4]) == SIGNATURE && FromLE(Prefix(n)[4..]) == n
  {
    LERoundTrip(SIGNATURE, 4);
    LERoundTrip(n, 4);
    assert Prefix(n)[..4] == LE(SIGNATURE, 4) && Prefix(n)[4..] == LE(n, 4);
  }

  /** Whether a header is whole is not changed by what is received before it. */
  lemma {:induction false} ReceiveHeaders(chunks: Chunks, n: nat, at: nat)
    requires NonEmpty(chunks) && |Receive(chunks, n).data| <= at
    ensures HeaderWhole(Receive(chunks, n).rest, at - |Receive(chunks, n).data|) <==> HeaderWhole(chunks, at)
  {
    if chunks != [] && n != 0 && n < |chunks[0]| {
      assert Receive(chunks, n).rest[1..] == chunks[1..];
    }
  }

  lemma {:induction false} BodyHeaders(chunks: Chunks, n: nat, at: nat)
    requires NonEmpty(chunks) && ReadBody(chunks, n).Whole? && n <= at
    ensures HeaderWhole(ReadBody(chunks, n).rest, at - n) <==> HeaderWhole(chunks, at)
    decreases n
  {
    if n == 0 {
    } else {
      ReceiveKeeps(chunks, n);
      var r := Receive(chunks, n);
      ReceiveHeaders(chunks, n, at);
      BodyHeaders(r.rest, n - |r.data|, at - |r.data|);
    }
  }

  /** A whole header and a body that follows it. */
  lemma FirstFrame(chunks: Chunks, body: seq<Byte>, more: seq<Byte>) returns (rest: Chunks)
    requires NonEmpty(chunks) && Flatten(chunks) == Frame(body) + more && |body| < 0x8000_0000
    requires HeaderWhole(chunks, 0)
    ensures NonEmpty(rest) && Flatten(rest) == more && Frames(chunks) == Then([body], 0, Frames(rest))
    ensures forall at: nat :: HeaderWhole(rest, at) <==> HeaderWhole(chunks, at + 8 + |body|)
  {
    PrefixRead(|body|);
    ReceiveKeeps(chunks, 8);
    assert chunks[0] in chunks;
    var r := Receive(chunks, 8);
    assert Prefix(|body|) + (body + more) == Frame(body) + more;
    SplitSame(r.data, Prefix(|body|), Flatten(r.rest), body + more);
    ReadBodyKeeps(r.rest, |body|);
    var b := ReadBody(r.rest, |body|);
    SplitSame(b.body, body, Flatten(b.rest), more);
    rest := b.rest;
    forall at: nat ensures HeaderWhole(rest, at) <==> HeaderWhole(chunks, at + 8 + |body|) {
      ReceiveHeaders(chunks, 8, at + 8 + |body|);
      BodyHeaders(r.rest, |body|, at + |body|);
    }
  }

  lemma {:induction false} HeadersShift(chunks: Chunks, rest: Chunks, bodies: seq<seq<Byte>>, at: nat, d: nat)
    requires forall k: nat :: HeaderWhole(rest, k) <==> HeaderWhole(chunks, k + d)
    ensures HeadersWhole(rest, bodies, at) <==> HeadersWhole(chunks, bodies, at + d)
    decreases |bodies|
  {
    if bodies == [] {
    } else {
      HeadersShift(chunks, rest, bodies[1..], at + 8 + |bodies[0]|, d);
    }
  }

  lemma NothingSent(chunks: Chunks)
    requires NonEmpty(chunks) && Flatten(chunks) == []
    ensures Frames(chunks) == Outcome([], 0, false)
  {
    ReceiveKeeps(chunks, 8);
  }

  lemma FramesTurn(chunks: Chunks, rest: Chunks, bodies: seq<seq<Byte>>)
    requires NonEmpty(chunks) && NonEmpty(rest) && bodies != [] && HeaderWhole(chunks, 0)
    requires Frames(chunks) == Then([bodies[0]], 0, Frames(rest))
    requires forall at: nat :: HeaderWhole(rest, at) <==> HeaderWhole(chunks, at + 8 + |bodies[0]|)
    ensures HeadersWhole(chunks, bodies, 0) <==> HeadersWhole(rest, bodies[1..], 0)
    ensures Frames(chunks).bodies == bodies <==> Frames(rest).bodies == bodies[1..]
    ensures Frames(chunks).cut == Frames(rest).cut && Frames(chunks).dropped == Frames(rest).dropped
  {
    HeadersShift(chunks, rest, bodies[1..], 0, 8 + |bodies[0]|);
    assert ([bodies[0]] + Frames(rest).bodies)[1..] == Frames(rest).bodies;
    assert [bodies[0]] + bodies[1..] == bodies;
  }

  lemma ShortHeader(chunks: Chunks, bodies: seq<seq<Byte>>)
    requires NonEmpty(chunks) && Flatten(chunks) == Wire(bodies) && bodies != [] && !HeaderWhole(chunks, 0)
    ensures Frames(chunks).cut || Frames(chunks).bodies != bodies
  {
    ReceiveKeeps(chunks, 8);
    WireFirst(bodies[0], bodies[1..]);
    assert [bodies[0]] + bodies[1..] == bodies;
    assert chunks[0] in chunks;
    Conservation(chunks);
  }

  /**
   * The bodies of any messages sent are recovered, in order, if and only if the eight octets ahead
   * of each of them arrive in one portion; into what portions the bodies are split does not matter.
   */
  lemma {:induction false} FramesIff(chunks: Chunks, bodies: seq<seq<Byte>>)
    requires NonEmpty(chunks) && Framable(bodies) && Flatten(chunks) == Wire(bodies)
    ensures HeadersWhole(chunks, bodies, 0) <==> !Frames(chunks).cut && Frames(chunks).bodies == bodies
    ensures HeadersWhole(chunks, bodies, 0) ==> Frames(chunks).dropped == 0
    decreases |bodies|
  {
    if bodies == [] {
      NothingSent(chunks);
    } else if HeaderWhole(chunks, 0) {
      var rest := FirstFrame(chunks, bodies[0], Wire(bodies[1..]));
      FramesIff(rest, bodies[1..]);
      FramesTurn(chunks, rest, bodies);
    } else {
      ShortHeader(chunks, bodies);
    }
  }

  // ---- What is handed on ----------------------------------------------------------

  /** At `at` stands the signature and the length of `body`, in one portion, and `body` follows. */
  ghost predicate FramedAt(chunks: Chunks, body: seq<Byte>, at: nat) {
    HeaderWhole(chunks, at) && At(Flatten(chunks), at, Frame(body))
  }

  /** All these bodies stand so in what arrives, one behind the other, from `from` on. */
  ghost predicate AllFramed(chunks: Chunks, bodies: seq<seq<Byte>>, from: nat)
    decreases |bodies|
  {
    bodies == [] ||
    exists at: nat ::
      from <= at && FramedAt(chunks, bodies[0], at) && AllFramed(chunks, bodies[1..], at + 8 + |bodies[0]|)
  }

  lemma AtBehind(before: seq<Byte>, r: seq<Byte>, at: nat, e: seq<Byte>)
    requires At(r, at, e)
    ensures At(before + r, at + |before|, e)
  {
    forall k | 0 <= k < |e| ensures (before + r)[at + |before| + k] == e[k] { assert r[at + k] == e[k]; }
  }

  lemma {:induction false} AllFramedBehind(chunks: Chunks, before: seq<Byte>, rest: Chunks, bodies: seq<seq<Byte>>,
                                           from: nat, low: nat)
    requires Flatten(chunks) == before + Flatten(rest) && AllFramed(rest, bodies, from) && low <= from + |before|
    requires forall k: nat :: HeaderWhole(rest, k) <==> HeaderWhole(chunks, k + |before|)
    ensures AllFramed(chunks, bodies, low)
    decreases |bodies|
  {
    if bodies == [] {
    } else {
      var at: nat :| from <= at && FramedAt(rest, bodies[0], at) && AllFramed(rest, bodies[1..], at + 8 + |bodies[0]|);
      AtBehind(before, Flatten(rest), at, Frame(bodies[0]));
      assert FramedAt(chunks, bodies[0], at + |before|);
      var next := at + 8 + |bodies[0]|;
      AllFramedBehind(chunks, before, rest, bodies[1..], next, next + |before|);
    }
  }

  /** Octets that read as the signature and a length are those. */
  lemma HeaderIs(h: seq<Byte>)
    requires |h| == 8 && FromLE(h[..4]) == SIGNATURE
    ensures h == Prefix(FromLE(h[4..]))
  {
    FromLERoundTrip(h[..4]);
    FromLERoundTrip(h[4..]);
    assert h == h[..4] + h[4..];
  }

  lemma FirstFramed(chunks: Chunks, r: Portion, b: BodyRead)
    requires NonEmpty(chunks) && r == Receive(chunks, 8) && |r.data| == 8 && FromLE(r.data[..4]) == SIGNATURE
    requires b == ReadBody(r.rest, FromLE(r.data[4..])) && b.Whole?
    ensures NonEmpty(b.rest) && FramedAt(chunks, b.body, 0) && Flatten(chunks) == r.data + b.body + Flatten(b.rest)
    ensures forall k: nat :: HeaderWhole(b.rest, k) <==> HeaderWhole(chunks, k + 8 + |b.body|)
  {
    ReceiveKeeps(chunks, 8);
    ReadBodyKeeps(r.rest, FromLE(r.data[4..]));
    HeaderIs(r.data);
    FrameStands(r.data, b.body, Flatten(b.rest), Flatten(chunks));
    HeadersOfRest(chunks, r, b);
  }

  lemma FrameStands(p: seq<Byte>, body: seq<Byte>, more: seq<Byte>, s: seq<Byte>)
    requires p == Prefix(|body|) && s == p + (body + more)
    ensures At(s, 0, Frame(body)) && s == p + body + more
  {
    assert s == Frame(body) + more;
  }

  lemma HeadersOfRest(chunks: Chunks, r: Portion, b: BodyRead)
    requires NonEmpty(chunks) && r == Receive(chunks, 8) && |r.data| == 8 && NonEmpty(r.rest)
    requires b.Whole? && b == ReadBody(r.rest, |b.body|)
    ensures forall k: nat :: HeaderWhole(b.rest, k) <==> HeaderWhole(chunks, k + 8 + |b.body|)
  {
    forall k: nat ensures HeaderWhole(b.rest, k) <==> HeaderWhole(chunks, k + 8 + |b.body|) {
      ReceiveHeaders(chunks, 8, k + 8 + |b.body|);
      BodyHeaders(r.rest, |b.body|, k + |b.body|);
    }
  }

  /** Nothing is handed on, whatever arrives, but what follows a signature and its own length, which have
      come in one portion. */
  lemma {:induction false} FramesSound(chunks: Chunks)
    requires NonEmpty(chunks)
    ensures AllFramed(chunks, Frames(chunks).bodies, 0)
    decreases |Flatten(chunks)|
  {
    ReceiveKeeps(chunks, 8);
    var r := Receive(chunks, 8);
    if |r.data| == 0 {
    } else if |r.data| < 8 || FromLE(r.data[..4]) != SIGNATURE {
      FramesSound(r.rest);
      Dropped(chunks, r);
      assert [] + Frames(r.rest).bodies == Frames(r.rest).bodies;
    } else {
      ReadBodyKeeps(r.rest, FromLE(r.data[4..]));
      var b := ReadBody(r.rest, FromLE(r.data[4..]));
      if b.Whole? {
        FramesSound(b.rest);
        FirstFramed(chunks, r, b);
        FramedOneMore(chunks, r.data + b.body, b.rest, b.body, Frames(b.rest).bodies);
      }
    }
  }

  lemma Dropped(chunks: Chunks, r: Portion)
    requires NonEmpty(chunks) && r == Receive(chunks, 8) && NonEmpty(r.rest)
    requires r.data + Flatten(r.rest) == Flatten(chunks) && AllFramed(r.rest, Frames(r.rest).bodies, 0)
    ensures AllFramed(chunks, Frames(r.rest).bodies, 0)
  {
    forall k: nat ensures HeaderWhole(r.rest, k) <==> HeaderWhole(chunks, k + |r.data|) {
      ReceiveHeaders(chunks, 8, k + |r.data|);
    }
    AllFramedBehind(chunks, r.data, r.rest, Frames(r.rest).bodies, 0, 0);
  }

  lemma FramedOneMore(chunks: Chunks, before: seq<Byte>, rest: Chunks, body: seq<Byte>, bodies: seq<seq<Byte>>)
    requires FramedAt(chunks, body, 0) && AllFramed(rest, bodies, 0)
    requires Flatten(chunks) == before + Flatten(rest) && |before| == 8 + |body|
    requires forall k: nat :: HeaderWhole(rest, k) <==> HeaderWhole(chunks, k + 8 + |body|)
    ensures AllFramed(chunks, [body] + bodies, 0)
  {
    AllFramedBehind(chunks, before, rest, bodies, 0, 8 + |body|);
    assert ([body] + bodies)[1..] == bodies;
    assert FramedAt(chunks, ([body] + bodies)[0], 0);
  }

  // ---- The loops ------------------------------------------------------------------

  /** A connected socket, as far as it is read from. */
  class StreamSocket {
    var chunks: Chunks

    constructor (chunks: Chunks)
      ensures this.chunks == chunks
    {
      this.chunks := chunks;
    }

    /** Receives at most `n` octets, writes them at `offset` and returns how many they are. */
    method ReceiveBytes(buff: array<Byte>, offset: nat, n: nat) returns (received: nat)
      requires offset + n <= buff.Length
      modifies this, buff
      ensures var r := Receive(old(chunks), n);
        && chunks == r.rest && received == |r.data|
        && buff[..] == old(buff[..offset]) + r.data + old(buff[offset + received..])
    {
      var r := Receive(chunks, n);
      chunks, received := r.rest, |r.data|;
      forall k | 0 <= k < received {
        buff[offset + k] := r.data[k];
      }
    }
  }

  /** One receive towards a body of which `unread` octets are missing. */
  lemma BodyTurn(start: Chunks, length: nat, filled: seq<Byte>, chunks: Chunks, unread: nat)
    requires NonEmpty(chunks) && 0 < unread
    requires ReadBody(start, length) == Behind(filled, ReadBody(chunks, unread))
    ensures var r := Receive(chunks, unread);
      && NonEmpty(r.rest)
      && ReadBody(start, length) ==
           if r.data == [] then Cut else Behind(filled + r.data, ReadBody(r.rest, unread - |r.data|))
  {
    ReceiveKeeps(chunks, unread);
    var r := Receive(chunks, unread);
    if r.data != [] {
      var b := ReadBody(r.rest, unread - |r.data|);
      if b.Whole? { assert filled + (r.data + b.body) == filled + r.data + b.body; }
    }
  }

  lemma BodyStart(chunks: Chunks, length: nat)
    requires NonEmpty(chunks)
    ensures var r := Receive(chunks, length);
      NonEmpty(r.rest) && ReadBody(chunks, length) == Behind(r.data, ReadBody(r.rest, length - |r.data|))
  {
    ReceiveKeeps(chunks, length);
  }

  /** The loop that fills the buffer of a body. */
  method ReceiveBody(socket: StreamSocket, buff: array<Byte>) returns (complete: bool)
    requires NonEmpty(socket.chunks)
    modifies socket, buff
    ensures ReadBody(old(socket.chunks), buff.Length) == if complete then Whole(buff[..], socket.chunks) else Cut
  {
    var length := buff.Length;
    ghost var start := socket.chunks;
    BodyStart(start, length);
    var received := socket.ReceiveBytes(buff, 0, length);
    if received != length {
      var buffIdx := received;
      var unread := length - received;
      assert buff[..buffIdx] == Receive(start, length).data;
      while true
        invariant NonEmpty(socket.chunks) && 0 < unread && buffIdx + unread == length
        invariant ReadBody(start, length) == Behind(buff[..buffIdx], ReadBody(socket.chunks, unread))
        decreases unread
      {
        BodyTurn(start, length, buff[..buffIdx], socket.chunks, unread);
        ghost var filled, r := buff[..buffIdx], Receive(socket.chunks, unread);
        received := socket.ReceiveBytes(buff, buffIdx, unread);
        assert buff[..buffIdx + received] == filled + r.data;
        if received == 0 { return false; }
        if received == unread { break; }
        unread := unread - received;
        buffIdx := buffIdx + received;
      }
    }
    complete := true;
  }

  lemma ThenThen(a: seq<seq<Byte>>, n: nat, b: seq<seq<Byte>>, m: nat, o: Outcome)
    ensures Then(a, n, Then(b, m, o)) == Then(a + b, n + m, o)
  {
    assert a + (b + o.bodies) == a + b + o.bodies;
  }

  /** What one turn of the receive loop found. */
  datatype Turn = Disconnected | Skipped(octets: nat) | GotBody(body: seq<Byte>) | Interrupted

  /** One turn of the loop in NymphSession::run and NymphSocketListener::run. */
  method ReceiveMessage(socket: StreamSocket) returns (turn: Turn)
    requires NonEmpty(socket.chunks)
    modifies socket
    ensures match turn
      case Disconnected => Frames(old(socket.chunks)) == Outcome([], 0, false)
      case Interrupted => Frames(old(socket.chunks)) == Outcome([], 0, true)
      case Skipped(n) => NonEmpty(socket.chunks) && Frames(old(socket.chunks)) == Then([], n, Frames(socket.chunks))
      case GotBody(b) => NonEmpty(socket.chunks) && Frames(old(socket.chunks)) == Then([b], 0, Frames(socket.chunks))
    ensures turn.Skipped? || turn.GotBody? ==> |Flatten(socket.chunks)| < |Flatten(old(socket.chunks))|
  {
    ghost var start := socket.chunks;
    ReceiveKeeps(start, 8);
    var headerBuff := new Byte[8];
    var received := socket.ReceiveBytes(headerBuff, 0, 8);
    if received == 0 { return Disconnected; }
    if received < 8 { return Skipped(received); }
    assert headerBuff[..] == Receive(start, 8).data;
    if FromLE(headerBuff[..4]) != SIGNATURE { return Skipped(8); }
    var length := FromLE(headerBuff[4..]);
    ReadBodyKeeps(socket.chunks, length);
    var buff := new Byte[length];
    var complete := ReceiveBody(socket, buff);
    turn := if complete then GotBody(buff[..]) else Interrupted;
  }

  /** The whole loop, until the peer disconnects. */
  method ReceiveMessages(socket: StreamSocket) returns (bodies: seq<seq<Byte>>, cut: bool)
    requires NonEmpty(socket.chunks)
    modifies socket
    ensures bodies == Frames(old(socket.chunks)).bodies && cut == Frames(old(socket.chunks)).cut
  {
    bodies, cut := [], false;
    ghost var start, dropped := socket.chunks, 0;
    while true
      invariant NonEmpty(socket.chunks) && Frames(start) == Then(bodies, dropped, Frames(socket.chunks))
      decreases |Flatten(socket.chunks)|
    {
      ghost var before := socket.chunks;
      var turn := ReceiveMessage(socket);
      match turn
      case Disconnected => return bodies, false;
      case Interrupted => return bodies, true;
      case Skipped(n) =>
        ThenThen(bodies, dropped, [], n, Frames(socket.chunks));
        assert bodies + [] == bodies;
        dropped := dropped + n;
      case GotBody(b) =>
        ThenThen(bodies, dropped, [b], 0, Frames(socket.chunks));
        bodies := bodies + [b];
    }
  }

  lemma TwoPortions(first: seq<Byte>, second: seq<Byte>, body: seq<Byte>)
    requires |body| < 0x8000_0000 && 0 < |first| < 8 && second != [] && first + second == Frame(body)
    ensures NonEmpty([first, second]) && Flatten([first, second]) == Wire([body])
    ensures Frames([first, second]).cut || Frames([first, second]).bodies != [body]
  {
    var chunks := [first, second];
    assert chunks[1..] == [second] && Flatten([second]) == second + Flatten([]);
    assert Flatten(chunks) == first + Flatten([second]);
    WireFirst(body, []);
    assert [body] + [] == [body];
    assert !HeaderWhole(chunks, 0);
    FramesIff(chunks, [body]);
  }

  /** A message whose header comes in two portions is not recovered, whatever its body. */
  lemma SplitHeaderLoses(body: seq<Byte>, k: nat)
    requires |body| < 0x8000_0000 && 0 < k < 8
    ensures var chunks := [Frame(body)[..k], Frame(body)[k..]];
      && NonEmpty(chunks) && Flatten(chunks) == Wire([body])
      && (Frames(chunks).cut || Frames(chunks).bodies != [body])
  {
    TwoPortions(Frame(body)[..k], Frame(body)[k..], body);
  }
}
