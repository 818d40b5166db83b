/** transport/ws.py, the connection wrapper: control frames and reassembly (sections 5.4 and 5.5 of RFC 6455). */
module WebSocketMessages {
  import opened Bytes
  import opened Results
  import opened Sequences
  import opened WebSocketFrames

  // A received application message; text is still in its encoded form.
  datatype Message = Message(opcode: Byte, data: Bytes)

  // message_opcode: None until a first data frame has arrived.
  datatype Begun = NotBegun | Begun(opcode: Byte)

  datatype Outcome =
    | Delivered(message: Message)
    | CloseReceived(payload: Bytes)
    | StreamEnded
    | Violation

  // What one recv returns or raises, the pings it answers, and the bytes it leaves.
  datatype Received = Received(outcome: Outcome, pings: seq<Bytes>, rest: Bytes)

  function AfterData(begun: Begun, opcode: Byte): Begun {
    if opcode == OP_CONT then begun else Begun(opcode)
  }

  // The receive loop as a function of the bytes to come; every frame shortens them.
  function Assemble(stream: Bytes, begun: Begun, chunks: Bytes): Received
    decreases |stream|
  {
    match ParseFrame(stream)
    case Closed => Received(StreamEnded, [], [])
    case Malformed => Received(Violation, [], [])
    case Frame(fin, opcode, payload, rest) =>
      ParseConsumes(stream);
      if opcode == OP_CLOSE then Received(CloseReceived(payload), [], rest)
      else if opcode == OP_PING then
        var later := Assemble(rest, begun, chunks);
        Received(later.outcome, [payload] + later.pings, later.rest)
      else if opcode == OP_PONG then Assemble(rest, begun, chunks)
      else if opcode == OP_CONT && begun.NotBegun? then Received(Violation, [], [])
      else
        var next := AfterData(begun, opcode);
        if fin then Received(Delivered(Message(next.opcode, chunks + payload)), [], rest)
        else Assemble(rest, next, chunks + payload)
  }

  // A key for every ping, as the side must choose it, and pings short enough to be control frames.
  ghost predicate KeysFit(pings: seq<Bytes>, keys: seq<MaskKey>, isClient: bool) {
    && |keys| == |pings|
    && forall i :: 0 <= i < |keys| ==> ValidKey(keys[i]) && (keys[i].Key? <==> isClient) && |pings[i]| <= 125
  }

  // The bytes of the pongs that answer the given pings, masked with the given keys.
  ghost function PongBytes(pings: seq<Bytes>, keys: seq<MaskKey>, isClient: bool): Bytes
    requires KeysFit(pings, keys, isClient)
  {
    if pings == [] then [] else
      var last := |pings| - 1;
      PongBytes(pings[..last], keys[..last], isClient) + WireFrame(true, OP_PONG, pings[last], keys[last])
  }

  lemma PongBytesAppend(pings: seq<Bytes>, keys: seq<MaskKey>, isClient: bool, ping: Bytes, key: MaskKey)
    requires KeysFit(pings, keys, isClient) && ValidKey(key) && (key.Key? <==> isClient) && |ping| <= 125
    ensures KeysFit(pings + [ping], keys + [key], isClient)
    ensures PongBytes(pings + [ping], keys + [key], isClient)
         == PongBytes(pings, keys, isClient) + WireFrame(true, OP_PONG, ping, key)
  {
    assert (pings + [ping])[..|pings|] == pings && (keys + [key])[..|keys|] == keys;
  }

  // Since `before`, exactly the pongs answering `pings` have been sent.
  ghost predicate Answered(pings: seq<Bytes>, keys: seq<MaskKey>, isClient: bool, before: Bytes, sent: Bytes) {
    KeysFit(pings, keys, isClient) && sent == before + PongBytes(pings, keys, isClient)
  }

  // All but the last of the pongs have been sent; sending that one raised, after some of it maybe.
  ghost predicate BrokenOff(pings: seq<Bytes>, keys: seq<MaskKey>, isClient: bool, before: Bytes, sent: Bytes) {
    && pings != [] && KeysFit(pings, keys, isClient)
    && var last := |pings| - 1;
    PartlySent(before + PongBytes(pings[..last], keys[..last], isClient),
               WireFrame(true, OP_PONG, pings[last], keys[last]), sent)
  }

  // os.urandom(4)
  method RandomKey() returns (key: Bytes)
    ensures |key| == 4
  {
    var a: Byte, b: Byte, c: Byte, d: Byte := *, *, *, *;
    return [a, b, c, d];
  }

  class WebSocket {
    const sock: Socket
    const isClient: bool
    // What decode("utf-8") accepts.
    const isUtf8: Bytes -> bool
    var closed: bool

    constructor (sock: Socket, isClient: bool, isUtf8: Bytes -> bool)
      ensures this.sock == sock && this.isClient == isClient && this.isUtf8 == isUtf8 && !closed
    {
      this.sock := sock;
      this.isClient := isClient;
      this.isUtf8 := isUtf8;
      closed := false;
    }

    method ChooseKey() returns (key: MaskKey)
      ensures ValidKey(key) && (key.Key? <==> isClient)
    {
      if isClient {
        var bytes := RandomKey();
        return Key(bytes);
      }
      return NoMask;
    }

    // _send: clients mask, servers do not.
    method SendFrame(opcode: Byte, payload: Bytes) returns (r: Result<()>, ghost key: MaskKey)
      requires opcode < 16 && |payload| < WORD64
      modifies sock`sent
      ensures ValidKey(key) && (key.Key? <==> isClient)
      ensures closed ==> r == Failure(ConnectionClosed) && sock.sent == old(sock.sent)
      ensures !closed && r.Success? ==> sock.sent == old(sock.sent) + WireFrame(true, opcode, payload, key)
      ensures !closed && r.Failure? ==>
        r.error == OSError && PartlySent(old(sock.sent), WireFrame(true, opcode, payload, key), sock.sent)
    {
      var k := ChooseKey();
      key := k;
      if closed {
        r := Failure(ConnectionClosed);
        return;
      }
      var frame := EncodeFrame(opcode, payload, k);
      r := sock.SendAll(frame);
    }

    method AnswerPing(ping: Bytes, ghost pings: seq<Bytes>, ghost keys: seq<MaskKey>, ghost before: Bytes)
      returns (r: Result<()>, ghost more: seq<MaskKey>)
      requires !closed && |ping| <= 125 && Answered(pings, keys, isClient, before, sock.sent)
      modifies sock`sent
      ensures r.Success? ==> Answered(pings + [ping], more, isClient, before, sock.sent)
      ensures r.Failure? ==> r.error == OSError && BrokenOff(pings + [ping], more, isClient, before, sock.sent)
    {
      ghost var key;
      r, key := SendFrame(OP_PONG, ping);
      PongBytesAppend(pings, keys, isClient, ping, key);
      Reassociate(before, PongBytes(pings, keys, isClient), WireFrame(true, OP_PONG, ping, key));
      more := keys + [key];
      assert (pings + [ping])[..|pings|] == pings && more[..|keys|] == keys;
    }

    // How recv ends, when `spec` is what the bytes to come amount to: with its outcome and all pings answered,
    // or with an answer that could not be sent.
    ghost predicate Ended(spec: Received, r: Result<Message>, keys: seq<MaskKey>, before: Bytes)
      reads this, sock
    {
      if r == Failure(OSError) then
        && !closed && |keys| <= |spec.pings|
        && BrokenOff(spec.pings[..|keys|], keys, isClient, before, sock.sent)
      else
        && Answered(spec.pings, keys, isClient, before, sock.sent)
        && closed == spec.outcome.CloseReceived?
        && r == Returned(spec.outcome, isUtf8)
        && (spec.outcome.Delivered? || spec.outcome.CloseReceived? ==> sock.unread == spec.rest)
    }

    // The loop between two frames.
    ghost predicate Receiving(spec: Received, begun: Begun, chunks: Bytes, pings: seq<Bytes>, keys: seq<MaskKey>,
                              before: Bytes)
      reads this, sock
    {
      && !closed && Answered(pings, keys, isClient, before, sock.sent)
      && spec == Joined(pings, Assemble(sock.unread, begun, chunks))
    }

    // One turn of the receive loop; no result yet means that it goes on.
    method ReceiveFrame(begun: Begun, chunks: Bytes, ghost spec: Received, ghost pings: seq<Bytes>,
                        ghost keys: seq<MaskKey>, ghost before: Bytes)
      returns (r: Option<Result<Message>>, next: Begun, joined: Bytes, ghost answered: seq<Bytes>,
               ghost more: seq<MaskKey>)
      requires Receiving(spec, begun, chunks, pings, keys, before)
      modifies this`closed, sock
      ensures r.None? ==> Receiving(spec, next, joined, answered, more, before) && |sock.unread| < old(|sock.unread|)
      ensures r.Some? ==> Ended(spec, r.value, more, before)
    {
      next, joined, answered, more := begun, chunks, pings, keys;
      ghost var stream := sock.unread;
      AssembleTurn(stream, pings, begun, chunks);
      var frame := ReadFrame(sock);
      if frame.Failure? {
        r := Some(Failure(frame.error));
        return;
      }
      ParseConsumes(stream);
      var FrameIn(fin, opcode, payload) := frame.value;
      if opcode == OP_CLOSE {
        closed := true;
        r := Some(Failure(ConnectionClosed));
        return;
      }
      if opcode == OP_PING {
        var sent;
        sent, more := AnswerPing(payload, pings, keys, before);
        answered := pings + [payload];
        if sent.Failure? {
          BrokenOffFirst(answered, Assemble(sock.unread, begun, chunks), more, isClient, before, sock.sent);
          r := Some(Failure(sent.error));
        } else {
          r := None;
        }
        return;
      }
      if opcode == OP_PONG {
        r := None;
        return;
      }
      if opcode == OP_CONT {
        if begun.NotBegun? {
          r := Some(Failure(ProtocolError));
          return;
        }
      } else {
        next := Begun(opcode);
      }
      joined := chunks + payload;
      if fin {
        r := Some(if next.opcode == OP_TEXT && !isUtf8(joined) then Failure(ValueError)
                  else Success(Message(next.opcode, joined)));
      } else {
        r := None;
      }
    }

    // recv: one application message; pings are answered on the way, in order, until an answer cannot be sent.
    method Recv() returns (r: Result<Message>, ghost keys: seq<MaskKey>)
      modifies this`closed, sock
      ensures old(closed) ==> r == Failure(ConnectionClosed) && closed && sock.sent == old(sock.sent)
      ensures !old(closed) ==> Ended(Assemble(old(sock.unread), NotBegun, []), r, keys, old(sock.sent))
    {
      keys := [];
      if closed {
        r := Failure(ConnectionClosed);
        return;
      }
      var chunks: Bytes := [];
      var begun := NotBegun;
      ghost var pings: seq<Bytes> := [];
      ghost var before := sock.sent;
      ghost var spec := Assemble(sock.unread, NotBegun, []);
      while true
        invariant Receiving(spec, begun, chunks, pings, keys, before)
        decreases |sock.unread|
      {
        var end: Option<Result<Message>>;
        end, begun, chunks, pings, keys := ReceiveFrame(begun, chunks, spec, pings, keys, before);
        if end.Some? {
          r := end.value;
          return;
        }
      }
    }

    // close: one Close frame, unless the connection is closed already; an error in sending it is swallowed.
    method Close(code: nat, reason: Bytes) returns (ghost key: MaskKey, ghost delivered: bool)
      requires code < 65536 && |reason| < WORD64 - 2
      modifies this`closed, sock`sent, sock`shut
      ensures closed && ValidKey(key) && (key.Key? <==> isClient)
      ensures old(closed) ==> sock.sent == old(sock.sent) && sock.shut == old(sock.shut)
      ensures !old(closed) ==>
        var frame := WireFrame(true, OP_CLOSE, ToBytes(code, 2) + reason, key);
        && sock.shut
        && if delivered then sock.sent == old(sock.sent) + frame else PartlySent(old(sock.sent), frame, sock.sent)
    {
      var k := ChooseKey();
      key, delivered := k, false;
      if closed {
        return;
      }
      var frame := EncodeFrame(OP_CLOSE, ToBytes(code, 2) + reason, k);
      var sent := sock.SendAll(frame);
      delivered := sent.Success?;
      closed := true;
      sock.Shut();
    }
  }

  // What recv hands to its caller.
  function Returned(outcome: Outcome, isUtf8: Bytes -> bool): Result<Message> {
    match outcome
    case Delivered(message) =>
      if message.opcode == OP_TEXT && !isUtf8(message.data) then Failure(ValueError) else Success(message)
    case CloseReceived(_) => Failure(ConnectionClosed)
    case StreamEnded => Failure(ConnectionClosed)
    case Violation => Failure(ProtocolError)
  }

  // One turn of the receive loop: what the whole comes to, seen from the frame read now.
  ghost function OneTurn(frame: Parsed, pings: seq<Bytes>, begun: Begun, chunks: Bytes): Received {
    match frame
    case Closed => Received(StreamEnded, pings, [])
    case Malformed => Received(Violation, pings, [])
    case Frame(fin, opcode, payload, rest) =>
      var next := AfterData(begun, opcode);
      if opcode == OP_CLOSE then Received(CloseReceived(payload), pings, rest)
      else if opcode == OP_PING then Joined(pings + [payload], Assemble(rest, begun, chunks))
      else if opcode == OP_PONG then Joined(pings, Assemble(rest, begun, chunks))
      else if next.NotBegun? then Received(Violation, pings, [])
      else if fin then Received(Delivered(Message(next.opcode, chunks + payload)), pings, rest)
      else Joined(pings, Assemble(rest, next, chunks + payload))
  }

  lemma AssembleTurn(stream: Bytes, pings: seq<Bytes>, begun: Begun, chunks: Bytes)
    ensures Joined(pings, Assemble(stream, begun, chunks)) == OneTurn(ParseFrame(stream), pings, begun, chunks)
  {
    assert pings + [] == pings;
    if ParseFrame(stream).Frame? {
      JoinedPing(pings, ParseFrame(stream).payload, Assemble(ParseFrame(stream).rest, begun, chunks));
    }
  }

  ghost function Joined(pings: seq<Bytes>, later: Received): Received {
    Received(later.outcome, pings + later.pings, later.rest)
  }

  lemma BrokenOffFirst(pings: seq<Bytes>, later: Received, keys: seq<MaskKey>, isClient: bool,
                       before: Bytes, sent: Bytes)
    requires BrokenOff(pings, keys, isClient, before, sent)
    ensures var all := Joined(pings, later).pings;
      |keys| <= |all| && BrokenOff(all[..|keys|], keys, isClient, before, sent)
  {
    assert Joined(pings, later).pings[..|keys|] == pings;
  }

  lemma JoinedPing(pings: seq<Bytes>, ping: Bytes, later: Received)
    ensures Joined(pings, Received(later.outcome, [ping] + later.pings, later.rest)) == Joined(pings + [ping], later)
  {
    Reassociate(pings, [ping], later.pings);
  }

  // --- streams of frames ------------------------------------------------------------------------

  // One frame as a peer may send it: a ping, a pong, or a piece of a message.
  datatype Event =
    | Ping(payload: Bytes, key: MaskKey)
    | Pong(payload: Bytes, key: MaskKey)
    | Piece(opcode: Byte, payload: Bytes, key: MaskKey)

  ghost predicate LegalEvent(e: Event) {
    && ValidKey(e.key) && |e.payload| < WORD64
    && (e.Piece? ==> ValidOpcode(e.opcode) && !IsControl(e.opcode))
    && (!e.Piece? ==> |e.payload| <= 125)
  }

  // The frames of one message with control frames in between; the last one is its final piece.
  ghost predicate OneMessage(events: seq<Event>) {
    && events != [] && events[|events| - 1].Piece?
    && forall i :: 0 <= i < |events| ==> LegalEvent(events[i])
  }

  // The frame an event is sent as; `final` is its FIN bit when it is a piece of a message.
  ghost function EventFrame(e: Event, final: bool): Bytes
    requires LegalEvent(e)
  {
    match e
    case Ping(payload, key) => WireFrame(true, OP_PING, payload, key)
    case Pong(payload, key) => WireFrame(true, OP_PONG, payload, key)
    case Piece(opcode, payload, key) => WireFrame(final, opcode, payload, key)
  }

  ghost function WireEvents(events: seq<Event>): Bytes
    requires OneMessage(events)
  {
    if |events| == 1 then EventFrame(events[0], true)
    else EventFrame(events[0], false) + WireEvents(events[1..])
  }

  function OwnData(e: Event): Bytes {
    if e.Piece? then e.payload else []
  }

  function OwnPings(e: Event): seq<Bytes> {
    if e.Ping? then [e.payload] else []
  }

  ghost function Data(events: seq<Event>): Bytes {
    if events == [] then [] else OwnData(events[0]) + Data(events[1..])
  }

  ghost function Pings(events: seq<Event>): seq<Bytes> {
    if events == [] then [] else OwnPings(events[0]) + Pings(events[1..])
  }

  function AfterEvent(begun: Begun, e: Event): Begun {
    if e.Piece? then AfterData(begun, e.opcode) else begun
  }

  // The opcode a message ends up with: that of the last piece that is not a continuation.
  ghost function FinalOpcode(events: seq<Event>, begun: Begun): Begun {
    if events == [] then begun else FinalOpcode(events[1..], AfterEvent(begun, events[0]))
  }

  // The first piece is allowed to come now.
  ghost predicate Startable(events: seq<Event>, begun: Begun) {
    if begun.Begun? then true
    else if events == [] then false
    else if events[0].Piece? then events[0].opcode != OP_CONT
    else Startable(events[1..], begun)
  }

  lemma ParseEvent(e: Event, final: bool, tail: Bytes)
    requires LegalEvent(e)
    ensures ParseFrame(EventFrame(e, final) + tail) ==
      match e
      case Ping(payload, _) => Frame(true, OP_PING, payload, tail)
      case Pong(payload, _) => Frame(true, OP_PONG, payload, tail)
      case Piece(opcode, payload, _) => Frame(final, opcode, payload, tail)
  {
    match e
    case Ping(payload, key) => ParseWireFrame(true, OP_PING, payload, key, tail);
    case Pong(payload, key) => ParseWireFrame(true, OP_PONG, payload, key, tail);
    case Piece(opcode, payload, key) => ParseWireFrame(final, opcode, payload, key, tail);
  }

  // What an event makes of the rest of the stream.
  ghost function EventFirst(e: Event, final: bool, tail: Bytes, begun: Begun, chunks: Bytes): Received {
    var next := AfterEvent(begun, e);
    if e.Piece? && next.NotBegun? then Received(Violation, [], [])
    else if e.Piece? && final then Received(Delivered(Message(next.opcode, chunks + e.payload)), [], tail)
    else
      var later := Assemble(tail, next, chunks + OwnData(e));
      Received(later.outcome, OwnPings(e) + later.pings, later.rest)
  }

  lemma FrameFirst(e: Event, final: bool, stream: Bytes, tail: Bytes, begun: Begun, chunks: Bytes)
    requires ParseFrame(stream) ==
      match e
      case Ping(payload, _) => Frame(true, OP_PING, payload, tail)
      case Pong(payload, _) => Frame(true, OP_PONG, payload, tail)
      case Piece(opcode, payload, _) => Frame(final, opcode, payload, tail)
    requires e.Piece? ==> !IsControl(e.opcode)
    ensures Assemble(stream, begun, chunks) == EventFirst(e, final, tail, begun, chunks)
  {
    assert chunks + [] == chunks;
    var later := Assemble(tail, AfterEvent(begun, e), chunks + OwnData(e));
    assert [] + later.pings == later.pings;
  }

  lemma AssembleEvent(e: Event, final: bool, tail: Bytes, begun: Begun, chunks: Bytes)
    requires LegalEvent(e)
    ensures Assemble(EventFrame(e, final) + tail, begun, chunks) == EventFirst(e, final, tail, begun, chunks)
  {
    ParseEvent(e, final, tail);
    FrameFirst(e, final, EventFrame(e, final) + tail, tail, begun, chunks);
  }

  lemma LastEvent(e: Event, begun: Begun)
    requires e.Piece?
    ensures Data([e]) == e.payload && Pings([e]) == []
    ensures FinalOpcode([e], begun) == AfterEvent(begun, e)
    ensures Startable([e], begun) <==> AfterEvent(begun, e).Begun?
  {
    assert [e][1..] == [];
  }

  // One message received whole, or refused because it starts with a continuation.
  ghost predicate Comes(r: Received, events: seq<Event>, tail: Bytes, begun: Begun, chunks: Bytes) {
    if Startable(events, begun) then
      var opcode := FinalOpcode(events, begun);
      opcode.Begun? && r == Received(Delivered(Message(opcode.opcode, chunks + Data(events))), Pings(events), tail)
    else r.outcome == Violation
  }

  lemma ComesAfter(e: Event, later: seq<Event>, r: Received, tail: Bytes, begun: Begun, chunks: Bytes)
    requires Comes(r, later, tail, AfterEvent(begun, e), chunks + OwnData(e))
    ensures
      if e.Piece? && AfterEvent(begun, e).NotBegun? then !Startable([e] + later, begun)
      else Comes(Received(r.outcome, OwnPings(e) + r.pings, r.rest), [e] + later, tail, begun, chunks)
  {
    assert ([e] + later)[1..] == later;
    Reassociate(chunks, OwnData(e), Data(later));
  }

  lemma FinalEvent(e: Event, tail: Bytes, begun: Begun, chunks: Bytes)
    requires LegalEvent(e) && e.Piece?
    ensures Comes(Assemble(EventFrame(e, true) + tail, begun, chunks), [e], tail, begun, chunks)
  {
    AssembleEvent(e, true, tail, begun, chunks);
    LastEvent(e, begun);
  }

  lemma EventBefore(e: Event, later: seq<Event>, rest: Bytes, tail: Bytes, begun: Begun, chunks: Bytes)
    requires LegalEvent(e)
    requires Comes(Assemble(rest, AfterEvent(begun, e), chunks + OwnData(e)), later, tail,
                   AfterEvent(begun, e), chunks + OwnData(e))
    ensures Comes(Assemble(EventFrame(e, false) + rest, begun, chunks), [e] + later, tail, begun, chunks)
  {
    AssembleEvent(e, false, rest, begun, chunks);
    ComesAfter(e, later, Assemble(rest, AfterEvent(begun, e), chunks + OwnData(e)), tail, begun, chunks);
  }

  lemma WireMore(e: Event, later: seq<Event>)
    requires OneMessage([e] + later) && later != []
    ensures LegalEvent(e) && OneMessage(later) && WireEvents([e] + later) == EventFrame(e, false) + WireEvents(later)
  {
    assert ([e] + later)[0] == e && ([e] + later)[1..] == later;
    forall i | 0 <= i < |later| ensures LegalEvent(later[i]) {
      assert LegalEvent(([e] + later)[i + 1]);
    }
  }

  // For every sequence of frames ending in a final piece: if the first piece is no continuation, recv
  // delivers the pieces joined in order, answers the pings in order, and consumes exactly these frames;
  // otherwise it reports a violation.
  lemma {:induction false} AssembleEvents(events: seq<Event>, tail: Bytes, begun: Begun, chunks: Bytes)
    requires OneMessage(events)
    ensures Comes(Assemble(WireEvents(events) + tail, begun, chunks), events, tail, begun, chunks)
    decreases |events|
  {
    var e, later := events[0], events[1..];
    if later == [] {
      assert events == [e];
      FinalEvent(e, tail, begun, chunks);
    } else {
      assert events == [e] + later;
      WireMore(e, later);
      AssembleEvents(later, tail, AfterEvent(begun, e), chunks + OwnData(e));
      EventBefore(e, later, WireEvents(later) + tail, tail, begun, chunks);
      Reassociate(EventFrame(e, false), WireEvents(later), tail);
    }
  }

  // --- legal messages ---------------------------------------------------------------------------

  // Section 5.4 of RFC 6455: TEXT or BINARY first, then only continuations, control frames anywhere.
  ghost predicate Fragments(events: seq<Event>, started: bool) {
    if events == [] then true
    else if !events[0].Piece? then Fragments(events[1..], started)
    else (started <==> events[0].opcode == OP_CONT) && Fragments(events[1..], true)
  }

  ghost predicate LegalMessage(events: seq<Event>) {
    OneMessage(events) && Fragments(events, false)
  }

  // The opcode the sender gave the message: that of its first piece.
  ghost function SentOpcode(events: seq<Event>): Byte
    requires events != [] && events[|events| - 1].Piece?
  {
    if events[0].Piece? then events[0].opcode else SentOpcode(events[1..])
  }

  ghost function SentMessage(events: seq<Event>): Message
    requires OneMessage(events)
  {
    Message(SentOpcode(events), Data(events))
  }

  lemma {:induction false} ContinuationsKeepOpcode(events: seq<Event>, opcode: Byte)
    requires Fragments(events, true)
    ensures FinalOpcode(events, Begun(opcode)) == Begun(opcode)
  {
    if events != [] {
      ContinuationsKeepOpcode(events[1..], opcode);
    }
  }

  lemma {:induction false} LegalKeepsOpcode(events: seq<Event>)
    requires LegalMessage(events)
    ensures Startable(events, NotBegun) && FinalOpcode(events, NotBegun) == Begun(SentOpcode(events))
    decreases |events|
  {
    if events[0].Piece? {
      ContinuationsKeepOpcode(events[1..], events[0].opcode);
    } else {
      assert events[1..][|events| - 2].Piece?;
      LegalKeepsOpcode(events[1..]);
    }
  }

  // One legal message is delivered as it was sent, and its pings are answered.
  lemma AssembleLegal(events: seq<Event>, tail: Bytes)
    requires LegalMessage(events)
    ensures Assemble(WireEvents(events) + tail, NotBegun, [])
         == Received(Delivered(SentMessage(events)), Pings(events), tail)
  {
    LegalKeepsOpcode(events);
    AssembleEvents(events, tail, NotBegun, []);
    assert [] + Data(events) == Data(events);
  }

  // --- many messages ----------------------------------------------------------------------------

  // What repeated recv calls return until one raises: the messages, the pings answered, and the end.
  datatype Conversation = Conversation(messages: seq<Message>, pings: seq<Bytes>, end: Outcome)

  lemma {:induction false} AssembleConsumes(stream: Bytes, begun: Begun, chunks: Bytes)
    ensures Assemble(stream, begun, chunks).outcome.Delivered? ==> |Assemble(stream, begun, chunks).rest| < |stream|
    decreases |stream|
  {
    var frame := ParseFrame(stream);
    if frame.Frame? {
      ParseConsumes(stream);
      AssembleConsumes(frame.rest, begun, chunks);
      AssembleConsumes(frame.rest, AfterData(begun, frame.opcode), chunks + frame.payload);
    }
  }

  ghost function ReceiveAll(stream: Bytes): Conversation
    decreases |stream|
  {
    var r := Assemble(stream, NotBegun, []);
    AssembleConsumes(stream, NotBegun, []);
    if r.outcome.Delivered? then
      var later := ReceiveAll(r.rest);
      Conversation([r.outcome.message] + later.messages, r.pings + later.pings, later.end)
    else Conversation([], r.pings, r.outcome)
  }

  ghost predicate AllLegal(messages: seq<seq<Event>>) {
    messages == [] || (LegalMessage(messages[0]) && AllLegal(messages[1..]))
  }

  ghost function WireAll(messages: seq<seq<Event>>): Bytes
    requires AllLegal(messages)
  {
    if messages == [] then [] else WireEvents(messages[0]) + WireAll(messages[1..])
  }

  ghost function SentMessages(messages: seq<seq<Event>>): seq<Message>
    requires AllLegal(messages)
  {
    if messages == [] then [] else [SentMessage(messages[0])] + SentMessages(messages[1..])
  }

  ghost function AllPings(messages: seq<seq<Event>>): seq<Bytes> {
    if messages == [] then [] else Pings(messages[0]) + AllPings(messages[1..])
  }

  // Any stream that begins with legal messages: recv returns exactly those, in order, answers exactly
  // their pings, in order, and the calls after them see exactly the bytes that follow.
  lemma {:induction false} ReceiveLegal(messages: seq<seq<Event>>, tail: Bytes)
    requires AllLegal(messages)
    ensures var all, later := ReceiveAll(WireAll(messages) + tail), ReceiveAll(tail);
      && all.messages == SentMessages(messages) + later.messages
      && all.pings == AllPings(messages) + later.pings && all.end == later.end
    decreases |messages|
  {
    if messages == [] {
      assert [] + tail == tail;
    } else {
      var first, others := messages[0], messages[1..];
      var stream := WireAll(others) + tail;
      Reassociate(WireEvents(first), WireAll(others), tail);
      AssembleLegal(first, stream);
      ReceiveLegal(others, tail);
      Reassociate(Pings(first), AllPings(others), ReceiveAll(tail).pings);
      Reassociate([SentMessage(first)], SentMessages(others), ReceiveAll(tail).messages);
    }
  }

  // The code does not insist on continuations: a TEXT message broken off by a BINARY frame is delivered
  // as one BINARY message holding both parts.
  lemma RestartIsAccepted(first: Bytes, second: Bytes, tail: Bytes)
    requires |first| < WORD64 && |second| < WORD64
    ensures Assemble(WireFrame(false, OP_TEXT, first, NoMask) + WireFrame(true, OP_BINARY, second, NoMask) + tail,
                     NotBegun, [])
         == Received(Delivered(Message(OP_BINARY, first + second)), [], tail)
  {
    var a, b := Piece(OP_TEXT, first, NoMask), Piece(OP_BINARY, second, NoMask);
    Reassociate(EventFrame(a, false), EventFrame(b, true), tail);
    AssembleEvent(a, false, EventFrame(b, true) + tail, NotBegun, []);
    AssembleEvent(b, true, tail, Begun(OP_TEXT), [] + OwnData(a));
    assert [] + OwnData(a) == first;
  }
}
