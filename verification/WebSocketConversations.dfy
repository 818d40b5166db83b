/** transport/ws.py, recv called again and again, as the message loops of the programs do. */
module WebSocketConversations {
  import opened Bytes
  import opened Results
  import opened Sequences
  import opened WebSocketFrames
  import opened WebSocketMessages

  // --- pongs over several calls -----------------------------------------------------------------

  lemma KeysFitConcat(p: seq<Bytes>, k: seq<MaskKey>, q: seq<Bytes>, l: seq<MaskKey>, isClient: bool)
    requires KeysFit(p, k, isClient) && KeysFit(q, l, isClient)
    ensures KeysFit(p + q, k + l, isClient)
  {
  }

  lemma LastApart<T>(a: seq<T>, b: seq<T>)
    requires b != []
    ensures a + b == a + b[..|b| - 1] + [b[|b| - 1]]
  {
  }

  lemma {:induction false} PongBytesConcat(p: seq<Bytes>, k: seq<MaskKey>, q: seq<Bytes>, l: seq<MaskKey>,
                                           isClient: bool)
    requires KeysFit(p, k, isClient) && KeysFit(q, l, isClient)
    ensures KeysFit(p + q, k + l, isClient)
    ensures PongBytes(p + q, k + l, isClient) == PongBytes(p, k, isClient) + PongBytes(q, l, isClient)
    decreases |q|
  {
    KeysFitConcat(p, k, q, l, isClient);
    if q == [] {
      assert p + q == p && k + l == k;
    } else {
      var n := |q| - 1;
      PongBytesConcat(p, k, q[..n], l[..n], isClient);
      PongBytesAppend(p + q[..n], k + l[..n], isClient, q[n], l[n]);
      LastApart(p, q);
      LastApart(k, l);
      Reassociate(PongBytes(p, k, isClient), PongBytes(q[..n], l[..n], isClient), WireFrame(true, OP_PONG, q[n], l[n]));
    }
  }

  lemma AnsweredMore(p: seq<Bytes>, k: seq<MaskKey>, q: seq<Bytes>, l: seq<MaskKey>, isClient: bool,
                     before: Bytes, between: Bytes, sent: Bytes)
    requires Answered(p, k, isClient, before, between) && Answered(q, l, isClient, between, sent)
    ensures Answered(p + q, k + l, isClient, before, sent)
  {
    PongBytesConcat(p, k, q, l, isClient);
    Reassociate(before, PongBytes(p, k, isClient), PongBytes(q, l, isClient));
  }

  lemma LastBrokenOff(p: seq<Bytes>, k: seq<MaskKey>, ping: Bytes, key: MaskKey, isClient: bool,
                      before: Bytes, sent: Bytes)
    requires KeysFit(p, k, isClient) && KeysFit(p + [ping], k + [key], isClient) && ValidKey(key) && |ping| <= 125
    requires PartlySent(before + PongBytes(p, k, isClient), WireFrame(true, OP_PONG, ping, key), sent)
    ensures BrokenOff(p + [ping], k + [key], isClient, before, sent)
  {
    assert (p + [ping])[..|p|] == p && (k + [key])[..|k|] == k;
  }

  // Pongs answered, then some more, then one that could not be sent.
  lemma BrokenOffMore(p: seq<Bytes>, k: seq<MaskKey>, q: seq<Bytes>, l: seq<MaskKey>, ping: Bytes, key: MaskKey,
                      isClient: bool, before: Bytes, between: Bytes, sent: Bytes)
    requires Answered(p, k, isClient, before, between) && KeysFit(q, l, isClient)
    requires ValidKey(key) && (key.Key? <==> isClient) && |ping| <= 125
    requires PartlySent(between + PongBytes(q, l, isClient), WireFrame(true, OP_PONG, ping, key), sent)
    ensures BrokenOff(p + q + [ping], k + l + [key], isClient, before, sent)
  {
    PongBytesConcat(p, k, q, l, isClient);
    KeysFitConcat(p + q, k + l, [ping], [key], isClient);
    Reassociate(before, PongBytes(p, k, isClient), PongBytes(q, l, isClient));
    LastBrokenOff(p + q, k + l, ping, key, isClient, before, sent);
  }

  lemma BrokenOffLater(p: seq<Bytes>, k: seq<MaskKey>, q: seq<Bytes>, l: seq<MaskKey>, isClient: bool,
                       before: Bytes, between: Bytes, sent: Bytes)
    requires Answered(p, k, isClient, before, between) && BrokenOff(q, l, isClient, between, sent)
    ensures BrokenOff(p + q, k + l, isClient, before, sent)
  {
    var n := |q| - 1;
    LastApart(p, q);
    LastApart(k, l);
    BrokenOffMore(p, k, q[..n], l[..n], q[n], l[n], isClient, before, between, sent);
  }

  // --- a conversation, part by part -------------------------------------------------------------

  predicate Readable(message: Message, isUtf8: Bytes -> bool) {
    message.opcode != OP_TEXT || isUtf8(message.data)
  }

  ghost function Continued(messages: seq<Message>, pings: seq<Bytes>, later: Conversation): Conversation {
    Conversation(messages + later.messages, pings + later.pings, later.end)
  }

  // The bytes that so many calls of recv leave.
  ghost function BytesAfter(stream: Bytes, n: nat): Bytes
    decreases n
  {
    if n == 0 then stream else Assemble(BytesAfter(stream, n - 1), NotBegun, []).rest
  }

  // One more call of recv.
  lemma NextReceived(all: Conversation, messages: seq<Message>, pings: seq<Bytes>, stream: Bytes)
    requires all == Continued(messages, pings, ReceiveAll(stream))
    ensures var r := Assemble(stream, NotBegun, []);
      if r.outcome.Delivered? then
        all == Continued(messages + [r.outcome.message], pings + r.pings, ReceiveAll(r.rest))
      else all == Conversation(messages, pings + r.pings, r.outcome)
  {
    var r := Assemble(stream, NotBegun, []);
    if r.outcome.Delivered? {
      var later := ReceiveAll(r.rest);
      Reassociate(messages, [r.outcome.message], later.messages);
      Reassociate(pings, r.pings, later.pings);
    } else {
      assert messages + [] == messages;
    }
  }

  // What the calls have done so far: the messages they returned, the pongs they sent, what they left unread.
  ghost predicate Heard(all: Conversation, stream: Bytes, messages: seq<Message>, pings: seq<Bytes>, unread: Bytes) {
    all == Continued(messages, pings, ReceiveAll(unread)) && unread == BytesAfter(stream, |messages|)
  }

  lemma NextHeard(all: Conversation, stream: Bytes, messages: seq<Message>, pings: seq<Bytes>, unread: Bytes)
    requires Heard(all, stream, messages, pings, unread) && all == ReceiveAll(stream)
    ensures var r := Assemble(unread, NotBegun, []);
      && BytesAfter(stream, |messages| + 1) == r.rest
      && if r.outcome.Delivered? then Heard(all, stream, messages + [r.outcome.message], pings + r.pings, r.rest)
      else all == Conversation(messages, pings + r.pings, r.outcome)
  {
    NextReceived(all, messages, pings, unread);
  }

  // What the call that raised has done. A pong could not be sent; or the next message is text that does not
  // decode, and the calls after it go on behind it; or the conversation is over.
  ghost predicate Raised(all: Conversation, stream: Bytes, messages: seq<Message>, error: Error, keys: seq<MaskKey>,
                         ws: WebSocket, before: Bytes)
    reads ws, ws.sock
  {
    && messages <= all.messages && |keys| <= |all.pings|
    && var pings := all.pings[..|keys|];
    if error == OSError then !ws.closed && BrokenOff(pings, keys, ws.isClient, before, ws.sock.sent)
    else
      && Answered(pings, keys, ws.isClient, before, ws.sock.sent)
      && if error == ValueError then
        && !ws.closed && |messages| < |all.messages| && !Readable(all.messages[|messages|], ws.isUtf8)
        && Heard(all, stream, all.messages[..|messages| + 1], pings, ws.sock.unread)
      else
        && messages == all.messages && pings == all.pings && Returned(all.end, ws.isUtf8) == Failure(error)
        && ws.closed == all.end.CloseReceived?
        && (ws.closed ==> ws.sock.unread == BytesAfter(stream, |messages| + 1))
  }

  lemma PingsSoFar(all: Conversation, pings: seq<Bytes>, next: seq<Bytes>, n: nat)
    requires n <= |next| && pings + next <= all.pings
    ensures all.pings[..|pings| + n] == pings + next[..n]
  {
  }

  // What one call of recv on an open connection comes to; `unread` and `between` are from before it.
  ghost predicate Call(ws: WebSocket, unread: Bytes, between: Bytes, r: Result<Message>, more: seq<MaskKey>)
    reads ws, ws.sock
  {
    ws.Ended(Assemble(unread, NotBegun, []), r, more, between)
  }

  // The calls so far have returned these messages and answered these pings.
  ghost predicate SoFar(all: Conversation, stream: Bytes, messages: seq<Message>, pings: seq<Bytes>,
                        keys: seq<MaskKey>, isClient: bool, before: Bytes, unread: Bytes, sent: Bytes) {
    && all == ReceiveAll(stream) && Heard(all, stream, messages, pings, unread)
    && Answered(pings, keys, isClient, before, sent)
  }

  lemma AddDelivered(all: Conversation, stream: Bytes, messages: seq<Message>, pings: seq<Bytes>, keys: seq<MaskKey>,
                     more: seq<MaskKey>, isClient: bool, before: Bytes, between: Bytes, sent: Bytes, spec: Received)
    requires spec.outcome.Delivered? && all == ReceiveAll(stream)
    requires Heard(all, stream, messages + [spec.outcome.message], pings + spec.pings, spec.rest)
    requires Answered(pings, keys, isClient, before, between) && Answered(spec.pings, more, isClient, between, sent)
    ensures SoFar(all, stream, messages + [spec.outcome.message], pings + spec.pings, keys + more, isClient, before,
                  spec.rest, sent)
  {
    AnsweredMore(pings, keys, spec.pings, more, isClient, before, between, sent);
  }

  lemma DeliveredNext(all: Conversation, stream: Bytes, messages: seq<Message>, pings: seq<Bytes>, keys: seq<MaskKey>,
                      ws: WebSocket, before: Bytes, unread: Bytes, between: Bytes, r: Message, more: seq<MaskKey>)
    requires SoFar(all, stream, messages, pings, keys, ws.isClient, before, unread, between)
    requires Call(ws, unread, between, Success(r), more)
    ensures var spec := Assemble(unread, NotBegun, []);
      && !ws.closed && Readable(r, ws.isUtf8)
      && SoFar(all, stream, messages + [r], pings + spec.pings, keys + more, ws.isClient, before,
               ws.sock.unread, ws.sock.sent)
  {
    var spec := Assemble(unread, NotBegun, []);
    NextHeard(all, stream, messages, pings, unread);
    AddDelivered(all, stream, messages, pings, keys, more, ws.isClient, before, between, ws.sock.sent, spec);
  }

  lemma PrefixSoFar(all: Conversation, messages: seq<Message>, pings: seq<Bytes>, unread: Bytes)
    requires all == Continued(messages, pings, ReceiveAll(unread))
    ensures messages <= all.messages && pings + Assemble(unread, NotBegun, []).pings <= all.pings
  {
    NextReceived(all, messages, pings, unread);
  }

  lemma PongFailed(all: Conversation, stream: Bytes, messages: seq<Message>, pings: seq<Bytes>, keys: seq<MaskKey>,
                   next: seq<Bytes>, more: seq<MaskKey>, ws: WebSocket, before: Bytes, between: Bytes)
    requires messages <= all.messages && pings + next <= all.pings && |more| <= |next| && !ws.closed
    requires Answered(pings, keys, ws.isClient, before, between)
    requires BrokenOff(next[..|more|], more, ws.isClient, between, ws.sock.sent)
    ensures Raised(all, stream, messages, OSError, keys + more, ws, before)
  {
    PingsSoFar(all, pings, next, |more|);
    BrokenOffLater(pings, keys, next[..|more|], more, ws.isClient, before, between, ws.sock.sent);
    RaisedSending(all, stream, messages, pings + next[..|more|], keys + more, ws, before);
  }

  lemma RaisedSending(all: Conversation, stream: Bytes, messages: seq<Message>, pings: seq<Bytes>, keys: seq<MaskKey>,
                      ws: WebSocket, before: Bytes)
    requires messages <= all.messages && |pings| == |keys| <= |all.pings| && pings == all.pings[..|pings|]
    requires !ws.closed && BrokenOff(pings, keys, ws.isClient, before, ws.sock.sent)
    ensures Raised(all, stream, messages, OSError, keys, ws, before)
  {
  }

  lemma NotDecoded(all: Conversation, stream: Bytes, messages: seq<Message>, pings: seq<Bytes>, keys: seq<MaskKey>,
                   ws: WebSocket, before: Bytes, unread: Bytes, between: Bytes, error: Error, more: seq<MaskKey>)
    requires SoFar(all, stream, messages, pings, keys, ws.isClient, before, unread, between)
    requires Call(ws, unread, between, Failure(error), more) && error != OSError
    requires Assemble(unread, NotBegun, []).outcome.Delivered?
    ensures Raised(all, stream, messages, error, keys + more, ws, before)
  {
    var spec := Assemble(unread, NotBegun, []);
    NextHeard(all, stream, messages, pings, unread);
    PingsSoFar(all, pings, spec.pings, |more|);
    MessagesSoFar(all, messages, spec.outcome.message);
    AnsweredMore(pings, keys, spec.pings, more, ws.isClient, before, between, ws.sock.sent);
  }

  lemma MessagesSoFar(all: Conversation, messages: seq<Message>, next: Message)
    requires messages + [next] <= all.messages
    ensures all.messages[|messages|] == next && all.messages[..|messages| + 1] == messages + [next]
  {
  }

  lemma AtTheEnd(all: Conversation, stream: Bytes, messages: seq<Message>, pings: seq<Bytes>, keys: seq<MaskKey>,
                 ws: WebSocket, before: Bytes, unread: Bytes, between: Bytes, error: Error, more: seq<MaskKey>)
    requires SoFar(all, stream, messages, pings, keys, ws.isClient, before, unread, between)
    requires Call(ws, unread, between, Failure(error), more) && error != OSError
    requires !Assemble(unread, NotBegun, []).outcome.Delivered?
    ensures Raised(all, stream, messages, error, keys + more, ws, before)
  {
    var spec := Assemble(unread, NotBegun, []);
    NextHeard(all, stream, messages, pings, unread);
    assert messages == all.messages && Returned(all.end, ws.isUtf8) == Failure(error) && error != ValueError;
    AnsweredMore(pings, keys, spec.pings, more, ws.isClient, before, between, ws.sock.sent);
    assert |keys + more| == |all.pings| && all.pings[..|all.pings|] == all.pings;
  }

  // recv, so many times or until it raises: the messages of the conversation from its beginning, in order.
  method ReceiveMessages(ws: WebSocket, count: nat)
    returns (messages: seq<Message>, error: Option<Error>, ghost keys: seq<MaskKey>)
    requires !ws.closed
    modifies ws`closed, ws.sock
    ensures |messages| <= count && forall m :: m in messages ==> Readable(m, ws.isUtf8)
    ensures var all, stream := ReceiveAll(old(ws.sock.unread)), old(ws.sock.unread);
      match error
      case None =>
        && !ws.closed && |messages| == count && |keys| <= |all.pings|
        && Answered(all.pings[..|keys|], keys, ws.isClient, old(ws.sock.sent), ws.sock.sent)
        && Heard(all, stream, messages, all.pings[..|keys|], ws.sock.unread)
      case Some(e) => Raised(all, stream, messages, e, keys, ws, old(ws.sock.sent))
  {
    messages, error, keys := [], None, [];
    ghost var stream, before, pings: seq<Bytes> := ws.sock.unread, ws.sock.sent, [];
    ghost var all := ReceiveAll(stream);
    while |messages| < count
      invariant !ws.closed && |messages| <= count && forall m :: m in messages ==> Readable(m, ws.isUtf8)
      invariant SoFar(all, stream, messages, pings, keys, ws.isClient, before, ws.sock.unread, ws.sock.sent)
    {
      ghost var unread, between := ws.sock.unread, ws.sock.sent;
      var r, more := ws.Recv();
      assert Call(ws, unread, between, r, more);
      ghost var spec := Assemble(unread, NotBegun, []);
      if r.Failure? {
        if r.error == OSError {
          PrefixSoFar(all, messages, pings, unread);
          PongFailed(all, stream, messages, pings, keys, spec.pings, more, ws, before, between);
        } else if spec.outcome.Delivered? {
          NotDecoded(all, stream, messages, pings, keys, ws, before, unread, between, r.error, more);
        } else {
          AtTheEnd(all, stream, messages, pings, keys, ws, before, unread, between, r.error, more);
        }
        keys := keys + more;
        error := Some(r.error);
        return;
      }
      DeliveredNext(all, stream, messages, pings, keys, ws, before, unread, between, r.value, more);
      messages, pings, keys := messages + [r.value], pings + spec.pings, keys + more;
    }
    PingsSoFar(all, pings, [], 0);
  }

  ghost predicate Leaves(stream: Bytes, next: Bytes) {
    var r := Assemble(stream, NotBegun, []);
    r.outcome.Delivered? && r.rest == next
  }

  lemma FirstLeaves(messages: seq<seq<Event>>, tail: Bytes)
    requires AllLegal(messages) && messages != []
    ensures Leaves(WireAll(messages) + tail, WireAll(messages[1..]) + tail)
  {
    AssembleLegal(messages[0], WireAll(messages[1..]) + tail);
    Reassociate(WireEvents(messages[0]), WireAll(messages[1..]), tail);
  }

  lemma {:induction false} LaterLegal(messages: seq<seq<Event>>, i: nat)
    requires AllLegal(messages) && i <= |messages|
    ensures AllLegal(messages[i..])
    decreases i
  {
    if i > 0 {
      LaterLegal(messages[1..], i - 1);
      assert messages[1..][i - 1..] == messages[i..];
    }
  }

  // What is still to be read after i messages.
  ghost function From(messages: seq<seq<Event>>, tail: Bytes, i: nat): Bytes
    requires AllLegal(messages) && i <= |messages|
  {
    LaterLegal(messages, i);
    WireAll(messages[i..]) + tail
  }

  lemma EachLeaves(messages: seq<seq<Event>>, tail: Bytes, i: nat)
    requires AllLegal(messages) && i < |messages|
    ensures Leaves(From(messages, tail, i), From(messages, tail, i + 1))
  {
    LaterLegal(messages, i);
    FirstLeaves(messages[i..], tail);
    assert messages[i..][1..] == messages[i + 1..];
  }

  lemma FirstAndLast(messages: seq<seq<Event>>, tail: Bytes)
    requires AllLegal(messages)
    ensures From(messages, tail, 0) == WireAll(messages) + tail && From(messages, tail, |messages|) == tail
  {
    assert messages[0..] == messages && messages[|messages|..] == [];
    NoneLeft(tail);
  }

  lemma NoneLeft(tail: Bytes)
    ensures WireAll([]) + tail == tail
  {
    assert [] + tail == tail;
  }

  lemma {:induction false} AllLeave(streams: seq<Bytes>, n: nat)
    requires n < |streams| && forall i :: 0 <= i < n ==> Leaves(streams[i], streams[i + 1])
    ensures BytesAfter(streams[0], n) == streams[n]
  {
    if n > 0 {
      AllLeave(streams, n - 1);
      assert Leaves(streams[n - 1], streams[n]);
    }
  }

  lemma LegalConsumed(messages: seq<seq<Event>>, tail: Bytes)
    requires AllLegal(messages)
    ensures BytesAfter(WireAll(messages) + tail, |messages|) == tail
  {
    var streams := seq(|messages| + 1, i requires 0 <= i <= |messages| => From(messages, tail, i));
    forall i | 0 <= i < |messages| ensures Leaves(streams[i], streams[i + 1]) {
      EachLeaves(messages, tail, i);
    }
    FirstAndLast(messages, tail);
    AllLeave(streams, |messages|);
  }

  lemma {:induction false} SentCount(messages: seq<seq<Event>>)
    requires AllLegal(messages)
    ensures |SentMessages(messages)| == |messages|
    decreases |messages|
  {
    if messages != [] {
      SentCount(messages[1..]);
    }
  }

  lemma SamePrefix<T>(a: seq<T>, b: seq<T>, c: seq<T>)
    requires a + c == b + c
    ensures a == b
  {
    assert |a + c| == |b + c|;
    assert (a + c)[..|a|] == a && (b + c)[..|b|] == b;
  }

  // As many calls as the stream has legal messages: they return those messages, have answered their pings, and
  // leave the bytes behind them.
  lemma LegalHeard(messages: seq<seq<Event>>, tail: Bytes, got: seq<Message>, pings: seq<Bytes>, unread: Bytes)
    requires AllLegal(messages) && |got| == |messages|
    requires Heard(ReceiveAll(WireAll(messages) + tail), WireAll(messages) + tail, got, pings, unread)
    ensures got == SentMessages(messages) && pings == AllPings(messages) && unread == tail
  {
    LegalConsumed(messages, tail);
    SentCount(messages);
    ReceiveLegal(messages, tail);
    SamePrefix(got, SentMessages(messages), ReceiveAll(tail).messages);
    SamePrefix(pings, AllPings(messages), ReceiveAll(tail).pings);
  }
}
