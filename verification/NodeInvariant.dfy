/** The invariant of a node: what holds of one connection, and between an author and a reader. */
module NodeInvariant {
  import Ch = Channel
  import H = Handshake
  import opened Relay
  import opened Results
  import opened ServerNode
  import opened Session

  // --- one connection ---------------------------------------------------------------------------

  ghost predicate InFanOut(c: Conn) {
    c.phase.Relaying? || c.phase.Sending? || c.phase.Dropping?
  }

  // After the handshake and before the end.
  ghost predicate Active(c: Conn) {
    c.phase.Looping? || c.phase.Announcing? || InFanOut(c)
  }

  function Todo(c: Conn): seq<nat> {
    if c.phase.Relaying? || c.phase.Sending? || c.phase.Dropping? then c.phase.todo else []
  }

  // The frames heard are a complete run of run_server, and the session is the one it returned, but for its
  // counters and for compression, which a browser turns off.
  ghost predicate SessionOk(cfg: Config, c: Conn)
    requires ValidConfig(cfg) && cfg.password.Some? && c.session.Some?
  {
    var end := H.ServerRun(cfg.env, cfg.password.value, c.b, c.heard, 2).0;
    var ep := c.session.value;
    && |c.heard| == 2 && end.ServerDone?
    && ep == end.session.(txSeq := ep.txSeq, rxSeq := ep.rxSeq, compress := !c.browser)
    && !ep.isClient && ep.epoch == 0
  }

  // run_server is where it should be after the frames heard.
  ghost predicate HandshakeOk(cfg: Config, c: Conn, st: H.ServerState)
    requires ValidConfig(cfg) && cfg.password.Some?
  {
    if c.heard == [] then st == H.AwaitCommit
    else
      && |c.heard| == 1 && st.AwaitConfirm?
      && H.ServerStep(cfg.env, cfg.password.value, c.b, H.AwaitCommit, H.Received(c.heard[0])).0 == st
  }

  ghost predicate Authentic(cfg: Config, c: Conn)
    requires ValidConfig(cfg)
  {
    && (c.session.Some? ==> cfg.password.Some? && SessionOk(cfg, c))
    && (c.joined && cfg.password.Some? ==> c.session.Some?)
    && (c.phase.Joining? && cfg.password.Some? ==> c.session.Some?)
    && (c.phase.AwaitHello? ==> c.heard == [] && c.session.None?)
    && (c.phase.Handshaking? ==> cfg.password.Some? && c.session.None? && HandshakeOk(cfg, c, c.phase.st))
  }

  // Registered clients are those that joined, have not been dropped and have not left.
  ghost predicate Placed(c: Conn, registered: bool) {
    && (Active(c) ==> c.joined)
    && (c.phase.AwaitHello? || c.phase.Handshaking? || c.phase.Joining? ==> !c.joined)
    && (registered <==> c.joined && !c.dropped && !c.phase.Exited?)
    && (!c.joined ==> c.log == [] && c.lock.None? && !c.dropped && OwnOnly(c.wire))
    && (InFanOut(c) ==> c.log != [])
    && (c.phase.Sending? || c.phase.Dropping? ==> c.phase.todo != [])
  }

  ghost predicate OwnOnly(wire: seq<Entry>) {
    forall k :: 0 <= k < |wire| ==> wire[k].origin == Own
  }

  // Only relayed frames carry messages: sealed ones if there is a session, plain ones if there is none.
  // Sealed frames are numbered upwards along the wire, and never beyond the session's counter.
  ghost predicate WireOk(c: Conn) {
    && (forall k :: 0 <= k < |c.wire| ==> EntryOk(c.session, c.wire[k]))
    && (forall k, l :: 0 <= k < l < |c.wire| && c.wire[k].frame.Sealed? && c.wire[l].frame.Sealed? ==>
          c.wire[k].frame.frame.seqNo < c.wire[l].frame.frame.seqNo)
  }

  ghost predicate EntryOk(session: Option<Endpoint>, e: Entry) {
    match e.frame
    case ChatFrame(_) => e.origin.Relayed? && session.None?
    case Sealed(f) => e.origin.Relayed? && session.Some? && 0 < f.seqNo <= session.value.txSeq
    case _ => e.origin == Own
  }

  // A relayed text is the one that was said, under the name its author gave or else under the connection's own;
  // on a protected node it was said in a sealed frame that the author's session opened.
  ghost predicate SourceOk(cfg: Config, c: Conn, chat: Chat, source: Source) {
    match source
    case PlainChat(said) =>
      && c.session.None?
      && chat.text == said.text && chat.sender == if said.sender == "" then c.name else said.sender
    case Opened(before, frame) =>
      && c.session.Some? && before.rxMac == c.session.value.rxMac && !before.isClient
      && before.rxSeq < frame.seqNo
      && var plaintext := Opening(cfg.codec.mac, before, frame).1;
      && plaintext.Success? && cfg.codec.decode(plaintext.value).Success?
      && var said := cfg.codec.decode(plaintext.value).value;
      && chat.text == said.text && chat.sender == if said.sender == "" then c.name else said.sender
  }

  function Number(source: Source): int {
    if source.Opened? then source.frame.seqNo else 0
  }

  // No sealed frame has been relayed twice: the numbers of those relayed only grow.
  ghost predicate LogOk(cfg: Config, c: Conn) {
    && (forall n :: 0 <= n < |c.log| ==> SourceOk(cfg, c, c.log[n].chat, c.log[n].source))
    && (c.session.Some? ==>
      && (forall n :: 0 <= n < |c.log| ==> Number(c.log[n].source) <= Latest(c))
      && (forall m, n :: 0 <= m < n < |c.log| ==> Number(c.log[m].source) < Number(c.log[n].source)))
    && (c.phase.Announcing? ==>
      && SourceOk(cfg, c, c.phase.chat, c.phase.source)
      && (c.session.Some? ==> Number(c.phase.source) <= c.session.value.rxSeq))
  }

  // The newest number a broadcast can have.
  function Latest(c: Conn): int
    requires c.session.Some?
  {
    if c.phase.Announcing? then Number(c.phase.source) - 1 else c.session.value.rxSeq
  }

  ghost predicate InRange(c: Conn, who: nat, size: nat) {
    && (forall n, r :: 0 <= n < |c.log| && r in c.log[n].recipients ==> r < size && r != who)
    && (forall r :: r in Todo(c) ==> c.log != [] && r in c.log[|c.log| - 1].recipients)
    && (forall k, l :: 0 <= k < l < |Todo(c)| ==> Todo(c)[k] != Todo(c)[l])
    && (c.lock.Some? ==> c.lock.value < size && c.lock.value != who)
    && (forall k :: 0 <= k < |c.wire| && c.wire[k].origin.Relayed? ==>
          c.wire[k].origin.from < size && c.wire[k].origin.from != who)
  }

  ghost predicate ConnOk(cfg: Config, who: nat, c: Conn, registered: bool, size: nat)
    requires ValidConfig(cfg)
  {
    Placed(c, registered) && Authentic(cfg, c) && WireOk(c) && LogOk(cfg, c) && InRange(c, who, size)
  }

  // --- an author and a reader -------------------------------------------------------------------

  // The frame carries this text to the owner of the session.
  ghost predicate Carries(cfg: Config, session: Option<Endpoint>, frame: OutFrame, chat: Chat) {
    match session
    case None => frame == ChatFrame(chat)
    case Some(ep) =>
      && frame.Sealed? && frame.frame.seqNo >= 0
      && Ch.Genuine(cfg.codec.mac, ep, Ch.Sent(Ch.Stamped(frame.frame.seqNo, cfg.codec.encode(chat)), frame.frame))
      && (!ep.compress ==> frame.frame.payload.body != [] && frame.frame.payload.body[0] == STORED)
  }

  ghost predicate From(e: Entry, i: nat) {
    e.origin.Relayed? && e.origin.from == i
  }

  // Broadcast n of the author is on the wire.
  ghost predicate Reached(wire: seq<Entry>, i: nat, n: nat) {
    exists k :: 0 <= k < |wire| && wire[k].origin == Relayed(i, n)
  }

  // The author's n-th broadcast may be on this wire: it went to the reader and it is not still under way.
  ghost predicate EntryFits(cfg: Config, a: Conn, j: nat, reader: Conn, e: Entry)
    requires e.origin.Relayed?
  {
    var n := e.origin.number;
    && n < |a.log| && j in a.log[n].recipients
    && (j in Todo(a) ==> n < |a.log| - 1)
    && Carries(cfg, reader.session, e.frame, a.log[n].chat)
  }

  ghost predicate Ordered(wire: seq<Entry>, i: nat) {
    forall k, l :: 0 <= k < l < |wire| && From(wire[k], i) && From(wire[l], i) ==>
      wire[k].origin.number < wire[l].origin.number
  }

  // Every recipient has got the broadcast, has been dropped, or is still to be served.
  ghost predicate Complete(i: nat, a: Conn, j: nat, reader: Conn) {
    forall n :: 0 <= n < |a.log| && j in a.log[n].recipients ==>
      Reached(reader.wire, i, n) || reader.dropped || (n == |a.log| - 1 && j in Todo(a))
  }

  ghost predicate SendsTo(a: Conn, j: nat) {
    a.phase.Sending? && Target(a) == Some(j)
  }

  // The frame under way carries the text, and it is newer than all that is on the wire.
  ghost predicate UnderWay(cfg: Config, a: Conn, reader: Conn)
    requires a.phase.Sending? && a.log != []
  {
    && Carries(cfg, reader.session, a.phase.frame, a.log[|a.log| - 1].chat)
    && (a.phase.frame.Sealed? ==>
      && reader.session.Some? && 0 < a.phase.frame.frame.seqNo <= reader.session.value.txSeq
      && forall k :: 0 <= k < |reader.wire| && reader.wire[k].frame.Sealed? ==>
          reader.wire[k].frame.frame.seqNo < a.phase.frame.frame.seqNo)
  }

  ghost predicate PairOk(cfg: Config, i: nat, a: Conn, j: nat, reader: Conn) {
    && (forall n :: 0 <= n < |a.log| && j in a.log[n].recipients ==> reader.joined)
    && (forall k :: 0 <= k < |reader.wire| && From(reader.wire[k], i) ==> EntryFits(cfg, a, j, reader, reader.wire[k]))
    && Ordered(reader.wire, i)
    && Complete(i, a, j, reader)
    && (reader.lock == Some(i) <==> SendsTo(a, j))
    && (SendsTo(a, j) ==> a.log != [] && UnderWay(cfg, a, reader))
  }

  ghost predicate NodeOk(cfg: Config, s: State)
    requires ValidConfig(cfg)
  {
    && (forall i :: 0 <= i < |s.conns| ==> ConnOk(cfg, i, s.conns[i], i in s.registry, |s.conns|))
    && (forall i, j :: 0 <= i < |s.conns| && 0 <= j < |s.conns| && i != j ==> PairOk(cfg, i, s.conns[i], j, s.conns[j]))
    && (forall i :: i in s.registry ==> i < |s.conns|)
  }
}
