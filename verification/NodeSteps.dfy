/** Every step of a node keeps its invariant. */
module NodeSteps {
  import opened Bytes
  import H = Handshake
  import opened NodeInvariant
  import opened Relay
  import opened Results
  import opened ServerNode
  import opened Session

  // --- changes that leave a pair alone ----------------------------------------------------------

  // The author's change does not concern this reader.
  ghost predicate AuthorSame(a: Conn, b: Conn, j: nat) {
    && b.log == a.log
    && (j in Todo(a) <==> j in Todo(b))
    && (SendsTo(a, j) <==> SendsTo(b, j))
    && (SendsTo(a, j) ==> b.phase == a.phase)
  }

  lemma AuthorChanges(cfg: Config, i: nat, a: Conn, b: Conn, j: nat, reader: Conn)
    requires PairOk(cfg, i, a, j, reader) && AuthorSame(a, b, j)
    ensures PairOk(cfg, i, b, j, reader)
  {
  }

  // The same session, with counters that may have moved on.
  ghost predicate SameKeys(s: Option<Endpoint>, t: Option<Endpoint>) {
    match s
    case None => t.None?
    case Some(ep) =>
      t.Some? && t.value == ep.(txSeq := t.value.txSeq, rxSeq := t.value.rxSeq) && ep.txSeq <= t.value.txSeq
  }

  lemma SameKeysCarry(cfg: Config, s: Option<Endpoint>, t: Option<Endpoint>, frame: OutFrame, chat: Chat)
    requires SameKeys(s, t) && Carries(cfg, s, frame, chat)
    ensures Carries(cfg, t, frame, chat)
  {
  }

  // The reader's change does not concern this author: what it adds to the wire comes from elsewhere.
  ghost predicate ReaderSame(i: nat, r: Conn, t: Conn) {
    && (r.joined ==> t.joined) && (r.dropped ==> t.dropped)
    && (r.lock == Some(i) <==> t.lock == Some(i))
    && GrowsElsewhere(r.wire, t.wire, i)
    && (r.lock == Some(i) ==> forall k :: |r.wire| <= k < |t.wire| ==> !t.wire[k].frame.Sealed?)
    && (SameKeys(r.session, t.session) || (OwnOnly(r.wire) && r.lock.None?))
  }

  // The wire grew, but not by this author.
  ghost predicate GrowsElsewhere(wire: seq<Entry>, more: seq<Entry>, i: nat) {
    && |wire| <= |more| && more[..|wire|] == wire
    && forall k :: |wire| <= k < |more| ==> !From(more[k], i)
  }

  lemma OrderedGrows(wire: seq<Entry>, more: seq<Entry>, i: nat)
    requires GrowsElsewhere(wire, more, i) && Ordered(wire, i)
    ensures Ordered(more, i)
  {
    forall k, l | 0 <= k < l < |more| && From(more[k], i) && From(more[l], i)
      ensures more[k].origin.number < more[l].origin.number
    {
      assert more[k] == wire[k] && more[l] == wire[l];
    }
  }

  lemma ReachedGrows(wire: seq<Entry>, more: seq<Entry>, i: nat, n: nat)
    requires |wire| <= |more| && more[..|wire|] == wire && Reached(wire, i, n)
    ensures Reached(more, i, n)
  {
    var k :| 0 <= k < |wire| && wire[k].origin == Relayed(i, n);
    assert more[k] == wire[k];
  }

  lemma EntryStillFits(cfg: Config, a: Conn, j: nat, r: Conn, t: Conn, e: Entry)
    requires e.origin.Relayed? && EntryFits(cfg, a, j, r, e) && SameKeys(r.session, t.session)
    ensures EntryFits(cfg, a, j, t, e)
  {
    SameKeysCarry(cfg, r.session, t.session, e.frame, a.log[e.origin.number].chat);
  }

  lemma FrameStillUnderWay(cfg: Config, a: Conn, r: Conn, t: Conn)
    requires a.phase.Sending? && a.log != [] && UnderWay(cfg, a, r)
    requires SameKeys(r.session, t.session) && |r.wire| <= |t.wire| && t.wire[..|r.wire|] == r.wire
    requires forall k :: |r.wire| <= k < |t.wire| ==> !t.wire[k].frame.Sealed?
    ensures UnderWay(cfg, a, t)
  {
    SameKeysCarry(cfg, r.session, t.session, a.phase.frame, a.log[|a.log| - 1].chat);
    forall k | 0 <= k < |t.wire| && t.wire[k].frame.Sealed? ensures k < |r.wire| && t.wire[k] == r.wire[k] {
      if k < |r.wire| {
        assert t.wire[k] == r.wire[k];
      }
    }
  }

  lemma ReaderChanges(cfg: Config, i: nat, a: Conn, j: nat, r: Conn, t: Conn)
    requires PairOk(cfg, i, a, j, r) && ReaderSame(i, r, t)
    ensures PairOk(cfg, i, a, j, t)
  {
    OrderedGrows(r.wire, t.wire, i);
    forall k | 0 <= k < |t.wire| && From(t.wire[k], i) ensures EntryFits(cfg, a, j, t, t.wire[k]) {
      assert k < |r.wire| && t.wire[k] == r.wire[k];
      EntryStillFits(cfg, a, j, r, t, t.wire[k]);
    }
    forall n | 0 <= n < |a.log| && Reached(r.wire, i, n) ensures Reached(t.wire, i, n) {
      ReachedGrows(r.wire, t.wire, i, n);
    }
    if SendsTo(a, j) {
      FrameStillUnderWay(cfg, a, r, t);
    }
  }

  lemma OneChanges(cfg: Config, s: State, i: nat, c: Conn, registry: set<nat>)
    requires ValidConfig(cfg) && NodeOk(cfg, s) && i < |s.conns|
    requires forall k :: k != i ==> (k in registry <==> k in s.registry)
    requires ConnOk(cfg, i, c, i in registry, |s.conns|)
    requires forall j :: 0 <= j < |s.conns| && j != i ==>
      PairOk(cfg, i, c, j, s.conns[j]) && ReaderSame(j, s.conns[i], c)
    ensures NodeOk(cfg, State(s.conns[i := c], registry))
  {
    var t := State(s.conns[i := c], registry);
    forall k, l | 0 <= k < |t.conns| && 0 <= l < |t.conns| && k != l ensures PairOk(cfg, k, t.conns[k], l, t.conns[l]) {
      if k == i {
        assert t.conns[l] == s.conns[l];
      } else {
        assert PairOk(cfg, k, s.conns[k], l, s.conns[l]);
        assert t.conns[k] == s.conns[k];
        if l == i {
          ReaderChanges(cfg, k, s.conns[k], i, s.conns[i], c);
        }
      }
    }
  }

  // A change of i that does not concern k leaves both directions between them as they were.
  lemma BothDirections(cfg: Config, i: nat, a: Conn, b: Conn, k: nat, other: Conn)
    requires PairOk(cfg, i, a, k, other) && PairOk(cfg, k, other, i, a)
    requires AuthorSame(a, b, k) && ReaderSame(k, a, b)
    ensures PairOk(cfg, i, b, k, other) && PairOk(cfg, k, other, i, b)
  {
    AuthorChanges(cfg, i, a, b, k, other);
    ReaderChanges(cfg, k, other, i, a, b);
  }

  // The change of i to c concerns none of the others, but for one.
  ghost predicate Unconcerned(s: State, i: nat, c: Conn, but: nat)
    requires i < |s.conns|
  {
    forall k :: 0 <= k < |s.conns| && k != i && k != but ==>
      AuthorSame(s.conns[i], c, k) && ReaderSame(k, s.conns[i], c)
  }

  lemma OthersKept(cfg: Config, s: State, i: nat, c: Conn, but: nat, k: nat)
    requires ValidConfig(cfg) && NodeOk(cfg, s) && i < |s.conns| && k < |s.conns| && k != i && k != but
    requires Unconcerned(s, i, c, but)
    ensures PairOk(cfg, i, c, k, s.conns[k]) && PairOk(cfg, k, s.conns[k], i, c)
  {
    BothDirections(cfg, i, s.conns[i], c, k, s.conns[k]);
  }

  lemma PairAfter(cfg: Config, s: State, i: nat, j: nat, c: Conn, r: Conn, k: nat, l: nat)
    requires ValidConfig(cfg) && NodeOk(cfg, s) && i < |s.conns| && j < |s.conns| && i != j
    requires k < |s.conns| && l < |s.conns| && k != l
    requires Unconcerned(s, i, c, j) && Unconcerned(s, j, r, i)
    requires PairOk(cfg, i, c, j, r) && PairOk(cfg, j, r, i, c)
    ensures PairOk(cfg, k, s.conns[i := c][j := r][k], l, s.conns[i := c][j := r][l])
  {
    if k != i && k != j {
      if l == i {
        OthersKept(cfg, s, i, c, j, k);
      } else if l == j {
        OthersKept(cfg, s, j, r, i, k);
      } else {
        assert PairOk(cfg, k, s.conns[k], l, s.conns[l]);
      }
    } else if l != i && l != j {
      if k == i {
        OthersKept(cfg, s, i, c, j, l);
      } else {
        OthersKept(cfg, s, j, r, i, l);
      }
    }
  }

  // A served recipient j and its author i change together.
  lemma TwoChange(cfg: Config, s: State, i: nat, j: nat, c: Conn, r: Conn, registry: set<nat>)
    requires ValidConfig(cfg) && NodeOk(cfg, s) && i < |s.conns| && j < |s.conns| && i != j
    requires forall k :: k != j ==> (k in registry <==> k in s.registry)
    requires ConnOk(cfg, i, c, i in registry, |s.conns|) && ConnOk(cfg, j, r, j in registry, |s.conns|)
    requires Unconcerned(s, i, c, j) && Unconcerned(s, j, r, i)
    requires PairOk(cfg, i, c, j, r) && PairOk(cfg, j, r, i, c)
    ensures NodeOk(cfg, State(s.conns[i := c][j := r], registry))
  {
    var t := State(s.conns[i := c][j := r], registry);
    forall k, l | 0 <= k < |t.conns| && 0 <= l < |t.conns| && k != l ensures PairOk(cfg, k, t.conns[k], l, t.conns[l]) {
      PairAfter(cfg, s, i, j, c, r, k, l);
    }
  }

  // --- a thread on its own connection -----------------------------------------------------------

  // The thread changed neither its broadcasts nor its lock, and added only frames that carry no message.
  ghost predicate Quiet(c: Conn, t: Conn) {
    && t.log == c.log && t.lock == c.lock && t.joined == c.joined && t.dropped == c.dropped
    && Todo(c) == Todo(t) == []
    && |c.wire| <= |t.wire| && t.wire[..|c.wire|] == c.wire
    && (forall k :: |c.wire| <= k < |t.wire| ==> NoMessage(t.wire[k]))
    && (SameKeys(c.session, t.session) || (OwnOnly(c.wire) && c.lock.None?))
  }

  ghost predicate NoMessage(e: Entry) {
    e.origin == Own && !e.frame.Sealed? && !e.frame.ChatFrame?
  }

  lemma QuietConcernsNobody(c: Conn, t: Conn, j: nat)
    requires Quiet(c, t) && !c.phase.Sending? && !t.phase.Sending?
    ensures AuthorSame(c, t, j) && ReaderSame(j, c, t)
  {
  }

  // What the thread's own frames keep of its wire.
  lemma QuietWire(c: Conn, t: Conn)
    requires Quiet(c, t) && WireOk(c)
    requires SameKeys(c.session, t.session) || OwnOnly(c.wire)
    ensures WireOk(t)
  {
    forall k | 0 <= k < |t.wire| ensures EntryOk(t.session, t.wire[k]) {
      if k < |c.wire| {
        assert t.wire[k] == c.wire[k];
      }
    }
    forall k, l | 0 <= k < l < |t.wire| && t.wire[k].frame.Sealed? && t.wire[l].frame.Sealed?
      ensures t.wire[k].frame.frame.seqNo < t.wire[l].frame.frame.seqNo
    {
      assert t.wire[k] == c.wire[k] && t.wire[l] == c.wire[l];
    }
  }

  lemma QuietRange(c: Conn, t: Conn, who: nat, size: nat)
    requires Quiet(c, t) && InRange(c, who, size)
    ensures InRange(t, who, size)
  {
    forall k | 0 <= k < |t.wire| && t.wire[k].origin.Relayed?
      ensures t.wire[k].origin.from < size && t.wire[k].origin.from != who
    {
      assert t.wire[k] == c.wire[k];
    }
  }

  lemma QuietOwn(c: Conn, t: Conn)
    requires Quiet(c, t) && OwnOnly(c.wire)
    ensures OwnOnly(t.wire)
  {
    forall k | 0 <= k < |t.wire| ensures t.wire[k].origin == Own {
      if k < |c.wire| {
        assert t.wire[k] == c.wire[k];
      }
    }
  }

  lemma QuietConn(cfg: Config, who: nat, c: Conn, t: Conn, registered: bool, size: nat)
    requires ValidConfig(cfg) && ConnOk(cfg, who, c, registered, size) && Quiet(c, t)
    requires SameKeys(c.session, t.session) || OwnOnly(c.wire)
    requires !c.phase.Exited? && !t.phase.Exited?
    requires (Active(t) ==> t.joined) && (t.phase.AwaitHello? || t.phase.Handshaking? || t.phase.Joining? ==> !t.joined)
    requires !InFanOut(t) && Authentic(cfg, t) && LogOk(cfg, t)
    ensures ConnOk(cfg, who, t, registered, size)
  {
    QuietWire(c, t);
    QuietRange(c, t, who, size);
    if !c.joined {
      QuietOwn(c, t);
    }
  }

  // --- hearing ----------------------------------------------------------------------------------

  lemma OnHelloKeeps(cfg: Config, who: nat, c: Conn, registered: bool, size: nat, incoming: Incoming, sendOk: bool)
    requires ValidConfig(cfg) && ConnOk(cfg, who, c, registered, size) && c.phase.AwaitHello?
    ensures var t := OnHello(cfg, c, incoming, sendOk);
      Quiet(c, t) && !t.phase.Sending? && ConnOk(cfg, who, t, registered, size)
  {
    var t := OnHello(cfg, c, incoming, sendOk);
    QuietConn(cfg, who, c, t, registered, size);
  }

  // What one receive of run_server can lead to.
  ghost predicate Advances(env: H.Env, password: Bytes, b: nat, st: H.ServerState, frame: H.Frame, next: H.ServerState)
    requires env.p > 0
  {
    && (next.AwaitConfirm? ==> st.AwaitCommit?)
    && (next.ServerDone? ==>
        st.AwaitConfirm? && !next.session.isClient && next.session.compress && next.session.epoch == 0)
    && (next.AwaitConfirm? || next.ServerDone? ==>
        next == H.ServerStep(env, password, b, st, H.Received(frame)).0)
  }

  lemma ServerAdvances(env: H.Env, password: Bytes, b: nat, st: H.ServerState, frame: H.Frame, input: H.Input)
    requires env.p > 0 && (st.AwaitCommit? || st.AwaitConfirm?) && (input == H.Received(frame) || input.Eof?)
    ensures Advances(env, password, b, st, frame, H.ServerStep(env, password, b, st, input).0)
    ensures !H.ServerStep(env, password, b, st, input).0.AwaitCommit?
  {
  }

  lemma ReceiveAuthentic(cfg: Config, c: Conn, frame: H.Frame, st: H.ServerState, sent: seq<H.Frame>, sendOk: bool)
    requires ValidConfig(cfg) && Authentic(cfg, c) && c.phase.Handshaking? && !c.joined && !st.AwaitCommit?
    requires Advances(cfg.env, cfg.password.value, c.b, c.phase.st, frame, st)
    ensures Authentic(cfg, AfterReceive(c, frame, st, sent, sendOk))
  {
    var t := AfterReceive(c, frame, st, sent, sendOk);
    if t.phase.Joining? {
      assert H.Rest(t.heard) == [frame];
    }
  }

  lemma ReceiveQuiet(c: Conn, frame: H.Frame, st: H.ServerState, sent: seq<H.Frame>, sendOk: bool)
    requires c.phase.Handshaking? && OwnOnly(c.wire) && c.lock.None?
    ensures Quiet(c, AfterReceive(c, frame, st, sent, sendOk))
  {
  }

  lemma OnHandshakeKeeps(cfg: Config, who: nat, c: Conn, registered: bool, size: nat, incoming: Incoming, sendOk: bool)
    requires ValidConfig(cfg) && ConnOk(cfg, who, c, registered, size) && c.phase.Handshaking?
    ensures var t := OnHandshake(cfg, c, incoming, sendOk);
      Quiet(c, t) && !t.phase.Sending? && ConnOk(cfg, who, t, registered, size)
  {
    var frame := HandshakeFrame(incoming);
    var input := if incoming.HungUp? then H.Eof else H.Received(frame);
    var (st, sent) := H.ServerStep(cfg.env, cfg.password.value, c.b, c.phase.st, input);
    ServerAdvances(cfg.env, cfg.password.value, c.b, c.phase.st, frame, input);
    ReceiveKeeps(cfg, who, c, registered, size, frame, st, sent, sendOk);
  }

  lemma ReceiveKeeps(cfg: Config, who: nat, c: Conn, registered: bool, size: nat, frame: H.Frame,
                     st: H.ServerState, sent: seq<H.Frame>, sendOk: bool)
    requires ValidConfig(cfg) && ConnOk(cfg, who, c, registered, size) && c.phase.Handshaking? && !st.AwaitCommit?
    requires Advances(cfg.env, cfg.password.value, c.b, c.phase.st, frame, st)
    ensures var t := AfterReceive(c, frame, st, sent, sendOk);
      Quiet(c, t) && !t.phase.Sending? && ConnOk(cfg, who, t, registered, size)
  {
    var t := AfterReceive(c, frame, st, sent, sendOk);
    ReceiveAuthentic(cfg, c, frame, st, sent, sendOk);
    ReceiveQuiet(c, frame, st, sent, sendOk);
    QuietConn(cfg, who, c, t, registered, size);
  }

  // --- messages ---------------------------------------------------------------------------------

  lemma OpeningAdvances(mac: Mac, ep: Endpoint, frame: SealedFrame)
    ensures var (next, r) := Opening(mac, ep, frame);
      && next == ep.(rxSeq := next.rxSeq) && ep.rxSeq <= next.rxSeq
      && (r.Success? ==> ep.rxSeq < frame.seqNo == next.rxSeq)
  {
  }

  // The session after a message, and where a text to be relayed comes from.
  ghost predicate Reacted(cfg: Config, c: Conn, session: Option<Endpoint>, reaction: Reaction) {
    && SameKeys(c.session, session)
    && (c.session.Some? ==> c.session.value.rxSeq <= session.value.rxSeq)
    && (reaction.Pass? ==>
      && SourceOk(cfg, c, reaction.chat, reaction.source)
      && (c.session.Some? ==> c.session.value.rxSeq < Number(reaction.source) <= session.value.rxSeq))
  }

  lemma ReactReacts(cfg: Config, c: Conn, incoming: Incoming)
    requires c.session.Some? ==> !c.session.value.isClient
    ensures var (session, reaction) := React(cfg.codec, c.session, c.name, incoming);
      Reacted(cfg, c, session, reaction)
  {
    if incoming.SealedIn? && c.session.Some? {
      OpeningAdvances(cfg.codec.mac, c.session.value, incoming.frame);
    }
  }

  lemma SourceKept(cfg: Config, c: Conn, t: Conn, chat: Chat, source: Source)
    requires SourceOk(cfg, c, chat, source) && SameKeys(c.session, t.session) && t.name == c.name
    ensures SourceOk(cfg, t, chat, source)
  {
  }

  lemma ReactionLogged(cfg: Config, c: Conn, session: Option<Endpoint>, reaction: Reaction, sendOk: bool)
    requires LogOk(cfg, c) && c.phase.Looping? && Reacted(cfg, c, session, reaction)
    ensures LogOk(cfg, AfterReaction(c.(session := session), reaction, sendOk))
  {
    var t := AfterReaction(c.(session := session), reaction, sendOk);
    forall n | 0 <= n < |c.log| ensures SourceOk(cfg, t, c.log[n].chat, c.log[n].source) {
      SourceKept(cfg, c, t, c.log[n].chat, c.log[n].source);
    }
    if reaction.Pass? {
      SourceKept(cfg, c, t, reaction.chat, reaction.source);
    }
  }

  lemma ReactionQuiet(c: Conn, session: Option<Endpoint>, reaction: Reaction, sendOk: bool)
    requires c.phase.Looping? && SameKeys(c.session, session)
    ensures Quiet(c, AfterReaction(c.(session := session), reaction, sendOk))
  {
  }

  lemma ReactionAuthentic(cfg: Config, c: Conn, session: Option<Endpoint>, reaction: Reaction, sendOk: bool)
    requires ValidConfig(cfg) && Authentic(cfg, c) && c.phase.Looping? && c.joined && SameKeys(c.session, session)
    ensures Authentic(cfg, AfterReaction(c.(session := session), reaction, sendOk))
  {
  }

  lemma ReactionKeeps(cfg: Config, who: nat, c: Conn, registered: bool, size: nat,
                      session: Option<Endpoint>, reaction: Reaction, sendOk: bool)
    requires ValidConfig(cfg) && ConnOk(cfg, who, c, registered, size) && c.phase.Looping?
    requires Reacted(cfg, c, session, reaction)
    requires LogOk(cfg, AfterReaction(c.(session := session), reaction, sendOk))
    ensures var t := AfterReaction(c.(session := session), reaction, sendOk);
      Quiet(c, t) && !t.phase.Sending? && ConnOk(cfg, who, t, registered, size)
  {
    var t := AfterReaction(c.(session := session), reaction, sendOk);
    ReactionQuiet(c, session, reaction, sendOk);
    ReactionAuthentic(cfg, c, session, reaction, sendOk);
    QuietConn(cfg, who, c, t, registered, size);
  }

  lemma OnMessageKeeps(cfg: Config, who: nat, c: Conn, registered: bool, size: nat, incoming: Incoming, sendOk: bool)
    requires ValidConfig(cfg) && ConnOk(cfg, who, c, registered, size) && c.phase.Looping?
    ensures var t := OnMessage(cfg, c, incoming, sendOk);
      Quiet(c, t) && !t.phase.Sending? && ConnOk(cfg, who, t, registered, size)
  {
    var (session, reaction) := React(cfg.codec, c.session, c.name, incoming);
    ReactReacts(cfg, c, incoming);
    ReactionLogged(cfg, c, session, reaction, sendOk);
    ReactionKeeps(cfg, who, c, registered, size, session, reaction, sendOk);
  }

  // --- the steps of one thread ------------------------------------------------------------------

  lemma HearKeeps(cfg: Config, s: State, i: nat, incoming: Incoming, sendOk: bool)
    requires ValidConfig(cfg) && NodeOk(cfg, s) && Enabled(s, Hear(i, incoming, sendOk))
    ensures NodeOk(cfg, Step(cfg, s, Hear(i, incoming, sendOk)))
  {
    var c := s.conns[i];
    var t := Heard(cfg, c, incoming, sendOk);
    assert ConnOk(cfg, i, c, i in s.registry, |s.conns|);
    match c.phase {
      case AwaitHello => OnHelloKeeps(cfg, i, c, i in s.registry, |s.conns|, incoming, sendOk);
      case Handshaking(_) => OnHandshakeKeeps(cfg, i, c, i in s.registry, |s.conns|, incoming, sendOk);
      case Looping => OnMessageKeeps(cfg, i, c, i in s.registry, |s.conns|, incoming, sendOk);
    }
    QuietStep(cfg, s, i, t, s.registry);
  }

  lemma QuietStep(cfg: Config, s: State, i: nat, t: Conn, registry: set<nat>)
    requires ValidConfig(cfg) && NodeOk(cfg, s) && i < |s.conns|
    requires forall k :: k != i ==> (k in registry <==> k in s.registry)
    requires Quiet(s.conns[i], t) && !s.conns[i].phase.Sending? && !t.phase.Sending?
    requires ConnOk(cfg, i, t, i in registry, |s.conns|)
    ensures NodeOk(cfg, State(s.conns[i := t], registry))
  {
    forall j | 0 <= j < |s.conns| && j != i
      ensures PairOk(cfg, i, t, j, s.conns[j]) && ReaderSame(j, s.conns[i], t)
    {
      QuietConcernsNobody(s.conns[i], t, j);
      AuthorChanges(cfg, i, s.conns[i], t, j, s.conns[j]);
    }
    OneChanges(cfg, s, i, t, registry);
  }

  // Joining the registry.
  lemma JoinConn(cfg: Config, who: nat, c: Conn, registered: bool, size: nat)
    requires ValidConfig(cfg) && ConnOk(cfg, who, c, registered, size) && c.phase.Joining?
    ensures ConnOk(cfg, who, c.(phase := Looping, joined := true), true, size)
  {
  }

  lemma JoinPair(cfg: Config, i: nat, c: Conn, j: nat, reader: Conn)
    requires PairOk(cfg, i, c, j, reader) && c.phase.Joining?
    ensures var t := c.(phase := Looping, joined := true);
      PairOk(cfg, i, t, j, reader) && ReaderSame(j, c, t)
  {
    AuthorChanges(cfg, i, c, c.(phase := Looping, joined := true), j, reader);
  }

  lemma JoinKeeps(cfg: Config, s: State, i: nat)
    requires ValidConfig(cfg) && NodeOk(cfg, s) && Enabled(s, Join(i))
    ensures NodeOk(cfg, Step(cfg, s, Join(i)))
  {
    var c := s.conns[i];
    JoinConn(cfg, i, c, i in s.registry, |s.conns|);
    forall j | 0 <= j < |s.conns| && j != i
      ensures PairOk(cfg, i, c.(phase := Looping, joined := true), j, s.conns[j])
      ensures ReaderSame(j, c, c.(phase := Looping, joined := true))
    {
      JoinPair(cfg, i, c, j, s.conns[j]);
    }
    OneChanges(cfg, s, i, c.(phase := Looping, joined := true), s.registry + {i});
  }

  lemma FinishConn(cfg: Config, who: nat, c: Conn, registered: bool, size: nat)
    requires ValidConfig(cfg) && ConnOk(cfg, who, c, registered, size) && c.phase.Relaying? && c.phase.todo == []
    ensures Quiet(c, c.(phase := Looping)) && ConnOk(cfg, who, c.(phase := Looping), registered, size)
  {
    AnyPhaseLogged(cfg, c, Looping);
  }

  lemma LeaveConn(cfg: Config, who: nat, c: Conn, registered: bool, size: nat)
    requires ValidConfig(cfg) && ConnOk(cfg, who, c, registered, size) && c.phase.Closing?
    ensures Quiet(c, c.(phase := Exited)) && ConnOk(cfg, who, c.(phase := Exited), false, size)
  {
    AnyPhaseLogged(cfg, c, Exited);
  }

  lemma AnyPhaseLogged(cfg: Config, c: Conn, phase: Phase)
    requires LogOk(cfg, c) && !c.phase.Announcing? && !phase.Announcing?
    ensures LogOk(cfg, c.(phase := phase))
  {
    var t := c.(phase := phase);
    forall n | 0 <= n < |c.log| ensures SourceOk(cfg, t, c.log[n].chat, c.log[n].source) {
      SourceKept(cfg, c, t, c.log[n].chat, c.log[n].source);
    }
  }

  lemma FinishKeeps(cfg: Config, s: State, i: nat)
    requires ValidConfig(cfg) && NodeOk(cfg, s) && Enabled(s, Finish(i))
    ensures NodeOk(cfg, Step(cfg, s, Finish(i)))
  {
    FinishConn(cfg, i, s.conns[i], i in s.registry, |s.conns|);
    QuietStep(cfg, s, i, s.conns[i].(phase := Looping), s.registry);
  }

  lemma LeaveKeeps(cfg: Config, s: State, i: nat)
    requires ValidConfig(cfg) && NodeOk(cfg, s) && Enabled(s, Leave(i))
    ensures NodeOk(cfg, Step(cfg, s, Leave(i)))
  {
    LeaveConn(cfg, i, s.conns[i], i in s.registry, |s.conns|);
    QuietStep(cfg, s, i, s.conns[i].(phase := Exited), s.registry - {i});
  }

  // The broadcast begins: every recipient is registered, so it has joined.
  lemma AnnounceConn(cfg: Config, who: nat, c: Conn, registered: bool, size: nat, order: seq<nat>)
    requires ValidConfig(cfg) && ConnOk(cfg, who, c, registered, size) && c.phase.Announcing?
    requires forall r :: r in order ==> r < size && r != who
    requires forall a, b :: 0 <= a < b < |order| ==> order[a] != order[b]
    ensures ConnOk(cfg, who, Announced(c, order), registered, size)
  {
    AnnouncedLog(cfg, c, order);
  }

  lemma AnnouncedLog(cfg: Config, c: Conn, order: seq<nat>)
    requires LogOk(cfg, c) && c.phase.Announcing?
    ensures LogOk(cfg, Announced(c, order))
  {
    var t := Announced(c, order);
    forall n | 0 <= n < |t.log| ensures SourceOk(cfg, t, t.log[n].chat, t.log[n].source) {
      if n < |c.log| {
        SourceKept(cfg, c, t, c.log[n].chat, c.log[n].source);
      } else {
        SourceKept(cfg, c, t, c.phase.chat, c.phase.source);
      }
    }
  }

  lemma AnnouncePair(cfg: Config, i: nat, c: Conn, j: nat, reader: Conn, order: seq<nat>)
    requires PairOk(cfg, i, c, j, reader) && c.phase.Announcing? && (j in order ==> reader.joined)
    ensures PairOk(cfg, i, Announced(c, order), j, reader)
  {
  }

  lemma AnnounceKeeps(cfg: Config, s: State, i: nat, order: seq<nat>)
    requires ValidConfig(cfg) && NodeOk(cfg, s) && Enabled(s, Announce(i, order))
    ensures NodeOk(cfg, Step(cfg, s, Announce(i, order)))
  {
    var c := s.conns[i];
    var t := Announced(c, order);
    AnnounceConn(cfg, i, c, i in s.registry, |s.conns|, order);
    forall j | 0 <= j < |s.conns| && j != i ensures PairOk(cfg, i, t, j, s.conns[j]) && ReaderSame(j, c, t) {
      assert ConnOk(cfg, j, s.conns[j], j in s.registry, |s.conns|);
      AnnouncePair(cfg, i, c, j, s.conns[j], order);
    }
    OneChanges(cfg, s, i, t, s.registry);
  }

  // --- serving a recipient ----------------------------------------------------------------------

  // What sealing gives: the message for the owner of the session, under its next number.
  lemma PrepareCarries(cfg: Config, session: Option<Endpoint>, chat: Chat)
    requires session.Some? ==> session.value.epoch == 0
    ensures var (next, frame) := Prepare(cfg.codec, session, chat);
      && SameKeys(session, next)
      && (session.Some? ==> next.value.txSeq == session.value.txSeq + 1 && next.value.rxSeq == session.value.rxSeq)
      && (frame.Success? ==> Carries(cfg, next, frame.value, chat))
      && (frame.Success? && session.Some? ==> frame.value.Sealed? && frame.value.frame.seqNo == next.value.txSeq)
  {
    if session.Some? {
      var ep, text := session.value, cfg.codec.encode(chat);
      SealSucceeds(cfg.codec.mac, ep, text);
      if CanSeal(ep, text) {
        BodyUnpacks(ep.(txSeq := ep.txSeq + 1), text);
      }
    }
  }

  lemma LogKept(cfg: Config, r: Conn, t: Conn)
    requires LogOk(cfg, r) && t.log == r.log && t.phase == r.phase && t.name == r.name
    requires SameKeys(r.session, t.session) && (r.session.Some? ==> r.session.value.rxSeq == t.session.value.rxSeq)
    ensures LogOk(cfg, t)
  {
    forall n | 0 <= n < |r.log| ensures SourceOk(cfg, t, r.log[n].chat, r.log[n].source) {
      SourceKept(cfg, r, t, r.log[n].chat, r.log[n].source);
    }
    if r.phase.Announcing? {
      SourceKept(cfg, r, t, r.phase.chat, r.phase.source);
    }
  }

  // A recipient that was served: only its session's counter, its lock, its wire and its standing changed.
  lemma ReaderConn(cfg: Config, j: nat, r: Conn, t: Conn, was: bool, registered: bool, size: nat)
    requires ValidConfig(cfg) && ConnOk(cfg, j, r, was, size) && r.joined && WireOk(t)
    requires t == r.(session := t.session, lock := t.lock, wire := t.wire, dropped := t.dropped)
    requires SameKeys(r.session, t.session) && (r.session.Some? ==> r.session.value.rxSeq == t.session.value.rxSeq)
    requires registered <==> !t.dropped && !t.phase.Exited?
    requires t.lock.Some? ==> t.lock.value < size && t.lock.value != j
    requires forall k :: 0 <= k < |t.wire| && t.wire[k].origin.Relayed? ==>
      t.wire[k].origin.from < size && t.wire[k].origin.from != j
    ensures ConnOk(cfg, j, t, registered, size)
  {
    LogKept(cfg, r, t);
    assert Todo(t) == Todo(r);
  }

  // An author that moved within its fan-out.
  lemma FanOutConn(cfg: Config, i: nat, c: Conn, t: Conn, registered: bool, size: nat)
    requires ValidConfig(cfg) && ConnOk(cfg, i, c, registered, size) && InFanOut(c) && InFanOut(t)
    requires t == c.(phase := t.phase)
    requires t.phase.todo == c.phase.todo || (c.phase.todo != [] && t.phase.todo == c.phase.todo[1..])
    requires t.phase.Sending? || t.phase.Dropping? ==> t.phase.todo != []
    ensures ConnOk(cfg, i, t, registered, size)
  {
    AnyPhaseLogged(cfg, c, t.phase);
    FewerToServe(c, t);
  }

  lemma FewerToServe(c: Conn, t: Conn)
    requires InFanOut(c) && InFanOut(t)
    requires t.phase.todo == c.phase.todo || (c.phase.todo != [] && t.phase.todo == c.phase.todo[1..])
    requires forall k, l :: 0 <= k < l < |Todo(c)| ==> Todo(c)[k] != Todo(c)[l]
    ensures forall r :: r in Todo(t) ==> r in Todo(c)
    ensures forall k, l :: 0 <= k < l < |Todo(t)| ==> Todo(t)[k] != Todo(t)[l]
    ensures Todo(t) != Todo(c) ==> forall r :: r in Todo(t) <==> r in Todo(c) && r != Todo(c)[0]
  {
    assert Todo(c) == c.phase.todo && Todo(t) == t.phase.todo;
    if t.phase.todo != c.phase.todo {
      assert c.phase.todo == [c.phase.todo[0]] + t.phase.todo;
    }
  }

  lemma ServedTarget(cfg: Config, s: State, i: nat)
    requires ValidConfig(cfg) && NodeOk(cfg, s) && i < |s.conns| && InFanOut(s.conns[i]) && s.conns[i].phase.todo != []
    ensures var c := s.conns[i];
      var j := c.phase.todo[0];
      && c.log != [] && j < |s.conns| && j != i && j in Todo(c) && j in c.log[|c.log| - 1].recipients
      && (forall k, l :: 0 <= k < l < |Todo(c)| ==> Todo(c)[k] != Todo(c)[l])
      && PairOk(cfg, i, c, j, s.conns[j]) && ServedReader(s.conns[j], j in s.registry)
  {
    var c := s.conns[i];
    assert ConnOk(cfg, i, c, i in s.registry, |s.conns|);
    assert c.phase.todo[0] in Todo(c);
    var j := c.phase.todo[0];
    assert ConnOk(cfg, j, s.conns[j], j in s.registry, |s.conns|);
    assert PairOk(cfg, i, c, j, s.conns[j]);
  }

  ghost predicate ServedReader(r: Conn, registered: bool) {
    && WireOk(r) && r.joined && (registered <==> !r.dropped && !r.phase.Exited?)
    && (r.session.Some? ==> r.session.value.epoch == 0)
  }

  // Between author and recipient: the frame just sealed is the newest there is.
  lemma NewestFrame(r: Conn, session: Option<Endpoint>, frame: OutFrame)
    requires WireOk(r) && r.session.Some? && session.Some? && frame.Sealed?
    requires frame.frame.seqNo == session.value.txSeq == r.session.value.txSeq + 1
    ensures forall k :: 0 <= k < |r.wire| && r.wire[k].frame.Sealed? ==> r.wire[k].frame.frame.seqNo < frame.frame.seqNo
  {
    forall k | 0 <= k < |r.wire| && r.wire[k].frame.Sealed?
      ensures r.wire[k].frame.frame.seqNo < frame.frame.seqNo
    {
      assert EntryOk(r.session, r.wire[k]);
    }
  }

  lemma LockTaken(cfg: Config, i: nat, c: Conn, t: Conn, j: nat, r: Conn)
    requires PairOk(cfg, i, c, j, r) && c.phase.Relaying? && Target(c) == Some(j) && c.log != []
    requires t == c.(phase := t.phase) && t.phase.Sending? && t.phase.todo == c.phase.todo && UnderWay(cfg, t, r)
    ensures PairOk(cfg, i, t, j, r.(lock := Some(i)))
  {
    var r1 := r.(lock := Some(i));
    forall k | 0 <= k < |r1.wire| && From(r1.wire[k], i) ensures EntryFits(cfg, t, j, r1, r1.wire[k]) {
      assert EntryFits(cfg, c, j, r, r.wire[k]);
    }
    assert forall n :: Reached(r.wire, i, n) ==> Reached(r1.wire, i, n);
  }

  // The frame just sealed, as it is about to be sent.
  ghost predicate JustSealed(cfg: Config, r: Conn, session: Option<Endpoint>, frame: OutFrame, chat: Chat) {
    && SameKeys(r.session, session) && Carries(cfg, session, frame, chat)
    && (session.Some? ==>
      && frame.Sealed? && frame.frame.seqNo == session.value.txSeq == r.session.value.txSeq + 1
      && session.value.rxSeq == r.session.value.rxSeq)
  }

  lemma SealedPair(cfg: Config, i: nat, c: Conn, j: nat, r: Conn, session: Option<Endpoint>, frame: OutFrame)
    requires PairOk(cfg, i, c, j, r) && c.phase.Relaying? && Target(c) == Some(j) && c.log != [] && WireOk(r)
    requires JustSealed(cfg, r, session, frame, c.log[|c.log| - 1].chat)
    ensures PairOk(cfg, i, c.(phase := Sending(c.phase.todo, frame)), j, r.(session := session, lock := Some(i)))
    ensures WireOk(r.(session := session, lock := Some(i)))
  {
    var r1 := r.(session := session);
    if session.Some? {
      NewestFrame(r, session, frame);
    }
    ReaderChanges(cfg, i, c, j, r, r1);
    LockTaken(cfg, i, c, c.(phase := Sending(c.phase.todo, frame)), j, r1);
    WireKept(r, r1.(lock := Some(i)));
  }

  // What Prepare gives for a recipient.
  lemma Prepared(cfg: Config, r: Conn, chat: Chat)
    requires r.session.Some? ==> r.session.value.epoch == 0
    ensures var (session, frame) := Prepare(cfg.codec, r.session, chat);
      && SameKeys(r.session, session)
      && (session.Some? ==> session.value.rxSeq == r.session.value.rxSeq)
      && (frame.Success? ==> JustSealed(cfg, r, session, frame.value, chat))
  {
    PrepareCarries(cfg, r.session, chat);
  }

  lemma SealIsStep(cfg: Config, s: State, i: nat)
    requires ValidConfig(cfg) && Enabled(s, Seal(i))
    ensures var j := Target(s.conns[i]).value;
      Step(cfg, s, Seal(i)) == With2(s, i, j, SealedBy(cfg, s.conns[i], i, s.conns[j]))
  {
  }

  lemma SealKeeps(cfg: Config, s: State, i: nat)
    requires ValidConfig(cfg) && NodeOk(cfg, s) && Enabled(s, Seal(i))
    ensures NodeOk(cfg, Step(cfg, s, Seal(i)))
  {
    var c := s.conns[i];
    var j := Target(c).value;
    ServedTarget(cfg, s, i);
    var chat := c.log[|c.log| - 1].chat;
    Prepared(cfg, s.conns[j], chat);
    var (session, frame) := Prepare(cfg.codec, s.conns[j].session, chat);
    SealIsStep(cfg, s, i);
    if frame.Success? {
      SealKeepsOk(cfg, s, i, j, session, frame.value);
    } else {
      SealKeepsFailed(cfg, s, i, j, session);
    }
  }

  lemma SealMoves(c: Conn, t: Conn, i: nat, j: nat, r: Conn, r1: Conn)
    requires c.phase.Relaying? && Target(c) == Some(j) && r.lock.None?
    requires t == c.(phase := t.phase) && (t.phase.Sending? || t.phase.Dropping?) && t.phase.todo == c.phase.todo
    requires r1 == r.(session := r1.session, lock := r1.lock) && (r1.lock.None? || r1.lock == Some(i))
    requires SameKeys(r.session, r1.session) && (r.session.Some? ==> r.session.value.rxSeq == r1.session.value.rxSeq)
    ensures AuthorMoves(c, t, j) && RecipientMoves(r, r1, i)
  {
  }

  // A step towards one recipient, given what the pair looks like after it.
  lemma TargetStep(cfg: Config, s: State, i: nat, j: nat, t: Conn, r1: Conn)
    requires ValidConfig(cfg) && NodeOk(cfg, s) && i < |s.conns|
    requires InFanOut(s.conns[i]) && Target(s.conns[i]) == Some(j)
    requires j < |s.conns| && AuthorMoves(s.conns[i], t, j) && RecipientMoves(s.conns[j], r1, i)
    requires PairOk(cfg, i, t, j, r1) && WireOk(r1) && r1.dropped == s.conns[j].dropped
    ensures NodeOk(cfg, With2(s, i, j, (t, r1)))
  {
    ServedTarget(cfg, s, i);
    ServeStep(cfg, s, i, j, t, r1, s.registry);
  }

  // The thread of i is about to seal for j.
  ghost predicate MaySeal(s: State, i: nat, j: nat) {
    && i < |s.conns| && j < |s.conns| && s.conns[i].phase.Relaying? && Target(s.conns[i]) == Some(j)
    && s.conns[i].log != [] && s.conns[j].lock.None?
  }

  // What sealing needs to know of the author and the recipient.
  ghost predicate MeetFor(cfg: Config, i: nat, c: Conn, j: nat, r: Conn) {
    PairOk(cfg, i, c, j, r) && WireOk(r)
  }

  lemma Meet(cfg: Config, s: State, i: nat, j: nat)
    requires ValidConfig(cfg) && NodeOk(cfg, s) && MaySeal(s, i, j)
    ensures MeetFor(cfg, i, s.conns[i], j, s.conns[j])
  {
    ServedTarget(cfg, s, i);
  }

  lemma SealedTarget(cfg: Config, i: nat, c: Conn, j: nat, r: Conn, session: Option<Endpoint>, frame: OutFrame)
    requires MeetFor(cfg, i, c, j, r) && c.phase.Relaying? && Target(c) == Some(j) && c.log != []
    requires JustSealed(cfg, r, session, frame, c.log[|c.log| - 1].chat)
    ensures MeetFor(cfg, i, c.(phase := Sending(c.phase.todo, frame)), j, r.(session := session, lock := Some(i)))
  {
    SealedPair(cfg, i, c, j, r, session, frame);
  }

  lemma SealKeepsOk(cfg: Config, s: State, i: nat, j: nat, session: Option<Endpoint>, frame: OutFrame)
    requires ValidConfig(cfg) && NodeOk(cfg, s) && MaySeal(s, i, j)
    requires JustSealed(cfg, s.conns[j], session, frame, s.conns[i].log[|s.conns[i].log| - 1].chat)
    ensures var t := s.conns[i].(phase := Sending(s.conns[i].phase.todo, frame));
      NodeOk(cfg, With2(s, i, j, (t, s.conns[j].(session := session, lock := Some(i)))))
  {
    var c, r := s.conns[i], s.conns[j];
    var t := c.(phase := Sending(c.phase.todo, frame));
    var r1 := r.(session := session, lock := Some(i));
    Meet(cfg, s, i, j);
    SealedTarget(cfg, i, c, j, r, session, frame);
    SealMoves(c, t, i, j, r, r1);
    TargetStep(cfg, s, i, j, t, r1);
  }

  lemma UnsealedPair(cfg: Config, i: nat, c: Conn, t: Conn, j: nat, r: Conn, session: Option<Endpoint>)
    requires PairOk(cfg, i, c, j, r) && c.phase.Relaying? && SameKeys(r.session, session)
    requires t == c.(phase := Dropping(c.phase.todo))
    ensures PairOk(cfg, i, t, j, r.(session := session))
  {
    AuthorChanges(cfg, i, c, t, j, r);
    ReaderChanges(cfg, i, t, j, r, r.(session := session));
  }

  lemma WireKept(r: Conn, t: Conn)
    requires WireOk(r) && t.wire == r.wire && SameKeys(r.session, t.session)
    ensures WireOk(t)
  {
    forall k | 0 <= k < |t.wire| ensures EntryOk(t.session, t.wire[k]) {
      assert EntryOk(r.session, r.wire[k]);
    }
  }

  lemma SealKeepsFailed(cfg: Config, s: State, i: nat, j: nat, session: Option<Endpoint>)
    requires ValidConfig(cfg) && NodeOk(cfg, s) && Enabled(s, Seal(i)) && Target(s.conns[i]) == Some(j)
    requires SameKeys(s.conns[j].session, session)
    requires session.Some? ==> session.value.rxSeq == s.conns[j].session.value.rxSeq
    ensures var t := s.conns[i].(phase := Dropping(s.conns[i].phase.todo));
      NodeOk(cfg, With2(s, i, j, (t, s.conns[j].(session := session))))
  {
    var c, r := s.conns[i], s.conns[j];
    var t, r1 := c.(phase := Dropping(c.phase.todo)), r.(session := session);
    assert PairOk(cfg, i, t, j, r1) && WireOk(r1) by {
      ServedTarget(cfg, s, i);
      UnsealedPair(cfg, i, c, t, j, r, session);
      WireKept(r, r1);
    }
    SealMoves(c, t, i, j, r, r1);
    TargetStep(cfg, s, i, j, t, r1);
  }

  // The recipient as an author, the author as its reader: neither has changed in that respect.
  lemma BackPair(cfg: Config, j: nat, r: Conn, r1: Conn, i: nat, c: Conn, t: Conn)
    requires PairOk(cfg, j, r, i, c) && r1.phase == r.phase && r1.log == r.log && t == c.(phase := t.phase)
    ensures PairOk(cfg, j, r1, i, t)
  {
    AuthorChanges(cfg, j, r, r1, i, c);
    ReaderChanges(cfg, j, r1, i, c, t);
  }

  // An author moves on in its fan-out.
  ghost predicate AuthorMoves(c: Conn, t: Conn, j: nat) {
    && InFanOut(c) && InFanOut(t) && Target(c) == Some(j) && t == c.(phase := t.phase)
    && (t.phase.todo == c.phase.todo || (t.phase.todo == c.phase.todo[1..] && t.phase.Relaying?))
  }

  // What it may do to its recipient on the way.
  ghost predicate RecipientMoves(r: Conn, t: Conn, i: nat) {
    && t == r.(session := t.session, lock := t.lock, wire := t.wire, dropped := t.dropped)
    && (r.dropped ==> t.dropped)
    && SameKeys(r.session, t.session) && (r.session.Some? ==> r.session.value.rxSeq == t.session.value.rxSeq)
    && (r.lock == t.lock || (r.lock.None? && t.lock == Some(i)) || (r.lock == Some(i) && t.lock.None?))
    && (t.wire == r.wire || (r.lock == Some(i) && |t.wire| == |r.wire| + 1 && t.wire[..|r.wire|] == r.wire
      && From(t.wire[|r.wire|], i)))
  }

  lemma FanOutConcerns(c: Conn, t: Conn, r: Conn, r1: Conn, i: nat, j: nat, k: nat)
    requires AuthorMoves(c, t, j) && RecipientMoves(r, r1, i) && k != i && k != j
    requires forall a, b :: 0 <= a < b < |Todo(c)| ==> Todo(c)[a] != Todo(c)[b]
    ensures AuthorSame(c, t, k) && ReaderSame(k, c, t)
    ensures AuthorSame(r, r1, k) && ReaderSame(k, r, r1)
  {
    FewerToServe(c, t);
  }

  // One step of a fan-out: with the pair of author and recipient in order, all of the node is.
  lemma ServeStep(cfg: Config, s: State, i: nat, j: nat, t: Conn, r1: Conn, registry: set<nat>)
    requires ValidConfig(cfg) && NodeOk(cfg, s) && i < |s.conns| && j < |s.conns| && i != j
    requires AuthorMoves(s.conns[i], t, j) && RecipientMoves(s.conns[j], r1, i)
    requires PairOk(cfg, i, t, j, r1) && WireOk(r1)
    requires forall k :: k != j ==> (k in registry <==> k in s.registry)
    requires j in registry <==> !r1.dropped && !r1.phase.Exited?
    ensures NodeOk(cfg, State(s.conns[i := t][j := r1], registry))
  {
    var c, r := s.conns[i], s.conns[j];
    ServedTarget(cfg, s, i);
    assert ConnOk(cfg, i, c, i in s.registry, |s.conns|) && ConnOk(cfg, j, r, j in s.registry, |s.conns|);
    assert PairOk(cfg, j, r, i, c);
    FanOutConn(cfg, i, c, t, i in registry, |s.conns|);
    RecipientConn(cfg, i, j, r, r1, j in s.registry, j in registry, |s.conns|);
    BackPair(cfg, j, r, r1, i, c, t);
    forall k | 0 <= k < |s.conns| && k != i && k != j
      ensures AuthorSame(c, t, k) && ReaderSame(k, c, t) && AuthorSame(r, r1, k) && ReaderSame(k, r, r1)
    {
      FanOutConcerns(c, t, r, r1, i, j, k);
    }
    TwoChange(cfg, s, i, j, t, r1, registry);
  }

  lemma RecipientConn(cfg: Config, i: nat, j: nat, r: Conn, t: Conn, was: bool, registered: bool, size: nat)
    requires ValidConfig(cfg) && ConnOk(cfg, j, r, was, size) && r.joined && RecipientMoves(r, t, i) && WireOk(t)
    requires i < size && i != j && (registered <==> !t.dropped && !t.phase.Exited?)
    ensures ConnOk(cfg, j, t, registered, size)
  {
    forall k | 0 <= k < |t.wire| && t.wire[k].origin.Relayed?
      ensures t.wire[k].origin.from < size && t.wire[k].origin.from != j
    {
      if k < |r.wire| {
        assert t.wire[k] == r.wire[k];
      }
    }
    ReaderConn(cfg, j, r, t, was, registered, size);
  }

  // --- sending it -------------------------------------------------------------------------------

  lemma CarriedEntry(cfg: Config, session: Option<Endpoint>, e: Entry, chat: Chat)
    requires Carries(cfg, session, e.frame, chat) && e.origin.Relayed?
    requires e.frame.Sealed? && session.Some? ==> 0 < e.frame.frame.seqNo <= session.value.txSeq
    ensures EntryOk(session, e)
  {
  }

  lemma AppendedWire(r: Conn, t: Conn, e: Entry)
    requires WireOk(r) && t == r.(lock := None, wire := r.wire + [e]) && EntryOk(r.session, e)
    requires e.frame.Sealed? ==>
      forall k :: 0 <= k < |r.wire| && r.wire[k].frame.Sealed? ==> r.wire[k].frame.frame.seqNo < e.frame.frame.seqNo
    ensures WireOk(t)
  {
  }

  lemma TransmittedPair(cfg: Config, i: nat, c: Conn, t: Conn, j: nat, r: Conn)
    requires PairOk(cfg, i, c, j, r) && SendsTo(c, j) && c.phase.todo != [] && j in c.log[|c.log| - 1].recipients
    requires forall k, l :: 0 <= k < l < |Todo(c)| ==> Todo(c)[k] != Todo(c)[l]
    requires t == c.(phase := Relaying(c.phase.todo[1..]))
    ensures PairOk(cfg, i, t, j, r.(lock := None, wire := r.wire + [Entry(c.phase.frame, Relayed(i, |c.log| - 1))]))
  {
    var e := Entry(c.phase.frame, Relayed(i, |c.log| - 1));
    var r1 := r.(lock := None, wire := r.wire + [e]);
    FewerToServe(c, t);
    assert j !in Todo(t);
    OrderedAppend(r.wire, i, e);
    forall k | 0 <= k < |r1.wire| && From(r1.wire[k], i) ensures EntryFits(cfg, t, j, r1, r1.wire[k]) {
      if k < |r.wire| {
        assert r1.wire[k] == r.wire[k];
        assert EntryFits(cfg, c, j, r, r.wire[k]);
      }
    }
    forall n | 0 <= n < |t.log| && j in t.log[n].recipients ensures Reached(r1.wire, i, n) || r1.dropped {
      if n == |t.log| - 1 {
        assert r1.wire[|r.wire|].origin == Relayed(i, n);
      } else if Reached(r.wire, i, n) {
        ReachedGrows(r.wire, r1.wire, i, n);
      }
    }
  }

  lemma OrderedAppend(wire: seq<Entry>, i: nat, e: Entry)
    requires Ordered(wire, i) && From(e, i)
    requires forall k :: 0 <= k < |wire| && From(wire[k], i) ==> wire[k].origin.number < e.origin.number
    ensures Ordered(wire + [e], i)
  {
  }

  lemma TransmitKeeps(cfg: Config, s: State, i: nat, sendOk: bool)
    requires ValidConfig(cfg) && NodeOk(cfg, s) && Enabled(s, Transmit(i, sendOk))
    ensures NodeOk(cfg, Step(cfg, s, Transmit(i, sendOk)))
  {
    var c := s.conns[i];
    var j := Target(c).value;
    var r := s.conns[j];
    var (t, r1) := Transmitted(c, i, r, sendOk);
    ServedTarget(cfg, s, i);
    if sendOk {
      TransmittedPair(cfg, i, c, t, j, r);
      TransmittedWire(cfg, i, c, r);
    } else {
      UnsentPair(cfg, i, c, t, j, r);
    }
    ServeStep(cfg, s, i, j, t, r1, s.registry);
  }

  lemma TransmittedWire(cfg: Config, i: nat, c: Conn, r: Conn)
    requires WireOk(r) && c.phase.Sending? && c.log != [] && UnderWay(cfg, c, r)
    ensures WireOk(r.(lock := None, wire := r.wire + [Entry(c.phase.frame, Relayed(i, |c.log| - 1))]))
  {
    var e := Entry(c.phase.frame, Relayed(i, |c.log| - 1));
    CarriedEntry(cfg, r.session, e, c.log[|c.log| - 1].chat);
    AppendedWire(r, r.(lock := None, wire := r.wire + [e]), e);
  }

  lemma UnsentPair(cfg: Config, i: nat, c: Conn, t: Conn, j: nat, r: Conn)
    requires PairOk(cfg, i, c, j, r) && SendsTo(c, j) && t == c.(phase := Dropping(c.phase.todo))
    ensures PairOk(cfg, i, t, j, r.(lock := None))
  {
    var r1 := r.(lock := None);
    forall k | 0 <= k < |r1.wire| && From(r1.wire[k], i) ensures EntryFits(cfg, t, j, r1, r1.wire[k]) {
      assert EntryFits(cfg, c, j, r, r.wire[k]);
    }
    assert forall n :: Reached(r.wire, i, n) ==> Reached(r1.wire, i, n);
  }

  lemma DroppedPair(cfg: Config, i: nat, c: Conn, t: Conn, j: nat, r: Conn)
    requires PairOk(cfg, i, c, j, r) && c.phase.Dropping? && Target(c) == Some(j)
    requires forall k, l :: 0 <= k < l < |Todo(c)| ==> Todo(c)[k] != Todo(c)[l]
    requires t == c.(phase := Relaying(c.phase.todo[1..]))
    ensures PairOk(cfg, i, t, j, r.(dropped := true))
  {
    var r1 := r.(dropped := true);
    FewerToServe(c, t);
    forall k | 0 <= k < |r1.wire| && From(r1.wire[k], i) ensures EntryFits(cfg, t, j, r1, r1.wire[k]) {
      assert EntryFits(cfg, c, j, r, r.wire[k]);
    }
  }

  lemma DropKeeps(cfg: Config, s: State, i: nat)
    requires ValidConfig(cfg) && NodeOk(cfg, s) && Enabled(s, Drop(i))
    ensures NodeOk(cfg, Step(cfg, s, Drop(i)))
  {
    var c := s.conns[i];
    var j := Target(c).value;
    var t, r1 := c.(phase := Relaying(c.phase.todo[1..])), s.conns[j].(dropped := true);
    ServedTarget(cfg, s, i);
    DroppedPair(cfg, i, c, t, j, s.conns[j]);
    ServeStep(cfg, s, i, j, t, r1, s.registry - {j});
  }

  // --- a new connection -------------------------------------------------------------------------

  lemma AcceptPairs(cfg: Config, i: nat, c: Conn, registered: bool, size: nat, b: nat)
    requires ValidConfig(cfg) && ConnOk(cfg, i, c, registered, size)
    ensures ConnOk(cfg, i, c, registered, size + 1)
    ensures PairOk(cfg, i, c, size, NewConn(b)) && PairOk(cfg, size, NewConn(b), i, c)
  {
    assert Todo(c) != [] ==> Todo(c)[0] in Todo(c);
  }

  lemma AcceptPair(cfg: Config, s: State, b: nat, i: nat, j: nat)
    requires ValidConfig(cfg) && NodeOk(cfg, s) && i <= |s.conns| && j <= |s.conns| && i != j
    ensures var t := s.conns + [NewConn(b)];
      PairOk(cfg, i, t[i], j, t[j])
  {
    var n := |s.conns|;
    if i == n {
      AcceptPairs(cfg, j, s.conns[j], j in s.registry, n, b);
    } else if j == n {
      AcceptPairs(cfg, i, s.conns[i], i in s.registry, n, b);
    }
  }

  lemma AcceptConn(cfg: Config, s: State, b: nat, i: nat)
    requires ValidConfig(cfg) && NodeOk(cfg, s) && i <= |s.conns|
    ensures ConnOk(cfg, i, (s.conns + [NewConn(b)])[i], i in s.registry, |s.conns| + 1)
  {
    if i < |s.conns| {
      AcceptPairs(cfg, i, s.conns[i], i in s.registry, |s.conns|, b);
    }
  }

  lemma AcceptKeeps(cfg: Config, s: State, b: nat)
    requires ValidConfig(cfg) && NodeOk(cfg, s)
    ensures NodeOk(cfg, Step(cfg, s, Accept(b)))
  {
    var t := s.(conns := s.conns + [NewConn(b)]);
    forall i | 0 <= i < |t.conns| ensures ConnOk(cfg, i, t.conns[i], i in t.registry, |t.conns|) {
      AcceptConn(cfg, s, b, i);
    }
    forall i, j | 0 <= i < |t.conns| && 0 <= j < |t.conns| && i != j ensures PairOk(cfg, i, t.conns[i], j, t.conns[j]) {
      AcceptPair(cfg, s, b, i, j);
    }
  }

  // --- every run --------------------------------------------------------------------------------

  lemma StepKeeps(cfg: Config, s: State, action: Action)
    requires ValidConfig(cfg) && NodeOk(cfg, s)
    ensures NodeOk(cfg, Step(cfg, s, action))
  {
    if Enabled(s, action) {
      match action
      case Accept(b) => AcceptKeeps(cfg, s, b);
      case Hear(i, incoming, sendOk) => HearKeeps(cfg, s, i, incoming, sendOk);
      case Join(i) => JoinKeeps(cfg, s, i);
      case Announce(i, order) => AnnounceKeeps(cfg, s, i, order);
      case Seal(i) => SealKeeps(cfg, s, i);
      case Transmit(i, sendOk) => TransmitKeeps(cfg, s, i, sendOk);
      case Drop(i) => DropKeeps(cfg, s, i);
      case Finish(i) => FinishKeeps(cfg, s, i);
      case Leave(i) => LeaveKeeps(cfg, s, i);
    }
  }

  // Whatever the clients send, whoever joins, leaves or fails, and however the threads interleave.
  lemma {:induction false} RunKeeps(cfg: Config, s: State, actions: seq<Action>)
    requires ValidConfig(cfg) && NodeOk(cfg, s)
    ensures NodeOk(cfg, Run(cfg, s, actions))
    decreases |actions|
  {
    if actions != [] {
      StepKeeps(cfg, s, actions[0]);
      RunKeeps(cfg, Step(cfg, s, actions[0]), actions[1..]);
    }
  }
}
