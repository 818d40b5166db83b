/** The handshakes inside a node's runs: what stands on a connection's wire is what run_server sends. */
module NodeHandshake {
  import opened Bytes
  import H = Handshake
  import opened NodeHistory
  import opened NodeInvariant
  import opened NodeSteps
  import opened NodeTheorems
  import opened Relay
  import opened Results
  import opened ServerNode
  import opened Session

  // The handshake frames on a wire.
  function CovenantsOn(wire: seq<Entry>): seq<H.Frame> {
    if wire == [] then []
    else
      var last := wire[|wire| - 1].frame;
      CovenantsOn(wire[..|wire| - 1]) + if last.Covenant? then [last.message] else []
  }

  lemma OneMoreEntry(wire: seq<Entry>, e: Entry)
    ensures CovenantsOn(wire + [e]) == CovenantsOn(wire) + if e.frame.Covenant? then [e.frame.message] else []
  {
    assert (wire + [e])[..|wire|] == wire;
  }

  lemma {:induction false} MoreEntries(wire: seq<Entry>, messages: seq<H.Frame>)
    ensures CovenantsOn(wire + CovenantEntries(messages)) == CovenantsOn(wire) + messages
  {
    if messages == [] {
      assert wire + CovenantEntries(messages) == wire;
    } else {
      var n := |messages| - 1;
      MoreEntries(wire, messages[..n]);
      assert CovenantEntries(messages) == CovenantEntries(messages[..n]) + [Entry(Covenant(messages[n]), Own)];
      OneMoreEntry(wire + CovenantEntries(messages[..n]), Entry(Covenant(messages[n]), Own));
      assert wire + CovenantEntries(messages)
          == (wire + CovenantEntries(messages[..n])) + [Entry(Covenant(messages[n]), Own)];
      assert messages == messages[..n] + [messages[n]];
    }
  }

  // run_server's frames so far, and all of them once there is a session.
  ghost predicate Answering(cfg: Config, c: Conn)
    requires ValidConfig(cfg)
  {
    && (c.phase.AwaitHello? ==> CovenantsOn(c.wire) == [])
    && (c.phase.Handshaking? && cfg.password.Some? ==>
        CovenantsOn(c.wire) == if c.heard == [] then [] else
          H.ServerStep(cfg.env, cfg.password.value, c.b, H.AwaitCommit, H.Received(c.heard[0])).1)
    && (c.session.Some? && cfg.password.Some? ==>
        CovenantsOn(c.wire) == H.ServerRun(cfg.env, cfg.password.value, c.b, c.heard, 2).1)
    && (cfg.password.None? ==> CovenantsOn(c.wire) == [])
  }

  // What one receive of the handshake makes of a connection: a send that raises ends it.
  ghost predicate Received(c: Conn, d: Conn, st: H.ServerState, sent: seq<H.Frame>, sendOk: bool) {
    if sent != [] && !sendOk then d == c.(phase := Closing)
    else
      && CovenantsOn(d.wire) == CovenantsOn(c.wire) + sent
      && (st.ServerFailed? ==> d.phase == Closing && d.session == c.session)
      && (st.ServerDone? ==>
          && d.phase == Joining && d.session.Some?
          && d.session.value == st.session.(compress := st.session.compress && !c.browser))
      && (!st.ServerFailed? && !st.ServerDone? ==> d.phase == Handshaking(st))
  }

  lemma AfterReceiveReceived(c: Conn, frame: H.Frame, st: H.ServerState, sent: seq<H.Frame>, sendOk: bool)
    requires c.phase.Handshaking?
    ensures Received(c, AfterReceive(c, frame, st, sent, sendOk), st, sent, sendOk)
  {
    MoreEntries(c.wire, sent);
  }

  lemma HandshakeFrameHeard(cfg: Config, s: State, i: nat, incoming: Incoming, sendOk: bool)
    requires ValidConfig(cfg) && cfg.password.Some? && i < |s.conns| && s.conns[i].phase.Handshaking?
    ensures i < |Step(cfg, s, Hear(i, incoming, sendOk)).conns|
    ensures var c, d := s.conns[i], Step(cfg, s, Hear(i, incoming, sendOk)).conns[i];
      var input := if incoming.HungUp? then H.Eof else H.Received(HandshakeFrame(incoming));
      var (st, sent) := H.ServerStep(cfg.env, cfg.password.value, c.b, c.phase.st, input);
      Received(c, d, st, sent, sendOk)
  {
    var c := s.conns[i];
    var input := if incoming.HungUp? then H.Eof else H.Received(HandshakeFrame(incoming));
    var (st, sent) := H.ServerStep(cfg.env, cfg.password.value, c.b, c.phase.st, input);
    AfterReceiveReceived(c, HandshakeFrame(incoming), st, sent, sendOk);
  }

  // The same handshake, and nothing of it added to the wire.
  ghost predicate SameHandshake(c: Conn, d: Conn) {
    && d.heard == c.heard && d.b == c.b && CovenantsOn(d.wire) == CovenantsOn(c.wire)
    && (d.phase.AwaitHello? ==> c.phase.AwaitHello?)
    && (d.phase.Handshaking? ==> c.phase.Handshaking?)
    && (d.session.Some? ==> c.session.Some?)
  }

  lemma SameAnswering(cfg: Config, c: Conn, d: Conn)
    requires ValidConfig(cfg) && Answering(cfg, c) && SameHandshake(c, d)
    ensures Answering(cfg, d)
  {
  }

  lemma HelloAnswering(cfg: Config, c: Conn, incoming: Incoming, sendOk: bool)
    requires ValidConfig(cfg) && Answering(cfg, c) && c.phase.AwaitHello? && c.heard == [] && c.session.None?
    ensures Answering(cfg, OnHello(cfg, c, incoming, sendOk))
  {
    if incoming.Hello? {
      OneMoreEntry(c.wire, Entry(HelloAck(cfg.password.Some?), Own));
    } else {
      OneMoreEntry(c.wire, Entry(ErrorFrame(400), Own));
    }
  }

  lemma MessageAnswering(cfg: Config, c: Conn, incoming: Incoming, sendOk: bool)
    requires ValidConfig(cfg) && c.phase.Looping?
    ensures SameHandshake(c, OnMessage(cfg, c, incoming, sendOk))
  {
    var (session, reaction) := React(cfg.codec, c.session, c.name, incoming);
    ReactionSame(c, session, reaction, sendOk);
  }

  lemma ReactionSame(c: Conn, session: Option<Endpoint>, reaction: Reaction, sendOk: bool)
    requires c.phase.Looping? && (session.Some? ==> c.session.Some?)
    ensures SameHandshake(c, AfterReaction(c.(session := session), reaction, sendOk))
  {
    if reaction.Reply? {
      OneMoreEntry(c.wire, Entry(ErrorFrame(reaction.code), Own));
    }
  }

  // Both receives of run_server.
  lemma WholeRun(env: H.Env, password: Bytes, b: nat, heard: seq<H.Frame>)
    requires env.p > 0 && |heard| == 2
    requires H.ServerStep(env, password, b, H.AwaitCommit, H.Received(heard[0])).0.AwaitConfirm?
    ensures var (st, sent) := H.ServerStep(env, password, b, H.AwaitCommit, H.Received(heard[0]));
      var (end, more) := H.ServerStep(env, password, b, st, H.Received(heard[1]));
      end.ServerDone? ==> H.ServerRun(env, password, b, heard, 2) == (end, sent + more)
  {
    assert H.Rest(heard) == [heard[1]];
  }

  lemma HandshakeAnswering(cfg: Config, c: Conn, incoming: Incoming, sendOk: bool)
    requires ValidConfig(cfg) && cfg.password.Some? && Answering(cfg, c)
    requires c.phase.Handshaking? && c.session.None? && HandshakeOk(cfg, c, c.phase.st)
    ensures Answering(cfg, OnHandshake(cfg, c, incoming, sendOk))
  {
    var frame := HandshakeFrame(incoming);
    var input := if incoming.HungUp? then H.Eof else H.Received(frame);
    var (st, sent) := H.ServerStep(cfg.env, cfg.password.value, c.b, c.phase.st, input);
    MoreEntries(c.wire, sent);
    ServerAdvances(cfg.env, cfg.password.value, c.b, c.phase.st, frame, input);
    if st.ServerDone? && (sent == [] || sendOk) {
      WholeRun(cfg.env, cfg.password.value, c.b, c.heard + [frame]);
    }
  }

  lemma HeardAnswering(cfg: Config, c: Conn, incoming: Incoming, sendOk: bool)
    requires ValidConfig(cfg) && Answering(cfg, c) && Authentic(cfg, c)
    ensures Answering(cfg, Heard(cfg, c, incoming, sendOk))
  {
    if c.phase.AwaitHello? {
      HelloAnswering(cfg, c, incoming, sendOk);
    } else if c.phase.Handshaking? && cfg.password.Some? {
      HandshakeAnswering(cfg, c, incoming, sendOk);
    } else if c.phase.Looping? {
      MessageAnswering(cfg, c, incoming, sendOk);
      SameAnswering(cfg, c, OnMessage(cfg, c, incoming, sendOk));
    }
  }

  lemma SealedSame(cfg: Config, c: Conn, who: nat, peer: Conn)
    requires c.phase.Relaying? && c.log != []
    ensures SameHandshake(c, SealedBy(cfg, c, who, peer).0) && SameHandshake(peer, SealedBy(cfg, c, who, peer).1)
  {
  }

  lemma TransmittedSame(c: Conn, who: nat, peer: Conn, sendOk: bool)
    requires c.phase.Sending? && c.phase.todo != [] && c.log != [] && !c.phase.frame.Covenant?
    ensures var (d, next) := Transmitted(c, who, peer, sendOk); SameHandshake(c, d) && SameHandshake(peer, next)
  {
    OneMoreEntry(peer.wire, Entry(c.phase.frame, Relayed(who, |c.log| - 1)));
  }

  lemma NothingCovenantUnderWay(cfg: Config, s: State, i: nat, j: nat)
    requires ValidConfig(cfg) && NodeOk(cfg, s) && i < |s.conns| && j < |s.conns| && i != j
    requires SendsTo(s.conns[i], j)
    ensures !s.conns[i].phase.frame.Covenant?
  {
    assert PairOk(cfg, i, s.conns[i], j, s.conns[j]);
  }

  ghost predicate AllAnswering(cfg: Config, s: State)
    requires ValidConfig(cfg)
  {
    forall i :: 0 <= i < |s.conns| ==> Answering(cfg, s.conns[i])
  }

  lemma NewAnswering(cfg: Config, s: State, action: Action, i: nat)
    requires ValidConfig(cfg) && |s.conns| <= i < |Step(cfg, s, action).conns|
    ensures Answering(cfg, Step(cfg, s, action).conns[i])
  {
  }

  lemma HearAnswering(cfg: Config, s: State, action: Action)
    requires ValidConfig(cfg) && NodeOk(cfg, s) && Enabled(s, action) && action.Hear?
    requires Answering(cfg, s.conns[action.who])
    ensures Answering(cfg, Step(cfg, s, action).conns[action.who])
  {
    assert ConnOk(cfg, action.who, s.conns[action.who], action.who in s.registry, |s.conns|);
    HeardAnswering(cfg, s.conns[action.who], action.incoming, action.sendOk);
  }

  lemma StepAnswering(cfg: Config, s: State, action: Action, i: nat)
    requires ValidConfig(cfg) && NodeOk(cfg, s) && Enabled(s, action)
    requires i < |s.conns| ==> Answering(cfg, s.conns[i])
    requires i < |Step(cfg, s, action).conns|
    ensures Answering(cfg, Step(cfg, s, action).conns[i])
  {
    if i >= |s.conns| {
      NewAnswering(cfg, s, action, i);
    } else if action.Hear? && action.who == i {
      HearAnswering(cfg, s, action);
    } else {
      StepSame(cfg, s, action, i);
      SameAnswering(cfg, s.conns[i], Step(cfg, s, action).conns[i]);
    }
  }

  lemma SealSame(cfg: Config, s: State, who: nat, i: nat)
    requires ValidConfig(cfg) && Enabled(s, Seal(who)) && i < |s.conns|
    ensures i < |Step(cfg, s, Seal(who)).conns| && SameHandshake(s.conns[i], Step(cfg, s, Seal(who)).conns[i])
  {
    SealedSame(cfg, s.conns[who], who, s.conns[Target(s.conns[who]).value]);
  }

  lemma TransmitSame(cfg: Config, s: State, who: nat, sendOk: bool, i: nat)
    requires ValidConfig(cfg) && NodeOk(cfg, s) && Enabled(s, Transmit(who, sendOk)) && i < |s.conns|
    ensures i < |Step(cfg, s, Transmit(who, sendOk)).conns|
    ensures SameHandshake(s.conns[i], Step(cfg, s, Transmit(who, sendOk)).conns[i])
  {
    var j := Target(s.conns[who]).value;
    NothingCovenantUnderWay(cfg, s, who, j);
    TransmittedSame(s.conns[who], who, s.conns[j], sendOk);
  }

  lemma StepSame(cfg: Config, s: State, action: Action, i: nat)
    requires ValidConfig(cfg) && NodeOk(cfg, s) && Enabled(s, action) && i < |s.conns|
    requires !(action.Hear? && action.who == i)
    ensures i < |Step(cfg, s, action).conns| && SameHandshake(s.conns[i], Step(cfg, s, action).conns[i])
  {
    match action {
      case Seal(who) => SealSame(cfg, s, who, i);
      case Transmit(who, sendOk) => TransmitSame(cfg, s, who, sendOk, i);
      case _ => QuietSame(cfg, s, action, i);
    }
  }

  lemma QuietSame(cfg: Config, s: State, action: Action, i: nat)
    requires ValidConfig(cfg) && Enabled(s, action) && i < |s.conns|
    requires !(action.Hear? && action.who == i) && !action.Seal? && !action.Transmit?
    ensures i < |Step(cfg, s, action).conns| && SameHandshake(s.conns[i], Step(cfg, s, action).conns[i])
  {
  }

  lemma {:induction false} RunAnswering(cfg: Config, actions: seq<Action>)
    requires ValidConfig(cfg)
    ensures AllAnswering(cfg, Run(cfg, EMPTY, actions))
    decreases |actions|
  {
    if actions != [] {
      var before, action := actions[..|actions| - 1], actions[|actions| - 1];
      RunAnswering(cfg, before);
      Reachable(cfg, before);
      assert actions == before + [action];
      RunMore(cfg, EMPTY, before, action);
      var s := Run(cfg, EMPTY, before);
      if Enabled(s, action) {
        forall i | 0 <= i < |Step(cfg, s, action).conns| ensures Answering(cfg, Step(cfg, s, action).conns[i]) {
          assert i < |s.conns| ==> Answering(cfg, s.conns[i]);
          StepAnswering(cfg, s, action, i);
        }
      }
    }
  }

  // In every reachable state of a protected node the handshake frames on the wire of a connection with a session
  // are exactly those that run_server sends for the two frames heard there; an open node sends none.
  lemma HandshakeOnWire(cfg: Config, actions: seq<Action>, i: nat)
    requires ValidConfig(cfg) && Present(cfg, actions, i)
    ensures var c := Now(cfg, actions, i);
      && (cfg.password.None? ==> CovenantsOn(c.wire) == [])
      && (c.session.Some? ==>
          && cfg.password.Some? && |c.heard| == 2
          && CovenantsOn(c.wire) == H.ServerRun(cfg.env, cfg.password.value, c.b, c.heard, 2).1)
  {
    RunAnswering(cfg, actions);
    Reachable(cfg, actions);
    var s := Run(cfg, EMPTY, actions);
    assert Answering(cfg, s.conns[i]);
    assert ConnOk(cfg, i, s.conns[i], i in s.registry, |s.conns|);
  }
}
