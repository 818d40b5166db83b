/** What holds in every reachable state of a node, whatever its threads, clients and sockets do. */
module NodeTheorems {
  import opened Bytes
  import H = Handshake
  import opened NodeInvariant
  import opened NodeSteps
  import opened Relay
  import opened Results
  import opened ServerNode
  import opened Session

  lemma Reachable(cfg: Config, actions: seq<Action>)
    requires ValidConfig(cfg)
    ensures NodeOk(cfg, Run(cfg, EMPTY, actions))
  {
    RunKeeps(cfg, EMPTY, actions);
  }

  // --- who is registered ------------------------------------------------------------------------

  // The connection's handshake: two frames that run_server accepted, and the session it returned.
  ghost predicate Authenticated(cfg: Config, c: Conn)
    requires ValidConfig(cfg) && cfg.password.Some?
  {
    && c.session.Some? && |c.heard| == 2
    && var end := H.ServerRun(cfg.env, cfg.password.value, c.b, c.heard, 2).0;
    && end.ServerDone?
    && c.session.value.txMac == end.session.txMac && c.session.value.rxMac == end.session.rxMac
    && c.session.value.compress == !c.browser
  }

  // Registered clients are connected and, on a protected node, authenticated; on an open node they have
  // no session. A thread that is over has left nobody behind.
  lemma RegisteredClients(cfg: Config, actions: seq<Action>, i: nat)
    requires ValidConfig(cfg) && i < |Run(cfg, EMPTY, actions).conns|
    ensures var s := Run(cfg, EMPTY, actions);
      var c := s.conns[i];
      && (i in s.registry ==> !c.phase.Exited? && !c.phase.AwaitHello? && !c.phase.Handshaking? && !c.phase.Joining?)
      && (i in s.registry && cfg.password.Some? ==> Authenticated(cfg, c))
      && (cfg.password.None? ==> c.session.None?)
  {
    Reachable(cfg, actions);
    var s := Run(cfg, EMPTY, actions);
    assert ConnOk(cfg, i, s.conns[i], i in s.registry, |s.conns|);
  }

  // A protected node never sends a chat message in plain, an open one never seals.
  lemma NothingInPlain(cfg: Config, actions: seq<Action>, i: nat, k: nat)
    requires ValidConfig(cfg) && i < |Run(cfg, EMPTY, actions).conns|
    requires k < |Run(cfg, EMPTY, actions).conns[i].wire|
    ensures var frame := Run(cfg, EMPTY, actions).conns[i].wire[k].frame;
      (cfg.password.Some? ==> !frame.ChatFrame?) && (cfg.password.None? ==> !frame.Sealed?)
  {
    Reachable(cfg, actions);
    var s := Run(cfg, EMPTY, actions);
    var c := s.conns[i];
    assert ConnOk(cfg, i, c, i in s.registry, |s.conns|);
    assert EntryOk(c.session, c.wire[k]);
  }

  // --- what is relayed --------------------------------------------------------------------------

  // Entry n of the log: its text is the one said, its sender the one given or else the connection's name. On a
  // protected node it was said in a sealed frame that the session of the author opened, in plain on an open one.
  ghost predicate Quoted(cfg: Config, c: Conn, b: Broadcast) {
    && (cfg.password.Some? <==> b.source.Opened?)
    && var said := if b.source.PlainChat? then Success(b.source.said)
         else OpenedChat(cfg.codec, b.source.before, b.source.frame);
    && said.Success? && b.chat.text == said.value.text
    && b.chat.sender == if said.value.sender == "" then c.name else said.value.sender
  }

  // Every broadcast of every connection quotes what was said there, and no sealed frame is relayed twice.
  lemma RelayedTexts(cfg: Config, actions: seq<Action>, i: nat)
    requires ValidConfig(cfg) && i < |Run(cfg, EMPTY, actions).conns|
    ensures var c := Run(cfg, EMPTY, actions).conns[i];
      && (forall n :: 0 <= n < |c.log| ==> Quoted(cfg, c, c.log[n]))
      && (cfg.password.Some? ==>
          forall m, n :: 0 <= m < n < |c.log| ==> Number(c.log[m].source) < Number(c.log[n].source))
  {
    Reachable(cfg, actions);
    var s := Run(cfg, EMPTY, actions);
    var c := s.conns[i];
    assert ConnOk(cfg, i, c, i in s.registry, |s.conns|);
    assert c.log != [] && cfg.password.Some? ==> c.session.Some?;
    forall n | 0 <= n < |c.log| ensures Quoted(cfg, c, c.log[n]) {
      assert SourceOk(cfg, c, c.log[n].chat, c.log[n].source);
    }
  }

  // Entry k of this wire was meant for its reader, carries its author's text, and is the author's newest so far.
  ghost predicate WellRelayed(cfg: Config, s: State, j: nat, k: nat)
    requires j < |s.conns| && k < |s.conns[j].wire| && s.conns[j].wire[k].origin.Relayed?
  {
    var wire := s.conns[j].wire;
    var Relayed(i, n) := wire[k].origin;
    && i != j && i < |s.conns| && n < |s.conns[i].log| && j in s.conns[i].log[n].recipients
    && Carries(cfg, s.conns[j].session, wire[k].frame, s.conns[i].log[n].chat)
    && (forall l :: 0 <= l < k && From(wire[l], i) ==> wire[l].origin.number < n)
  }

  lemma EntryWellRelayed(cfg: Config, s: State, j: nat, k: nat)
    requires ValidConfig(cfg) && NodeOk(cfg, s) && j < |s.conns| && k < |s.conns[j].wire|
    requires s.conns[j].wire[k].origin.Relayed?
    ensures WellRelayed(cfg, s, j, k)
  {
    assert ConnOk(cfg, j, s.conns[j], j in s.registry, |s.conns|);
    var i := s.conns[j].wire[k].origin.from;
    assert PairOk(cfg, i, s.conns[i], j, s.conns[j]);
    assert From(s.conns[j].wire[k], i);
  }

  // Whatever reaches a reader from an author was meant for it and carries the author's own text. Nobody
  // hears from themselves; each broadcast comes once at most; one author's broadcasts come in order.
  lemma RelayedInOrder(cfg: Config, actions: seq<Action>, j: nat, k: nat)
    requires ValidConfig(cfg) && j < |Run(cfg, EMPTY, actions).conns|
    requires k < |Run(cfg, EMPTY, actions).conns[j].wire|
    requires Run(cfg, EMPTY, actions).conns[j].wire[k].origin.Relayed?
    ensures WellRelayed(cfg, Run(cfg, EMPTY, actions), j, k)
  {
    Reachable(cfg, actions);
    EntryWellRelayed(cfg, Run(cfg, EMPTY, actions), j, k);
  }

  // Nothing is lost: once an author's fan-out is over, each recipient has the message or has been dropped
  // from the registry for good.
  lemma NothingLost(cfg: Config, actions: seq<Action>, i: nat, n: nat, j: nat)
    requires ValidConfig(cfg) && i < |Run(cfg, EMPTY, actions).conns|
    requires n < |Run(cfg, EMPTY, actions).conns[i].log|
    requires j in Run(cfg, EMPTY, actions).conns[i].log[n].recipients
    requires n < |Run(cfg, EMPTY, actions).conns[i].log| - 1 || !InFanOut(Run(cfg, EMPTY, actions).conns[i])
    ensures var s := Run(cfg, EMPTY, actions);
      j < |s.conns| && (Reached(s.conns[j].wire, i, n) || (s.conns[j].dropped && j !in s.registry))
  {
    Reachable(cfg, actions);
    var s := Run(cfg, EMPTY, actions);
    assert ConnOk(cfg, i, s.conns[i], i in s.registry, |s.conns|);
    assert ConnOk(cfg, j, s.conns[j], j in s.registry, |s.conns|);
    assert PairOk(cfg, i, s.conns[i], j, s.conns[j]);
  }

  // --- what a client makes of it ----------------------------------------------------------------

  // The sealed frames of a wire, in order.
  function SealedFrames(wire: seq<Entry>): seq<SealedFrame> {
    if wire == [] then []
    else (if wire[0].frame.Sealed? then [wire[0].frame.frame] else []) + SealedFrames(wire[1..])
  }

  // The messages relayed on a wire, in order.
  ghost function Texts(cfg: Config, conns: seq<Conn>, wire: seq<Entry>): seq<Result<Bytes>> {
    if wire == [] then []
    else
      (if wire[0].frame.Sealed? && wire[0].origin.Relayed? then
        var Relayed(i, n) := wire[0].origin;
        if i < |conns| && n < |conns[i].log| then [Success(cfg.codec.encode(conns[i].log[n].chat))] else []
      else []) + Texts(cfg, conns, wire[1..])
  }

  // A sealed frame of the wire is somebody's broadcast, for the owner of the session.
  ghost predicate CarriesText(cfg: Config, conns: seq<Conn>, ep: Endpoint, e: Entry) {
    e.frame.Sealed? ==>
      && e.origin.Relayed?
      && var Relayed(i, n) := e.origin;
      && i < |conns| && n < |conns[i].log| && Carries(cfg, Some(ep), e.frame, conns[i].log[n].chat)
  }

  ghost predicate Rising(wire: seq<Entry>, low: int) {
    && (forall k :: 0 <= k < |wire| && wire[k].frame.Sealed? ==> low < wire[k].frame.frame.seqNo)
    && (forall k, l :: 0 <= k < l < |wire| && wire[k].frame.Sealed? && wire[l].frame.Sealed? ==>
          wire[k].frame.frame.seqNo < wire[l].frame.frame.seqNo)
  }

  lemma OpenCarried(cfg: Config, ep: Endpoint, client: Endpoint, frame: OutFrame, chat: Chat)
    requires Peers(client, ep) && Carries(cfg, Some(ep), frame, chat) && client.rxSeq < frame.frame.seqNo
    ensures Opening(cfg.codec.mac, client, frame.frame)
         == (client.(rxSeq := frame.frame.seqNo), Success(cfg.codec.encode(chat)))
  {
  }

  lemma {:induction false} OpenAllTexts(cfg: Config, conns: seq<Conn>, ep: Endpoint, client: Endpoint, wire: seq<Entry>)
    requires Peers(client, ep) && Rising(wire, client.rxSeq)
    requires forall k :: 0 <= k < |wire| ==> CarriesText(cfg, conns, ep, wire[k])
    ensures OpenAll(cfg.codec.mac, client, SealedFrames(wire)) == Texts(cfg, conns, wire)
    decreases |wire|
  {
    if wire != [] {
      assert CarriesText(cfg, conns, ep, wire[0]);
      assert forall k :: 0 <= k < |wire[1..]| ==> wire[1..][k] == wire[k + 1];
      var f := wire[0].frame;
      var frames := SealedFrames(wire);
      if f.Sealed? {
        assert frames[1..] == SealedFrames(wire[1..]);
        var Relayed(i, n) := wire[0].origin;
        OpenCarried(cfg, ep, client, f, conns[i].log[n].chat);
        OpenAllTexts(cfg, conns, ep, client.(rxSeq := f.frame.seqNo), wire[1..]);
      } else {
        assert frames == SealedFrames(wire[1..]);
        OpenAllTexts(cfg, conns, ep, client, wire[1..]);
      }
    }
  }

  lemma EntryCarriesText(cfg: Config, s: State, j: nat, k: nat)
    requires ValidConfig(cfg) && NodeOk(cfg, s) && j < |s.conns| && k < |s.conns[j].wire|
    requires s.conns[j].session.Some?
    ensures CarriesText(cfg, s.conns, s.conns[j].session.value, s.conns[j].wire[k])
    ensures s.conns[j].wire[k].frame.Sealed? ==> 0 < s.conns[j].wire[k].frame.frame.seqNo
  {
    var c := s.conns[j];
    assert ConnOk(cfg, j, c, j in s.registry, |s.conns|);
    assert EntryOk(c.session, c.wire[k]);
    if c.wire[k].frame.Sealed? {
      EntryWellRelayed(cfg, s, j, k);
    }
  }

  // What a reader needs: every entry carries a text, and the numbers rise.
  lemma WireReadable(cfg: Config, s: State, j: nat)
    requires ValidConfig(cfg) && NodeOk(cfg, s) && j < |s.conns| && s.conns[j].session.Some?
    ensures var c := s.conns[j];
      && (forall k :: 0 <= k < |c.wire| ==> CarriesText(cfg, s.conns, c.session.value, c.wire[k]))
      && Rising(c.wire, 0)
  {
    var c := s.conns[j];
    forall k | 0 <= k < |c.wire|
      ensures CarriesText(cfg, s.conns, c.session.value, c.wire[k])
      ensures c.wire[k].frame.Sealed? ==> 0 < c.wire[k].frame.frame.seqNo
    {
      EntryCarriesText(cfg, s, j, k);
    }
    assert ConnOk(cfg, j, c, j in s.registry, |s.conns|);
  }

  lemma ReaderOpensEverything(cfg: Config, s: State, j: nat, client: Endpoint)
    requires ValidConfig(cfg) && NodeOk(cfg, s) && j < |s.conns| && s.conns[j].session.Some?
    requires Peers(client, s.conns[j].session.value) && client.rxSeq == 0
    ensures OpenAll(cfg.codec.mac, client, SealedFrames(s.conns[j].wire)) == Texts(cfg, s.conns, s.conns[j].wire)
  {
    WireReadable(cfg, s, j);
    OpenAllTexts(cfg, s.conns, s.conns[j].session.value, client, s.conns[j].wire);
  }

  // Every client that shares its session's keys opens each frame it is sent, in the order of the wire,
  // and gets the relayed messages.
  lemma ClientsOpenEverything(cfg: Config, actions: seq<Action>, j: nat, client: Endpoint)
    requires ValidConfig(cfg) && j < |Run(cfg, EMPTY, actions).conns|
    requires Run(cfg, EMPTY, actions).conns[j].session.Some?
    requires Peers(client, Run(cfg, EMPTY, actions).conns[j].session.value) && client.rxSeq == 0
    ensures var s := Run(cfg, EMPTY, actions);
      OpenAll(cfg.codec.mac, client, SealedFrames(s.conns[j].wire)) == Texts(cfg, s.conns, s.conns[j].wire)
  {
    Reachable(cfg, actions);
    ReaderOpensEverything(cfg, Run(cfg, EMPTY, actions), j, client);
  }

  // Without the lock two threads could send in the other order than they sealed: then the earlier message
  // is refused as stale.
  lemma LockIsNeeded(mac: Mac, ep: Endpoint, client: Endpoint, first: Bytes, second: Bytes)
    requires Peers(ep, client) && client.rxSeq <= ep.txSeq
    requires Sealing(mac, ep, first).1.Success? && Sealing(mac, Sealing(mac, ep, first).0, second).1.Success?
    ensures var (ep1, f1) := Sealing(mac, ep, first);
      var (_, f2) := Sealing(mac, ep1, second);
      var (client1, r2) := Opening(mac, client, f2.value);
      r2 == Success(second) && Opening(mac, client1, f1.value) == (client1, Failure(ReplayError))
  {
    var ep1 := Sealing(mac, ep, first).0;
    OpenSealed(mac, ep1, client, second);
    OpenSealed(mac, ep, client.(rxSeq := ep1.txSeq + 1), first);
  }

  // --- no deadlock ------------------------------------------------------------------------------

  // The thread has something to do that does not depend on its client.
  ghost predicate Busy(c: Conn) {
    c.phase.Joining? || c.phase.Announcing? || InFanOut(c) || c.phase.Closing?
  }

  lemma {:induction false} SomeOrder(registry: set<nat>, who: nat) returns (order: seq<nat>)
    ensures Lists(order, registry, who)
    decreases |registry|
  {
    order := [];
    if registry - {who} != {} {
      var k :| k in registry - {who};
      var rest := SomeOrder(registry - {k}, who);
      order := [k] + rest;
    } else {
      assert forall k :: k in registry && k != who ==> k in registry - {who};
    }
  }

  lemma BusyCanMove(cfg: Config, s: State, i: nat) returns (action: Action)
    requires ValidConfig(cfg) && NodeOk(cfg, s) && i < |s.conns| && Busy(s.conns[i])
    ensures Enabled(s, action) && !action.Accept? && !action.Hear?
  {
    var c := s.conns[i];
    assert ConnOk(cfg, i, c, i in s.registry, |s.conns|);
    match c.phase {
      case Joining => action := Join(i);
      case Announcing(_, _) =>
        var order := SomeOrder(s.registry, i);
        action := Announce(i, order);
      case Closing => action := Leave(i);
      case Relaying(todo) =>
        if todo == [] {
          action := Finish(i);
        } else {
          ServedTarget(cfg, s, i);
          var lock := s.conns[todo[0]].lock;
          if lock.None? {
            action := Seal(i);
          } else {
            action := HolderMoves(cfg, s, todo[0]);
          }
        }
      case Sending(_, _) =>
        ServedTarget(cfg, s, i);
        action := Transmit(i, true);
      case Dropping(_) =>
        ServedTarget(cfg, s, i);
        action := Drop(i);
    }
  }

  // Whoever holds a lock can send and so release it.
  lemma HolderMoves(cfg: Config, s: State, j: nat) returns (action: Action)
    requires ValidConfig(cfg) && NodeOk(cfg, s) && j < |s.conns| && s.conns[j].lock.Some?
    ensures Enabled(s, action) && action.Transmit?
  {
    assert ConnOk(cfg, j, s.conns[j], j in s.registry, |s.conns|);
    var k := s.conns[j].lock.value;
    assert PairOk(cfg, k, s.conns[k], j, s.conns[j]);
    ServedTarget(cfg, s, k);
    action := Transmit(k, true);
  }

  // As long as some thread is not waiting for its client, some such thread can move.
  lemma NeverStuck(cfg: Config, actions: seq<Action>, i: nat)
    requires ValidConfig(cfg) && i < |Run(cfg, EMPTY, actions).conns| && Busy(Run(cfg, EMPTY, actions).conns[i])
    ensures exists action :: Enabled(Run(cfg, EMPTY, actions), action) && !action.Accept? && !action.Hear?
  {
    Reachable(cfg, actions);
    var action := BusyCanMove(cfg, Run(cfg, EMPTY, actions), i);
  }
}
