/** cli/server.py and cli/relay.py: a node as a step machine, one thread per connection, any interleaving. */
module ServerNode {
  import opened Bytes
  import H = Handshake
  import opened Relay
  import opened Results
  import opened Session

  // The libraries, and the password of a protected node.
  datatype Config = Config(env: H.Env, codec: Codec, password: Option<Bytes>)

  ghost predicate ValidConfig(cfg: Config) {
    cfg.env.p > 0 && cfg.codec.mac == cfg.env.mac
  }

  // What recv and loads give a thread: a frame, bytes that do not parse, or the end of the connection.
  datatype Incoming =
    | Hello(userId: int, status: string)
    | CovenantIn(message: H.Frame)
    | SealedIn(frame: SealedFrame)
    | ChatIn(chat: Chat)
    | OtherIn
    | Garbage
    | HungUp

  // How a text came to be relayed: out of a sealed frame, opened by its author's session, or said in plain.
  datatype Source = Opened(before: Endpoint, frame: SealedFrame) | PlainChat(said: Chat)

  datatype Broadcast = Broadcast(chat: Chat, source: Source, recipients: seq<nat>)

  // Where a connection's thread is. While relaying, `todo` are the recipients still to be served.
  datatype Phase =
    | AwaitHello
    | Handshaking(st: H.ServerState)
    | Joining
    | Looping
    | Announcing(chat: Chat, source: Source)
    | Relaying(todo: seq<nat>)
    | Sending(todo: seq<nat>, frame: OutFrame)
    | Dropping(todo: seq<nat>)
    | Closing
    | Exited

  // Who put a frame on a wire: the connection's own thread, or the n-th broadcast of another one.
  datatype Origin = Own | Relayed(from: nat, number: nat)

  datatype Entry = Entry(frame: OutFrame, origin: Origin)

  // A connection. `heard`, `joined`, `dropped`, `log` and the origins on the wire only record what
  // happened; nothing the node does depends on them, but for the text of the last broadcast.
  datatype Conn = Conn(phase: Phase, b: nat, browser: bool, name: string, heard: seq<H.Frame>,
                       session: Option<Endpoint>, lock: Option<nat>, joined: bool, dropped: bool,
                       wire: seq<Entry>, log: seq<Broadcast>)

  datatype State = State(conns: seq<Conn>, registry: set<nat>)

  datatype Action =
    | Accept(b: nat)
    | Hear(who: nat, incoming: Incoming, sendOk: bool)
    | Join(who: nat)
    | Announce(who: nat, order: seq<nat>)
    | Seal(who: nat)
    | Transmit(who: nat, sendOk: bool)
    | Drop(who: nat)
    | Finish(who: nat)
    | Leave(who: nat)

  function NewConn(b: nat): Conn {
    Conn(AwaitHello, b, false, "", [], None, None, false, false, [], [])
  }

  // --- a thread on its own connection -----------------------------------------------------------

  function Said(c: Conn, frame: OutFrame): Conn {
    c.(wire := c.wire + [Entry(frame, Own)])
  }

  function Closed(c: Conn): Conn {
    c.(phase := Closing)
  }

  function Digits(n: nat): string {
    (if n < 10 then "" else Digits(n / 10)) + ["0123456789"[n % 10]]
  }

  // str of an int
  function Decimal(n: int): string {
    if n < 0 then "-" + Digits(-n) else Digits(n)
  }

  function OnHello(cfg: Config, c: Conn, incoming: Incoming, sendOk: bool): Conn {
    if incoming.Garbage? || incoming.HungUp? || !sendOk then Closed(c)
    else if !incoming.Hello? then Said(Closed(c), ErrorFrame(400))
    else
      var next := if cfg.password.Some? then Handshaking(H.AwaitCommit) else Joining;
      var name := "user" + Decimal(incoming.userId);
      Said(c.(phase := next, browser := incoming.status == "browser", name := name), HelloAck(cfg.password.Some?))
  }

  // Any frame but those of the handshake counts as an unexpected one.
  function HandshakeFrame(incoming: Incoming): H.Frame {
    match incoming
    case CovenantIn(message) => message
    case Garbage => H.Unreadable(ValueError)
    case _ => H.OtherFrame
  }

  function CovenantEntries(messages: seq<H.Frame>): (entries: seq<Entry>)
    ensures forall k :: 0 <= k < |entries| ==> entries[k].origin == Own && entries[k].frame.Covenant?
  {
    seq(|messages|, k requires 0 <= k < |messages| => Entry(Covenant(messages[k]), Own))
  }

  // run_server, one receive at a time; a session is created only when all went well.
  function OnHandshake(cfg: Config, c: Conn, incoming: Incoming, sendOk: bool): Conn
    requires cfg.env.p > 0 && c.phase.Handshaking? && cfg.password.Some?
  {
    var input := if incoming.HungUp? then H.Eof else H.Received(HandshakeFrame(incoming));
    var (st, sent) := H.ServerStep(cfg.env, cfg.password.value, c.b, c.phase.st, input);
    AfterReceive(c, HandshakeFrame(incoming), st, sent, sendOk)
  }

  function AfterReceive(c: Conn, frame: H.Frame, st: H.ServerState, sent: seq<H.Frame>, sendOk: bool): Conn {
    if sent != [] && !sendOk then Closed(c)
    else
      var more := c.(wire := c.wire + CovenantEntries(sent), heard := c.heard + [frame]);
      match st
      case ServerFailed(_) => Closed(more)
      case ServerDone(s) =>
        more.(phase := Joining, session := Some(if c.browser then s.(compress := false) else s))
      case _ => more.(phase := Handshaking(st))
  }

  datatype Reaction = Pass(chat: Chat, source: Source) | Reply(code: nat) | Raise

  // _message_loop, one frame: the session after it, and what becomes of the frame. Errors of the
  // sealed channel are answered; any other exception ends the thread.
  ghost function React(codec: Codec, session: Option<Endpoint>, name: string, incoming: Incoming)
    : (Option<Endpoint>, Reaction)
  {
    match incoming
    case SealedIn(frame) =>
      if session.None? then (None, Reply(403))
      else
        var (next, plaintext) := Opening(codec.mac, session.value, frame);
        (Some(next), ReactToText(codec, session.value, name, frame, plaintext))
    case ChatIn(chat) =>
      (session, if session.Some? then Reply(400) else Pass(Signed(chat, name), PlainChat(chat)))
    case Garbage => (session, Raise)
    case HungUp => (session, Raise)
    case _ => (session, Reply(422))
  }

  // The message that a session finds in a sealed frame.
  ghost function OpenedChat(codec: Codec, session: Endpoint, frame: SealedFrame): Result<Chat> {
    var plaintext :- Opening(codec.mac, session, frame).1;
    codec.decode(plaintext)
  }

  // `sender or name`
  function Signed(chat: Chat, name: string): Chat {
    if chat.sender == "" then chat.(sender := name) else chat
  }

  function IsAnswered(error: Error): bool {
    error == AuthenticationError || error == ReplayError || error == ValueError
  }

  function ReactToText(codec: Codec, before: Endpoint, name: string, frame: SealedFrame, plaintext: Result<Bytes>)
    : Reaction
  {
    if plaintext.Failure? then (if IsAnswered(plaintext.error) then Reply(400) else Raise)
    else
      var chat := codec.decode(plaintext.value);
      if chat.Success? then Pass(Signed(chat.value, name), Opened(before, frame))
      else if IsAnswered(chat.error) then Reply(400) else Raise
  }

  ghost function OnMessage(cfg: Config, c: Conn, incoming: Incoming, sendOk: bool): Conn {
    var (session, reaction) := React(cfg.codec, c.session, c.name, incoming);
    AfterReaction(c.(session := session), reaction, sendOk)
  }

  function AfterReaction(c: Conn, reaction: Reaction, sendOk: bool): Conn {
    match reaction
    case Pass(chat, source) => c.(phase := Announcing(chat, source))
    case Reply(code) => if sendOk then Said(c, ErrorFrame(code)) else Closed(c)
    case Raise => Closed(c)
  }

  ghost function Heard(cfg: Config, c: Conn, incoming: Incoming, sendOk: bool): Conn
    requires cfg.env.p > 0
  {
    match c.phase
    case AwaitHello => OnHello(cfg, c, incoming, sendOk)
    case Handshaking(_) => if cfg.password.Some? then OnHandshake(cfg, c, incoming, sendOk) else c
    case Looping => OnMessage(cfg, c, incoming, sendOk)
    case _ => c
  }

  // --- the fan-out ------------------------------------------------------------------------------

  // The recipients are the registered clients at one moment, but the author, in any order.
  ghost predicate Lists(order: seq<nat>, registry: set<nat>, who: nat) {
    && (forall k :: k in order <==> k in registry && k != who)
    && (forall a, b :: 0 <= a < b < |order| ==> order[a] != order[b])
  }

  function Announced(c: Conn, order: seq<nat>): Conn
    requires c.phase.Announcing?
  {
    c.(phase := Relaying(order), log := c.log + [Broadcast(c.phase.chat, c.phase.source, order)])
  }

  // The recipient being served.
  function Target(c: Conn): Option<nat> {
    if (c.phase.Relaying? || c.phase.Sending? || c.phase.Dropping?) && c.phase.todo != [] then Some(c.phase.todo[0])
    else None
  }

  // deliver, first half: with the recipient's lock taken, its session seals the message. If that raises,
  // the lock is given back and the recipient will be dropped.
  ghost function SealedBy(cfg: Config, c: Conn, who: nat, peer: Conn): (Conn, Conn)
    requires c.phase.Relaying? && c.log != []
  {
    var (session, frame) := Prepare(cfg.codec, peer.session, c.log[|c.log| - 1].chat);
    if frame.Success? then
      (c.(phase := Sending(c.phase.todo, frame.value)), peer.(session := session, lock := Some(who)))
    else
      (c.(phase := Dropping(c.phase.todo)), peer.(session := session))
  }

  // deliver, second half: the frame is sent, or sending raises; either way the lock is given back.
  function Transmitted(c: Conn, who: nat, peer: Conn, sendOk: bool): (Conn, Conn)
    requires c.phase.Sending? && c.phase.todo != [] && c.log != []
  {
    if sendOk then
      (c.(phase := Relaying(c.phase.todo[1..])),
       peer.(lock := None, wire := peer.wire + [Entry(c.phase.frame, Relayed(who, |c.log| - 1))]))
    else
      (c.(phase := Dropping(c.phase.todo)), peer.(lock := None))
  }

  // --- one step of the node ---------------------------------------------------------------------

  ghost predicate Enabled(s: State, action: Action) {
    if action.Accept? then true
    else
      && action.who < |s.conns|
      && var c := s.conns[action.who];
      var target := Target(c);
      match action
      case Hear(_, _, _) => c.phase.AwaitHello? || c.phase.Handshaking? || c.phase.Looping?
      case Join(_) => c.phase.Joining?
      case Announce(who, order) => c.phase.Announcing? && Lists(order, s.registry, who)
      case Seal(who) => c.phase.Relaying? && Free(s, who, target) && c.log != []
      case Transmit(who, _) => c.phase.Sending? && Other(s, who, target) && c.log != []
      case Drop(who) => c.phase.Dropping? && Other(s, who, target)
      case Finish(_) => c.phase.Relaying? && c.phase.todo == []
      case Leave(_) => c.phase.Closing?
  }

  ghost predicate Other(s: State, who: nat, target: Option<nat>) {
    target.Some? && target.value != who && target.value < |s.conns|
  }

  ghost predicate Free(s: State, who: nat, target: Option<nat>) {
    Other(s, who, target) && s.conns[target.value].lock.None?
  }

  ghost function Step(cfg: Config, s: State, action: Action): State
    requires ValidConfig(cfg)
  {
    if !Enabled(s, action) then s
    else match action
      case Accept(b) => s.(conns := s.conns + [NewConn(b)])
      case Hear(i, incoming, sendOk) => With(s, i, Heard(cfg, s.conns[i], incoming, sendOk))
      case Join(i) =>
        With(s, i, s.conns[i].(phase := Looping, joined := true)).(registry := s.registry + {i})
      case Announce(i, order) => With(s, i, Announced(s.conns[i], order))
      case Seal(i) =>
        var j := Target(s.conns[i]).value;
        With2(s, i, j, SealedBy(cfg, s.conns[i], i, s.conns[j]))
      case Transmit(i, sendOk) =>
        var j := Target(s.conns[i]).value;
        With2(s, i, j, Transmitted(s.conns[i], i, s.conns[j], sendOk))
      case Drop(i) =>
        var c := s.conns[i];
        var j := Target(c).value;
        With2(s, i, j, (c.(phase := Relaying(c.phase.todo[1..])), s.conns[j].(dropped := true)))
          .(registry := s.registry - {j})
      case Finish(i) => With(s, i, s.conns[i].(phase := Looping))
      case Leave(i) => With(s, i, s.conns[i].(phase := Exited)).(registry := s.registry - {i})
  }

  function With(s: State, i: nat, c: Conn): State
    requires i < |s.conns|
  {
    s.(conns := s.conns[i := c])
  }

  function With2(s: State, i: nat, j: nat, both: (Conn, Conn)): State
    requires i < |s.conns| && j < |s.conns|
  {
    s.(conns := s.conns[i := both.0][j := both.1])
  }

  ghost function Run(cfg: Config, s: State, actions: seq<Action>): State
    requires ValidConfig(cfg)
    decreases |actions|
  {
    if actions == [] then s else Run(cfg, Step(cfg, s, actions[0]), actions[1..])
  }

  const EMPTY := State([], {})
}
