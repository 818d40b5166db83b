/** Runs of a node against what its connections heard: the HELLO that named each, and the texts it passed on. */
module NodeHistory {
  import H = Handshake
  import opened NodeInvariant
  import opened NodeTheorems
  import opened Relay
  import opened Results
  import opened ServerNode
  import opened Session

  ghost predicate Present(cfg: Config, actions: seq<Action>, i: nat)
    requires ValidConfig(cfg)
  {
    i < |Run(cfg, EMPTY, actions).conns|
  }

  // Connection i after these actions.
  ghost function Now(cfg: Config, actions: seq<Action>, i: nat): Conn
    requires ValidConfig(cfg) && Present(cfg, actions, i)
  {
    Run(cfg, EMPTY, actions).conns[i]
  }

  lemma {:induction false} RunMore(cfg: Config, s: State, actions: seq<Action>, action: Action)
    requires ValidConfig(cfg)
    ensures Run(cfg, s, actions + [action]) == Step(cfg, Run(cfg, s, actions), action)
    decreases |actions|
  {
    if actions == [] {
      assert [] + [action] == [action];
      assert [action][1..] == [];
    } else {
      RunMore(cfg, Step(cfg, s, actions[0]), actions[1..], action);
      assert (actions + [action])[1..] == actions[1..] + [action];
    }
  }

  // --- the HELLO --------------------------------------------------------------------------------

  // What a string of digits reads as.
  function Reading(digits: string): int {
    if digits == "" then 0
    else 10 * Reading(digits[..|digits| - 1]) + (digits[|digits| - 1] as int - '0' as int)
  }

  lemma DigitsStep(n: nat, last: string)
    requires last == ["0123456789"[n % 10]]
    ensures Digits(n) == (if n < 10 then "" else Digits(n / 10)) + last
    ensures '0' <= last[0] <= '9' && last[0] as int - '0' as int == n % 10
  {
    OneDigit(n % 10);
  }

  lemma OneDigit(d: nat)
    requires d < 10
    ensures '0' <= "0123456789"[d] <= '9' && "0123456789"[d] as int - '0' as int == d
  {
  }

  lemma ReadingStep(digits: string, last: string)
    requires |last| == 1
    ensures Reading(digits + last) == 10 * Reading(digits) + (last[0] as int - '0' as int)
  {
    assert (digits + last)[..|digits|] == digits;
  }

  // The digits of a user id are decimal, without leading zeros, and read as the id.
  lemma {:induction false} DigitsRead(n: nat)
    ensures Reading(Digits(n)) == n
    ensures forall k :: 0 <= k < |Digits(n)| ==> '0' <= Digits(n)[k] <= '9'
    ensures Digits(n) != "" && (Digits(n)[0] == '0' ==> n == 0 && |Digits(n)| == 1)
  {
    var last := ["0123456789"[n % 10]];
    DigitsStep(n, last);
    if n < 10 {
      ReadingStep("", last);
      assert "" + last == last;
    } else {
      DigitsRead(n / 10);
      ReadingStep(Digits(n / 10), last);
    }
  }

  // str of an id: its digits, after a minus sign if it is negative.
  lemma DecimalReads(n: int)
    ensures n >= 0 ==> Reading(Decimal(n)) == n
    ensures n < 0 ==> Decimal(n)[0] == '-' && Reading(Decimal(n)[1..]) == -n
  {
    DigitsRead(if n < 0 then -n else n);
  }

  ghost predicate Named(c: Conn) {
    c.phase.Handshaking? || c.phase.Joining? || c.joined
  }

  // The HELLO heard by `before` gave `c` its name and its kind, and was answered with the node's own setting.
  ghost predicate GreetedBy(cfg: Config, before: Conn, action: Action, i: nat, c: Conn) {
    && before.phase.AwaitHello? && action.Hear? && action.who == i && action.incoming.Hello?
    && c.name == "user" + Decimal(action.incoming.userId)
    && (c.browser <==> action.incoming.status == "browser")
    && |before.wire| < |c.wire| && c.wire[|before.wire|] == Entry(HelloAck(cfg.password.Some?), Own)
  }

  // The first frame decides: a HELLO that is answered goes on, any other frame is answered with 400, and the
  // connection ends; so it does without an answer when nothing readable comes or the answer cannot be sent.
  lemma FirstFrame(cfg: Config, s: State, i: nat, incoming: Incoming, sendOk: bool)
    requires ValidConfig(cfg) && i < |s.conns| && s.conns[i].phase.AwaitHello?
    ensures i < |Step(cfg, s, Hear(i, incoming, sendOk)).conns|
    ensures var c, d := s.conns[i], Step(cfg, s, Hear(i, incoming, sendOk)).conns[i];
      if incoming.Garbage? || incoming.HungUp? || !sendOk then d == c.(phase := Closing)
      else if !incoming.Hello? then
        d == c.(phase := Closing, wire := c.wire + [Entry(ErrorFrame(400), Own)])
      else
        && d.wire == c.wire + [Entry(HelloAck(cfg.password.Some?), Own)]
        && (if cfg.password.Some? then d.phase == Handshaking(H.AwaitCommit) else d.phase == Joining)
  {
  }

  // A later frame: passed on, answered, or the end; so is an answer that cannot be sent.
  lemma LaterFrame(cfg: Config, s: State, i: nat, incoming: Incoming, sendOk: bool)
    requires ValidConfig(cfg) && i < |s.conns| && s.conns[i].phase.Looping?
    ensures i < |Step(cfg, s, Hear(i, incoming, sendOk)).conns|
    ensures var c, d := s.conns[i], Step(cfg, s, Hear(i, incoming, sendOk)).conns[i];
      var (session, reaction) := React(cfg.codec, c.session, c.name, incoming);
      && d.session == session
      && d.wire == c.wire + (if reaction.Reply? && sendOk then [Entry(ErrorFrame(reaction.code), Own)] else [])
      && d.phase == if reaction.Pass? then Announcing(reaction.chat, reaction.source)
                    else if reaction.Reply? && sendOk then Looping else Closing
  {
  }

  // What no step changes once a connection has its name.
  ghost predicate Settled(c: Conn, d: Conn) {
    d.name == c.name && d.browser == c.browser && c.wire <= d.wire && (Named(d) ==> Named(c))
  }

  lemma ReceiveSettles(c: Conn, frame: H.Frame, st: H.ServerState, sent: seq<H.Frame>, sendOk: bool)
    requires c.phase.Handshaking?
    ensures Settled(c, AfterReceive(c, frame, st, sent, sendOk))
  {
  }

  lemma ReactionSettles(c: Conn, session: Option<Endpoint>, reaction: Reaction, sendOk: bool)
    ensures Settled(c, AfterReaction(c.(session := session), reaction, sendOk))
  {
  }

  lemma HeardSettles(cfg: Config, c: Conn, incoming: Incoming, sendOk: bool)
    requires ValidConfig(cfg) && !c.phase.AwaitHello?
    ensures Settled(c, Heard(cfg, c, incoming, sendOk))
  {
    if c.phase.Handshaking? && cfg.password.Some? {
      var input := if incoming.HungUp? then H.Eof else H.Received(HandshakeFrame(incoming));
      var (st, sent) := H.ServerStep(cfg.env, cfg.password.value, c.b, c.phase.st, input);
      ReceiveSettles(c, HandshakeFrame(incoming), st, sent, sendOk);
    } else if c.phase.Looping? {
      var (session, reaction) := React(cfg.codec, c.session, c.name, incoming);
      ReactionSettles(c, session, reaction, sendOk);
    }
  }

  lemma HelloGreets(cfg: Config, c: Conn, action: Action, i: nat)
    requires ValidConfig(cfg) && action.Hear? && action.who == i && c.phase.AwaitHello? && !c.joined
    ensures var d := OnHello(cfg, c, action.incoming, action.sendOk);
      Named(d) ==> GreetedBy(cfg, c, action, i, d)
  {
  }

  lemma ServedSettles(cfg: Config, c: Conn, who: nat, peer: Conn)
    requires c.phase.Relaying? && c.log != []
    ensures Settled(c, SealedBy(cfg, c, who, peer).0) && Settled(peer, SealedBy(cfg, c, who, peer).1)
  {
  }

  lemma TransmittedSettles(c: Conn, who: nat, peer: Conn, sendOk: bool)
    requires c.phase.Sending? && c.phase.todo != [] && c.log != []
    ensures Settled(c, Transmitted(c, who, peer, sendOk).0) && Settled(peer, Transmitted(c, who, peer, sendOk).1)
  {
  }

  // A step changes a connection only where the connection, or the author served by it, acts.
  lemma StepSettles(cfg: Config, s: State, action: Action, i: nat)
    requires ValidConfig(cfg) && i < |s.conns|
    requires !(action.Hear? && action.who == i && s.conns[i].phase.AwaitHello?)
    ensures i < |Step(cfg, s, action).conns| && Settled(s.conns[i], Step(cfg, s, action).conns[i])
  {
    if Enabled(s, action) {
      match action {
        case Hear(who, incoming, sendOk) =>
          if who == i { HeardSettles(cfg, s.conns[i], incoming, sendOk); }
        case Seal(who) => ServedSettles(cfg, s.conns[who], who, s.conns[Target(s.conns[who]).value]);
        case Transmit(who, sendOk) =>
          TransmittedSettles(s.conns[who], who, s.conns[Target(s.conns[who]).value], sendOk);
        case _ =>
      }
    }
  }

  ghost predicate GreetedAt(cfg: Config, actions: seq<Action>, i: nat, k: nat)
    requires ValidConfig(cfg) && Present(cfg, actions, i)
  {
    && k < |actions| && Present(cfg, actions[..k], i)
    && GreetedBy(cfg, Now(cfg, actions[..k], i), actions[k], i, Now(cfg, actions, i))
  }

  lemma GreetedBefore(cfg: Config, before: seq<Action>, actions: seq<Action>, i: nat, k: nat)
    requires ValidConfig(cfg) && before <= actions && Present(cfg, before, i) && Present(cfg, actions, i)
    requires GreetedAt(cfg, before, i, k) && Settled(Now(cfg, before, i), Now(cfg, actions, i))
    ensures GreetedAt(cfg, actions, i, k)
  {
    assert before[..k] == actions[..k] && before[k] == actions[k];
  }

  lemma NewUnnamed(cfg: Config, s: State, action: Action, i: nat)
    requires ValidConfig(cfg) && |s.conns| <= i < |Step(cfg, s, action).conns|
    ensures !Named(Step(cfg, s, action).conns[i])
  {
  }

  // In every reachable state a connection past its HELLO has the name and the kind that its HELLO gave it, and
  // was told whether the node asks for a password.
  lemma {:induction false} NamedByHello(cfg: Config, actions: seq<Action>, i: nat) returns (k: nat)
    requires ValidConfig(cfg) && Present(cfg, actions, i) && Named(Now(cfg, actions, i))
    ensures GreetedAt(cfg, actions, i, k)
    decreases |actions|
  {
    assert actions != [];
    k := |actions| - 1;
    var before, action := actions[..k], actions[k];
    var s := Run(cfg, EMPTY, before);
    assert actions == before + [action];
    RunMore(cfg, EMPTY, before, action);
    if i >= |s.conns| {
      NewUnnamed(cfg, s, action, i);
    } else if action.Hear? && action.who == i && s.conns[i].phase.AwaitHello? {
      AwaitsUnjoined(cfg, before, i);
      HelloGreets(cfg, s.conns[i], action, i);
    } else {
      StepSettles(cfg, s, action, i);
      k := NamedByHello(cfg, before, i);
      GreetedBefore(cfg, before, actions, i, k);
    }
  }

  lemma AwaitsUnjoined(cfg: Config, actions: seq<Action>, i: nat)
    requires ValidConfig(cfg) && Present(cfg, actions, i)
    ensures Now(cfg, actions, i).phase.AwaitHello? ==> !Now(cfg, actions, i).joined
  {
    Reachable(cfg, actions);
    var s := Run(cfg, EMPTY, actions);
    assert ConnOk(cfg, i, s.conns[i], i in s.registry, |s.conns|);
  }

  // --- the texts --------------------------------------------------------------------------------

  // What a connection has passed on: its broadcasts, and the one it is about to start.
  function Passed(c: Conn): (chats: seq<Chat>)
    ensures |chats| == |c.log| + if c.phase.Announcing? then 1 else 0
  {
    seq(|c.log|, n requires 0 <= n < |c.log| => c.log[n].chat) + if c.phase.Announcing? then [c.phase.chat] else []
  }

  // The message in what a connection hears: in plain on an open one, in a sealed frame on a protected one.
  ghost function MessageIn(cfg: Config, c: Conn, incoming: Incoming): Result<Chat> {
    if incoming.ChatIn? && c.session.None? then Success(incoming.chat)
    else if incoming.SealedIn? && c.session.Some? then OpenedChat(cfg.codec, c.session.value, incoming.frame)
    else Failure(ValueError)
  }

  ghost predicate Relayable(cfg: Config, c: Conn, action: Action, i: nat) {
    && action.Hear? && action.who == i && c.phase.Looping? && MessageIn(cfg, c, action.incoming).Success?
  }

  // The text heard by connection c, under the name given there or else the connection's own.
  ghost predicate Quotes(cfg: Config, c: Conn, action: Action, i: nat, chat: Chat) {
    && Relayable(cfg, c, action, i)
    && var said := MessageIn(cfg, c, action.incoming).value;
    && chat.text == said.text && chat.sender == if said.sender == "" then c.name else said.sender
  }

  // One step adds what the connection heard, if it is to be relayed, and nothing else.
  ghost predicate PassesOn(cfg: Config, c: Conn, d: Conn, action: Action, i: nat) {
    if Relayable(cfg, c, action, i) then
      && |Passed(d)| == |Passed(c)| + 1 && Passed(d)[..|Passed(c)|] == Passed(c)
      && Quotes(cfg, c, action, i, Passed(d)[|Passed(c)|])
    else Passed(d) == Passed(c)
  }

  lemma MessagePasses(cfg: Config, c: Conn, action: Action, i: nat)
    requires ValidConfig(cfg) && c.phase.Looping? && action.Hear? && action.who == i
    ensures PassesOn(cfg, c, OnMessage(cfg, c, action.incoming, action.sendOk), action, i)
  {
    var (session, reaction) := React(cfg.codec, c.session, c.name, action.incoming);
    var d := AfterReaction(c.(session := session), reaction, action.sendOk);
    assert reaction.Pass? <==> MessageIn(cfg, c, action.incoming).Success?;
    assert d.log == c.log;
  }

  lemma HeardPasses(cfg: Config, c: Conn, action: Action, i: nat)
    requires ValidConfig(cfg) && action.Hear? && action.who == i
    requires c.phase.AwaitHello? || c.phase.Handshaking? || c.phase.Looping?
    ensures PassesOn(cfg, c, Heard(cfg, c, action.incoming, action.sendOk), action, i)
  {
    if c.phase.Looping? {
      MessagePasses(cfg, c, action, i);
    } else if c.phase.Handshaking? && cfg.password.Some? {
      var input := if action.incoming.HungUp? then H.Eof else H.Received(HandshakeFrame(action.incoming));
      var (st, sent) := H.ServerStep(cfg.env, cfg.password.value, c.b, c.phase.st, input);
      ReceivePasses(c, HandshakeFrame(action.incoming), st, sent, action.sendOk);
    }
  }

  lemma ReceivePasses(c: Conn, frame: H.Frame, st: H.ServerState, sent: seq<H.Frame>, sendOk: bool)
    requires c.phase.Handshaking?
    ensures Passed(AfterReceive(c, frame, st, sent, sendOk)) == Passed(c)
  {
  }

  lemma AnnouncedPasses(c: Conn, order: seq<nat>)
    requires c.phase.Announcing?
    ensures Passed(Announced(c, order)) == Passed(c)
  {
    var log := Announced(c, order).log;
    assert log[..|c.log|] == c.log && log[|c.log|].chat == c.phase.chat;
  }

  // The log and the phase decide what has been passed on.
  lemma SamePassed(c: Conn, d: Conn)
    requires d.log == c.log && (d.phase == c.phase || (!c.phase.Announcing? && !d.phase.Announcing?))
    ensures Passed(d) == Passed(c)
  {
  }

  lemma StepPasses(cfg: Config, s: State, action: Action, i: nat)
    requires ValidConfig(cfg) && i < |s.conns| && Enabled(s, action)
    ensures i < |Step(cfg, s, action).conns|
    ensures PassesOn(cfg, s.conns[i], Step(cfg, s, action).conns[i], action, i)
  {
    var c, d := s.conns[i], Step(cfg, s, action).conns[i];
    if action.Hear? && action.who == i {
      HeardPasses(cfg, c, action, i);
    } else if action.Announce? && action.who == i {
      AnnouncedPasses(c, action.order);
    } else {
      SamePassed(c, d);
    }
  }

  // --- which frames the broadcasts are ------------------------------------------------------------

  // Action k is one that connection i has to relay.
  ghost predicate RelayableAt(cfg: Config, actions: seq<Action>, i: nat, k: nat)
    requires ValidConfig(cfg)
  {
    k < |actions| && Present(cfg, actions[..k], i) && Relayable(cfg, Now(cfg, actions[..k], i), actions[k], i)
  }

  ghost predicate QuotesAt(cfg: Config, actions: seq<Action>, i: nat, k: nat, chat: Chat)
    requires ValidConfig(cfg)
  {
    k < |actions| && Present(cfg, actions[..k], i) && Quotes(cfg, Now(cfg, actions[..k], i), actions[k], i, chat)
  }

  // The places `at` in the run are those of the frames to be relayed, in order, and each text quotes its frame.
  ghost predicate Told(cfg: Config, actions: seq<Action>, i: nat, chats: seq<Chat>, at: seq<nat>)
    requires ValidConfig(cfg)
  {
    && |at| == |chats|
    && (forall n :: 0 <= n < |at| ==> QuotesAt(cfg, actions, i, at[n], chats[n]))
    && (forall m, n :: 0 <= m < n < |at| ==> at[m] < at[n])
    && (forall k :: k in at <==> RelayableAt(cfg, actions, i, k))
  }

  lemma ToldLonger(cfg: Config, actions: seq<Action>, action: Action, i: nat, chats: seq<Chat>, at: seq<nat>)
    requires ValidConfig(cfg) && Told(cfg, actions, i, chats, at)
    requires Present(cfg, actions, i) ==> !Relayable(cfg, Now(cfg, actions, i), action, i)
    ensures Told(cfg, actions + [action], i, chats, at)
  {
    var longer := actions + [action];
    assert longer[..|actions|] == actions;
    forall k: nat | k < |actions| ensures longer[..k] == actions[..k] && longer[k] == actions[k] {
    }
  }

  lemma ToldMore(cfg: Config, actions: seq<Action>, action: Action, i: nat, chats: seq<Chat>, chat: Chat, at: seq<nat>)
    requires ValidConfig(cfg) && Told(cfg, actions, i, chats, at)
    requires Present(cfg, actions, i) && Quotes(cfg, Now(cfg, actions, i), action, i, chat)
    ensures Told(cfg, actions + [action], i, chats + [chat], at + [|actions|])
  {
    var longer := actions + [action];
    assert longer[..|actions|] == actions;
    forall k: nat | k < |actions| ensures longer[..k] == actions[..k] && longer[k] == actions[k] {
    }
  }

  ghost function PassedBy(cfg: Config, actions: seq<Action>, i: nat): seq<Chat>
    requires ValidConfig(cfg)
  {
    if Present(cfg, actions, i) then Passed(Now(cfg, actions, i)) else []
  }

  lemma NewSilent(cfg: Config, s: State, action: Action, i: nat)
    requires ValidConfig(cfg) && |s.conns| <= i < |Step(cfg, s, action).conns|
    ensures Passed(Step(cfg, s, action).conns[i]) == []
  {
  }

  // Disabled actions change nothing, and what a connection has to relay it can hear.
  lemma OneStep(cfg: Config, s: State, action: Action, i: nat)
    requires ValidConfig(cfg) && i < |s.conns|
    ensures i < |Step(cfg, s, action).conns|
    ensures PassesOn(cfg, s.conns[i], Step(cfg, s, action).conns[i], action, i)
  {
    if Enabled(s, action) {
      StepPasses(cfg, s, action, i);
    }
  }

  // In every run each connection passes on exactly the messages it heard and had to relay: one broadcast for
  // each, in the order heard, with the text heard, under the name given there or else the connection's own.
  lemma {:induction false} BroadcastsAreHeard(cfg: Config, actions: seq<Action>, i: nat) returns (at: seq<nat>)
    requires ValidConfig(cfg)
    ensures Told(cfg, actions, i, PassedBy(cfg, actions, i), at)
    decreases |actions|
  {
    at := [];
    if actions != [] {
      var before, action := actions[..|actions| - 1], actions[|actions| - 1];
      assert actions == before + [action];
      RunMore(cfg, EMPTY, before, action);
      at := BroadcastsAreHeard(cfg, before, i);
      if !Present(cfg, before, i) {
        if Present(cfg, actions, i) {
          NewSilent(cfg, Run(cfg, EMPTY, before), action, i);
        }
        ToldLonger(cfg, before, action, i, [], at);
      } else {
        at := BroadcastsAfter(cfg, before, action, i, at);
      }
    }
  }

  lemma BroadcastsAfter(cfg: Config, before: seq<Action>, action: Action, i: nat, at: seq<nat>) returns (next: seq<nat>)
    requires ValidConfig(cfg) && Present(cfg, before, i) && Told(cfg, before, i, PassedBy(cfg, before, i), at)
    ensures Told(cfg, before + [action], i, PassedBy(cfg, before + [action], i), next)
  {
    RunMore(cfg, EMPTY, before, action);
    OneStep(cfg, Run(cfg, EMPTY, before), action, i);
    var c, d := Now(cfg, before, i), Now(cfg, before + [action], i);
    if Relayable(cfg, c, action, i) {
      var chat := Passed(d)[|Passed(c)|];
      assert Passed(d) == Passed(c) + [chat];
      ToldMore(cfg, before, action, i, Passed(c), chat, at);
      next := at + [|before|];
    } else {
      ToldLonger(cfg, before, action, i, Passed(c), at);
      next := at;
    }
  }
}
