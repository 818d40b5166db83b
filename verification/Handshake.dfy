/** protocol/covenant.py: the two handshake drivers, as methods and as step machines. */
module Handshake {
  import opened Bytes
  import opened Covenant
  import opened Results
  import opened Session

  // --- frames -----------------------------------------------------------------------------------

  // int(text, 16) of an element field.
  datatype ElementText = NotANumber | Value(value: int)

  // bytes.fromhex of the commit field.
  datatype CommitText = NotHex | Digest(bytes: Bytes)

  datatype Frame =
    | Commit(commit: CommitText)
    | Challenge(maskedB: ElementText)
    | Confirm(a: ElementText, confirmC: HexText)
    | AuthOk(confirmS: HexText)
    | AuthFail
    | OtherFrame
    // A receive that raises: ValueError for text that does not parse, ProtocolError for a malformed
    // WebSocket frame, OSError from the socket.
    | Unreadable(error: Error)

  // What a blocking receive ends with.
  datatype Input = Received(frame: Frame) | Eof

  // The library digests, and the modulus P.
  datatype Env = Env(mac: Mac, sha1: Bytes -> Bytes, p: nat)

  // _parse_element: the bounds shut out 0, 1, p - 1 and everything beyond.
  function ParseElement(text: ElementText, p: nat): Result<nat> {
    if text.NotANumber? then Failure(CovenantError)
    else if !(1 < text.value < p - 1) then Failure(CovenantError)
    else Success(text.value)
  }

  function CommitDigest(env: Env, public: nat): Bytes {
    env.sha1(ToBytes(public, ELEMENT_BYTES))
  }

  function Role(isClient: bool): Bytes {
    Ascii(if isClient then "client" else "server")
  }

  // The two sides never confirm the same message, so neither can be answered with a confirmation of its own kind.
  lemma RolesKeepApart(c1: Bytes, p1: nat, c2: Bytes, p2: nat)
    requires |c1| == |c2| && p1 < Pow256(ELEMENT_BYTES) && p2 < Pow256(ELEMENT_BYTES)
    ensures c1 + Role(true) + ToBytes(p1, ELEMENT_BYTES) != c2 + Role(false) + ToBytes(p2, ELEMENT_BYTES)
  {
    assert Role(true)[0] != Role(false)[0];
    if c1 + Role(true) + ToBytes(p1, ELEMENT_BYTES) == c2 + Role(false) + ToBytes(p2, ELEMENT_BYTES) {
      ConfirmMessageInjective(c1, Role(true), p1, c2, Role(false), p2);
    }
  }

  // --- the client as a step machine -------------------------------------------------------------

  datatype ClientState =
    | AwaitChallenge
    | AwaitResult(shared: nat, publicB: nat)
    | ClientDone(session: Endpoint)
    | ClientFailed(error: Error)

  function ClientHello(env: Env, a: nat): Frame
    requires env.p > 0
  {
    Commit(Digest(CommitDigest(env, PublicElement(a, env.p))))
  }

  function OnChallenge(env: Env, password: Bytes, a: nat, maskedText: ElementText): (ClientState, seq<Frame>)
    requires env.p > 0
  {
    var masked := ParseElement(maskedText, env.p);
    if masked.Failure? then (ClientFailed(masked.error), []) else
      var publicB := Unmask(masked.value, SecretToElement(env.mac, password, env.p), env.p);
      if publicB.Failure? then (ClientFailed(publicB.error), []) else
        var publicA := PublicElement(a, env.p);
        var shared := SharedSecret(publicB.value, a, env.p);
        var confirmC := ConfirmMac(env.mac, shared, CommitDigest(env, publicA), Role(true), publicA);
        (AwaitResult(shared, publicB.value), [Confirm(Value(publicA), HexOf(confirmC))])
  }

  function OnResult(env: Env, a: nat, shared: nat, publicB: nat, confirmS: HexText): ClientState
    requires env.p > 0
  {
    var commit := CommitDigest(env, PublicElement(a, env.p));
    if confirmS == HexOf(ConfirmMac(env.mac, shared, commit, Role(false), publicB))
    then ClientDone(NewEndpoint(DeriveSessionKeys(env.mac, shared), true, true))
    else ClientFailed(CovenantError)
  }

  function ClientStep(env: Env, password: Bytes, a: nat, st: ClientState, input: Input): (ClientState, seq<Frame>)
    requires env.p > 0
  {
    if !st.AwaitChallenge? && !st.AwaitResult? then (st, [])
    else if input.Eof? then (ClientFailed(ConnectionClosed), [])
    else match (st, input.frame)
      case (_, Unreadable(error)) => (ClientFailed(error), [])
      case (AwaitChallenge, Challenge(masked)) => OnChallenge(env, password, a, masked)
      case (AwaitResult(shared, publicB), AuthOk(confirmS)) => (OnResult(env, a, shared, publicB, confirmS), [])
      case _ => (ClientFailed(CovenantError), [])
  }

  // --- the server as a step machine -------------------------------------------------------------

  datatype ServerState =
    | AwaitCommit
    | AwaitConfirm(commit: Bytes)
    | ServerDone(session: Endpoint)
    | ServerFailed(error: Error)

  // _fail: tell the client, then abort.
  function Fail(): (ServerState, seq<Frame>) {
    (ServerFailed(CovenantError), [AuthFail])
  }

  function OnCommit(env: Env, password: Bytes, b: nat, commit: CommitText): (ServerState, seq<Frame>)
    requires env.p > 0
  {
    if commit.NotHex? || |commit.bytes| != 20 then Fail() else
      var maskedB := Mask(PublicElement(b, env.p), SecretToElement(env.mac, password, env.p), env.p);
      (AwaitConfirm(commit.bytes), [Challenge(Value(maskedB))])
  }

  function OnConfirm(env: Env, b: nat, commit: Bytes, a: ElementText, confirmC: HexText): (ServerState, seq<Frame>)
    requires env.p > 0
  {
    var publicA := ParseElement(a, env.p);
    if publicA.Failure? then Fail()
    else if CommitDigest(env, publicA.value) != commit then Fail()
    else
      var shared := SharedSecret(publicA.value, b, env.p);
      if confirmC != HexOf(ConfirmMac(env.mac, shared, commit, Role(true), publicA.value)) then Fail()
      else
        var confirmS := ConfirmMac(env.mac, shared, commit, Role(false), PublicElement(b, env.p));
        (ServerDone(NewEndpoint(DeriveSessionKeys(env.mac, shared), false, true)), [AuthOk(HexOf(confirmS))])
  }

  function ServerStep(env: Env, password: Bytes, b: nat, st: ServerState, input: Input): (ServerState, seq<Frame>)
    requires env.p > 0
  {
    if !st.AwaitCommit? && !st.AwaitConfirm? then (st, [])
    else if input.Eof? then (ServerFailed(ConnectionClosed), [])
    else match (st, input.frame)
      case (_, Unreadable(error)) => (ServerFailed(error), [])
      case (AwaitCommit, Commit(commit)) => OnCommit(env, password, b, commit)
      case (AwaitConfirm(commit), Confirm(a, confirmC)) => OnConfirm(env, b, commit, a, confirmC)
      case _ => Fail()
  }

  // --- the drivers ------------------------------------------------------------------------------

  // The connection as the drivers see it: frames still to be received, frames sent so far.
  class Connection {
    var inbox: seq<Frame>
    var outbox: seq<Frame>
    // The number of sends that still go through before the connection breaks.
    var room: nat

    // _recv_frame
    method Recv() returns (r: Result<Frame>)
      modifies this`inbox
      ensures old(inbox) == [] ==> r == Failure(ConnectionClosed) && inbox == []
      ensures old(inbox) != [] ==> inbox == old(inbox)[1..]
      ensures old(inbox) != [] ==>
        r == if old(inbox)[0].Unreadable? then Failure(old(inbox)[0].error) else Success(old(inbox)[0])
    {
      if inbox == [] {
        return Failure(ConnectionClosed);
      }
      var frame := inbox[0];
      inbox := inbox[1..];
      if frame.Unreadable? {
        return Failure(frame.error);
      }
      return Success(frame);
    }

    method Send(frame: Frame) returns (r: Result<()>)
      modifies this`outbox, this`room
      ensures old(room) == 0 ==> r == Failure(OSError) && outbox == old(outbox) && room == 0
      ensures old(room) > 0 ==> r == Success(()) && outbox == old(outbox) + [frame] && room == old(room) - 1
    {
      if room == 0 {
        return Failure(OSError);
      }
      outbox, room := outbox + [frame], room - 1;
      return Success(());
    }
  }

  function NextInput(inbox: seq<Frame>): Input {
    if inbox == [] then Eof else Received(inbox[0])
  }

  function Rest(inbox: seq<Frame>): seq<Frame> {
    if inbox == [] then [] else inbox[1..]
  }

  // The client machine fed from an inbox, two inputs at most; a send for which there is no room raises.
  function ClientRun(env: Env, password: Bytes, a: nat, inbox: seq<Frame>, room: nat): (ClientState, seq<Frame>)
    requires env.p > 0
  {
    var hello := ClientHello(env, a);
    var (st, sent) := ClientStep(env, password, a, AwaitChallenge, NextInput(inbox));
    var (end, _) := ClientStep(env, password, a, st, NextInput(Rest(inbox)));
    if room == 0 then (ClientFailed(OSError), [])
    else if sent != [] && room == 1 then (ClientFailed(OSError), [hello])
    else (end, [hello] + sent)
  }

  // What becomes of the server when its last frame could not be sent: _fail goes on to raise its own error.
  function Unsent(st: ServerState): ServerState {
    if st.ServerFailed? then st else ServerFailed(OSError)
  }

  function ServerRun(env: Env, password: Bytes, b: nat, inbox: seq<Frame>, room: nat): (ServerState, seq<Frame>)
    requires env.p > 0
  {
    var (st, sent) := ServerStep(env, password, b, AwaitCommit, NextInput(inbox));
    var (end, more) := ServerStep(env, password, b, st, NextInput(Rest(inbox)));
    if sent != [] && room == 0 then (Unsent(st), [])
    else if more != [] && room == |sent| then (Unsent(end), sent)
    else (end, sent + more)
  }

  // run_client; the exponent is the caller's random choice.
  method RunClient(conn: Connection, env: Env, password: Bytes, a: nat) returns (r: Result<SessionState>)
    requires env.p > 0
    modifies conn
    ensures var (end, sent) := ClientRun(env, password, a, old(conn.inbox), old(conn.room));
      && conn.outbox == old(conn.outbox) + sent
      && (end.ClientDone? ==> r.Success? && fresh(r.value) && r.value.mac == env.mac && r.value.State() == end.session)
      && (end.ClientFailed? ==> r == Failure(end.error))
      && (end.ClientDone? || end.ClientFailed?)
  {
    var publicA := PublicElement(a, env.p);
    var commit := CommitDigest(env, publicA);
    var _ :- conn.Send(Commit(Digest(commit)));

    var challenge :- conn.Recv();
    if !challenge.Challenge? {
      return Failure(CovenantError);
    }
    var maskedB :- ParseElement(challenge.maskedB, env.p);
    var pe := SecretToElement(env.mac, password, env.p);
    var publicB :- Unmask(maskedB, pe, env.p);
    var shared := SharedSecret(publicB, a, env.p);
    var confirmC := ConfirmMac(env.mac, shared, commit, Role(true), publicA);
    var _ :- conn.Send(Confirm(Value(publicA), HexOf(confirmC)));

    var result :- conn.Recv();
    if !result.AuthOk? {
      return Failure(CovenantError);
    }
    if result.confirmS != HexOf(ConfirmMac(env.mac, shared, commit, Role(false), publicB)) {
      return Failure(CovenantError);
    }
    var session := new SessionState(env.mac, DeriveSessionKeys(env.mac, shared), true);
    return Success(session);
  }

  // _fail: a send that raises is swallowed.
  method FailWith(conn: Connection) returns (r: Result<SessionState>)
    modifies conn`outbox, conn`room
    ensures r == Failure(CovenantError)
    ensures conn.outbox == old(conn.outbox) + (if old(conn.room) > 0 then [AuthFail] else [])
  {
    var _ := conn.Send(AuthFail);
    return Failure(CovenantError);
  }

  // The outcome of a driver: the session of a machine that is done, or the error of one that failed.
  twostate predicate ServerReturns(env: Env, end: ServerState, new r: Result<SessionState>)
    reads if r.Success? then {r.value} else {}
  {
    && (end.ServerDone? || end.ServerFailed?)
    && (end.ServerDone? ==> r.Success? && fresh(r.value) && r.value.mac == env.mac && r.value.State() == end.session)
    && (end.ServerFailed? ==> r == Failure(end.error))
  }

  // run_server, from its second receive on.
  method TakeConfirm(conn: Connection, env: Env, ghost password: Bytes, b: nat, commit: Bytes)
    returns (r: Result<SessionState>)
    requires env.p > 0
    modifies conn
    ensures var (end, more) := ServerStep(env, password, b, AwaitConfirm(commit), NextInput(old(conn.inbox)));
      var lost := more != [] && old(conn.room) == 0;
      && conn.outbox == old(conn.outbox) + (if lost then [] else more)
      && ServerReturns(env, if lost then Unsent(end) else end, r)
  {
    var second :- conn.Recv();
    if !second.Confirm? {
      r := FailWith(conn);
      return;
    }
    var publicA := ParseElement(second.a, env.p);
    if publicA.Failure? || CommitDigest(env, publicA.value) != commit {
      r := FailWith(conn);
      return;
    }
    var shared := SharedSecret(publicA.value, b, env.p);
    if second.confirmC != HexOf(ConfirmMac(env.mac, shared, commit, Role(true), publicA.value)) {
      r := FailWith(conn);
      return;
    }
    var _ :- conn.Send(AuthOk(HexOf(ConfirmMac(env.mac, shared, commit, Role(false), PublicElement(b, env.p)))));
    var session := new SessionState(env.mac, DeriveSessionKeys(env.mac, shared), false);
    return Success(session);
  }

  // run_server
  method RunServer(conn: Connection, env: Env, password: Bytes, b: nat) returns (r: Result<SessionState>)
    requires env.p > 0
    modifies conn
    ensures var (end, sent) := ServerRun(env, password, b, old(conn.inbox), old(conn.room));
      conn.outbox == old(conn.outbox) + sent && ServerReturns(env, end, r)
  {
    var first :- conn.Recv();
    if !first.Commit? || first.commit.NotHex? || |first.commit.bytes| != 20 {
      r := FailWith(conn);
      return;
    }
    var publicB := PublicElement(b, env.p);
    var pe := SecretToElement(env.mac, password, env.p);
    var _ :- conn.Send(Challenge(Value(Mask(publicB, pe, env.p))));
    r := TakeConfirm(conn, env, password, b, first.commit.bytes);
  }
}
