/** Every run of the Covenant client against the Covenant server over an ordered connection. */
module HandshakeRuns {
  import opened Arithmetic
  import opened Bytes
  import opened Covenant
  import opened Handshake
  import opened ModularInverse
  import opened NumberTheory
  import opened Results
  import opened Session

  datatype Setup = Setup(env: Env, clientPassword: Bytes, serverPassword: Bytes, a: nat, b: nat)

  // Both parties and the frames under way in each direction.
  datatype System = System(client: ClientState, server: ServerState, toServer: seq<Frame>, toClient: seq<Frame>)

  datatype Party = TheClient | TheServer

  predicate ClientOver(st: ClientState) { st.ClientDone? || st.ClientFailed? }

  predicate ServerOver(st: ServerState) { st.ServerDone? || st.ServerFailed? }

  // A receive ends when a frame is there, or when the other side has hung up.
  predicate Enabled(sys: System, party: Party) {
    match party
    case TheClient => !ClientOver(sys.client) && (sys.toClient != [] || ServerOver(sys.server))
    case TheServer => !ServerOver(sys.server) && (sys.toServer != [] || ClientOver(sys.client))
  }

  function Move(setup: Setup, sys: System, party: Party): System
    requires setup.env.p > 0
  {
    if !Enabled(sys, party) then sys
    else match party
      case TheClient =>
        var (st, sent) := ClientStep(setup.env, setup.clientPassword, setup.a, sys.client, NextInput(sys.toClient));
        System(st, sys.server, sys.toServer + sent, Rest(sys.toClient))
      case TheServer =>
        var (st, sent) := ServerStep(setup.env, setup.serverPassword, setup.b, sys.server, NextInput(sys.toServer));
        System(sys.client, st, Rest(sys.toServer), sys.toClient + sent)
  }

  function Initial(setup: Setup): System
    requires setup.env.p > 0
  {
    System(AwaitChallenge, AwaitCommit, [ClientHello(setup.env, setup.a)], [])
  }

  function Run(setup: Setup, sys: System, schedule: seq<Party>): System
    requires setup.env.p > 0
    decreases |schedule|
  {
    if schedule == [] then sys else Run(setup, Move(setup, sys, schedule[0]), schedule[1..])
  }

  // --- the values of a run ----------------------------------------------------------------------

  function ElementA(s: Setup): nat requires s.env.p > 0 { PublicElement(s.a, s.env.p) }

  function ElementB(s: Setup): nat requires s.env.p > 0 { PublicElement(s.b, s.env.p) }

  function ClientPe(s: Setup): nat requires s.env.p > 0 { SecretToElement(s.env.mac, s.clientPassword, s.env.p) }

  function ServerPe(s: Setup): nat requires s.env.p > 0 { SecretToElement(s.env.mac, s.serverPassword, s.env.p) }

  function MaskedB(s: Setup): nat requires s.env.p > 0 { Mask(ElementB(s), ServerPe(s), s.env.p) }

  function Unmasked(s: Setup): Result<nat> requires s.env.p > 0 { Unmask(MaskedB(s), ClientPe(s), s.env.p) }

  function CommitOf(s: Setup): Bytes requires s.env.p > 0 { CommitDigest(s.env, ElementA(s)) }

  function ClientShared(s: Setup): nat
    requires s.env.p > 0 && Unmasked(s).Success?
  {
    SharedSecret(Unmasked(s).value, s.a, s.env.p)
  }

  function ServerShared(s: Setup): nat requires s.env.p > 0 { SharedSecret(ElementA(s), s.b, s.env.p) }

  function ClientTag(s: Setup, shared: nat): Bytes
    requires s.env.p > 0
  {
    ConfirmMac(s.env.mac, shared, CommitOf(s), Role(true), ElementA(s))
  }

  predicate InRange(x: nat, p: nat) {
    1 < x < p - 1
  }

  // --- hypotheses -------------------------------------------------------------------------------

  // The group is a safe-prime group and SHA-1 digests are 20 bytes long.
  ghost predicate Legal(s: Setup, q: nat) {
    && SafePrime(s.env.p, q)
    && forall x: Bytes :: |s.env.sha1(x)| == 20
  }

  // Under the two keys of this run the client's confirmation message has two different tags.
  ghost predicate NoCollision(s: Setup)
    requires s.env.p > 0 && Unmasked(s).Success?
  {
    ClientTag(s, ClientShared(s)) == ClientTag(s, ServerShared(s)) ==>
      ToBytes(ClientShared(s), ELEMENT_BYTES) == ToBytes(ServerShared(s), ELEMENT_BYTES)
  }

  // A digest whose last byte is the last byte of the key.
  function LastByteMac(key: Bytes, data: Bytes): Bytes {
    seq(31, i => 0) + [if key == [] then 0 else key[|key| - 1]]
  }

  function SmallSetup(clientPassword: Byte, serverPassword: Byte, a: nat): Setup {
    Setup(Env(LastByteMac, (x: Bytes) => seq(20, i => 0), 7), [clientPassword], [serverPassword], a, 1)
  }

  lemma LastByteTells(x: nat, y: nat, width: nat, data: Bytes)
    requires width > 0 && x < 256 && y < 256
    requires LastByteMac(ToBytes(x, width), data) == LastByteMac(ToBytes(y, width), data)
    ensures x == y
  {
    var kx, ky := ToBytes(x, width), ToBytes(y, width);
    assert LastByteMac(kx, data)[31] == kx[width - 1] && LastByteMac(ky, data)[31] == ky[width - 1];
    assert kx[width - 1] == x && ky[width - 1] == y;
  }

  // The hypotheses can be met, whatever the two passwords and the client's exponent are.
  lemma HypothesesAreMet(clientPassword: Byte, serverPassword: Byte, a: nat)
    ensures Legal(SmallSetup(clientPassword, serverPassword, a), 3)
    ensures var s := SmallSetup(clientPassword, serverPassword, a);
      Unmasked(s).Success? ==> NoCollision(s)
  {
    SmallSafePrime();
    var s := SmallSetup(clientPassword, serverPassword, a);
    if Unmasked(s).Success? && ClientTag(s, ClientShared(s)) == ClientTag(s, ServerShared(s)) {
      var message := CommitOf(s) + Role(true) + ToBytes(ElementA(s), ELEMENT_BYTES);
      LastByteTells(ClientShared(s), ServerShared(s), ELEMENT_BYTES, message);
    }
  }

  // --- the course of a run ----------------------------------------------------------------------

  // The server accepts the client's confirmation.
  ghost predicate ServerAccepts(s: Setup)
    requires s.env.p > 0 && Unmasked(s).Success?
  {
    InRange(ElementA(s), s.env.p) && ClientTag(s, ClientShared(s)) == ClientTag(s, ServerShared(s))
  }

  ghost function AfterConfirm(s: Setup): System
    requires s.env.p > 0 && Unmasked(s).Success?
  {
    var waiting := AwaitResult(ClientShared(s), Unmasked(s).value);
    if ServerAccepts(s) then
      System(waiting, ServerDone(NewEndpoint(DeriveSessionKeys(s.env.mac, ServerShared(s)), false, true)), [],
             [AuthOk(HexOf(ConfirmMac(s.env.mac, ServerShared(s), CommitOf(s), Role(false), ElementB(s))))])
    else System(waiting, ServerFailed(CovenantError), [], [AuthFail])
  }

  ghost function Finished(s: Setup): System
    requires s.env.p > 0 && Unmasked(s).Success?
  {
    if !InRange(MaskedB(s), s.env.p) then
      System(ClientFailed(CovenantError), ServerFailed(ConnectionClosed), [], [])
    else
      var before := AfterConfirm(s);
      System(if before.server.ServerDone? then
               OnResult(s.env, s.a, ClientShared(s), Unmasked(s).value, before.toClient[0].confirmS)
             else ClientFailed(CovenantError),
             before.server, [], [])
  }

  // The state after k moves that did something.
  ghost function Stage(s: Setup, k: nat): System
    requires s.env.p > 0 && Unmasked(s).Success?
  {
    if k == 0 then Initial(s)
    else if k == 1 then System(AwaitChallenge, AwaitConfirm(CommitOf(s)), [], [Challenge(Value(MaskedB(s)))])
    else if k == 2 then
      if !InRange(MaskedB(s), s.env.p) then System(ClientFailed(CovenantError), AwaitConfirm(CommitOf(s)), [], [])
      else System(AwaitResult(ClientShared(s), Unmasked(s).value), AwaitConfirm(CommitOf(s)),
                  [Confirm(Value(ElementA(s)), HexOf(ClientTag(s, ClientShared(s))))], [])
    else if k == 3 && InRange(MaskedB(s), s.env.p) then AfterConfirm(s)
    else Finished(s)
  }

  lemma FirstMove(s: Setup, q: nat, party: Party)
    requires Legal(s, q) && Unmasked(s).Success?
    ensures Move(s, Stage(s, 0), party) == Stage(s, if Enabled(Stage(s, 0), party) then 1 else 0)
  {
  }

  lemma SecondMove(s: Setup, q: nat, party: Party)
    requires Legal(s, q) && Unmasked(s).Success?
    ensures Move(s, Stage(s, 1), party) == Stage(s, if Enabled(Stage(s, 1), party) then 2 else 1)
  {
  }

  // What the server makes of an honest client's confirmation.
  lemma ServerHearsConfirm(s: Setup, q: nat)
    requires Legal(s, q) && Unmasked(s).Success?
    ensures var confirm := Confirm(Value(ElementA(s)), HexOf(ClientTag(s, ClientShared(s))));
      ServerStep(s.env, s.serverPassword, s.b, AwaitConfirm(CommitOf(s)), Received(confirm))
        == (AfterConfirm(s).server, AfterConfirm(s).toClient)
  {
    var confirm := Confirm(Value(ElementA(s)), HexOf(ClientTag(s, ClientShared(s))));
    assert ServerStep(s.env, s.serverPassword, s.b, AwaitConfirm(CommitOf(s)), Received(confirm))
        == OnConfirm(s.env, s.b, CommitOf(s), confirm.a, confirm.confirmC);
  }

  lemma ConfirmUnderWay(s: Setup)
    requires s.env.p > 0 && Unmasked(s).Success? && InRange(MaskedB(s), s.env.p)
    ensures var confirm := Confirm(Value(ElementA(s)), HexOf(ClientTag(s, ClientShared(s))));
      Stage(s, 2) == System(AwaitResult(ClientShared(s), Unmasked(s).value), AwaitConfirm(CommitOf(s)), [confirm], [])
    ensures Stage(s, 3) == AfterConfirm(s) && AfterConfirm(s).toServer == []
    ensures AfterConfirm(s).client == AwaitResult(ClientShared(s), Unmasked(s).value)
  {
  }

  lemma ThirdMove(s: Setup, q: nat, party: Party)
    requires Legal(s, q) && Unmasked(s).Success?
    ensures Move(s, Stage(s, 2), party) == Stage(s, if Enabled(Stage(s, 2), party) then 3 else 2)
  {
    if InRange(MaskedB(s), s.env.p) {
      ConfirmUnderWay(s);
      ServerHearsConfirm(s, q);
      var confirm := Confirm(Value(ElementA(s)), HexOf(ClientTag(s, ClientShared(s))));
      assert [confirm][0] == confirm && [confirm][1..] == [];
      assert [] + AfterConfirm(s).toClient == AfterConfirm(s).toClient;
    } else {
      OutOfRangeMove(s, party);
    }
  }

  lemma OutOfRangeMove(s: Setup, party: Party)
    requires s.env.p > 0 && Unmasked(s).Success? && !InRange(MaskedB(s), s.env.p)
    ensures Move(s, Stage(s, 2), party) == Stage(s, if Enabled(Stage(s, 2), party) then 3 else 2)
  {
  }

  lemma FourthMove(s: Setup, q: nat, party: Party)
    requires Legal(s, q) && Unmasked(s).Success?
    ensures Move(s, Stage(s, 3), party) == Stage(s, if Enabled(Stage(s, 3), party) then 4 else 3)
  {
  }

  lemma LastMove(s: Setup, party: Party, k: nat)
    requires s.env.p > 0 && Unmasked(s).Success? && k >= 4
    ensures !Enabled(Stage(s, k), party) && Stage(s, k) == Finished(s)
  {
  }

  // However the two threads are scheduled, a run passes through the same stages.
  lemma {:induction false} RunPassesStages(s: Setup, q: nat, schedule: seq<Party>, k: nat) returns (n: nat)
    requires Legal(s, q) && Unmasked(s).Success?
    ensures Run(s, Stage(s, k), schedule) == Stage(s, n)
    decreases |schedule|
  {
    n := k;
    if schedule != [] {
      var party := schedule[0];
      if k == 0 { FirstMove(s, q, party); }
      else if k == 1 { SecondMove(s, q, party); }
      else if k == 2 { ThirdMove(s, q, party); }
      else if k == 3 { FourthMove(s, q, party); }
      else { LastMove(s, party, k); }
      var next := if Enabled(Stage(s, k), party) then k + 1 else k;
      n := RunPassesStages(s, q, schedule[1..], next);
    }
  }

  // As long as the run is not finished somebody can move.
  lemma Progress(s: Setup, q: nat, k: nat)
    requires Legal(s, q) && Unmasked(s).Success?
    requires !Enabled(Stage(s, k), TheClient) && !Enabled(Stage(s, k), TheServer)
    ensures Stage(s, k) == Finished(s)
  {
  }

  // --- outcomes ---------------------------------------------------------------------------------

  // With equal password elements the client recovers B itself.
  lemma UnmaskRecovers(b: nat, pe: nat, p: nat)
    requires Prime(p) && 0 < pe < p && 0 < b < p
    ensures Unmask(Mask(b, pe, p), pe, p) == Success(b)
  {
    ElementInvertible(pe, p);
    var inverse := ModInvOf(pe, p).value;
    UnmaskRatio(b, pe, pe, pe * inverse, p);
    ModMul(pe * inverse, b, p);
    assert b * (pe * inverse) == (pe * inverse) * b && 1 * b == b;
    DivModUnique(b, p, 0, b);
  }

  lemma Elements(s: Setup, q: nat)
    requires Legal(s, q)
    ensures 0 < ElementA(s) < s.env.p && 0 < ElementB(s) < s.env.p
    ensures NonzeroSquare(ClientPe(s), s.env.p) && NonzeroSquare(ServerPe(s), s.env.p)
    ensures Unmasked(s).Success?
    ensures ClientShared(s) == ServerShared(s)
      <==> ClientPe(s) == ServerPe(s) || ElementA(s) == 1 || ElementA(s) == s.env.p - 1
  {
    GeneratorNonzero(s.env.p, q, s.a);
    GeneratorNonzero(s.env.p, q, s.b);
    SecretElementIsSquare(s.env.mac, s.clientPassword, s.env.p);
    SecretElementIsSquare(s.env.mac, s.serverPassword, s.env.p);
    SecretsAgreeExactly(s.a, s.b, ClientPe(s), ServerPe(s), s.env.p, q);
  }

  // The server accepts exactly a client with its own password element, provided A is in range.
  lemma AcceptsExactly(s: Setup, q: nat)
    requires Legal(s, q) && Unmasked(s).Success? && NoCollision(s)
    ensures ServerAccepts(s) <==> InRange(ElementA(s), s.env.p) && ClientPe(s) == ServerPe(s)
  {
    Elements(s, q);
    SharedFits(s, q);
    if ServerAccepts(s) {
      ToBytesInjective(ClientShared(s), ServerShared(s), ELEMENT_BYTES);
    }
  }

  lemma SharedFits(s: Setup, q: nat)
    requires Legal(s, q) && Unmasked(s).Success?
    ensures ClientShared(s) < Pow256(ELEMENT_BYTES) && ServerShared(s) < Pow256(ELEMENT_BYTES)
  {
    DivMod(Pow(Unmasked(s).value, s.a), s.env.p);
    DivMod(Pow(ElementA(s), s.b), s.env.p);
  }

  // Neither side gets a session. The server learns of a masked B out of range only by the client hanging up.
  predicate BothFail(s: Setup, end: System)
    requires s.env.p > 0
  {
    && end.client == ClientFailed(CovenantError)
    && end.server == ServerFailed(if InRange(MaskedB(s), s.env.p) then CovenantError else ConnectionClosed)
  }

  // Over every schedule: the handshake ends, and it ends with two sessions exactly when the password
  // elements agree and both transmitted elements pass the range check. The sessions then hold the same
  // keys with the two directions swapped. Otherwise both sides fail: the client always with CovenantError, the
  // server too, unless the client has already hung up on a masked B that is out of range.
  lemma HandshakeOutcome(s: Setup, q: nat, schedule: seq<Party>)
    requires Legal(s, q) && (Unmasked(s).Success? ==> NoCollision(s))
    ensures Unmasked(s).Success?
    ensures var end := Run(s, Initial(s), schedule);
      !Enabled(end, TheClient) && !Enabled(end, TheServer) ==>
        var agreed := ClientPe(s) == ServerPe(s) && InRange(ElementA(s), s.env.p) && InRange(MaskedB(s), s.env.p);
        && (end.client.ClientDone? <==> agreed) && (end.server.ServerDone? <==> agreed)
        && (agreed ==>
              && Peers(end.client.session, end.server.session)
              && end.client.session == NewEndpoint(DeriveSessionKeys(s.env.mac, ServerShared(s)), true, true)
              && end.server.session == NewEndpoint(DeriveSessionKeys(s.env.mac, ServerShared(s)), false, true))
        && (!agreed ==> BothFail(s, end))
  {
    Elements(s, q);
    var n := RunPassesStages(s, q, schedule, 0);
    var end := Run(s, Initial(s), schedule);
    assert Stage(s, 0) == Initial(s);
    if !Enabled(end, TheClient) && !Enabled(end, TheServer) {
      Progress(s, q, n);
      AcceptsExactly(s, q);
      if ServerAccepts(s) {
        UnmaskRecovers(ElementB(s), ServerPe(s), s.env.p);
        assert ClientShared(s) == ServerShared(s);
      }
    }
  }

  // Two peers with the same password agree whenever the two transmitted elements are in range.
  lemma MatchingPasswordsAgree(s: Setup, q: nat, schedule: seq<Party>)
    requires Legal(s, q) && s.clientPassword == s.serverPassword
    requires InRange(ElementA(s), s.env.p) && InRange(MaskedB(s), s.env.p)
    ensures var end := Run(s, Initial(s), schedule);
      !Enabled(end, TheClient) && !Enabled(end, TheServer) ==>
        end.client.ClientDone? && end.server.ServerDone? && Peers(end.client.session, end.server.session)
  {
    Elements(s, q);
    UnmaskRecovers(ElementB(s), ServerPe(s), s.env.p);
    HandshakeOutcome(s, q, schedule);
  }

  // With different password elements both sides fail, whatever exponents they drew.
  lemma WrongPasswordFails(s: Setup, q: nat, schedule: seq<Party>)
    requires Legal(s, q) && ClientPe(s) != ServerPe(s) && (Unmasked(s).Success? ==> NoCollision(s))
    ensures var end := Run(s, Initial(s), schedule);
      !Enabled(end, TheClient) && !Enabled(end, TheServer) ==>
        BothFail(s, end)
  {
    HandshakeOutcome(s, q, schedule);
  }

  // The same password is not enough: with an exponent that is a multiple of q, A is 1 or p - 1, and both
  // sides fail.
  lemma DegenerateExponentFails(s: Setup, q: nat, schedule: seq<Party>)
    requires Legal(s, q) && s.clientPassword == s.serverPassword && s.a % q == 0
    ensures var end := Run(s, Initial(s), schedule);
      !Enabled(end, TheClient) && !Enabled(end, TheServer) ==>
        BothFail(s, end)
  {
    Elements(s, q);
    DegenerateElement(s.a, s.env.p, q);
    HandshakeOutcome(s, q, schedule);
  }

  // The order in which the frames travel; every run is over after it.
  const TURNS: seq<Party> := [TheServer, TheClient, TheServer, TheClient]

  lemma RunTurn(s: Setup, sys: System, party: Party, later: seq<Party>)
    requires s.env.p > 0
    ensures Run(s, sys, [party] + later) == Run(s, Move(s, sys, party), later)
  {
    assert ([party] + later)[1..] == later;
  }

  lemma TurnsEnabled(s: Setup)
    requires s.env.p > 0 && Unmasked(s).Success?
    ensures Enabled(Stage(s, 0), TheServer) && Enabled(Stage(s, 1), TheClient) && Enabled(Stage(s, 2), TheServer)
    ensures InRange(MaskedB(s), s.env.p) ==> Enabled(Stage(s, 3), TheClient)
    ensures !InRange(MaskedB(s), s.env.p) ==> Stage(s, 3) == Finished(s)
  {
  }

  lemma LastTurn(s: Setup, q: nat)
    requires Legal(s, q) && Unmasked(s).Success?
    ensures Move(s, Stage(s, 3), TheClient) == Finished(s)
    ensures !Enabled(Finished(s), TheClient) && !Enabled(Finished(s), TheServer)
  {
    TurnsEnabled(s);
    LastMove(s, TheClient, 4);
    LastMove(s, TheServer, 4);
    if InRange(MaskedB(s), s.env.p) {
      FourthMove(s, q, TheClient);
    }
  }

  lemma TurnsFinish(s: Setup, q: nat)
    requires Legal(s, q) && Unmasked(s).Success?
    ensures Run(s, Initial(s), TURNS) == Finished(s)
    ensures !Enabled(Finished(s), TheClient) && !Enabled(Finished(s), TheServer)
  {
    TurnsEnabled(s);
    FirstMove(s, q, TheServer);
    SecondMove(s, q, TheClient);
    ThirdMove(s, q, TheServer);
    LastTurn(s, q);
    TurnsAre(s, Stage(s, 0));
  }

  lemma TurnsAre(s: Setup, sys: System)
    requires s.env.p > 0
    ensures Run(s, sys, TURNS) ==
      Move(s, Move(s, Move(s, Move(s, sys, TheServer), TheClient), TheServer), TheClient)
  {
    var one := Move(s, sys, TheServer);
    var two := Move(s, one, TheClient);
    var three := Move(s, two, TheServer);
    assert TURNS == [TheServer] + [TheClient, TheServer, TheClient];
    RunTurn(s, sys, TheServer, [TheClient, TheServer, TheClient]);
    assert [TheClient, TheServer, TheClient] == [TheClient] + [TheServer, TheClient];
    RunTurn(s, one, TheClient, [TheServer, TheClient]);
    assert [TheServer, TheClient] == [TheServer] + [TheClient];
    RunTurn(s, two, TheServer, [TheClient]);
    assert [TheClient] == [TheClient] + [];
    RunTurn(s, three, TheClient, []);
  }

  // One such run, in the group of 7: exponent 3, and the same password on both sides.
  lemma EqualPasswordsCanFail(password: Byte)
    ensures var s := SmallSetup(password, password, 3);
      var end := Run(s, Initial(s), TURNS);
      !Enabled(end, TheClient) && !Enabled(end, TheServer) && BothFail(s, end)
  {
    var s := SmallSetup(password, password, 3);
    HypothesesAreMet(password, password, 3);
    Elements(s, 3);
    TurnsFinish(s, 3);
    DegenerateExponentFails(s, 3, TURNS);
  }

  lemma {:induction false} LastByteValue(zeros: nat, x: Byte)
    ensures FromBytes(seq(zeros, i => 0) + [x]) == x
    decreases zeros
  {
    var b: Bytes := seq(zeros, i => 0) + [x];
    assert b[..|b| - 1] == seq(zeros, i => 0);
    if zeros > 0 {
      LastByteValue(zeros - 1, 0);
      assert seq(zeros, i => 0) == seq(zeros - 1, i => 0) + [0];
    }
  }

  lemma SecretOf(mac: Mac, password: Bytes, p: nat, h: nat)
    requires p > 0 && 0 < h < p && FromBytes(mac(password, Ascii("Priestly-Covenant-Map"))) == h
    ensures SecretToElement(mac, password, p) == (h * h) % p
  {
    DivModUnique(h, p, 0, h);
    PowTwo(h);
  }

  lemma SmallSecret()
    ensures SecretToElement(LastByteMac, [2], 7) == 4
  {
    LastByteValue(31, 2);
    assert LastByteMac([2], Ascii("Priestly-Covenant-Map")) == seq(31, i => 0) + [2];
    SecretOf(LastByteMac, [2], 7, 2);
  }

  lemma SmallElement()
    ensures PublicElement(1, 7) == 2
  {
    PowFirst(G);
  }

  // With password 2 and exponent 1 on both sides A is 2, but masked B is 1: the client refuses it, and the
  // server sees only that the client has gone.
  lemma ServerMeetsHangUp()
    ensures var s := SmallSetup(2, 2, 1);
      Run(s, Initial(s), TURNS) == System(ClientFailed(CovenantError), ServerFailed(ConnectionClosed), [], [])
  {
    var s := SmallSetup(2, 2, 1);
    HypothesesAreMet(2, 2, 1);
    Elements(s, 3);
    TurnsFinish(s, 3);
    SmallMasked(s);
    OutOfRangeFinish(s);
  }

  lemma SmallMasked(s: Setup)
    requires s == SmallSetup(2, 2, 1)
    ensures MaskedB(s) == 1
  {
    assert ElementB(s) == PublicElement(1, 7) && ServerPe(s) == SecretToElement(LastByteMac, [2], 7);
    SmallSecret();
    SmallElement();
    SmallMask();
  }

  lemma SmallMask()
    ensures Mask(2, 4, 7) == 1
  {
  }

  lemma OutOfRangeFinish(s: Setup)
    requires s.env.p > 0 && Unmasked(s).Success? && !InRange(MaskedB(s), s.env.p)
    ensures Finished(s) == System(ClientFailed(CovenantError), ServerFailed(ConnectionClosed), [], [])
  {
  }

  // The number of moves of a schedule that do something.
  ghost function EffectiveMoves(s: Setup, sys: System, schedule: seq<Party>): nat
    requires s.env.p > 0
    decreases |schedule|
  {
    if schedule == [] then 0 else
      (if Enabled(sys, schedule[0]) then 1 else 0) + EffectiveMoves(s, Move(s, sys, schedule[0]), schedule[1..])
  }

  // No run takes more than four moves.
  lemma {:induction false} HandshakeEnds(s: Setup, q: nat, schedule: seq<Party>, k: nat)
    requires Legal(s, q) && Unmasked(s).Success? && k <= 4
    ensures EffectiveMoves(s, Stage(s, k), schedule) <= 4 - k
    decreases |schedule|
  {
    if schedule != [] {
      var party := schedule[0];
      if k == 0 { FirstMove(s, q, party); }
      else if k == 1 { SecondMove(s, q, party); }
      else if k == 2 { ThirdMove(s, q, party); }
      else if k == 3 { FourthMove(s, q, party); }
      else { LastMove(s, party, k); }
      HandshakeEnds(s, q, schedule[1..], if Enabled(Stage(s, k), party) then k + 1 else k);
    }
  }
}
