/** protocol/covenant.py field by field: what stands in every frame of a handshake that ends with a session. */
module HandshakeWire {
  import opened Arithmetic
  import opened Bytes
  import opened Covenant
  import opened Handshake
  import opened Hkdf
  import opened ModularInverse
  import opened NumberTheory
  import opened Results
  import opened Session

  // b"client", b"server" and b"Priestly-Covenant-Map"
  const CLIENT: Bytes := [0x63, 0x6C, 0x69, 0x65, 0x6E, 0x74]
  const SERVER: Bytes := [0x73, 0x65, 0x72, 0x76, 0x65, 0x72]
  const MAP_LABEL: Bytes :=
    [0x50, 0x72, 0x69, 0x65, 0x73, 0x74, 0x6C, 0x79, 0x2D, 0x43, 0x6F, 0x76, 0x65, 0x6E, 0x61, 0x6E,
     0x74, 0x2D, 0x4D, 0x61, 0x70]

  lemma Labels()
    ensures Role(true) == CLIENT && Role(false) == SERVER && Ascii("Priestly-Covenant-Map") == MAP_LABEL
  {
  }

  // The square of the digest of the label under the password, with 1 in place of 0.
  lemma PasswordElementIs(mac: Mac, password: Bytes, p: nat)
    requires p > 0
    ensures var h := FromBytes(mac(password, MAP_LABEL)) % p;
      SecretToElement(mac, password, p) == if h == 0 then 1 % p else (h * h) % p
  {
    Labels();
    PowTwo(FromBytes(mac(password, MAP_LABEL)) % p);
    PowTwo(1);
  }

  lemma OneBlock(mac: Mac, prk: Bytes, info: Bytes)
    ensures Expand(mac, prk, info, 32) == Success(Take(mac(prk, info + [1]), 32))
  {
    BrowserExpandAgrees(mac, prk, info, 32);
  }

  // Four keys, each the first block of HKDF under its own label.
  lemma KeysAre(mac: Mac, shared: nat)
    ensures var keys, prk := DeriveSessionKeys(mac, shared), ToBytes(shared, 256);
      && keys.clientWrite == Take(mac(prk, Ascii("Priestly-v1-client-write") + [1]), 32)
      && keys.serverWrite == Take(mac(prk, Ascii("Priestly-v1-server-write") + [1]), 32)
      && keys.clientMac == Take(mac(prk, Ascii("Priestly-v1-client-mac") + [1]), 32)
      && keys.serverMac == Take(mac(prk, Ascii("Priestly-v1-server-mac") + [1]), 32)
  {
    var prk := ToBytes(shared, 256);
    OneBlock(mac, prk, Ascii("Priestly-v1-client-write"));
    OneBlock(mac, prk, Ascii("Priestly-v1-server-write"));
    OneBlock(mac, prk, Ascii("Priestly-v1-client-mac"));
    OneBlock(mac, prk, Ascii("Priestly-v1-server-mac"));
  }

  // One end of a fresh session: the client seals with the client key and opens with the server's.
  ghost predicate FreshSession(mac: Mac, ep: Endpoint, isClient: bool, shared: nat) {
    var prk := ToBytes(shared, 256);
    var clientMac := Take(mac(prk, Ascii("Priestly-v1-client-mac") + [1]), 32);
    var serverMac := Take(mac(prk, Ascii("Priestly-v1-server-mac") + [1]), 32);
    ep == if isClient then Endpoint(true, true, clientMac, serverMac, 0, 0, 0)
          else Endpoint(false, true, serverMac, clientMac, 0, 0, 0)
  }

  lemma NewIsFresh(mac: Mac, isClient: bool, shared: nat)
    ensures FreshSession(mac, NewEndpoint(DeriveSessionKeys(mac, shared), isClient, true), isClient, shared)
  {
    KeysAre(mac, shared);
  }

  lemma Restored(masked: nat, pe: nat, inverse: nat, p: nat)
    requires p > 1 && masked < p && (pe * inverse) % p == 1
    ensures (((masked * inverse) % p) * pe) % p == masked
  {
    ModMul(masked * inverse, pe, p);
    assert masked * inverse * pe == (pe * inverse) * masked;
    ModMul(pe * inverse, masked, p);
    DivModUnique(masked, p, 0, masked);
    assert 1 * masked == masked;
  }

  lemma UnmaskedIsB(masked: nat, pe: nat, p: nat)
    requires Prime(p) && 0 < pe < p && masked < p && Unmask(masked, pe, p).Success?
    ensures var B := Unmask(masked, pe, p).value; B < p && (B * pe) % p == masked
  {
    ElementInvertible(pe, p);
    Restored(masked, pe, ModInvOf(pe, p).value, p);
  }

  // Whatever becomes of the client, its first frame is the digest of the 256-byte encoding of 2^a mod p.
  lemma ClientCommits(env: Env, password: Bytes, a: nat, inbox: seq<Frame>, room: nat)
    requires env.p > 0 && room > 0
    ensures var sent := ClientRun(env, password, a, inbox, room).1;
      sent != [] && sent[0] == Commit(Digest(env.sha1(ToBytes(Pow(2, a) % env.p, 256))))
  {
  }

  // A client with a session: m is the masked element it was sent, B what it made of it, K the shared value.
  lemma ClientFrames(env: Env, password: Bytes, a: nat, inbox: seq<Frame>, room: nat)
    returns (m: nat, B: nat, K: nat)
    requires Prime(env.p) && ClientRun(env, password, a, inbox, room).0.ClientDone?
    ensures |inbox| >= 2 && inbox[0] == Challenge(Value(m)) && 1 < m < env.p - 1
    ensures B < env.p && (B * SecretToElement(env.mac, password, env.p)) % env.p == m && K == Pow(B, a) % env.p
    ensures var A := Pow(2, a) % env.p;
      var commit := env.sha1(ToBytes(A, 256));
      && ClientRun(env, password, a, inbox, room).1
      == [Commit(Digest(commit)), Confirm(Value(A), HexOf(env.mac(ToBytes(K, 256), commit + CLIENT + ToBytes(A, 256))))]
      && inbox[1] == AuthOk(HexOf(env.mac(ToBytes(K, 256), commit + SERVER + ToBytes(B, 256))))
    ensures FreshSession(env.mac, ClientRun(env, password, a, inbox, room).0.session, true, K)
  {
    var (st, sent) := ClientStep(env, password, a, AwaitChallenge, NextInput(inbox));
    assert st.AwaitResult? && sent != [];
    assert Rest(inbox) != [] && inbox[1] == Rest(inbox)[0];
    assert ClientStep(env, password, a, st, Received(inbox[1])).0.ClientDone?;
    m, B, K := inbox[0].maskedB.value, st.publicB, st.shared;
    SecretElementIsSquare(env.mac, password, env.p);
    UnmaskedIsB(m, SecretToElement(env.mac, password, env.p), env.p);
    Labels();
    NewIsFresh(env.mac, true, K);
  }

  // A server with a session: A is the element it was shown, K the shared value.
  lemma ServerFrames(env: Env, password: Bytes, b: nat, inbox: seq<Frame>, room: nat) returns (A: nat, K: nat)
    requires env.p > 0 && ServerRun(env, password, b, inbox, room).0.ServerDone?
    ensures |inbox| >= 2 && 1 < A < env.p - 1 && K == Pow(A, b) % env.p
    ensures var B := Pow(2, b) % env.p;
      var commit := env.sha1(ToBytes(A, 256));
      && |commit| == 20 && inbox[0] == Commit(Digest(commit))
      && inbox[1] == Confirm(Value(A), HexOf(env.mac(ToBytes(K, 256), commit + CLIENT + ToBytes(A, 256))))
      && ServerRun(env, password, b, inbox, room).1
      == [Challenge(Value((B * SecretToElement(env.mac, password, env.p)) % env.p)),
          AuthOk(HexOf(env.mac(ToBytes(K, 256), commit + SERVER + ToBytes(B, 256))))]
    ensures FreshSession(env.mac, ServerRun(env, password, b, inbox, room).0.session, false, K)
  {
    var (st, sent) := ServerStep(env, password, b, AwaitCommit, NextInput(inbox));
    assert st.AwaitConfirm?;
    assert Rest(inbox) != [] && inbox[1] == Rest(inbox)[0];
    var (end, more) := ServerStep(env, password, b, st, Received(inbox[1]));
    assert (end, more) == OnConfirm(env, b, st.commit, inbox[1].a, inbox[1].confirmC);
    A, K := inbox[1].a.value, SharedSecret(inbox[1].a.value, b, env.p);
    Labels();
    NewIsFresh(env.mac, false, K);
  }

  // --- how the drivers fail ---------------------------------------------------------------------

  // Neither 0, 1, p - 1 nor anything beyond.
  predicate Acceptable(text: ElementText, p: nat) {
    text.Value? && 1 < text.value && text.value < p - 1
  }

  predicate Challenges(frame: Frame, p: nat) {
    frame.Challenge? && Acceptable(frame.maskedB, p)
  }

  // The client before its second frame.
  lemma ClientFailsFirst(env: Env, password: Bytes, a: nat, inbox: seq<Frame>, room: nat)
    requires env.p > 0
    ensures var end := ClientRun(env, password, a, inbox, room).0;
      && (room == 0 ==> end == ClientFailed(OSError))
      && (room > 0 && inbox == [] ==> end == ClientFailed(ConnectionClosed))
      && (room > 0 && inbox != [] && inbox[0].Unreadable? ==> end == ClientFailed(inbox[0].error))
      && (room > 0 && inbox != [] && !inbox[0].Unreadable? && !Challenges(inbox[0], env.p) ==>
          end == ClientFailed(CovenantError))
  {
  }

  lemma ClientChallenged(env: Env, password: Bytes, a: nat, challenge: Frame)
    requires Prime(env.p) && Challenges(challenge, env.p)
    ensures ClientStep(env, password, a, AwaitChallenge, Received(challenge)).0.AwaitResult?
    ensures |ClientStep(env, password, a, AwaitChallenge, Received(challenge)).1| == 1
  {
    SecretElementIsSquare(env.mac, password, env.p);
    ElementInvertible(SecretToElement(env.mac, password, env.p), env.p);
  }

  // The client after it.
  lemma ClientFailsSecond(env: Env, password: Bytes, a: nat, inbox: seq<Frame>, room: nat)
    requires Prime(env.p) && room > 0 && inbox != [] && Challenges(inbox[0], env.p)
    ensures var end := ClientRun(env, password, a, inbox, room).0;
      && (room == 1 ==> end == ClientFailed(OSError))
      && (room > 1 && |inbox| == 1 ==> end == ClientFailed(ConnectionClosed))
      && (room > 1 && |inbox| > 1 && inbox[1].Unreadable? ==> end == ClientFailed(inbox[1].error))
      && (room > 1 && |inbox| > 1 && !inbox[1].Unreadable? ==> end.ClientDone? || end == ClientFailed(CovenantError))
      && (room > 1 && |inbox| > 1 && !inbox[1].Unreadable? && !inbox[1].AuthOk? ==> end == ClientFailed(CovenantError))
  {
    ClientChallenged(env, password, a, inbox[0]);
    assert Rest(inbox) == [] <==> |inbox| == 1;
    assert |inbox| > 1 ==> Rest(inbox)[0] == inbox[1];
  }

  predicate Commits(frame: Frame) {
    frame.Commit? && frame.commit.Digest? && |frame.commit.bytes| == 20
  }

  // The server before its challenge. It tells the client of every error of its own, if it still can.
  lemma ServerFailsFirst(env: Env, password: Bytes, b: nat, inbox: seq<Frame>, room: nat)
    requires env.p > 0
    ensures var run := ServerRun(env, password, b, inbox, room);
      && (inbox == [] ==> run == (ServerFailed(ConnectionClosed), []))
      && (inbox != [] && inbox[0].Unreadable? ==> run == (ServerFailed(inbox[0].error), []))
      && (inbox != [] && !inbox[0].Unreadable? && !Commits(inbox[0]) ==>
          run == (ServerFailed(CovenantError), if room > 0 then [AuthFail] else []))
      && (inbox != [] && Commits(inbox[0]) && room == 0 ==> run == (ServerFailed(OSError), []))
  {
    var (st, sent) := ServerStep(env, password, b, AwaitCommit, NextInput(inbox));
    assert sent + [] == sent;
  }

  // The server after it: a right confirmation with no room for the answer is an OSError.
  lemma ServerFailsSecond(env: Env, password: Bytes, b: nat, inbox: seq<Frame>, room: nat)
    requires env.p > 0 && room > 0 && inbox != [] && Commits(inbox[0])
    ensures var (end, sent) := ServerRun(env, password, b, inbox, room);
      && |sent| >= 1 && sent[0].Challenge?
      && (|inbox| == 1 ==> end == ServerFailed(ConnectionClosed) && |sent| == 1)
      && (|inbox| > 1 && inbox[1].Unreadable? ==> end == ServerFailed(inbox[1].error) && |sent| == 1)
      && (|inbox| > 1 && !inbox[1].Unreadable? && !inbox[1].Confirm? ==> end == ServerFailed(CovenantError))
      && (|inbox| > 1 && !inbox[1].Unreadable? && !end.ServerDone? ==>
          || (end == ServerFailed(CovenantError) && sent[1..] == if room > 1 then [AuthFail] else [])
          || (end == ServerFailed(OSError) && |sent| == 1 && room == 1 && inbox[1].Confirm?))
  {
    assert Rest(inbox) == [] <==> |inbox| == 1;
    assert |inbox| > 1 ==> Rest(inbox)[0] == inbox[1];
  }
}
