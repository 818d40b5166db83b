/** The Covenant drivers on a network that chooses every frame: who has confirmed what to whom. */
module MutualAuthentication {
  import opened Bytes
  import opened Covenant
  import opened Handshake
  import opened Session

  // A run of one driver: its password and exponent, the frames it was handed, the sends that went through.
  datatype Party = Party(password: Bytes, exponent: nat, inbox: seq<Frame>, room: nat)

  // What a confirmation MAC stands for: a message under a key.
  datatype Claim = Claim(key: Bytes, message: Bytes)

  function ConfirmClaim(shared: nat, commit: Bytes, isClient: bool, public: nat): Claim {
    Claim(ToBytes(shared, ELEMENT_BYTES), commit + Role(isClient) + ToBytes(public, ELEMENT_BYTES))
  }

  function TagOf(mac: Mac, claim: Claim): Bytes {
    mac(claim.key, claim.message)
  }

  ghost predicate Sound(env: Env) {
    1 < env.p <= Pow256(ELEMENT_BYTES) && forall x: Bytes :: |env.sha1(x)| == 20
  }

  // --- what each side has computed ----------------------------------------------------------------

  function ClientEnd(env: Env, c: Party): ClientState
    requires env.p > 0
  {
    ClientRun(env, c.password, c.exponent, c.inbox, c.room).0
  }

  function ServerEnd(env: Env, s: Party): ServerState
    requires env.p > 0
  {
    ServerRun(env, s.password, s.exponent, s.inbox, s.room).0
  }

  // The client after the challenge.
  function Challenged(env: Env, c: Party): ClientState
    requires env.p > 0
  {
    ClientStep(env, c.password, c.exponent, AwaitChallenge, NextInput(c.inbox)).0
  }

  // What both sides confirm to each other.
  datatype Terms = Terms(shared: nat, commit: Bytes, publicA: nat, publicB: nat)

  function ClientTerms(env: Env, c: Party): Terms
    requires env.p > 0 && Challenged(env, c).AwaitResult?
  {
    var publicA := PublicElement(c.exponent, env.p);
    Terms(Challenged(env, c).shared, CommitDigest(env, publicA), publicA, Challenged(env, c).publicB)
  }

  function ServerTerms(env: Env, s: Party): Terms
    requires env.p > 0 && ServerEnd(env, s).ServerDone?
  {
    ServerDoneMeans(env, s);
    var publicA := s.inbox[1].a.value;
    Terms(SharedSecret(publicA, s.exponent, env.p), s.inbox[0].commit.bytes, publicA, PublicElement(s.exponent, env.p))
  }

  lemma ServerDoneMeans(env: Env, s: Party)
    requires env.p > 0 && ServerEnd(env, s).ServerDone?
    ensures |s.inbox| >= 2 && s.inbox[0].Commit? && s.inbox[0].commit.Digest? && |s.inbox[0].commit.bytes| == 20
    ensures s.inbox[1].Confirm? && s.inbox[1].a.Value? && 1 < s.inbox[1].a.value < env.p - 1
    ensures env.sha1(ToBytes(s.inbox[1].a.value, 256)) == s.inbox[0].commit.bytes
  {
    var (st, sent) := ServerStep(env, s.password, s.exponent, AwaitCommit, NextInput(s.inbox));
    assert st.AwaitConfirm?;
    assert Rest(s.inbox) != [] && s.inbox[1] == Rest(s.inbox)[0];
    assert ServerStep(env, s.password, s.exponent, st, Received(s.inbox[1])).0.ServerDone?;
  }

  lemma ServerDoneSession(env: Env, s: Party)
    requires env.p > 0 && ServerEnd(env, s).ServerDone?
    ensures |s.inbox| >= 2 && s.inbox[1].Confirm?
    ensures var t := ServerTerms(env, s);
      && ServerEnd(env, s).session == NewEndpoint(DeriveSessionKeys(env.mac, t.shared), false, true)
      && s.inbox[1].confirmC == HexOf(TagOf(env.mac, ConfirmClaim(t.shared, t.commit, true, t.publicA)))
  {
    ServerDoneMeans(env, s);
    var (st, sent) := ServerStep(env, s.password, s.exponent, AwaitCommit, NextInput(s.inbox));
    assert st == AwaitConfirm(s.inbox[0].commit.bytes);
    assert s.inbox[1] == Rest(s.inbox)[0];
    assert ServerStep(env, s.password, s.exponent, st, Received(s.inbox[1]))
        == OnConfirm(env, s.exponent, st.commit, s.inbox[1].a, s.inbox[1].confirmC);
  }

  lemma ClientDoneMeans(env: Env, c: Party)
    requires env.p > 0 && ClientEnd(env, c).ClientDone?
    ensures Challenged(env, c).AwaitResult? && c.room >= 2 && |c.inbox| >= 2 && c.inbox[1].AuthOk?
    ensures var t := ClientTerms(env, c);
      && ClientEnd(env, c).session == NewEndpoint(DeriveSessionKeys(env.mac, t.shared), true, true)
      && c.inbox[1].confirmS == HexOf(TagOf(env.mac, ConfirmClaim(t.shared, t.commit, false, t.publicB)))
  {
    var (st, sent) := ClientStep(env, c.password, c.exponent, AwaitChallenge, NextInput(c.inbox));
    assert st.AwaitResult? && sent != [];
    assert Rest(c.inbox) != [] && c.inbox[1] == Rest(c.inbox)[0];
    assert ClientStep(env, c.password, c.exponent, st, Received(c.inbox[1])).0.ClientDone?;
  }

  // The client's terms are in range, and its commitment has the width of a digest.
  lemma ClientTermsFit(env: Env, c: Party)
    requires Sound(env) && Challenged(env, c).AwaitResult?
    ensures var t := ClientTerms(env, c);
      && |t.commit| == 20 && t.shared < Pow256(ELEMENT_BYTES)
      && t.publicA < Pow256(ELEMENT_BYTES) && t.publicB < Pow256(ELEMENT_BYTES)
  {
    var masked := c.inbox[0].maskedB;
    assert Challenged(env, c) == OnChallenge(env, c.password, c.exponent, masked).0;
  }

  lemma ServerTermsFit(env: Env, s: Party)
    requires Sound(env) && ServerEnd(env, s).ServerDone?
    ensures var t := ServerTerms(env, s);
      && |t.commit| == 20 && t.shared < Pow256(ELEMENT_BYTES)
      && t.publicA < Pow256(ELEMENT_BYTES) && t.publicB < Pow256(ELEMENT_BYTES)
  {
    ServerDoneMeans(env, s);
  }

  // --- tags that were really given ----------------------------------------------------------------

  // The client's second frame carries the tag of this claim.
  ghost predicate ClientSaid(env: Env, c: Party, claim: Claim)
    requires env.p > 0
  {
    && c.room >= 2 && Challenged(env, c).AwaitResult?
    && var t := ClientTerms(env, c);
    claim == ConfirmClaim(t.shared, t.commit, true, t.publicA)
  }

  // The server's last frame does; it sends it only when it is done.
  ghost predicate ServerSaid(env: Env, s: Party, claim: Claim)
    requires env.p > 0
  {
    && ServerEnd(env, s).ServerDone?
    && var t := ServerTerms(env, s);
    claim == ConfirmClaim(t.shared, t.commit, false, t.publicB)
  }

  ghost predicate Said(env: Env, clients: seq<Party>, servers: seq<Party>, claim: Claim)
    requires env.p > 0
  {
    || (exists k :: 0 <= k < |clients| && ClientSaid(env, clients[k], claim))
    || (exists i :: 0 <= i < |servers| && ServerSaid(env, servers[i], claim))
  }

  ghost predicate ServerUnforged(env: Env, clients: seq<Party>, servers: seq<Party>, s: Party)
    requires env.p > 0
  {
    ServerEnd(env, s).ServerDone? ==>
      var t := ServerTerms(env, s);
      Said(env, clients, servers, ConfirmClaim(t.shared, t.commit, true, t.publicA))
  }

  ghost predicate ClientUnforged(env: Env, clients: seq<Party>, servers: seq<Party>, c: Party)
    requires env.p > 0
  {
    ClientEnd(env, c).ClientDone? ==>
      && Challenged(env, c).AwaitResult?
      && var t := ClientTerms(env, c);
      Said(env, clients, servers, ConfirmClaim(t.shared, t.commit, false, t.publicB))
  }

  // Tags are not forged: whatever confirmation one of these parties accepted, one of them has given. The
  // network is otherwise free to drop, repeat, alter, redirect and make up frames.
  ghost predicate Unforged(env: Env, clients: seq<Party>, servers: seq<Party>)
    requires env.p > 0
  {
    && (forall k :: 0 <= k < |clients| ==> ClientUnforged(env, clients, servers, clients[k]))
    && (forall i :: 0 <= i < |servers| ==> ServerUnforged(env, clients, servers, servers[i]))
  }

  // --- the theorems ----------------------------------------------------------------------------------

  lemma ClaimsAgree(isClient: bool, s1: nat, c1: Bytes, p1: nat, s2: nat, c2: Bytes, p2: nat)
    requires |c1| == |c2| && s1 < Pow256(ELEMENT_BYTES) && s2 < Pow256(ELEMENT_BYTES)
    requires p1 < Pow256(ELEMENT_BYTES) && p2 < Pow256(ELEMENT_BYTES)
    requires ConfirmClaim(s1, c1, isClient, p1) == ConfirmClaim(s2, c2, isClient, p2)
    ensures s1 == s2 && c1 == c2 && p1 == p2
  {
    ToBytesInjective(s1, s2, ELEMENT_BYTES);
    ConfirmMessageInjective(c1, Role(isClient), p1, c2, Role(isClient), p2);
  }

  // The client has confirmed to the server: on the same shared value, commitment and A.
  ghost predicate Confirmed(env: Env, c: Party, s: Party)
    requires env.p > 0 && ServerEnd(env, s).ServerDone?
  {
    && c.room >= 2 && Challenged(env, c).AwaitResult?
    && var t, u := ServerTerms(env, s), ClientTerms(env, c);
    t.shared == u.shared && t.commit == u.commit && t.publicA == u.publicA
  }

  // A server that is done has been confirmed to by one of the clients.
  lemma ServerKnowsClient(env: Env, clients: seq<Party>, servers: seq<Party>, i: nat)
    requires Sound(env) && Unforged(env, clients, servers)
    requires i < |servers| && ServerEnd(env, servers[i]).ServerDone?
    ensures exists j :: 0 <= j < |clients| && Confirmed(env, clients[j], servers[i])
  {
    var t := ServerTerms(env, servers[i]);
    var claim := ConfirmClaim(t.shared, t.commit, true, t.publicA);
    assert ServerUnforged(env, clients, servers, servers[i]);
    ServerTermsFit(env, servers[i]);
    if k :| 0 <= k < |servers| && ServerSaid(env, servers[k], claim) {
      var v := ServerTerms(env, servers[k]);
      ServerTermsFit(env, servers[k]);
      RolesKeepApart(t.commit, t.publicA, v.commit, v.publicB);
    } else {
      var j :| 0 <= j < |clients| && ClientSaid(env, clients[j], claim);
      SaidIsConfirmed(env, clients[j], servers[i]);
    }
  }

  lemma SaidIsConfirmed(env: Env, c: Party, s: Party)
    requires Sound(env) && ServerEnd(env, s).ServerDone?
    requires var t := ServerTerms(env, s); ClientSaid(env, c, ConfirmClaim(t.shared, t.commit, true, t.publicA))
    ensures Confirmed(env, c, s)
  {
    var t, u := ServerTerms(env, s), ClientTerms(env, c);
    ServerTermsFit(env, s);
    ClientTermsFit(env, c);
    ClaimsAgree(true, t.shared, t.commit, t.publicA, u.shared, u.commit, u.publicA);
  }

  lemma ClientHeardServer(env: Env, clients: seq<Party>, servers: seq<Party>, c: Party) returns (i: nat)
    requires Sound(env) && ClientUnforged(env, clients, servers, c) && ClientEnd(env, c).ClientDone?
    ensures Challenged(env, c).AwaitResult? && i < |servers| && ServerEnd(env, servers[i]).ServerDone?
    ensures var t, u := ClientTerms(env, c), ServerTerms(env, servers[i]);
      t.shared == u.shared && t.commit == u.commit && t.publicB == u.publicB
  {
    var t := ClientTerms(env, c);
    var claim := ConfirmClaim(t.shared, t.commit, false, t.publicB);
    ClientTermsFit(env, c);
    if k :| 0 <= k < |clients| && ClientSaid(env, clients[k], claim) {
      var v := ClientTerms(env, clients[k]);
      ClientTermsFit(env, clients[k]);
      RolesKeepApart(v.commit, v.publicA, t.commit, t.publicB);
    } else {
      i :| 0 <= i < |servers| && ServerSaid(env, servers[i], claim);
      var u := ServerTerms(env, servers[i]);
      ServerTermsFit(env, servers[i]);
      ClaimsAgree(false, t.shared, t.commit, t.publicB, u.shared, u.commit, u.publicB);
    }
  }

  // Two public elements under one commitment.
  ghost predicate CommitCollision(env: Env, x: nat, y: nat) {
    x != y && env.sha1(ToBytes(x, 256)) == env.sha1(ToBytes(y, 256))
  }

  // Both are done, on the same shared value, commitment and B, and on the same A unless the commitment digest
  // collides; they hold the same keys with the directions swapped.
  ghost predicate InSession(env: Env, c: Party, s: Party)
    requires env.p > 0
  {
    && ClientEnd(env, c).ClientDone? && ServerEnd(env, s).ServerDone? && Challenged(env, c).AwaitResult?
    && Peers(ClientEnd(env, c).session, ServerEnd(env, s).session)
    && var t, u := ClientTerms(env, c), ServerTerms(env, s);
    && t.shared == u.shared && t.commit == u.commit && t.publicB == u.publicB
    && (t == u || CommitCollision(env, t.publicA, u.publicA))
  }

  // Whatever the network does: a client that has a session shares it with a server run that is done as well,
  // and to which one of the clients has confirmed.
  lemma MutualAuthentication(env: Env, clients: seq<Party>, servers: seq<Party>, k: nat)
    requires Sound(env) && Unforged(env, clients, servers)
    requires k < |clients| && ClientEnd(env, clients[k]).ClientDone?
    ensures exists i, j :: (0 <= i < |servers| && 0 <= j < |clients|
      && InSession(env, clients[k], servers[i]) && Confirmed(env, clients[j], servers[i]))
  {
    var c := clients[k];
    assert ClientUnforged(env, clients, servers, c);
    var i := ClientHeardServer(env, clients, servers, c);
    ServerKnowsClient(env, clients, servers, i);
    SessionShared(env, c, servers[i]);
  }

  lemma SessionShared(env: Env, c: Party, s: Party)
    requires env.p > 0 && ClientEnd(env, c).ClientDone? && ServerEnd(env, s).ServerDone?
    requires Challenged(env, c).AwaitResult?
    requires var t, u := ClientTerms(env, c), ServerTerms(env, s);
      t.shared == u.shared && t.commit == u.commit && t.publicB == u.publicB
    ensures InSession(env, c, s)
  {
    ClientDoneMeans(env, c);
    ServerDoneMeans(env, s);
    ServerDoneSession(env, s);
    NewPeers(DeriveSessionKeys(env.mac, ClientTerms(env, c).shared), true, true);
  }

  // No two different elements that these parties committed to or were shown have one commitment.
  ghost predicate CommitmentsDiffer(env: Env, clients: seq<Party>, servers: seq<Party>)
    requires env.p > 0
  {
    forall k, i ::
      0 <= k < |clients| && 0 <= i < |servers| && Challenged(env, clients[k]).AwaitResult? &&
      ServerEnd(env, servers[i]).ServerDone? ==>
      !CommitCollision(env, ClientTerms(env, clients[k]).publicA, ServerTerms(env, servers[i]).publicA)
  }

  // Where the commitments of these elements differ, the client and its server agree on A as well.
  lemma ElementShared(env: Env, clients: seq<Party>, servers: seq<Party>, k: nat)
    requires Sound(env) && Unforged(env, clients, servers) && CommitmentsDiffer(env, clients, servers)
    requires k < |clients| && ClientEnd(env, clients[k]).ClientDone?
    ensures exists i :: (0 <= i < |servers| && InSession(env, clients[k], servers[i])
      && ServerTerms(env, servers[i]) == ClientTerms(env, clients[k]))
  {
    MutualAuthentication(env, clients, servers, k);
    var i, j :| 0 <= i < |servers| && 0 <= j < |clients|
      && InSession(env, clients[k], servers[i]) && Confirmed(env, clients[j], servers[i]);
    assert !CommitCollision(env, ClientTerms(env, clients[k]).publicA, ServerTerms(env, servers[i]).publicA);
  }

  // With one client it is that client: the two agree on everything, without a word about collisions.
  lemma SingleClientAgrees(env: Env, c: Party, servers: seq<Party>)
    requires Sound(env) && Unforged(env, [c], servers) && ClientEnd(env, c).ClientDone?
    ensures exists i :: (0 <= i < |servers| && InSession(env, c, servers[i])
      && ServerTerms(env, servers[i]) == ClientTerms(env, c))
  {
    MutualAuthentication(env, [c], servers, 0);
  }

  // A client that takes its own confirmation for the server's has met a collision of the MAC.
  lemma ReflectionNeedsCollision(env: Env, c: Party)
    requires Sound(env) && ClientEnd(env, c).ClientDone?
    ensures Challenged(env, c).AwaitResult? && |c.inbox| >= 2 && c.inbox[1].AuthOk?
    ensures var t := ClientTerms(env, c);
      var own := ConfirmClaim(t.shared, t.commit, true, t.publicA);
      var expected := ConfirmClaim(t.shared, t.commit, false, t.publicB);
      && own != expected
      && (c.inbox[1].confirmS == HexOf(TagOf(env.mac, own)) ==> TagOf(env.mac, own) == TagOf(env.mac, expected))
  {
    ClientDoneMeans(env, c);
    ClientTermsFit(env, c);
    var t := ClientTerms(env, c);
    RolesKeepApart(t.commit, t.publicA, t.commit, t.publicB);
  }
}
