/** A protected node and its browsers: what ui/covenant.js makes of the wire that cli/relay.py writes. */
module BrowserNode {
  import opened BrowserSession
  import opened MutualAuthentication
  import opened NodeInvariant
  import opened NodeTheorems
  import opened Relay
  import opened Results
  import opened ServerNode
  import opened Session

  // A session of the node that writes to a browser.
  ghost predicate WritesTo(ep: Endpoint, keys: BrowserKeys) {
    !ep.isClient && ep.epoch == 0 && !ep.compress && ep.txMac == keys.serverMac
  }

  lemma BrowserOpensCarried(cfg: Config, ep: Endpoint, keys: BrowserKeys, rxSeq: nat, frame: OutFrame, chat: Chat)
    requires WritesTo(ep, keys) && Carries(cfg, Some(ep), frame, chat) && rxSeq < frame.frame.seqNo
    ensures BrowserOpen(cfg.codec.mac, keys, rxSeq, frame.frame) == Success(cfg.codec.encode(chat))
  {
  }

  lemma {:induction false} BrowserOpensTexts(cfg: Config, conns: seq<Conn>, ep: Endpoint, keys: BrowserKeys,
                                             rxSeq: nat, wire: seq<Entry>)
    requires WritesTo(ep, keys) && Rising(wire, rxSeq)
    requires forall k :: 0 <= k < |wire| ==> CarriesText(cfg, conns, ep, wire[k])
    ensures BrowserOpenAll(cfg.codec.mac, keys, rxSeq, SealedFrames(wire)) == Texts(cfg, conns, wire)
    decreases |wire|
  {
    if wire != [] {
      assert CarriesText(cfg, conns, ep, wire[0]);
      assert forall k :: 0 <= k < |wire[1..]| ==> wire[1..][k] == wire[k + 1];
      var f := wire[0].frame;
      var frames := SealedFrames(wire);
      if f.Sealed? {
        assert frames[1..] == SealedFrames(wire[1..]);
        var Relayed(i, n) := wire[0].origin;
        BrowserOpensCarried(cfg, ep, keys, rxSeq, f, conns[i].log[n].chat);
        BrowserOpensTexts(cfg, conns, ep, keys, f.frame.seqNo, wire[1..]);
      } else {
        assert frames == SealedFrames(wire[1..]);
        BrowserOpensTexts(cfg, conns, ep, keys, rxSeq, wire[1..]);
      }
    }
  }

  // The server run behind a connection's session.
  function ServerOf(cfg: Config, c: Conn): Party
    requires cfg.password.Some?
  {
    Party(cfg.password.value, c.b, c.heard, 2)
  }

  // The session of a browser's connection holds the keys that the browser derives from the shared value, and
  // has compression off.
  lemma SessionWritesTo(cfg: Config, c: Conn)
    requires ValidConfig(cfg) && cfg.password.Some? && c.session.Some? && c.browser && SessionOk(cfg, c)
    ensures ServerEnd(cfg.env, ServerOf(cfg, c)).ServerDone?
    ensures WritesTo(c.session.value, DeriveKeys(cfg.env.mac, ServerTerms(cfg.env, ServerOf(cfg, c)).shared))
  {
    var s := ServerOf(cfg, c);
    ServerDoneSession(cfg.env, s);
    SameKeys(cfg.env.mac, ServerTerms(cfg.env, s).shared, true);
  }

  // In every reachable state of a protected node: a browser that holds the shared value of its connection's
  // handshake opens each sealed frame of its wire, in order, and gets the relayed messages.
  lemma BrowsersOpenEverything(cfg: Config, actions: seq<Action>, j: nat)
    requires ValidConfig(cfg) && cfg.password.Some? && j < |Run(cfg, EMPTY, actions).conns|
    requires Run(cfg, EMPTY, actions).conns[j].session.Some? && Run(cfg, EMPTY, actions).conns[j].browser
    ensures var s := Run(cfg, EMPTY, actions);
      var server := ServerOf(cfg, s.conns[j]);
      && ServerEnd(cfg.env, server).ServerDone?
      && var keys := DeriveKeys(cfg.env.mac, ServerTerms(cfg.env, server).shared);
      BrowserOpenAll(cfg.env.mac, keys, 0, SealedFrames(s.conns[j].wire)) == Texts(cfg, s.conns, s.conns[j].wire)
  {
    Reachable(cfg, actions);
    BrowserOpensWire(cfg, Run(cfg, EMPTY, actions), j);
  }

  lemma BrowserOpensWire(cfg: Config, s: State, j: nat)
    requires ValidConfig(cfg) && cfg.password.Some? && NodeOk(cfg, s)
    requires j < |s.conns| && s.conns[j].session.Some? && s.conns[j].browser
    ensures ServerEnd(cfg.env, ServerOf(cfg, s.conns[j])).ServerDone?
    ensures var keys := DeriveKeys(cfg.env.mac, ServerTerms(cfg.env, ServerOf(cfg, s.conns[j])).shared);
      BrowserOpenAll(cfg.env.mac, keys, 0, SealedFrames(s.conns[j].wire)) == Texts(cfg, s.conns, s.conns[j].wire)
  {
    var c := s.conns[j];
    WireReadable(cfg, s, j);
    assert ConnOk(cfg, j, c, j in s.registry, |s.conns|);
    SessionWritesTo(cfg, c);
    var keys := DeriveKeys(cfg.env.mac, ServerTerms(cfg.env, ServerOf(cfg, c)).shared);
    BrowserOpensTexts(cfg, s.conns, c.session.value, keys, 0, c.wire);
  }
}
