/** The relay and its sealed channels together: from the client that sealed a text to the one that opens it. */
module EndToEnd {
  import opened Bytes
  import Ch = Channel
  import opened NodeInvariant
  import opened NodeTheorems
  import opened ServerNode
  import opened Session

  // One connection's channel: what the client has sealed, and what the node has.
  datatype Leg = Leg(client: Ch.Side, node: Ch.Side)

  // Both ends hold the keys of this connection's session, and their logs are what they sealed.
  ghost predicate LegOk(mac: Mac, c: Conn, leg: Leg) {
    c.session.Some? ==>
      && leg.node.ep == c.session.value && Peers(leg.client.ep, leg.node.ep)
      && Ch.LogOk(mac, leg.client) && Ch.LogOk(mac, leg.node)
  }

  // No frame this connection's author got relayed carried a forged tag.
  ghost predicate LegUnforged(mac: Mac, c: Conn, leg: Leg) {
    forall n :: 0 <= n < |c.log| && c.log[n].source.Opened? ==>
      Ch.UnforgedFrame(mac, leg.node, leg.client, c.log[n].source.frame)
  }

  ghost predicate Legs(cfg: Config, s: State, legs: seq<Leg>) {
    && |legs| == |s.conns|
    && forall i :: 0 <= i < |legs| ==>
        LegOk(cfg.codec.mac, s.conns[i], legs[i]) && LegUnforged(cfg.codec.mac, s.conns[i], legs[i])
  }

  // The broadcast is what the client sealed at this place of its log, under the name given there or else the
  // connection's.
  ghost predicate SealedAsAt(cfg: Config, c: Conn, leg: Leg, b: Broadcast, at: nat) {
    && at < |leg.client.log| && leg.client.log[at].stamp.seqNo == Number(b.source)
    && var sealed := cfg.codec.decode(leg.client.log[at].stamp.text);
    && sealed.Success? && b.chat.text == sealed.value.text
    && b.chat.sender == if sealed.value.sender == "" then c.name else sealed.value.sender
  }

  // What the session opened, its client had sealed.
  lemma OpenedWasSealed(mac: Mac, before: Endpoint, leg: Leg, frame: SealedFrame) returns (at: nat)
    requires Peers(leg.client.ep, leg.node.ep) && Ch.LogOk(mac, leg.client) && Ch.LogOk(mac, leg.node)
    requires !leg.node.ep.isClient && !before.isClient && before.rxMac == leg.node.ep.rxMac
    requires Opening(mac, before, frame).1.Success? && Ch.UnforgedFrame(mac, leg.node, leg.client, frame)
    ensures at < |leg.client.log|
    ensures leg.client.log[at].stamp == Ch.Stamped(frame.seqNo, Opening(mac, before, frame).1.value)
  {
    Ch.OpenOutcome(mac, before, frame);
    Ch.AcceptedWasSent(mac, leg.node, leg.client, frame);
    var stamp := Ch.Stamped(frame.seqNo, Unpack(frame.payload.body).value);
    assert stamp in Ch.Stamps(leg.client.log);
    at :| 0 <= at < |leg.client.log| && Ch.Stamps(leg.client.log)[at] == stamp;
  }

  lemma BroadcastWasSealed(cfg: Config, s: State, legs: seq<Leg>, i: nat, n: nat) returns (at: nat)
    requires ValidConfig(cfg) && cfg.password.Some? && NodeOk(cfg, s) && Legs(cfg, s, legs)
    requires i < |s.conns| && n < |s.conns[i].log|
    ensures SealedAsAt(cfg, s.conns[i], legs[i], s.conns[i].log[n], at)
  {
    var c := s.conns[i];
    assert ConnOk(cfg, i, c, i in s.registry, |s.conns|);
    assert SourceOk(cfg, c, c.log[n].chat, c.log[n].source);
    var source := c.log[n].source;
    at := OpenedWasSealed(cfg.codec.mac, source.before, legs[i], source.frame);
  }

  lemma RelayedLater(cfg: Config, c: Conn, m: nat, n: nat)
    requires LogOk(cfg, c) && c.session.Some? && m < n < |c.log|
    ensures Number(c.log[m].source) < Number(c.log[n].source)
  {
  }

  // The numbers of a log rise, so the order of two entries can be read off them.
  lemma PlacedLater(mac: Mac, side: Ch.Side, at: nat, bt: nat)
    requires Ch.LogOk(mac, side) && at < |side.log| && bt < |side.log|
    requires side.log[at].stamp.seqNo < side.log[bt].stamp.seqNo
    ensures at < bt
  {
    var stamps := Ch.Stamps(side.log);
    assert stamps[at].seqNo < stamps[bt].seqNo;
  }

  // Later broadcasts were sealed later.
  lemma SealedInOrder(cfg: Config, s: State, legs: seq<Leg>, i: nat, m: nat, n: nat, at: nat, bt: nat)
    requires ValidConfig(cfg) && cfg.password.Some? && NodeOk(cfg, s) && Legs(cfg, s, legs)
    requires i < |s.conns| && m < n < |s.conns[i].log|
    requires SealedAsAt(cfg, s.conns[i], legs[i], s.conns[i].log[m], at)
    requires SealedAsAt(cfg, s.conns[i], legs[i], s.conns[i].log[n], bt)
    ensures at < bt
  {
    var c := s.conns[i];
    AuthorAuthenticated(cfg, s, i, n);
    assert ConnOk(cfg, i, c, i in s.registry, |s.conns|);
    RelayedLater(cfg, c, m, n);
    PlacedLater(cfg.codec.mac, legs[i].client, at, bt);
  }

  // Entry k of the wire comes from another, authenticated client, which sealed it at place `at` of its log.
  ghost predicate ComesFrom(cfg: Config, s: State, legs: seq<Leg>, j: nat, k: nat, at: nat)
    requires ValidConfig(cfg) && cfg.password.Some? && |legs| == |s.conns|
    requires j < |s.conns| && k < |s.conns[j].wire|
  {
    var e := s.conns[j].wire[k];
    && e.frame.Sealed? && e.origin.Relayed?
    && var Relayed(i, n) := e.origin;
    && i != j && i < |s.conns| && n < |s.conns[i].log| && Authenticated(cfg, s.conns[i])
    && Carries(cfg, s.conns[j].session, e.frame, s.conns[i].log[n].chat)
    && SealedAsAt(cfg, s.conns[i], legs[i], s.conns[i].log[n], at)
  }

  lemma EntryComesFrom(cfg: Config, s: State, legs: seq<Leg>, j: nat, k: nat) returns (at: nat)
    requires ValidConfig(cfg) && cfg.password.Some? && NodeOk(cfg, s) && Legs(cfg, s, legs)
    requires j < |s.conns| && s.conns[j].session.Some? && k < |s.conns[j].wire| && s.conns[j].wire[k].frame.Sealed?
    ensures ComesFrom(cfg, s, legs, j, k, at)
  {
    EntryCarriesText(cfg, s, j, k);
    EntryWellRelayed(cfg, s, j, k);
    var Relayed(i, n) := s.conns[j].wire[k].origin;
    AuthorAuthenticated(cfg, s, i, n);
    at := BroadcastWasSealed(cfg, s, legs, i, n);
  }

  lemma AuthorAuthenticated(cfg: Config, s: State, i: nat, n: nat)
    requires ValidConfig(cfg) && cfg.password.Some? && NodeOk(cfg, s) && i < |s.conns| && n < |s.conns[i].log|
    ensures Authenticated(cfg, s.conns[i])
  {
    assert ConnOk(cfg, i, s.conns[i], i in s.registry, |s.conns|);
  }

  predicate SameAuthor(e: Entry, f: Entry) {
    e.frame.Sealed? && f.frame.Sealed? && e.origin.Relayed? && f.origin.Relayed? && e.origin.from == f.origin.from
  }

  // The places of the wire's sealed entries in their authors' logs.
  ghost predicate Places(cfg: Config, s: State, legs: seq<Leg>, j: nat, at: seq<nat>)
    requires ValidConfig(cfg) && cfg.password.Some? && |legs| == |s.conns| && j < |s.conns|
  {
    var wire := s.conns[j].wire;
    && |at| == |wire|
    && (forall k :: 0 <= k < |wire| && wire[k].frame.Sealed? ==> ComesFrom(cfg, s, legs, j, k, at[k]))
    && (forall k, l :: 0 <= k < l < |wire| && SameAuthor(wire[k], wire[l]) ==> at[k] < at[l])
  }

  ghost function PlaceOf(cfg: Config, s: State, legs: seq<Leg>, j: nat, k: nat): nat
    requires ValidConfig(cfg) && cfg.password.Some? && |legs| == |s.conns|
    requires j < |s.conns| && k < |s.conns[j].wire|
  {
    if exists at: nat :: ComesFrom(cfg, s, legs, j, k, at) then
      var at: nat :| ComesFrom(cfg, s, legs, j, k, at);
      at
    else 0
  }

  lemma PlaceFound(cfg: Config, s: State, legs: seq<Leg>, j: nat, k: nat)
    requires ValidConfig(cfg) && cfg.password.Some? && NodeOk(cfg, s) && Legs(cfg, s, legs)
    requires j < |s.conns| && s.conns[j].session.Some? && k < |s.conns[j].wire| && s.conns[j].wire[k].frame.Sealed?
    ensures ComesFrom(cfg, s, legs, j, k, PlaceOf(cfg, s, legs, j, k))
  {
    var at := EntryComesFrom(cfg, s, legs, j, k);
  }

  lemma FindPlaces(cfg: Config, s: State, legs: seq<Leg>, j: nat) returns (at: seq<nat>)
    requires ValidConfig(cfg) && cfg.password.Some? && NodeOk(cfg, s) && Legs(cfg, s, legs)
    requires j < |s.conns| && s.conns[j].session.Some?
    ensures |at| == |s.conns[j].wire|
    ensures forall k :: 0 <= k < |at| && s.conns[j].wire[k].frame.Sealed? ==> ComesFrom(cfg, s, legs, j, k, at[k])
  {
    var wire := s.conns[j].wire;
    at := seq(|wire|, k requires 0 <= k < |wire| => PlaceOf(cfg, s, legs, j, k));
    forall k | 0 <= k < |wire| && wire[k].frame.Sealed? ensures ComesFrom(cfg, s, legs, j, k, at[k]) {
      PlaceFound(cfg, s, legs, j, k);
    }
  }

  lemma PlacesRise(cfg: Config, s: State, legs: seq<Leg>, j: nat, k: nat, l: nat, at: nat, bt: nat)
    requires ValidConfig(cfg) && cfg.password.Some? && NodeOk(cfg, s) && Legs(cfg, s, legs)
    requires j < |s.conns| && k < l < |s.conns[j].wire|
    requires ComesFrom(cfg, s, legs, j, k, at) && ComesFrom(cfg, s, legs, j, l, bt)
    requires SameAuthor(s.conns[j].wire[k], s.conns[j].wire[l])
    ensures at < bt
  {
    var wire := s.conns[j].wire;
    EntryWellRelayed(cfg, s, j, l);
    assert From(wire[k], wire[l].origin.from);
    SealedInOrder(cfg, s, legs, wire[l].origin.from, wire[k].origin.number, wire[l].origin.number, at, bt);
  }

  // In every reachable state of a protected node, if no author's channel saw a forged tag: a client opens every
  // sealed frame of its wire, and each text it opens is one that some other authenticated client sealed; the
  // texts of one author come in the order in which that client sealed them, none of them twice.
  lemma EndToEndDelivery(cfg: Config, actions: seq<Action>, legs: seq<Leg>, j: nat, reader: Endpoint)
    requires ValidConfig(cfg) && cfg.password.Some? && Legs(cfg, Run(cfg, EMPTY, actions), legs)
    requires j < |Run(cfg, EMPTY, actions).conns| && Run(cfg, EMPTY, actions).conns[j].session.Some?
    requires Peers(reader, Run(cfg, EMPTY, actions).conns[j].session.value) && reader.rxSeq == 0
    ensures var s := Run(cfg, EMPTY, actions);
      && OpenAll(cfg.codec.mac, reader, SealedFrames(s.conns[j].wire)) == Texts(cfg, s.conns, s.conns[j].wire)
      && exists at :: Places(cfg, s, legs, j, at)
  {
    Reachable(cfg, actions);
    var s := Run(cfg, EMPTY, actions);
    ReaderOpensEverything(cfg, s, j, reader);
    var at := FindPlaces(cfg, s, legs, j);
    var wire := s.conns[j].wire;
    forall k, l | 0 <= k < l < |wire| && SameAuthor(wire[k], wire[l]) ensures at[k] < at[l] {
      PlacesRise(cfg, s, legs, j, k, l, at[k], at[l]);
    }
    assert Places(cfg, s, legs, j, at);
  }
}
