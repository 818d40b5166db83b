/** The sealed channel over every run: an adversarial network between two ends of one session. */
module Channel {
  import opened Bytes
  import opened Results
  import opened Session

  // A plaintext with the sequence number it travels under.
  datatype Stamped = Stamped(seqNo: nat, text: Bytes)

  datatype Sent = Sent(stamp: Stamped, frame: SealedFrame)

  // One end: its session state, what it sealed, and what it accepted, in order.
  datatype Side = Side(ep: Endpoint, log: seq<Sent>, accepted: seq<Stamped>)

  datatype Link = Link(client: Side, server: Side) {
    function At(isClient: bool): Side { if isClient then client else server }

    function With(isClient: bool, side: Side): Link {
      if isClient then this.(client := side) else this.(server := side)
    }
  }

  // The application seals at one end, or the network hands any frame whatever to one end.
  datatype Action =
    | SealBy(isClient: bool, text: Bytes)
    | DeliverTo(isClient: bool, frame: SealedFrame)

  ghost function AfterSeal(mac: Mac, side: Side, text: Bytes): Side {
    var (ep, r) := Sealing(mac, side.ep, text);
    Side(ep, if r.Success? then side.log + [Sent(Stamped(ep.txSeq, text), r.value)] else side.log, side.accepted)
  }

  ghost function AfterDelivery(mac: Mac, side: Side, frame: SealedFrame): Side {
    var (ep, r) := Opening(mac, side.ep, frame);
    Side(ep, side.log, if r.Success? then side.accepted + [Stamped(ep.rxSeq, r.value)] else side.accepted)
  }

  ghost function Step(mac: Mac, link: Link, action: Action): Link {
    match action
    case SealBy(c, text) => link.With(c, AfterSeal(mac, link.At(c), text))
    case DeliverTo(c, frame) => link.With(c, AfterDelivery(mac, link.At(c), frame))
  }

  // --- what the network may do ------------------------------------------------------------------

  ghost predicate WellFormed(frame: SealedFrame) {
    FitsWord(frame.epoch) && FitsWord(frame.seqNo) && frame.payload.InPython()
  }

  ghost function InputOf(frame: SealedFrame): Bytes
    requires WellFormed(frame)
  {
    TagInput(frame.epoch, frame.seqNo, frame.direction, frame.payload.body)
  }

  ghost predicate CarriesValidTag(mac: Mac, key: Bytes, frame: SealedFrame) {
    WellFormed(frame) && frame.tag == HexOf(mac(key, InputOf(frame)))
  }

  // The side computed a tag over this very input, under this key, when it sealed.
  ghost predicate Tagged(side: Side, key: Bytes, input: Bytes) {
    && side.ep.txMac == key
    && exists i :: 0 <= i < |side.log| && WellFormed(side.log[i].frame) && InputOf(side.log[i].frame) == input
  }

  // Tags are not forged: a valid one was computed by one of the two ends. Frames may otherwise be
  // dropped, repeated, reordered, redirected, altered or made up.
  ghost predicate UnforgedFrame(mac: Mac, side: Side, peer: Side, frame: SealedFrame) {
    CarriesValidTag(mac, side.ep.rxMac, frame) ==>
      Tagged(side, side.ep.rxMac, InputOf(frame)) || Tagged(peer, side.ep.rxMac, InputOf(frame))
  }

  ghost predicate Unforged(mac: Mac, link: Link, action: Action) {
    action.DeliverTo? ==> UnforgedFrame(mac, link.At(action.isClient), link.At(!action.isClient), action.frame)
  }

  ghost function Run(mac: Mac, link: Link, actions: seq<Action>): Link
    decreases |actions|
  {
    if actions == [] then link else Run(mac, Step(mac, link, actions[0]), actions[1..])
  }

  ghost predicate UnforgedRun(mac: Mac, link: Link, actions: seq<Action>)
    decreases |actions|
  {
    actions == [] || (Unforged(mac, link, actions[0]) && UnforgedRun(mac, Step(mac, link, actions[0]), actions[1..]))
  }

  ghost predicate Fresh(link: Link) {
    && Peers(link.client.ep, link.server.ep) && link.client.ep.isClient
    && link.client.ep.rxSeq == link.server.ep.rxSeq == 0
    && link.client.log == link.server.log == [] && link.client.accepted == link.server.accepted == []
  }

  // --- the invariant ----------------------------------------------------------------------------

  ghost predicate Increasing(stamps: seq<Stamped>, low: nat, high: nat) {
    && (forall i :: 0 <= i < |stamps| ==> low < stamps[i].seqNo <= high)
    && (forall i, j :: 0 <= i < j < |stamps| ==> stamps[i].seqNo < stamps[j].seqNo)
  }

  function Stamps(log: seq<Sent>): (stamps: seq<Stamped>)
    ensures |stamps| == |log| && forall i :: 0 <= i < |log| ==> stamps[i] == log[i].stamp
  {
    seq(|log|, i requires 0 <= i < |log| => log[i].stamp)
  }

  // A logged frame is what its sender's seal made of the stamped plaintext.
  ghost predicate Genuine(mac: Mac, ep: Endpoint, sent: Sent) {
    var f := sent.frame;
    && f.epoch == 0 && f.seqNo == sent.stamp.seqNo && FitsWord(f.seqNo)
    && f.direction == ep.TxDirection()
    && f.payload.Base64Of? && Unpack(f.payload.body) == Success(sent.stamp.text)
    && CarriesValidTag(mac, ep.txMac, f)
  }

  ghost predicate LogOk(mac: Mac, side: Side) {
    && Increasing(Stamps(side.log), 0, side.ep.txSeq)
    && forall i :: 0 <= i < |side.log| ==> Genuine(mac, side.ep, side.log[i])
  }

  ghost predicate AcceptedOk(side: Side, peer: Side) {
    && Increasing(side.accepted, 0, side.ep.rxSeq)
    && side.ep.rxSeq == (if side.accepted == [] then 0 else side.accepted[|side.accepted| - 1].seqNo)
    && forall i :: 0 <= i < |side.accepted| ==> side.accepted[i] in Stamps(peer.log)
  }

  ghost predicate SafePair(mac: Mac, side: Side, peer: Side) {
    && Peers(side.ep, peer.ep) && LogOk(mac, side) && LogOk(mac, peer)
    && AcceptedOk(side, peer) && AcceptedOk(peer, side)
  }

  ghost predicate Safe(mac: Mac, link: Link) {
    link.client.ep.isClient && SafePair(mac, link.client, link.server)
  }

  // --- preservation -----------------------------------------------------------------------------

  lemma AppendStamp(stamps: seq<Stamped>, high: nat, next: Stamped)
    requires Increasing(stamps, 0, high) && high < next.seqNo
    ensures Increasing(stamps + [next], 0, next.seqNo)
  {
  }

  lemma SealKeepsLog(mac: Mac, side: Side, text: Bytes)
    requires LogOk(mac, side) && side.ep.epoch == 0
    ensures LogOk(mac, AfterSeal(mac, side, text))
    ensures side.log <= AfterSeal(mac, side, text).log
    ensures AfterSeal(mac, side, text).ep == side.ep.(txSeq := side.ep.txSeq + 1)
    ensures AfterSeal(mac, side, text).accepted == side.accepted
  {
    var (ep, r) := Sealing(mac, side.ep, text);
    SealSucceeds(mac, side.ep, text);
    if r.Success? {
      var sent := Sent(Stamped(ep.txSeq, text), r.value);
      BodyUnpacks(ep, text);
      assert Genuine(mac, ep, sent);
      AppendStamp(Stamps(side.log), side.ep.txSeq, sent.stamp);
      assert Stamps(side.log + [sent]) == Stamps(side.log) + [sent.stamp];
    }
  }

  lemma MoreSentKeepsAccepted(side: Side, peer: Side, more: Side)
    requires AcceptedOk(side, peer) && peer.log <= more.log
    ensures AcceptedOk(side, more)
  {
    forall i | 0 <= i < |side.accepted| ensures side.accepted[i] in Stamps(more.log) {
      var k :| 0 <= k < |peer.log| && Stamps(peer.log)[k] == side.accepted[i];
      assert Stamps(more.log)[k] == side.accepted[i];
    }
  }

  // Sealing more at one end disturbs nothing that has been accepted at either.
  lemma MoreSentKeepsPair(mac: Mac, side: Side, next: Side, peer: Side)
    requires SafePair(mac, side, peer) && LogOk(mac, next) && side.log <= next.log
    requires next.ep == side.ep.(txSeq := next.ep.txSeq) && next.accepted == side.accepted
    ensures SafePair(mac, next, peer)
  {
    MoreSentKeepsAccepted(peer, side, next);
  }

  lemma SealKeepsPair(mac: Mac, side: Side, peer: Side, text: Bytes)
    requires SafePair(mac, side, peer)
    ensures SafePair(mac, AfterSeal(mac, side, text), peer)
  {
    SealKeepsLog(mac, side, text);
    var next := AfterSeal(mac, side, text);
    MoreSentKeepsPair(mac, side, next, peer);
  }

  // Whatever opens at one end was sealed at the other, under that number and with that text.
  lemma AcceptedWasSent(mac: Mac, side: Side, peer: Side, frame: SealedFrame)
    requires Peers(side.ep, peer.ep) && LogOk(mac, side) && LogOk(mac, peer)
    requires WellFormed(frame) && frame.direction == side.ep.RxDirection()
    requires Tagged(side, side.ep.rxMac, InputOf(frame)) || Tagged(peer, side.ep.rxMac, InputOf(frame))
    ensures frame.seqNo >= 0 && Unpack(frame.payload.body).Success?
    ensures Stamped(frame.seqNo, Unpack(frame.payload.body).value) in Stamps(peer.log)
  {
    var input := InputOf(frame);
    var author := if Tagged(peer, side.ep.rxMac, input) then peer else side;
    var i :| 0 <= i < |author.log| && WellFormed(author.log[i].frame) && InputOf(author.log[i].frame) == input;
    var f := author.log[i].frame;
    assert Genuine(mac, author.ep, author.log[i]);
    TagInputInjective(f.epoch, f.seqNo, f.direction, f.payload.body,
                      frame.epoch, frame.seqNo, frame.direction, frame.payload.body);
    assert author == peer;
    assert Stamps(peer.log)[i] == author.log[i].stamp;
  }

  lemma DeliveryKeepsPair(mac: Mac, side: Side, peer: Side, frame: SealedFrame)
    requires SafePair(mac, side, peer) && UnforgedFrame(mac, side, peer, frame)
    ensures SafePair(mac, AfterDelivery(mac, side, frame), peer)
  {
    var (ep, r) := Opening(mac, side.ep, frame);
    if ep != side.ep || r.Success? {
      AcceptedWasSent(mac, side, peer, frame);
      AppendStamp(side.accepted, side.ep.rxSeq, Stamped(ep.rxSeq, r.value));
    }
    assert Stamps(AfterDelivery(mac, side, frame).log) == Stamps(side.log);
  }

  lemma StepKeepsSafe(mac: Mac, link: Link, action: Action)
    requires Safe(mac, link) && Unforged(mac, link, action)
    ensures Safe(mac, Step(mac, link, action))
  {
    match action
    case SealBy(c, text) => SealKeepsPair(mac, link.At(c), link.At(!c), text);
    case DeliverTo(c, frame) => DeliveryKeepsPair(mac, link.At(c), link.At(!c), frame);
  }

  lemma {:induction false} RunKeepsSafe(mac: Mac, link: Link, actions: seq<Action>)
    requires Safe(mac, link) && UnforgedRun(mac, link, actions)
    ensures Safe(mac, Run(mac, link, actions))
    decreases |actions|
  {
    if actions != [] {
      StepKeepsSafe(mac, link, actions[0]);
      RunKeepsSafe(mac, Step(mac, link, actions[0]), actions[1..]);
    }
  }

  // --- the theorems -----------------------------------------------------------------------------

  // xs can be read off ys from left to right, each position used at most once.
  ghost predicate Subsequence(xs: seq<Bytes>, ys: seq<Bytes>) {
    exists at: seq<nat> :: Embeds(xs, ys, at)
  }

  ghost predicate Embeds(xs: seq<Bytes>, ys: seq<Bytes>, at: seq<nat>) {
    && |at| == |xs|
    && (forall i :: 0 <= i < |at| ==> at[i] < |ys| && xs[i] == ys[at[i]])
    && (forall i, j :: 0 <= i < j < |at| ==> at[i] < at[j])
  }

  function Texts(stamps: seq<Stamped>): (texts: seq<Bytes>)
    ensures |texts| == |stamps| && forall i :: 0 <= i < |stamps| ==> texts[i] == stamps[i].text
  {
    seq(|stamps|, i requires 0 <= i < |stamps| => stamps[i].text)
  }

  lemma {:induction false} Positions(xs: seq<Stamped>, ys: seq<Stamped>) returns (at: seq<nat>)
    requires forall i :: 0 <= i < |xs| ==> xs[i] in ys
    ensures |at| == |xs| && forall i :: 0 <= i < |xs| ==> at[i] < |ys| && ys[at[i]] == xs[i]
  {
    at := [];
    if xs != [] {
      var n := |xs| - 1;
      var before := Positions(xs[..n], ys);
      assert xs[n] in ys;
      var k :| 0 <= k < |ys| && ys[k] == xs[n];
      at := before + [k];
    }
  }

  lemma StampedSubsequence(xs: seq<Stamped>, ys: seq<Stamped>, h1: nat, h2: nat)
    requires Increasing(xs, 0, h1) && Increasing(ys, 0, h2)
    requires forall i :: 0 <= i < |xs| ==> xs[i] in ys
    ensures Subsequence(Texts(xs), Texts(ys))
  {
    var at := Positions(xs, ys);
    forall i, j | 0 <= i < j < |at| ensures at[i] < at[j] {
      assert ys[at[i]].seqNo < ys[at[j]].seqNo;
    }
    assert Embeds(Texts(xs), Texts(ys), at);
  }

  // Over every run against an adversary that cannot forge tags: what either end accepted is an in-order,
  // duplicate-free selection of what its peer sealed, and the replay counter is the last number accepted.
  lemma ChannelSafety(mac: Mac, link: Link, actions: seq<Action>)
    requires Fresh(link) && UnforgedRun(mac, link, actions)
    ensures var end := Run(mac, link, actions);
      && Subsequence(Texts(end.client.accepted), Texts(Stamps(end.server.log)))
      && Subsequence(Texts(end.server.accepted), Texts(Stamps(end.client.log)))
      && AcceptedOk(end.client, end.server) && AcceptedOk(end.server, end.client)
  {
    assert Safe(mac, link);
    RunKeepsSafe(mac, link, actions);
    var end := Run(mac, link, actions);
    StampedSubsequence(end.client.accepted, Stamps(end.server.log), end.client.ep.rxSeq, end.server.ep.txSeq);
    StampedSubsequence(end.server.accepted, Stamps(end.client.log), end.server.ep.rxSeq, end.client.ep.txSeq);
  }

  // What open makes of any frame. Without a valid tag for this direction nothing changes; with one, a number
  // already reached is a replay; a new number counts as seen even if the payload then does not unpack.
  lemma OpenOutcome(mac: Mac, ep: Endpoint, frame: SealedFrame)
    ensures var (next, r) := Opening(mac, ep, frame);
      if frame.direction != ep.RxDirection() || !CarriesValidTag(mac, ep.rxMac, frame) then
        next == ep && r ==
          if frame.direction == ep.RxDirection() && frame.payload.InPython()
             && !(0 <= frame.epoch < 0x1_0000_0000_0000_0000 && 0 <= frame.seqNo < 0x1_0000_0000_0000_0000)
          then Failure(StructError) else Failure(AuthenticationError)
      else if frame.seqNo <= ep.rxSeq then next == ep && r == Failure(ReplayError)
      else next == ep.(rxSeq := frame.seqNo) && r == Unpack(frame.payload.body)
  {
  }

  // A frame reflected to the end that sealed it is refused.
  lemma OwnFramesRefused(mac: Mac, side: Side, i: nat)
    requires LogOk(mac, side) && i < |side.log|
    ensures Opening(mac, side.ep, side.log[i].frame) == (side.ep, Failure(AuthenticationError))
  {
    assert Genuine(mac, side.ep, side.log[i]);
  }

  // --- a network that loses and reorders nothing ------------------------------------------------

  // Deliveries take the peer's frames in the order they were sealed.
  ghost predicate InOrder(link: Link, action: Action) {
    action.DeliverTo? ==>
      var side, peer := link.At(action.isClient), link.At(!action.isClient);
      |side.accepted| < |peer.log| && action.frame == peer.log[|side.accepted|].frame
  }

  ghost predicate InOrderRun(mac: Mac, link: Link, actions: seq<Action>)
    decreases |actions|
  {
    actions == [] || (InOrder(link, actions[0]) && InOrderRun(mac, Step(mac, link, actions[0]), actions[1..]))
  }

  ghost predicate UpToDate(side: Side, peer: Side) {
    side.accepted <= Stamps(peer.log)
  }

  // The next frame in order opens, and it is not a forgery.
  lemma NextOpens(mac: Mac, side: Side, peer: Side)
    requires SafePair(mac, side, peer) && UpToDate(side, peer) && |side.accepted| < |peer.log|
    ensures var sent := peer.log[|side.accepted|];
      && UnforgedFrame(mac, side, peer, sent.frame)
      && AfterDelivery(mac, side, sent.frame).accepted == side.accepted + [sent.stamp]
  {
    var n := |side.accepted|;
    var sent := peer.log[n];
    assert Genuine(mac, peer.ep, sent);
    assert Tagged(peer, side.ep.rxMac, InputOf(sent.frame));
    assert Stamps(peer.log)[n] == sent.stamp;
    if n > 0 {
      assert side.accepted[n - 1] == Stamps(peer.log)[n - 1];
    }
  }

  lemma PrefixGrows(accepted: seq<Stamped>, all: seq<Stamped>)
    requires accepted <= all && |accepted| < |all|
    ensures accepted + [all[|accepted|]] <= all
  {
  }

  lemma SealKeepsUpToDate(mac: Mac, side: Side, peer: Side, text: Bytes)
    requires LogOk(mac, side) && side.ep.epoch == 0 && UpToDate(peer, side)
    ensures UpToDate(peer, AfterSeal(mac, side, text))
  {
    SealKeepsLog(mac, side, text);
    var more := AfterSeal(mac, side, text).log;
    assert Stamps(side.log) == Stamps(more)[..|side.log|];
  }

  lemma StepKeepsUpToDate(mac: Mac, link: Link, action: Action)
    requires Safe(mac, link) && InOrder(link, action)
    requires UpToDate(link.client, link.server) && UpToDate(link.server, link.client)
    ensures Unforged(mac, link, action)
    ensures var next := Step(mac, link, action);
      && UpToDate(next.client, next.server) && UpToDate(next.server, next.client)
      && |next.client.accepted| == |link.client.accepted| + (if action.DeliverTo? && action.isClient then 1 else 0)
      && |next.server.accepted| == |link.server.accepted| + (if action.DeliverTo? && !action.isClient then 1 else 0)
  {
    match action
    case SealBy(c, text) => SealKeepsUpToDate(mac, link.At(c), link.At(!c), text);
    case DeliverTo(c, frame) =>
      NextOpens(mac, link.At(c), link.At(!c));
      PrefixGrows(link.At(c).accepted, Stamps(link.At(!c).log));
  }

  // Without loss or reordering nothing is refused: each end has accepted exactly the first frames of its
  // peer, in order, one for every delivery, and all of them once everything has been delivered.
  lemma {:induction false} LosslessDelivery(mac: Mac, link: Link, actions: seq<Action>)
    requires Safe(mac, link) && UpToDate(link.client, link.server) && UpToDate(link.server, link.client)
    requires InOrderRun(mac, link, actions)
    ensures var end := Run(mac, link, actions);
      && Safe(mac, end) && UpToDate(end.client, end.server) && UpToDate(end.server, end.client)
      && (forall c: bool :: |end.At(c).accepted| == |link.At(c).accepted| + Deliveries(actions, c))
      && (forall c: bool :: |end.At(c).accepted| == |end.At(!c).log| ==> end.At(c).accepted == Stamps(end.At(!c).log))
    decreases |actions|
  {
    if actions != [] {
      StepKeepsUpToDate(mac, link, actions[0]);
      StepKeepsSafe(mac, link, actions[0]);
      LosslessDelivery(mac, Step(mac, link, actions[0]), actions[1..]);
    }
  }

  function Deliveries(actions: seq<Action>, isClient: bool): nat {
    if actions == [] then 0 else
      (if actions[0].DeliverTo? && actions[0].isClient == isClient then 1 else 0) + Deliveries(actions[1..], isClient)
  }
}
