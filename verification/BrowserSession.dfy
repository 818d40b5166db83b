/** ui/covenant.js, the sealed channel of the browser, against protocol/session.py over whole sessions. */
module BrowserSession {
  import opened BrowserNumbers
  import opened Bytes
  import opened Covenant
  import opened Hkdf
  import opened HuffmanCodec
  import opened HuffmanTheorems
  import opened NumberTheory
  import opened Results
  import opened Session

  datatype BrowserKeys = BrowserKeys(clientMac: Bytes, serverMac: Bytes)

  // deriveKeys
  function DeriveKeys(mac: Mac, shared: nat): BrowserKeys {
    var prk := ToBytes(shared, ELEMENT_BYTES);
    BrowserKeys(BrowserExpand(mac, prk, Ascii("Priestly-v1-client-mac"), 32),
                BrowserExpand(mac, prk, Ascii("Priestly-v1-server-mac"), 32))
  }

  // The browser's public element and shared secret are the ones Python computes, for every exponent.
  lemma SameElements(exponent: nat, peer: nat, p: nat)
    requires p > 1
    ensures (if exponent <= 0 then 1 else JsRem(Pow(G, exponent), p)) == PublicElement(exponent, p)
    ensures (if exponent <= 0 then 1 else JsRem(Pow(peer, exponent), p)) == SharedSecret(peer, exponent, p)
  {
    ModPowAgrees(G, exponent, p);
    ModPowAgrees(peer, exponent, p);
  }

  // u64be wraps where struct.pack raises.
  function Wrapped(n: int): (w: nat)
    ensures FitsWord(w) && (FitsWord(n) ==> w == n)
  {
    n % WORD64
  }

  // seal: always stored, never compressed.
  function BrowserSeal(mac: Mac, keys: BrowserKeys, seqNo: int, plaintext: Bytes): SealedFrame {
    var body := [STORED] + plaintext;
    var tag := mac(keys.clientMac, TagInput(0, Wrapped(seqNo), FromClient, body));
    SealedFrame(0, seqNo, FromClient, Base64Of(body), HexOf(tag))
  }

  // open_, up to the parsing of the plaintext.
  function BrowserOpen(mac: Mac, keys: BrowserKeys, rxSeq: nat, frame: SealedFrame): Result<Bytes> {
    if frame.direction != FromServer || !frame.payload.InBrowser() then Failure(AuthenticationError)
    else
      var body := frame.payload.body;
      var expected := mac(keys.serverMac, TagInput(Wrapped(frame.epoch), Wrapped(frame.seqNo), FromServer, body));
      if frame.tag != HexOf(expected) then Failure(AuthenticationError)
      else if frame.seqNo <= rxSeq then Failure(ReplayError)
      else if body == [] || body[0] != STORED then Failure(AuthenticationError)
      else Success(body[1..])
  }

  // The Python client the browser stands in for.
  ghost predicate StandsFor(keys: BrowserKeys, rxSeq: nat, client: Endpoint) {
    && client.isClient && client.txMac == keys.clientMac && client.rxMac == keys.serverMac
    && client.rxSeq == rxSeq && client.epoch == 0
  }

  lemma SameKeys(mac: Mac, shared: nat, compress: bool)
    ensures StandsFor(DeriveKeys(mac, shared), 0, NewEndpoint(DeriveSessionKeys(mac, shared), true, compress))
  {
    var prk := ToBytes(shared, ELEMENT_BYTES);
    BrowserExpandAgrees(mac, prk, Ascii("Priestly-v1-client-mac"), 32);
    BrowserExpandAgrees(mac, prk, Ascii("Priestly-v1-server-mac"), 32);
  }

  // For any frame whatever: the Python client accepts it with a stored payload that atob takes too exactly when
  // its header fields fit 64 bits, b64decode takes its payload and the browser accepts it; both then get the
  // same plaintext.
  lemma BrowserOpenAgrees(mac: Mac, keys: BrowserKeys, rxSeq: nat, client: Endpoint, frame: SealedFrame, text: Bytes)
    requires StandsFor(keys, rxSeq, client)
    ensures
      && Opening(mac, client, frame).1 == Success(text)
      && frame.payload.InBrowser() && frame.payload.body != [] && frame.payload.body[0] == STORED
      <==>
      && FitsWord(frame.epoch) && FitsWord(frame.seqNo) && frame.payload.InPython()
      && BrowserOpen(mac, keys, rxSeq, frame) == Success(text)
  {
  }

  // A payload that only one of the two decoders takes is opened by one side only.
  lemma DecodersDiffer(mac: Mac, keys: BrowserKeys, client: Endpoint, text: Bytes)
    requires StandsFor(keys, 0, client)
    ensures var body := [STORED] + text;
      var tag := HexOf(mac(keys.serverMac, TagInput(0, 1, FromServer, body)));
      var unpadded := SealedFrame(0, 1, FromServer, OnlyAtob(body), tag);
      var overpadded := SealedFrame(0, 1, FromServer, OnlyB64decode(body), tag);
      && BrowserOpen(mac, keys, 0, unpadded) == Success(text)
      && Opening(mac, client, unpadded) == (client, Failure(AuthenticationError))
      && BrowserOpen(mac, keys, 0, overpadded) == Failure(AuthenticationError)
      && Opening(mac, client, overpadded) == (client.(rxSeq := 1), Success(text))
  {
    assert ([STORED] + text)[1..] == text;
  }

  // Beyond 64 bits they differ: the browser takes an epoch of 2^64 for 0, Python raises.
  lemma WideEpochDiffers(mac: Mac, keys: BrowserKeys, client: Endpoint, text: Bytes)
    requires StandsFor(keys, 0, client)
    ensures var body := [STORED] + text;
      var tag := mac(keys.serverMac, TagInput(0, 1, FromServer, body));
      var frame := SealedFrame(WORD64, 1, FromServer, Base64Of(body), HexOf(tag));
      && BrowserOpen(mac, keys, 0, frame) == Success(text)
      && Opening(mac, client, frame) == (client, Failure(StructError))
  {
    assert ([STORED] + text)[1..] == text;
  }

  // --- server to browser ------------------------------------------------------------------------

  // A run of seal calls: the frames, in order, and the state they leave; a call that raises sends nothing.
  ghost function SealAll(mac: Mac, ep: Endpoint, texts: seq<Bytes>): seq<SealedFrame>
    decreases |texts|
  {
    if texts == [] then []
    else
      var (next, r) := Sealing(mac, ep, texts[0]);
      (if r.Success? then [r.value] else []) + SealAll(mac, next, texts[1..])
  }

  // The browser opens one frame after the other, and moves its counter on those it accepts.
  function BrowserOpenAll(mac: Mac, keys: BrowserKeys, rxSeq: nat, frames: seq<SealedFrame>): seq<Result<Bytes>>
    decreases |frames|
  {
    if frames == [] then []
    else
      var r := BrowserOpen(mac, keys, rxSeq, frames[0]);
      var next := if r.Success? && frames[0].seqNo >= 0 then frames[0].seqNo else rxSeq;
      [r] + BrowserOpenAll(mac, keys, next, frames[1..])
  }

  function AllOk(texts: seq<Bytes>): (rs: seq<Result<Bytes>>)
    ensures |rs| == |texts| && forall i :: 0 <= i < |texts| ==> rs[i] == Success(texts[i])
  {
    seq(|texts|, i requires 0 <= i < |texts| => Success(texts[i]))
  }

  // One sealed frame at the browser: accepted exactly when it is stored.
  lemma BrowserOpensSealed(mac: Mac, server: Endpoint, keys: BrowserKeys, rxSeq: nat, text: Bytes)
    requires !server.isClient && server.epoch == 0 && server.txMac == keys.serverMac && rxSeq <= server.txSeq
    requires CanSeal(server, text)
    ensures var (next, r) := Sealing(mac, server, text);
      && r.Success? && r.value.seqNo == next.txSeq
      && BrowserOpen(mac, keys, rxSeq, r.value) ==
         if server.compress && |Compress(text).value| < |text| then Failure(AuthenticationError) else Success(text)
  {
    SealSucceeds(mac, server, text);
    BodyUnpacks(server.(txSeq := server.txSeq + 1), text);
    assert ([STORED] + text)[1..] == text;
  }

  // With compression on, a text of one repeated byte is refused by the browser from fourteen bytes on, while the
  // Python client reads it.
  lemma RepeatedTextRefused(mac: Mac, keys: BrowserKeys, client: Endpoint, server: Endpoint, text: Bytes, b: Byte)
    requires StandsFor(keys, 0, client) && Peers(server, client) && server.compress && server.txSeq + 1 < WORD64
    requires 0 < |text| < LIMIT && forall x :: x in text ==> x == b
    ensures var frame := Sealing(mac, server, text).1;
      && frame.Success?
      && BrowserOpen(mac, keys, 0, frame.value)
         == (if |text| >= 14 then Failure(AuthenticationError) else Success(text))
      && Opening(mac, client, frame.value).1 == Success(text)
  {
    RepeatedSize(text, b);
    BrowserOpensSealed(mac, server, keys, 0, text);
    OpenSealed(mac, server, client, text);
  }

  // To a browser, for which compression is off, every run of seal calls is accepted, in order and whole.
  lemma {:induction false} BrowserHearsServer(mac: Mac, server: Endpoint, keys: BrowserKeys, rxSeq: nat,
                                                texts: seq<Bytes>)
    requires !server.isClient && server.epoch == 0 && server.txMac == keys.serverMac && rxSeq <= server.txSeq
    requires !server.compress && server.txSeq + |texts| < WORD64
    ensures BrowserOpenAll(mac, keys, rxSeq, SealAll(mac, server, texts)) == AllOk(texts)
    decreases |texts|
  {
    if texts != [] {
      var (next, r) := Sealing(mac, server, texts[0]);
      BrowserOpensSealed(mac, server, keys, rxSeq, texts[0]);
      BrowserHearsServer(mac, next, keys, next.txSeq, texts[1..]);
      assert SealAll(mac, server, texts) == [r.value] + SealAll(mac, next, texts[1..]);
      assert AllOk(texts) == [Success(texts[0])] + AllOk(texts[1..]);
    }
  }

  // --- browser to server ------------------------------------------------------------------------

  // A run of the browser's seal calls; the numbers are the caller's.
  function SealWith(mac: Mac, keys: BrowserKeys, seqs: seq<nat>, texts: seq<Bytes>): seq<SealedFrame>
    requires |seqs| == |texts|
  {
    if texts == [] then [] else
      [BrowserSeal(mac, keys, seqs[0], texts[0])] + SealWith(mac, keys, seqs[1..], texts[1..])
  }

  predicate RisingFrom(low: nat, seqs: seq<nat>)
    decreases |seqs|
  {
    seqs == [] || (low < seqs[0] && RisingFrom(seqs[0], seqs[1..]))
  }

  // The browser's frame is the one a Python client with compression off would have sealed.
  lemma BrowserSealAgrees(mac: Mac, keys: BrowserKeys, rxSeq: nat, client: Endpoint, text: Bytes)
    requires StandsFor(keys, rxSeq, client) && !client.compress && client.txSeq + 1 < WORD64
    ensures Sealing(mac, client, text).1 == Success(BrowserSeal(mac, keys, client.txSeq + 1, text))
  {
  }

  lemma ServerOpensBrowser(mac: Mac, keys: BrowserKeys, server: Endpoint, seqNo: nat, text: Bytes)
    requires !server.isClient && server.rxMac == keys.clientMac && seqNo < WORD64
    ensures Opening(mac, server, BrowserSeal(mac, keys, seqNo, text)) ==
      if server.rxSeq < seqNo then (server.(rxSeq := seqNo), Success(text)) else (server, Failure(ReplayError))
  {
    assert ([STORED] + text)[1..] == text;
  }

  // A run of the browser's seal calls is accepted by the server, in order and whole, exactly when the numbers
  // rise, with or without gaps, from the last one the server has seen.
  lemma {:induction false} ServerHearsBrowser(mac: Mac, keys: BrowserKeys, server: Endpoint, seqs: seq<nat>,
                                                texts: seq<Bytes>)
    requires !server.isClient && server.rxMac == keys.clientMac
    requires |seqs| == |texts| && forall i :: 0 <= i < |seqs| ==> seqs[i] < WORD64
    ensures OpenAll(mac, server, SealWith(mac, keys, seqs, texts)) == AllOk(texts) <==> RisingFrom(server.rxSeq, seqs)
    decreases |texts|
  {
    if texts != [] {
      ServerOpensBrowser(mac, keys, server, seqs[0], texts[0]);
      var (next, r) := Opening(mac, server, BrowserSeal(mac, keys, seqs[0], texts[0]));
      var frames := SealWith(mac, keys, seqs, texts);
      assert frames[1..] == SealWith(mac, keys, seqs[1..], texts[1..]);
      assert AllOk(texts) == [Success(texts[0])] + AllOk(texts[1..]);
      if r.Success? {
        ServerHearsBrowser(mac, keys, next, seqs[1..], texts[1..]);
        SameTails(r, OpenAll(mac, next, frames[1..]), AllOk(texts[1..]));
      } else {
        assert OpenAll(mac, server, frames)[0] != AllOk(texts)[0];
      }
    }
  }

  lemma SameTails(head: Result<Bytes>, a: seq<Result<Bytes>>, b: seq<Result<Bytes>>)
    ensures [head] + a == [head] + b <==> a == b
  {
    assert ([head] + a)[1..] == a && ([head] + b)[1..] == b;
  }

  // The numbers the browser's page uses: one more for every message.
  function Counting(low: nat, n: nat): (seqs: seq<nat>)
    ensures |seqs| == n && forall i :: 0 <= i < n ==> seqs[i] == low + 1 + i
  {
    seq(n, i => low + 1 + i)
  }

  lemma {:induction false} CountingRises(low: nat, n: nat)
    ensures RisingFrom(low, Counting(low, n))
    decreases n
  {
    if n > 0 {
      CountingRises(low + 1, n - 1);
      assert Counting(low, n)[1..] == Counting(low + 1, n - 1);
    }
  }

  // A whole session, from the shared secret of the handshake, in both directions. Messages of the browser that
  // never go out leave gaps in `seqs`.
  lemma BrowserSessionWorks(mac: Mac, shared: nat, fromServer: seq<Bytes>, seqs: seq<nat>, fromBrowser: seq<Bytes>)
    requires |fromServer| < WORD64
    requires |seqs| == |fromBrowser| && RisingFrom(0, seqs) && forall i :: 0 <= i < |seqs| ==> seqs[i] < WORD64
    ensures var keys := DeriveKeys(mac, shared);
      var server := NewEndpoint(DeriveSessionKeys(mac, shared), false, false);
      && BrowserOpenAll(mac, keys, 0, SealAll(mac, server, fromServer)) == AllOk(fromServer)
      && OpenAll(mac, server, SealWith(mac, keys, seqs, fromBrowser)) == AllOk(fromBrowser)
  {
    var server := NewEndpoint(DeriveSessionKeys(mac, shared), false, false);
    var keys := DeriveKeys(mac, shared);
    SameKeys(mac, shared, false);
    BrowserHearsServer(mac, server, keys, 0, fromServer);
    ServerHearsBrowser(mac, keys, server, seqs, fromBrowser);
  }

  lemma CountedSessionWorks(mac: Mac, shared: nat, fromServer: seq<Bytes>, fromBrowser: seq<Bytes>)
    requires |fromServer| < WORD64 && |fromBrowser| < WORD64
    ensures var keys := DeriveKeys(mac, shared);
      var server := NewEndpoint(DeriveSessionKeys(mac, shared), false, false);
      && BrowserOpenAll(mac, keys, 0, SealAll(mac, server, fromServer)) == AllOk(fromServer)
      && OpenAll(mac, server, SealWith(mac, keys, Counting(0, |fromBrowser|), fromBrowser)) == AllOk(fromBrowser)
  {
    CountingRises(0, |fromBrowser|);
    BrowserSessionWorks(mac, shared, fromServer, Counting(0, |fromBrowser|), fromBrowser);
  }
}
