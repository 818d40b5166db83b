/** protocol/session.py: the compression marker, packet tags, and the two ends of a sealed session. */
module Session {
  import opened Bytes
  import opened Covenant
  import opened HuffmanCodec
  import opened HuffmanTheorems
  import opened Results

  // --- wire values ------------------------------------------------------------------------------

  // A string field that should hold a hex digest: the hex form of some bytes, or any other text.
  datatype HexText = HexOf(bytes: Bytes) | OtherText

  // What base64 decoding makes of a payload field. b64decode(validate=True) and the browser's atob do not take
  // the same texts: atob takes unpadded ones, b64decode some with padding too many.
  datatype Payload = Base64Of(body: Bytes) | OnlyB64decode(body: Bytes) | OnlyAtob(body: Bytes) | NotBase64
  {
    predicate InPython() { Base64Of? || OnlyB64decode? }
    predicate InBrowser() { Base64Of? || OnlyAtob? }
  }

  datatype Direction = FromClient | FromServer | Unknown

  datatype SealedFrame = SealedFrame(epoch: int, seqNo: int, direction: Direction, payload: Payload, tag: HexText)

  // --- compression marker -----------------------------------------------------------------------

  const STORED: Byte := 0
  const HUFFMAN: Byte := 1

  ghost function Pack(plaintext: Bytes): Result<Bytes> {
    var compressed :- Compress(plaintext);
    Success(if |compressed| < |plaintext| then [HUFFMAN] + compressed else [STORED] + plaintext)
  }

  method PackBytes(plaintext: Bytes) returns (r: Result<Bytes>)
    ensures r == Pack(plaintext)
  {
    var compressed :- CompressBlob(plaintext);
    if |compressed| < |plaintext| {
      return Success([HUFFMAN] + compressed);
    }
    return Success([STORED] + plaintext);
  }

  ghost function Unpack(blob: Bytes): Result<Bytes> {
    if blob == [] then Failure(AuthenticationError)
    else if blob[0] == HUFFMAN then Decompress(blob[1..])
    else if blob[0] == STORED then Success(blob[1..])
    else Failure(AuthenticationError)
  }

  method UnpackBytes(blob: Bytes) returns (r: Result<Bytes>)
    ensures r == Unpack(blob)
  {
    if blob == [] {
      return Failure(AuthenticationError);
    }
    var marker, body := blob[0], blob[1..];
    if marker == HUFFMAN {
      r := DecompressBlob(body);
    } else if marker == STORED {
      r := Success(body);
    } else {
      r := Failure(AuthenticationError);
    }
  }

  function Min(a: int, b: int): int {
    if a < b then a else b
  }

  // Packing is lossless, takes the shorter of the two forms, and costs at most the marker byte.
  lemma UnpackPack(plaintext: Bytes)
    requires |plaintext| < LIMIT
    ensures Pack(plaintext).Success? && Compress(plaintext).Success?
    ensures |Pack(plaintext).value| == 1 + Min(|Compress(plaintext).value|, |plaintext|) <= |plaintext| + 1
    ensures Unpack(Pack(plaintext).value) == Success(plaintext)
  {
    RoundTrip(plaintext, []);
    var compressed := Compress(plaintext).value;
    assert compressed + [] == compressed;
    assert ([HUFFMAN] + compressed)[1..] == compressed;
    assert ([STORED] + plaintext)[1..] == plaintext;
  }

  // The marker byte decides: 0 stored, 1 compressed, anything else or nothing is refused.
  lemma Markers(blob: Bytes)
    ensures Unpack(blob) ==
      if blob == [] || (blob[0] != 0 && blob[0] != 1) then Failure(AuthenticationError)
      else if blob[0] == 0 then Success(blob[1..]) else Decompress(blob[1..])
  {
  }

  // --- tags -------------------------------------------------------------------------------------

  // struct.pack(">Q", n) raises outside 64 bits.
  predicate FitsWord(n: int) {
    0 <= n < WORD64
  }

  function DirectionByte(direction: Direction): Byte {
    if direction == FromClient then 67 else 83
  }

  function TagInput(epoch: nat, seqNo: nat, direction: Direction, body: Bytes): Bytes {
    ToBytes(epoch, 8) + ToBytes(seqNo, 8) + [DirectionByte(direction)] + body
  }

  function ComputeTag(mac: Mac, key: Bytes, epoch: int, seqNo: int, direction: Direction, body: Bytes): Result<Bytes> {
    if FitsWord(epoch) && FitsWord(seqNo) then Success(mac(key, TagInput(epoch, seqNo, direction, body)))
    else Failure(StructError)
  }

  // A tagged input determines every header field and the payload.
  lemma TagInputInjective(e1: nat, s1: nat, d1: Direction, b1: Bytes, e2: nat, s2: nat, d2: Direction, b2: Bytes)
    requires FitsWord(e1) && FitsWord(s1) && FitsWord(e2) && FitsWord(s2)
    requires TagInput(e1, s1, d1, b1) == TagInput(e2, s2, d2, b2)
    ensures e1 == e2 && s1 == s2 && DirectionByte(d1) == DirectionByte(d2) && b1 == b2
  {
    Pow256Of8();
    var i1, i2 := TagInput(e1, s1, d1, b1), TagInput(e2, s2, d2, b2);
    assert i1[..8] == ToBytes(e1, 8) && i2[..8] == ToBytes(e2, 8);
    assert i1[8..16] == ToBytes(s1, 8) && i2[8..16] == ToBytes(s2, 8);
    assert i1[16] == DirectionByte(d1) && i2[16] == DirectionByte(d2);
    assert i1[17..] == b1 && i2[17..] == b2;
    ToBytesInjective(e1, e2, 8);
    ToBytesInjective(s1, s2, 8);
  }

  // The seventeen bytes before the payload: epoch and number, big-endian, then 'C' for the client or 'S'.
  lemma TagLayout(epoch: nat, seqNo: nat, direction: Direction, body: Bytes)
    ensures var input := TagInput(epoch, seqNo, direction, body);
      && |input| == 17 + |body| && input[17..] == body
      && (forall i :: 0 <= i < 8 ==> input[i] == (epoch / Pow256(7 - i)) % 256)
      && (forall i :: 8 <= i < 16 ==> input[i] == (seqNo / Pow256(15 - i)) % 256)
      && input[16] == if direction == FromClient then 0x43 else 0x53
  {
    var input := TagInput(epoch, seqNo, direction, body);
    forall i | 0 <= i < 8 ensures input[i] == (epoch / Pow256(7 - i)) % 256 {
      ToBytesAt(epoch, 8, i);
    }
    forall i | 8 <= i < 16 ensures input[i] == (seqNo / Pow256(15 - i)) % 256 {
      ToBytesAt(seqNo, 8, i - 8);
    }
  }

  // --- one end of a session ---------------------------------------------------------------------

  datatype Endpoint = Endpoint(isClient: bool, compress: bool, txMac: Bytes, rxMac: Bytes,
                               txSeq: nat, rxSeq: nat, epoch: nat)
  {
    function TxDirection(): Direction { if isClient then FromClient else FromServer }
    function RxDirection(): Direction { if isClient then FromServer else FromClient }
  }

  function NewEndpoint(keys: SessionKeys, isClient: bool, compress: bool): Endpoint {
    Endpoint(isClient, compress,
             if isClient then keys.clientMac else keys.serverMac,
             if isClient then keys.serverMac else keys.clientMac, 0, 0, 0)
  }

  ghost function Body(ep: Endpoint, plaintext: Bytes): Result<Bytes> {
    if ep.compress then Pack(plaintext) else Success([STORED] + plaintext)
  }

  // The frame sealed at an endpoint whose counter has already been advanced.
  ghost function SealedAt(mac: Mac, ep: Endpoint, plaintext: Bytes): Result<SealedFrame> {
    var body :- Body(ep, plaintext);
    var tag :- ComputeTag(mac, ep.txMac, ep.epoch, ep.txSeq, ep.TxDirection(), body);
    Success(SealedFrame(ep.epoch, ep.txSeq, ep.TxDirection(), Base64Of(body), HexOf(tag)))
  }

  // seal: the counter advances even when packing or tagging raises.
  ghost function Sealing(mac: Mac, ep: Endpoint, plaintext: Bytes): (Endpoint, Result<SealedFrame>) {
    var next := ep.(txSeq := ep.txSeq + 1);
    (next, SealedAt(mac, next, plaintext))
  }

  // open: direction, then encoding, then tag, then freshness; only then does the counter move.
  ghost function Opening(mac: Mac, ep: Endpoint, frame: SealedFrame): (Endpoint, Result<Bytes>) {
    if frame.direction != ep.RxDirection() || !frame.payload.InPython() then (ep, Failure(AuthenticationError))
    else
      var body := frame.payload.body;
      var expected := ComputeTag(mac, ep.rxMac, frame.epoch, frame.seqNo, frame.direction, body);
      if expected.Failure? then (ep, Failure(expected.error))
      else if frame.tag != HexOf(expected.value) then (ep, Failure(AuthenticationError))
      else if frame.seqNo <= ep.rxSeq then (ep, Failure(ReplayError))
      else (ep.(rxSeq := frame.seqNo), Unpack(body))
  }

  // protocol.session.SessionState
  class SessionState {
    const mac: Mac
    const isClient: bool
    var compress: bool
    const txMac: Bytes
    const rxMac: Bytes
    var txSeq: nat
    var rxSeq: nat
    const epoch: nat

    function State(): Endpoint
      reads this
    {
      Endpoint(isClient, compress, txMac, rxMac, txSeq, rxSeq, epoch)
    }

    constructor (mac: Mac, keys: SessionKeys, isClient: bool)
      ensures this.mac == mac && State() == NewEndpoint(keys, isClient, true)
    {
      this.mac := mac;
      this.isClient := isClient;
      compress := true;
      txMac := if isClient then keys.clientMac else keys.serverMac;
      rxMac := if isClient then keys.serverMac else keys.clientMac;
      txSeq := 0;
      rxSeq := 0;
      epoch := 0;
    }

    method Seal(plaintext: Bytes) returns (r: Result<SealedFrame>)
      modifies this`txSeq
      ensures (State(), r) == Sealing(mac, old(State()), plaintext)
    {
      txSeq := txSeq + 1;
      ghost var next := State();
      assert Sealing(mac, old(State()), plaintext) == (next, SealedAt(mac, next, plaintext));
      var body :- PayloadBody(plaintext);
      var direction := if isClient then FromClient else FromServer;
      var tag :- ComputeTag(mac, txMac, epoch, txSeq, direction, body);
      return Success(SealedFrame(epoch, txSeq, direction, Base64Of(body), HexOf(tag)));
    }

    // pack(plaintext) if compression is on, else the stored marker and the text.
    method PayloadBody(plaintext: Bytes) returns (r: Result<Bytes>)
      ensures r == Body(State(), plaintext)
    {
      if compress {
        r := PackBytes(plaintext);
      } else {
        r := Success([STORED] + plaintext);
      }
    }

    method Open(frame: SealedFrame) returns (r: Result<Bytes>)
      modifies this`rxSeq
      ensures (State(), r) == Opening(mac, old(State()), frame)
    {
      if frame.direction != (if isClient then FromServer else FromClient) {
        return Failure(AuthenticationError);
      }
      if !frame.payload.InPython() {
        return Failure(AuthenticationError);
      }
      var body := frame.payload.body;
      var expected :- ComputeTag(mac, rxMac, frame.epoch, frame.seqNo, frame.direction, body);
      if frame.tag != HexOf(expected) {
        return Failure(AuthenticationError);
      }
      if frame.seqNo <= rxSeq {
        return Failure(ReplayError);
      }
      rxSeq := frame.seqNo;
      r := UnpackBytes(body);
    }
  }

  // --- what the two ends guarantee together -----------------------------------------------------

  // Two ends that hold each other's MAC keys.
  ghost predicate Peers(a: Endpoint, b: Endpoint) {
    a.isClient != b.isClient && a.txMac == b.rxMac && a.rxMac == b.txMac && a.epoch == b.epoch == 0
  }

  lemma NewPeers(keys: SessionKeys, c: bool, d: bool)
    ensures Peers(NewEndpoint(keys, true, c), NewEndpoint(keys, false, d))
  {
  }

  // Sealing works while the text is short enough to compress and the counter fits 64 bits.
  ghost predicate CanSeal(ep: Endpoint, plaintext: Bytes) {
    ep.txSeq + 1 < WORD64 && (ep.compress ==> |plaintext| < LIMIT)
  }

  // The body of a sealed frame unpacks to its plaintext.
  lemma BodyUnpacks(ep: Endpoint, plaintext: Bytes)
    requires ep.compress ==> |plaintext| < LIMIT
    ensures Body(ep, plaintext).Success? && Unpack(Body(ep, plaintext).value) == Success(plaintext)
  {
    if ep.compress {
      UnpackPack(plaintext);
    } else {
      assert ([STORED] + plaintext)[1..] == plaintext;
    }
  }

  lemma BodySucceeds(ep: Endpoint, plaintext: Bytes)
    ensures Body(ep, plaintext).Success? <==> (ep.compress ==> |plaintext| < LIMIT)
  {
    if |plaintext| < LIMIT {
      BodyUnpacks(ep, plaintext);
    }
  }

  lemma TagSucceeds(mac: Mac, ep: Endpoint, plaintext: Bytes)
    requires ep.epoch == 0
    ensures SealedAt(mac, ep, plaintext).Success? <==> Body(ep, plaintext).Success? && FitsWord(ep.txSeq)
  {
  }

  lemma SealSucceeds(mac: Mac, ep: Endpoint, plaintext: Bytes)
    requires ep.epoch == 0
    ensures Sealing(mac, ep, plaintext).1.Success? <==> CanSeal(ep, plaintext)
    ensures !CanSeal(ep, plaintext) ==>
      Sealing(mac, ep, plaintext).1
      == if ep.compress && |plaintext| >= 0x1_0000_0000 then Failure(OverflowError) else Failure(StructError)
  {
    var next := ep.(txSeq := ep.txSeq + 1);
    BodySucceeds(next, plaintext);
    TagSucceeds(mac, next, plaintext);
  }

  // The sealed frame field by field.
  lemma SealedFields(mac: Mac, ep: Endpoint, plaintext: Bytes)
    requires Sealing(mac, ep, plaintext).1.Success?
    ensures var frame := Sealing(mac, ep, plaintext).1.value;
      && frame.epoch == ep.epoch && frame.seqNo == ep.txSeq + 1 && frame.payload.Base64Of?
      && frame.direction == (if ep.isClient then FromClient else FromServer)
      && (frame.payload.body == [0] + plaintext
          || (ep.compress && Compress(plaintext).Success? && frame.payload.body == [1] + Compress(plaintext).value))
      && frame.tag == HexOf(mac(ep.txMac, ToBytes(ep.epoch, 8) + ToBytes(ep.txSeq + 1, 8)
                                          + [if ep.isClient then 0x43 else 0x53] + frame.payload.body))
  {
  }

  // What makes an endpoint take a frame as new: the header fields and the payload under the peer's key.
  lemma TakenExactly(mac: Mac, ep: Endpoint, frame: SealedFrame)
    ensures Opening(mac, ep, frame).0 ==
      if && frame.direction == (if ep.isClient then FromServer else FromClient)
         && frame.payload.InPython() && 0 <= frame.epoch < WORD64 && ep.rxSeq < frame.seqNo < WORD64
         && frame.tag == HexOf(mac(ep.rxMac, ToBytes(frame.epoch, 8) + ToBytes(frame.seqNo, 8)
                                             + [if ep.isClient then 0x53 else 0x43] + frame.payload.body))
      then ep.(rxSeq := frame.seqNo) else ep
  {
  }

  // A frame opens at the peer, to its own plaintext, exactly when it is newer than all before it.
  lemma OpenSealed(mac: Mac, sender: Endpoint, receiver: Endpoint, plaintext: Bytes)
    requires Peers(sender, receiver) && Sealing(mac, sender, plaintext).1.Success?
    ensures var frame := Sealing(mac, sender, plaintext).1.value;
      Opening(mac, receiver, frame) ==
        if sender.txSeq + 1 > receiver.rxSeq then (receiver.(rxSeq := sender.txSeq + 1), Success(plaintext))
        else (receiver, Failure(ReplayError))
  {
    SealSucceeds(mac, sender, plaintext);
    BodyUnpacks(sender.(txSeq := sender.txSeq + 1), plaintext);
  }

  // The epoch of a frame is authenticated but not compared: a frame tagged under any other epoch than the
  // endpoint's own opens all the same, if its number is new.
  lemma EpochIsNotCompared(mac: Mac, ep: Endpoint, epoch: nat, seqNo: nat, text: Bytes)
    requires FitsWord(epoch) && FitsWord(seqNo) && seqNo > ep.rxSeq && epoch != ep.epoch
    ensures var body := [STORED] + text;
      var tag := mac(ep.rxMac, TagInput(epoch, seqNo, ep.RxDirection(), body));
      var frame := SealedFrame(epoch, seqNo, ep.RxDirection(), Base64Of(body), HexOf(tag));
      Opening(mac, ep, frame) == (ep.(rxSeq := seqNo), Success(text))
  {
    assert ([STORED] + text)[1..] == text;
  }

  // Opening and sealing touch different counters, so threads that seal do not disturb the one that opens.
  lemma OpeningIgnoresSending(mac: Mac, ep: Endpoint, txSeq: nat, frame: SealedFrame)
    ensures var (next, r) := Opening(mac, ep, frame);
      Opening(mac, ep.(txSeq := txSeq), frame) == (next.(txSeq := txSeq), r)
  {
  }

  // One end opens one frame after the other.
  ghost function OpenAll(mac: Mac, ep: Endpoint, frames: seq<SealedFrame>): seq<Result<Bytes>>
    decreases |frames|
  {
    if frames == [] then []
    else
      var (next, r) := Opening(mac, ep, frames[0]);
      [r] + OpenAll(mac, next, frames[1..])
  }
}
