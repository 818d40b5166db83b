/** transport/ws.py, frame codec: sections 5.2, 5.3 and 5.5 of RFC 6455. */
module WebSocketFrames {
  import opened Arithmetic
  import opened BitOperators
  import opened Bytes
  import opened Results
  import opened Sequences

  const OP_CONT: Byte := 0
  const OP_TEXT: Byte := 1
  const OP_BINARY: Byte := 2
  const OP_CLOSE: Byte := 8
  const OP_PING: Byte := 9
  const OP_PONG: Byte := 10

  predicate ValidOpcode(op: int) {
    op == OP_CONT || op == OP_TEXT || op == OP_BINARY || IsControl(op)
  }

  predicate IsControl(op: int) {
    op == OP_CLOSE || op == OP_PING || op == OP_PONG
  }

  // --- masking ----------------------------------------------------------------------------------

  // a ^ b
  function XorByte(a: Byte, b: Byte): Byte {
    Pow2Of8();
    Bitwise(Xor, a, b, 8)
  }

  lemma XorTwice(a: Byte, b: Byte)
    ensures XorByte(XorByte(a, b), b) == a
  {
    Pow2Of8();
    XorTwiceOnBits(a, b, 8);
  }

  // A masking key, or none.
  datatype MaskKey = NoMask | Key(bytes: Bytes)

  predicate ValidKey(key: MaskKey) {
    key.Key? ==> |key.bytes| == 4
  }

  function Masked(payload: Bytes, key: MaskKey): (masked: Bytes)
    requires ValidKey(key)
    ensures |masked| == |payload|
  {
    match key
    case NoMask => payload
    case Key(k) => seq(|payload|, i requires 0 <= i < |payload| => XorByte(payload[i], k[i % 4]))
  }

  lemma MaskedTwice(payload: Bytes, key: MaskKey)
    requires ValidKey(key)
    ensures Masked(Masked(payload, key), key) == payload
  {
    if key.Key? {
      forall i | 0 <= i < |payload| ensures Masked(Masked(payload, key), key)[i] == payload[i] {
        XorTwice(payload[i], key.bytes[i % 4]);
      }
    }
  }

  // --- encoding ---------------------------------------------------------------------------------

  function LengthField(length: nat, key: MaskKey): Bytes
    requires length < WORD64
  {
    var maskBit := if key.Key? then 128 else 0;
    if length < 126 then [maskBit + length]
    else if length < 65536 then [maskBit + 126] + ToBytes(length, 2)
    else [maskBit + 127] + ToBytes(length, 8)
  }

  function KeyField(key: MaskKey): Bytes {
    if key.Key? then key.bytes else []
  }

  // One frame on the wire.
  function WireFrame(fin: bool, opcode: Byte, payload: Bytes, key: MaskKey): Bytes
    requires opcode < 16 && |payload| < WORD64 && ValidKey(key)
  {
    [(if fin then 128 else 0) + opcode] + LengthField(|payload|, key) + KeyField(key) + Masked(payload, key)
  }

  // The length and mask bit, in the shortest of three forms.
  method AppendLength(header: Bytes, length: nat, key: MaskKey) returns (longer: Bytes)
    requires length < WORD64
    ensures longer == header + LengthField(length, key)
  {
    var maskBit: Byte := if key.Key? then 128 else 0;
    if length < 126 {
      longer := header + [maskBit + length];
    } else if length < 65536 {
      Reassociate(header, [maskBit + 126], ToBytes(length, 2));
      longer := header + [maskBit + 126];
      longer := longer + ToBytes(length, 2);
    } else {
      Reassociate(header, [maskBit + 127], ToBytes(length, 8));
      longer := header + [maskBit + 127];
      longer := longer + ToBytes(length, 8);
    }
  }

  // encode_frame: the masking key is the random choice of the caller's system.
  method EncodeFrame(opcode: Byte, payload: Bytes, key: MaskKey) returns (frame: Bytes)
    requires opcode < 16 && |payload| < WORD64 && ValidKey(key)
    ensures frame == WireFrame(true, opcode, payload, key)
  {
    var header: Bytes := [128 + opcode];
    header := AppendLength(header, |payload|, key);
    var body := payload;
    if key.Key? {
      header := header + key.bytes;
      body := Masked(payload, key);
    }
    return header + body;
  }

  // --- decoding ---------------------------------------------------------------------------------

  // What one read_frame makes of the bytes still to come.
  datatype Parsed =
    | Frame(fin: bool, opcode: Byte, payload: Bytes, rest: Bytes)
    | Closed
    | Malformed

  function ParseFrame(stream: Bytes): Parsed {
    if |stream| < 2 then Closed
    else
      var b0, b1 := stream[0], stream[1];
      var fin, opcode, length := b0 >= 128, b0 % 16, b1 % 128;
      if (b0 / 16) % 8 != 0 || !ValidOpcode(opcode) then Malformed
      else if IsControl(opcode) && (!fin || length > 125) then Malformed
      else ParseLength(fin, opcode, b1 >= 128, length, stream[2..])
  }

  // The bytes the length field takes after the second header byte.
  function ExtraLength(length: nat): nat {
    if length == 126 then 2 else if length == 127 then 8 else 0
  }

  function ParseLength(fin: bool, opcode: Byte, masked: bool, length: nat, stream: Bytes): Parsed {
    var extra := ExtraLength(length);
    if |stream| < extra then Closed
    else ParsePayload(fin, opcode, masked, if extra == 0 then length else FromBytes(stream[..extra]), stream[extra..])
  }

  function ParsePayload(fin: bool, opcode: Byte, masked: bool, length: nat, stream: Bytes): Parsed {
    if masked && |stream| < 4 then Closed
    else
      var key := if masked then Key(stream[..4]) else NoMask;
      var body := if masked then stream[4..] else stream;
      if |body| < length then Closed
      else Frame(fin, opcode, Masked(body[..length], key), body[length..])
  }

  // Some beginning of the data has been sent, maybe nothing, maybe all.
  predicate PartlySent(before: Bytes, data: Bytes, after: Bytes) {
    before <= after <= before + data
  }

  // A connected socket: the bytes the peer has sent and we have not read, the bytes we have sent, and whether
  // we have closed it.
  class Socket {
    var unread: Bytes
    var sent: Bytes
    var shut: bool

    // sock.recv(n): some nonempty part of what is there, at most n bytes; nothing at the end of the stream.
    method Recv(n: nat) returns (chunk: Bytes)
      requires n > 0
      modifies this`unread
      ensures |chunk| <= n && (chunk == [] <==> old(unread) == [])
      ensures old(unread) == chunk + unread
    {
      if unread == [] {
        return [];
      }
      var k: nat :| 1 <= k <= n && k <= |unread|;
      chunk := unread[..k];
      unread := unread[k..];
    }

    // sock.sendall(data): all of it, or an OSError after some of it.
    method SendAll(data: Bytes) returns (r: Result<()>)
      modifies this`sent
      ensures r.Success? ==> sent == old(sent) + data
      ensures r.Failure? ==> r.error == OSError && PartlySent(old(sent), data, sent)
    {
      var broken: bool := *;
      if broken {
        var k: nat :| k <= |data|;
        sent := sent + data[..k];
        return Failure(OSError);
      }
      sent := sent + data;
      return Success(());
    }

    method Shut()
      modifies this`shut
      ensures shut
    {
      shut := true;
    }
  }

  // _recv_exact
  method RecvExact(sock: Socket, n: nat) returns (r: Result<Bytes>)
    modifies sock`unread
    ensures n <= |old(sock.unread)| ==> r == Success(old(sock.unread)[..n]) && sock.unread == old(sock.unread)[n..]
    ensures n > |old(sock.unread)| ==> r == Failure(ConnectionClosed) && sock.unread == []
  {
    var buf: Bytes := [];
    while |buf| < n
      invariant |buf| <= n && old(sock.unread) == buf + sock.unread
      decreases n - |buf|
    {
      var chunk := sock.Recv(n - |buf|);
      if chunk == [] {
        return Failure(ConnectionClosed);
      }
      buf := buf + chunk;
    }
    return Success(buf);
  }

  datatype FrameIn = FrameIn(fin: bool, opcode: Byte, payload: Bytes)

  // read_frame: the outcome and what is left unread depend on the bytes only, not on how they arrive.
  method ReadFrame(sock: Socket) returns (r: Result<FrameIn>)
    modifies sock`unread
    ensures match ParseFrame(old(sock.unread))
      case Frame(fin, opcode, payload, rest) => r == Success(FrameIn(fin, opcode, payload)) && sock.unread == rest
      case Closed => r == Failure(ConnectionClosed)
      case Malformed => r == Failure(ProtocolError)
  {
    var head :- RecvExact(sock, 2);
    var b0, b1 := head[0], head[1];
    var fin := b0 >= 128;
    if (b0 / 16) % 8 != 0 {
      return Failure(ProtocolError);
    }
    var opcode: Byte := b0 % 16;
    if !ValidOpcode(opcode) {
      return Failure(ProtocolError);
    }
    var masked := b1 >= 128;
    var length: nat := b1 % 128;
    if IsControl(opcode) {
      if !fin {
        return Failure(ProtocolError);
      }
      if length > 125 {
        return Failure(ProtocolError);
      }
    }
    r := ReadBody(sock, fin, opcode, masked, length);
  }

  method ReadBody(sock: Socket, fin: bool, opcode: Byte, masked: bool, shortLength: nat) returns (r: Result<FrameIn>)
    modifies sock`unread
    ensures match ParseLength(fin, opcode, masked, shortLength, old(sock.unread))
      case Frame(f, op, payload, rest) => r == Success(FrameIn(f, op, payload)) && sock.unread == rest
      case Closed => r == Failure(ConnectionClosed)
      case Malformed => false
  {
    var length := shortLength;
    if length == 126 {
      var field :- RecvExact(sock, 2);
      length := FromBytes(field);
    } else if length == 127 {
      var field :- RecvExact(sock, 8);
      length := FromBytes(field);
    }
    var key := NoMask;
    if masked {
      var keyBytes :- RecvExact(sock, 4);
      key := Key(keyBytes);
    }
    var payload :- RecvExact(sock, length);
    return Success(FrameIn(fin, opcode, Masked(payload, key)));
  }

  // --- round trip -------------------------------------------------------------------------------

  // Frames this side may meet: control frames are final and short.
  predicate LegalFrame(fin: bool, opcode: Byte, payload: Bytes, key: MaskKey) {
    && ValidOpcode(opcode) && |payload| < WORD64 && ValidKey(key)
    && (IsControl(opcode) ==> fin && |payload| <= 125)
  }

  lemma ParsePayloadOf(fin: bool, opcode: Byte, payload: Bytes, key: MaskKey, rest: Bytes)
    requires ValidKey(key)
    ensures ParsePayload(fin, opcode, key.Key?, |payload|, KeyField(key) + Masked(payload, key) + rest)
         == Frame(fin, opcode, payload, rest)
  {
    MaskedTwice(payload, key);
    SplitThree(KeyField(key), Masked(payload, key), rest);
  }

  lemma SplitThree(a: Bytes, b: Bytes, c: Bytes)
    ensures (a + b + c)[..|a|] == a && (a + b + c)[|a|..] == b + c
    ensures (b + c)[..|b|] == b && (b + c)[|b|..] == c
    ensures a == [] ==> a + b + c == b + c
  {
  }

  lemma LengthByte(length: nat, key: MaskKey)
    requires length < WORD64
    ensures var field := LengthField(length, key);
      && (field[0] >= 128 <==> key.Key?)
      && field[0] % 128 == (if length < 126 then length else if length < 65536 then 126 else 127)
      && |field| == 1 + ExtraLength(field[0] % 128)
  {
  }

  // The length byte and its extension are read back.
  lemma ParseLengthOf(fin: bool, opcode: Byte, length: nat, key: MaskKey, tail: Bytes)
    requires length < WORD64
    ensures var field := LengthField(length, key);
      && (field[0] >= 128 <==> key.Key?)
      && (field[0] % 128 > 125 <==> length > 125)
      && ParseLength(fin, opcode, key.Key?, field[0] % 128, field[1..] + tail)
         == ParsePayload(fin, opcode, key.Key?, length, tail)
  {
    var field := LengthField(length, key);
    Pow256Of4();
    Pow256Of8();
    LengthByte(length, key);
    var extra := ExtraLength(field[0] % 128);
    assert (field[1..] + tail)[..extra] == field[1..] && (field[1..] + tail)[extra..] == tail;
    if extra > 0 {
      assert field[1..] == ToBytes(length, extra);
      FromToBytes(length, extra);
    }
  }

  // Decoding an encoded frame gives it back and leaves exactly the bytes that follow it.
  lemma ParseWireFrame(fin: bool, opcode: Byte, payload: Bytes, key: MaskKey, rest: Bytes)
    requires LegalFrame(fin, opcode, payload, key)
    ensures ParseFrame(WireFrame(fin, opcode, payload, key) + rest) == Frame(fin, opcode, payload, rest)
  {
    var field := LengthField(|payload|, key);
    var tail := KeyField(key) + Masked(payload, key) + rest;
    HeaderApart(fin, opcode, payload, key, rest);
    ParseFields(fin, opcode, |payload|, key, tail);
    ParsePayloadOf(fin, opcode, payload, key, rest);
  }

  lemma HeaderApart(fin: bool, opcode: Byte, payload: Bytes, key: MaskKey, rest: Bytes)
    requires opcode < 16 && |payload| < WORD64 && ValidKey(key)
    ensures var first: Byte := (if fin then 128 else 0) + opcode;
      var field := LengthField(|payload|, key);
      WireFrame(fin, opcode, payload, key) + rest
      == [first, field[0]] + (field[1..] + (KeyField(key) + Masked(payload, key) + rest))
  {
    Regroup((if fin then 128 else 0) + opcode, LengthField(|payload|, key), KeyField(key), Masked(payload, key), rest);
  }

  // The first two bytes and the length field.
  lemma ParseFields(fin: bool, opcode: Byte, length: nat, key: MaskKey, tail: Bytes)
    requires ValidOpcode(opcode) && length < WORD64 && (IsControl(opcode) ==> fin && length <= 125)
    ensures var first: Byte := (if fin then 128 else 0) + opcode;
      var field := LengthField(length, key);
      ParseFrame([first, field[0]] + (field[1..] + tail)) == ParsePayload(fin, opcode, key.Key?, length, tail)
  {
    var field := LengthField(length, key);
    FirstByte(fin, opcode);
    ParseLengthOf(fin, opcode, length, key, tail);
    ParseHeader((if fin then 128 else 0) + opcode, field[0], field[1..] + tail);
  }

  lemma ParseHeader(b0: Byte, b1: Byte, tail: Bytes)
    requires (b0 / 16) % 8 == 0 && ValidOpcode(b0 % 16)
    requires IsControl(b0 % 16) ==> b0 >= 128 && b1 % 128 <= 125
    ensures ParseFrame([b0, b1] + tail) == ParseLength(b0 >= 128, b0 % 16, b1 >= 128, b1 % 128, tail)
  {
    assert ([b0, b1] + tail)[2..] == tail;
  }

  lemma Regroup(first: Byte, field: Bytes, key: Bytes, body: Bytes, rest: Bytes)
    requires field != []
    ensures [first] + field + key + body + rest == [first, field[0]] + (field[1..] + (key + body + rest))
  {
  }

  lemma FirstByte(fin: bool, opcode: Byte)
    requires opcode < 16
    ensures var first: Byte := (if fin then 128 else 0) + opcode;
      (first >= 128 <==> fin) && first % 16 == opcode && (first / 16) % 8 == 0
  {
  }

  // The length field read from a stream is no shorter than the one the encoder writes.
  lemma LengthIsMinimal(length: nat, stream: Bytes, key: MaskKey)
    requires length < 128 && ExtraLength(length) <= |stream|
    ensures var extra := ExtraLength(length);
      var full := if extra == 0 then length else FromBytes(stream[..extra]);
      full < WORD64 && |LengthField(full, key)| <= 1 + extra
  {
    Pow256Of4();
    Pow256Of8();
  }

  lemma PayloadConsumes(fin: bool, opcode: Byte, masked: bool, length: nat, stream: Bytes)
    requires ParsePayload(fin, opcode, masked, length, stream).Frame?
    ensures var f := ParsePayload(fin, opcode, masked, length, stream);
      |f.payload| == length && |stream| - |f.rest| == (if masked then 4 else 0) + length
  {
  }

  // The encoder's form is the shortest: whatever bytes decode to a frame, encoding that frame again, masked
  // or unmasked as it was, takes no more bytes (section 5.2 of RFC 6455). The decoder accepts longer forms.
  lemma EncodingIsMinimal(stream: Bytes, key: MaskKey)
    requires ParseFrame(stream).Frame? && ValidKey(key) && (key.Key? <==> stream[1] >= 128)
    ensures var f := ParseFrame(stream);
      && |f.payload| < WORD64
      && |WireFrame(f.fin, f.opcode, f.payload, key)| <= |stream| - |f.rest|
  {
    var f := ParseFrame(stream);
    var length := stream[1] % 128;
    var extra := ExtraLength(length);
    LengthIsMinimal(length, stream[2..], key);
    var full := if extra == 0 then length else FromBytes(stream[2..][..extra]);
    PayloadConsumes(f.fin, f.opcode, key.Key?, full, stream[2..][extra..]);
  }

  // Whatever frame decodes from a stream no longer decodes when the stream stops inside it.
  lemma TruncatedPayload(fin: bool, opcode: Byte, masked: bool, length: nat, stream: Bytes, n: nat)
    requires n <= |stream| && ParsePayload(fin, opcode, masked, length, stream).Frame?
    requires n < |stream| - |ParsePayload(fin, opcode, masked, length, stream).rest|
    ensures ParsePayload(fin, opcode, masked, length, stream[..n]) == Closed
  {
  }

  lemma TruncatedLength(fin: bool, opcode: Byte, masked: bool, length: nat, stream: Bytes, n: nat)
    requires n <= |stream| && ParseLength(fin, opcode, masked, length, stream).Frame?
    requires n < |stream| - |ParseLength(fin, opcode, masked, length, stream).rest|
    ensures ParseLength(fin, opcode, masked, length, stream[..n]) == Closed
  {
    var extra := ExtraLength(length);
    if n >= extra {
      assert stream[..n][..extra] == stream[..extra];
      assert stream[..n][extra..] == stream[extra..][..n - extra];
      var full := if extra == 0 then length else FromBytes(stream[..extra]);
      TruncatedPayload(fin, opcode, masked, full, stream[extra..], n - extra);
    }
  }

  // Every proper beginning of a frame means "connection closed", never a frame.
  lemma TruncatedFrame(stream: Bytes, n: nat)
    requires n <= |stream| && ParseFrame(stream).Frame? && n < |stream| - |ParseFrame(stream).rest|
    ensures ParseFrame(stream[..n]) == Closed
  {
    if n >= 2 {
      assert stream[..n][2..] == stream[2..][..n - 2];
      TruncatedLength(stream[0] >= 128, stream[0] % 16, stream[1] >= 128, stream[1] % 128, stream[2..], n - 2);
    }
  }

  // A frame takes bytes off the front of the stream, two at least.
  lemma ParseConsumes(stream: Bytes)
    requires ParseFrame(stream).Frame?
    ensures |ParseFrame(stream).rest| + 2 <= |stream|
    ensures ValidOpcode(ParseFrame(stream).opcode)
    ensures IsControl(ParseFrame(stream).opcode) ==> ParseFrame(stream).fin && |ParseFrame(stream).payload| <= 125
  {
  }
}
