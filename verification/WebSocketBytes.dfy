/** The frame codec byte by byte and bit by bit, and the examples of section 5.7 of RFC 6455. */
module WebSocketBytes {
  import opened BitOperators
  import opened Bytes
  import opened MachineWords
  import opened Results
  import opened WebSocketFrames
  import opened WebSocketMessages

  // --- masking, bit by bit ----------------------------------------------------------------------

  lemma XorBit(a: Byte, b: Byte, j: nat)
    requires j < 8
    ensures BitAt(XorByte(a, b), j) != BitAt(a, j) <==> BitAt(b, j) == 1
  {
    BitwiseAt(Xor, a, b, 8, j);
  }

  // Bytes of the length field after the second header byte.
  function Extra(b1: Byte): nat {
    if b1 % 128 == 126 then 2 else if b1 % 128 == 127 then 8 else 0
  }

  // Where the payload starts.
  function Start(b1: Byte): nat {
    2 + Extra(b1) + if b1 >= 128 then 4 else 0
  }

  // What a frame read from the stream consists of.
  lemma ParsedLayout(stream: Bytes)
    requires ParseFrame(stream).Frame?
    ensures |stream| >= 2 && Start(stream[1]) + |ParseFrame(stream).payload| <= |stream|
    ensures var f, b0, b1 := ParseFrame(stream), stream[0], stream[1];
      && (f.fin <==> b0 >= 128) && f.opcode == b0 % 16
      && |f.payload| == (if Extra(b1) == 0 then b1 % 128 else FromBytes(stream[2..2 + Extra(b1)]))
      && f.rest == stream[Start(b1) + |f.payload|..]
  {
    var extra := Extra(stream[1]);
    assert stream[2..][..extra] == stream[2..2 + extra] && stream[2..][extra..] == stream[2 + extra..];
    if stream[1] >= 128 {
      assert stream[2 + extra..][4..] == stream[6 + extra..];
    }
    assert stream[Start(stream[1])..][|ParseFrame(stream).payload|..]
        == stream[Start(stream[1]) + |ParseFrame(stream).payload|..];
  }

  // The payload: the bytes of the stream, or with the mask bit set those bytes with the bits flipped that are
  // set in the key, which repeats every four bytes.
  lemma ParsedBits(stream: Bytes, i: nat, j: nat)
    requires ParseFrame(stream).Frame? && i < |ParseFrame(stream).payload| && j < 8
    ensures |stream| >= 2 && Start(stream[1]) + i < |stream|
    ensures var byte, wire := ParseFrame(stream).payload[i], stream[Start(stream[1]) + i];
      && (stream[1] < 128 ==> byte == wire)
      && (stream[1] >= 128 ==>
          (BitAt(byte, j) != BitAt(wire, j) <==> BitAt(stream[2 + Extra(stream[1]) + i % 4], j) == 1))
  {
    ParsedLayout(stream);
    if stream[1] >= 128 {
      XorBit(stream[Start(stream[1]) + i], stream[2 + Extra(stream[1]) + i % 4], j);
    }
  }

  // When the first two bytes rule a frame out.
  lemma MalformedExactly(stream: Bytes)
    ensures ParseFrame(stream).Malformed? <==>
      && |stream| >= 2
      && var b0, b1 := stream[0], stream[1];
      || (b0 / 16) % 8 != 0
      || b0 % 16 !in {0, 1, 2, 8, 9, 10}
      || (b0 % 16 >= 8 && (b0 < 128 || b1 % 128 > 125))
  {
  }

  // --- encoding ---------------------------------------------------------------------------------

  // The length field of an encoded frame.
  function LengthBytes(n: nat, mask: nat): Bytes
    requires n < WORD64 && mask <= 128
  {
    if n <= 125 then [mask + n]
    else if n <= 0xFFFF then [mask + 126, n / 256, n % 256]
    else [mask + 127] + ToBytes(n, 8)
  }

  lemma LengthFieldIs(n: nat, key: MaskKey)
    requires n < WORD64
    ensures LengthField(n, key) == LengthBytes(n, if key.Key? then 128 else 0)
  {
    if 126 <= n <= 0xFFFF {
      TwoBytes(n);
    }
  }

  lemma Begins(a: Bytes, b: Bytes)
    ensures (a + b)[..|a|] == a
  {
  }

  // The bytes before the payload.
  lemma WireHeader(fin: bool, opcode: Byte, payload: Bytes, key: MaskKey)
    requires opcode < 16 && |payload| < WORD64 && ValidKey(key)
    ensures var header := [if fin then 128 + opcode else opcode] + LengthBytes(|payload|, if key.Key? then 128 else 0)
                          + (if key.Key? then key.bytes else []);
      var frame := WireFrame(fin, opcode, payload, key);
      |frame| == |header| + |payload| && frame[..|header|] == header
  {
    LengthFieldIs(|payload|, key);
    Begins([(if fin then 128 else 0) + opcode] + LengthField(|payload|, key) + KeyField(key), Masked(payload, key));
  }

  lemma TwoBytes(n: nat)
    requires n <= 0xFFFF
    ensures ToBytes(n, 2) == [n / 256, n % 256]
  {
    assert ToBytes(n / 256, 1) == ToBytes(n / 256 / 256, 0) + [n / 256 % 256];
  }

  lemma WireBits(fin: bool, opcode: Byte, payload: Bytes, key: MaskKey, i: nat, j: nat)
    requires opcode < 16 && |payload| < WORD64 && ValidKey(key) && i < |payload| && j < 8
    ensures |WireFrame(fin, opcode, payload, key)| >= |payload|
    ensures var frame := WireFrame(fin, opcode, payload, key);
      var byte, wire := payload[i], frame[|frame| - |payload| + i];
      && (key.NoMask? ==> wire == byte)
      && (key.Key? ==> (BitAt(wire, j) != BitAt(byte, j) <==> BitAt(key.bytes[i % 4], j) == 1))
  {
    if key.Key? {
      XorBit(payload[i], key.bytes[i % 4], j);
    }
  }

  // --- the examples of section 5.7 of RFC 6455 --------------------------------------------------

  const HELLO: Bytes := [0x48, 0x65, 0x6C, 0x6C, 0x6F]
  const KEY: MaskKey := Key([0x37, 0xFA, 0x21, 0x3D])

  lemma XorDigits(x: bv32, y: bv32, z: bv32, x1: bv32, y1: bv32, z1: bv32, width: nat, a: nat, b: nat, c: nat)
    requires z == x ^ y && x1 == x >> 4 && y1 == y >> 4 && z1 == z >> 4
    requires a == 16 * Value(x1, width) + Digit(x) && b == 16 * Value(y1, width) + Digit(y)
    requires c == 16 * Value(z1, width) + Digit(z)
    ensures Bitwise(Xor, a, b, width + 4) == c
  {
    ValueDigit(x, x1, width);
    ValueDigit(y, y1, width);
    ValueDigit(z, z1, width);
    XorValues(x, y, z, width + 4, a, b, c);
  }

  lemma XorValues(x: bv32, y: bv32, z: bv32, width: nat, a: nat, b: nat, c: nat)
    requires z == x ^ y && a == Value(x, width) && b == Value(y, width) && c == Value(z, width)
    ensures Bitwise(Xor, a, b, width) == c
  {
    XorBits(x, y, z, width);
  }

  lemma OneDigit(x: bv32, width: nat)
    requires x >> 4 == 0 && width == 4
    ensures Value(x, width) == Digit(x)
  {
    ValueDigit(x, x >> 4, width - 4);
  }

  // The exclusive or of two bytes, on machine words: x1, y1 and z1 are their high digits.
  lemma XorOctets(x: bv32, y: bv32, z: bv32, x1: bv32, y1: bv32, z1: bv32, a: Byte, b: Byte, c: Byte)
    requires z == x ^ y && x1 == x >> 4 && y1 == y >> 4 && z1 == z >> 4
    requires x1 >> 4 == 0 && y1 >> 4 == 0 && z1 >> 4 == 0
    requires a == 16 * Digit(x1) + Digit(x) && b == 16 * Digit(y1) + Digit(y) && c == 16 * Digit(z1) + Digit(z)
    ensures XorByte(a, b) == c
  {
    OneDigit(x1, 4);
    OneDigit(y1, 4);
    OneDigit(z1, 4);
    XorDigits(x, y, z, x1, y1, z1, 4, a, b, c);
  }

  lemma HelloMask(i: nat, a: Byte, b: Byte, c: Byte)
    requires i < 5 && a == HELLO[i] && b == KEY.bytes[i % 4] && c == [0x7F, 0x9F, 0x4D, 0x51, 0x58][i]
    ensures XorByte(a, b) == c
  {
    if i == 0 {
      XorOctets(0x48, 0x37, 0x7F, 0x4, 0x3, 0x7, a, b, c);
    } else if i == 1 {
      XorOctets(0x65, 0xFA, 0x9F, 0x6, 0xF, 0x9, a, b, c);
    } else if i == 2 {
      XorOctets(0x6C, 0x21, 0x4D, 0x6, 0x2, 0x4, a, b, c);
    } else if i == 3 {
      XorOctets(0x6C, 0x3D, 0x51, 0x6, 0x3, 0x5, a, b, c);
    } else {
      XorOctets(0x6F, 0x37, 0x58, 0x6, 0x3, 0x5, a, b, c);
    }
  }

  lemma HelloMasked(payload: Bytes, key: Bytes, masked: Bytes)
    requires payload == HELLO && key == KEY.bytes && masked == [0x7F, 0x9F, 0x4D, 0x51, 0x58]
    ensures Masked(payload, Key(key)) == masked
  {
    forall i | 0 <= i < 5 ensures Masked(payload, Key(key))[i] == masked[i] {
      HelloMask(i, payload[i], key[i % 4], masked[i]);
    }
  }

  lemma HelloFrame()
    ensures WireFrame(true, 1, HELLO, NoMask) == [0x81, 0x05, 0x48, 0x65, 0x6C, 0x6C, 0x6F]
  {
  }

  lemma HelloMaskedFrame(masked: Bytes)
    requires masked == Masked(HELLO, KEY)
    ensures WireFrame(true, 1, HELLO, KEY) == [0x81, 0x85, 0x37, 0xFA, 0x21, 0x3D] + masked
  {
  }

  // "Hello" in one unmasked and in one masked frame, both ways.
  lemma HelloFrames(rest: Bytes)
    ensures WireFrame(true, 1, HELLO, NoMask) == [0x81, 0x05, 0x48, 0x65, 0x6C, 0x6C, 0x6F]
    ensures WireFrame(true, 1, HELLO, KEY) == [0x81, 0x85, 0x37, 0xFA, 0x21, 0x3D, 0x7F, 0x9F, 0x4D, 0x51, 0x58]
    ensures ParseFrame([0x81, 0x05, 0x48, 0x65, 0x6C, 0x6C, 0x6F] + rest) == Frame(true, 1, HELLO, rest)
    ensures ParseFrame([0x81, 0x85, 0x37, 0xFA, 0x21, 0x3D, 0x7F, 0x9F, 0x4D, 0x51, 0x58] + rest)
         == Frame(true, 1, HELLO, rest)
  {
    HelloMasked(HELLO, KEY.bytes, [0x7F, 0x9F, 0x4D, 0x51, 0x58]);
    HelloFrame();
    HelloMaskedFrame(Masked(HELLO, KEY));
    Joined();
    ParseWireFrame(true, 1, HELLO, NoMask, rest);
    ParseWireFrame(true, 1, HELLO, KEY, rest);
  }

  lemma Joined()
    ensures [0x81, 0x85, 0x37, 0xFA, 0x21, 0x3D] + [0x7F, 0x9F, 0x4D, 0x51, 0x58]
         == [0x81, 0x85, 0x37, 0xFA, 0x21, 0x3D, 0x7F, 0x9F, 0x4D, 0x51, 0x58]
  {
  }

  // "Hello" in two frames, and a ping with it.
  lemma FragmentsAndPing()
    ensures WireFrame(false, 1, [0x48, 0x65, 0x6C], NoMask) == [0x01, 0x03, 0x48, 0x65, 0x6C]
    ensures WireFrame(true, 0, [0x6C, 0x6F], NoMask) == [0x80, 0x02, 0x6C, 0x6F]
    ensures WireFrame(true, 9, HELLO, NoMask) == [0x89, 0x05, 0x48, 0x65, 0x6C, 0x6C, 0x6F]
  {
  }

  // 256 and 65536 bytes of binary data.
  lemma LongLengths()
    ensures LengthField(256, NoMask) == [0x7E, 0x01, 0x00]
    ensures LengthField(65536, NoMask) == [0x7F, 0x00, 0x00, 0x00, 0x00, 0x00, 0x01, 0x00, 0x00]
  {
  }

  // --- what recv makes of short frames ----------------------------------------------------------

  lemma ShortFrame(fin: bool, opcode: Byte, payload: Bytes, rest: Bytes)
    requires opcode in {0, 1, 2, 8, 9, 10} && |payload| <= 125 && (opcode >= 8 ==> fin)
    ensures var first: Byte := if fin then 0x80 + opcode else opcode;
      ParseFrame([first, |payload|] + payload + rest) == Frame(fin, opcode, payload, rest)
  {
    var first: Byte := if fin then 0x80 + opcode else opcode;
    assert WireFrame(fin, opcode, payload, NoMask) == [first, |payload|] + payload;
    ParseWireFrame(fin, opcode, payload, NoMask, rest);
  }

  // 89 is a ping: it is answered by an 8A with the same payload, and reading goes on.
  lemma PingAnswered(payload: Bytes, rest: Bytes, begun: Begun, chunks: Bytes)
    requires |payload| <= 125
    ensures var later := Assemble(rest, begun, chunks);
      Assemble([0x89, |payload|] + payload + rest, begun, chunks)
      == Received(later.outcome, [payload] + later.pings, later.rest)
    ensures PongBytes([payload], [NoMask], false) == [0x8A, |payload|] + payload
  {
    ShortFrame(true, 9, payload, rest);
    var frame := WireFrame(true, OP_PONG, payload, NoMask);
    assert frame == [0x8A, |payload|] + payload;
    assert PongBytes([], [], false) == [] && [] + frame == frame;
    assert [payload][..0] == [] && [NoMask][..0] == [];
  }

  // 8A is a pong and is skipped; 88 closes.
  lemma PongAndClose(payload: Bytes, rest: Bytes, begun: Begun, chunks: Bytes)
    requires |payload| <= 125
    ensures Assemble([0x8A, |payload|] + payload + rest, begun, chunks) == Assemble(rest, begun, chunks)
    ensures Assemble([0x88, |payload|] + payload + rest, begun, chunks) == Received(CloseReceived(payload), [], rest)
  {
    ShortFrame(true, 10, payload, rest);
    ShortFrame(true, 8, payload, rest);
  }

  // One frame of data, as the receive loop sees it.
  lemma DataFrame(stream: Bytes, fin: bool, opcode: Byte, payload: Bytes, rest: Bytes, begun: Begun, chunks: Bytes)
    requires ParseFrame(stream) == Frame(fin, opcode, payload, rest) && opcode in {0, 1, 2}
    ensures opcode == 0 && begun.NotBegun? ==> Assemble(stream, begun, chunks) == Received(Violation, [], [])
    ensures opcode != 0 && fin ==>
      Assemble(stream, begun, chunks) == Received(Delivered(Message(opcode, chunks + payload)), [], rest)
    ensures opcode != 0 && !fin ==> Assemble(stream, begun, chunks) == Assemble(rest, Begun(opcode), chunks + payload)
    ensures opcode == 0 && begun.Begun? && fin ==>
      Assemble(stream, begun, chunks) == Received(Delivered(Message(begun.opcode, chunks + payload)), [], rest)
  {
  }

  // 81 is a whole text.
  lemma TextMessage(stream: Bytes, a: Bytes, rest: Bytes)
    requires |a| <= 125 && stream == [0x81, |a|] + a + rest
    ensures Assemble(stream, NotBegun, []) == Received(Delivered(Message(1, a)), [], rest)
  {
    assert [] + a == a;
    ShortFrame(true, 1, a, rest);
    DataFrame(stream, true, 1, a, rest, NotBegun, []);
  }

  // 82 is a whole message of bytes.
  lemma BytesMessage(stream: Bytes, a: Bytes, rest: Bytes)
    requires |a| <= 125 && stream == [0x82, |a|] + a + rest
    ensures Assemble(stream, NotBegun, []) == Received(Delivered(Message(2, a)), [], rest)
  {
    assert [] + a == a;
    ShortFrame(true, 2, a, rest);
    DataFrame(stream, true, 2, a, rest, NotBegun, []);
  }

  // 80 continues a message; alone it is an error.
  lemma LoneContinuation(stream: Bytes, a: Bytes, rest: Bytes)
    requires |a| <= 125 && stream == [0x80, |a|] + a + rest
    ensures Assemble(stream, NotBegun, []) == Received(Violation, [], [])
  {
    assert [] + a == a;
    ShortFrame(true, 0, a, rest);
    DataFrame(stream, true, 0, a, rest, NotBegun, []);
  }

  lemma HalfText(a: Bytes, next: Bytes)
    requires |a| <= 125
    ensures Assemble([0x01, |a|] + a + next, NotBegun, []) == Assemble(next, Begun(1), a)
  {
    assert [] + a == a;
    ShortFrame(false, 1, a, next);
    DataFrame([0x01, |a|] + a + next, false, 1, a, next, NotBegun, []);
  }

  lemma LastHalf(a: Bytes, b: Bytes, rest: Bytes)
    requires |b| <= 125
    ensures Assemble([0x80, |b|] + b + rest, Begun(1), a) == Received(Delivered(Message(1, a + b)), [], rest)
  {
    ShortFrame(true, 0, b, rest);
    DataFrame([0x80, |b|] + b + rest, true, 0, b, rest, Begun(1), a);
  }

  // 01 and 80 are the two halves of a text.
  lemma TwoHalves(a: Bytes, b: Bytes, rest: Bytes)
    requires |a| <= 125 && |b| <= 125
    ensures Assemble([0x01, |a|] + a + ([0x80, |b|] + b + rest), NotBegun, [])
         == Received(Delivered(Message(1, a + b)), [], rest)
  {
    HalfText(a, [0x80, |b|] + b + rest);
    LastHalf(a, b, rest);
  }

  // What recv returns or raises: text must be UTF-8.
  lemma RecvReturns(data: Bytes, isUtf8: Bytes -> bool)
    ensures Returned(Delivered(Message(1, data)), isUtf8)
         == if isUtf8(data) then Success(Message(1, data)) else Failure(ValueError)
    ensures Returned(Delivered(Message(2, data)), isUtf8) == Success(Message(2, data))
    ensures Returned(Violation, isUtf8) == Failure(ProtocolError)
    ensures Returned(StreamEnded, isUtf8) == Failure(ConnectionClosed)
    ensures Returned(CloseReceived(data), isUtf8) == Failure(ConnectionClosed)
  {
  }
}
