/** crypto/sha1.py against RFC 3174: padding, message schedule and rounds on masked integers. */
module Sha1 {
  import opened Arithmetic
  import opened BitOperators
  import opened Bytes

  // --- padding (section 4 of RFC 3174) ----------------------------------------------------------

  // Zeros up to 56 modulo 64.
  function PadZeros(length: nat): nat {
    63 - (length + 8) % 64
  }

  function Zeros(n: nat): (z: Bytes)
    ensures |z| == n
  {
    seq(n, i => 0)
  }

  function LengthField(length: nat): Bytes {
    ToBytes((length * 8) % WORD64, 8)
  }

  function Padded(data: Bytes): Bytes {
    data + [0x80] + Zeros(PadZeros(|data|)) + LengthField(|data|)
  }

  lemma PadStop(length: nat, z: nat)
    requires z <= PadZeros(length)
    ensures (length + 1 + z) % 64 == 56 <==> z == PadZeros(length)
  {
  }

  lemma OneMoreZero(data: Bytes, z: nat)
    ensures data + [0x80] + Zeros(z) + [0x00] == data + [0x80] + Zeros(z + 1)
  {
    assert Zeros(z) + [0x00] == Zeros(z + 1);
  }

  // The padding loop of sha1.
  method Pad(data: Bytes) returns (message: Bytes)
    ensures message == Padded(data)
  {
    message := data + [0x80];
    ghost var z := 0;
    while |message| % 64 != 56
      invariant z <= PadZeros(|data|) && message == data + [0x80] + Zeros(z)
      decreases PadZeros(|data|) - z
    {
      PadStop(|data|, z);
      OneMoreZero(data, z);
      message := message + [0x00];
      z := z + 1;
    }
    PadStop(|data|, z);
    message := message + LengthField(|data|);
  }

  // The padding fills whole blocks, and no smaller number of zeros would.
  lemma PaddingIsLeast(length: nat, zeros: nat)
    ensures (length + 1 + PadZeros(length) + 8) % 64 == 0
    ensures (length + 1 + zeros + 8) % 64 == 0 ==> PadZeros(length) <= zeros
  {
  }

  lemma SameEnds(a: Bytes, b: Bytes, c: Bytes, d: Bytes)
    requires |b| == |d| && a + b == c + d
    ensures a == c && b == d
  {
    assert |a| == |c|;
    assert (a + b)[..|a|] == a && (c + d)[..|c|] == c && (a + b)[|a|..] == b && (c + d)[|c|..] == d;
  }

  lemma LengthFieldInjective(m: nat, n: nat)
    requires m * 8 < WORD64 && n * 8 < WORD64 && LengthField(m) == LengthField(n)
    ensures m == n
  {
    Pow256Of8();
    SmallMod(m * 8);
    SmallMod(n * 8);
    ToBytesInjective(m * 8, n * 8, 8);
  }

  lemma SmallMod(n: nat)
    requires n < WORD64
    ensures n % WORD64 == n
  {
  }

  // Below 2^61 bytes no two messages are padded to the same blocks.
  lemma PaddingInjective(d1: Bytes, d2: Bytes)
    requires |d1| * 8 < WORD64 && |d2| * 8 < WORD64 && Padded(d1) == Padded(d2)
    ensures d1 == d2
  {
    var z1, z2 := Zeros(PadZeros(|d1|)), Zeros(PadZeros(|d2|));
    SameEnds(d1 + [0x80] + z1, LengthField(|d1|), d2 + [0x80] + z2, LengthField(|d2|));
    LengthFieldInjective(|d1|, |d2|);
    SameEnds(d1 + [0x80], z1, d2 + [0x80], z2);
    SameEnds(d1, [0x80], d2, [0x80]);
  }

  // --- words (section 3 of RFC 3174) ------------------------------------------------------------

  const WORD32: nat := 0x1_0000_0000

  type Word = x: nat | x < 0x1_0000_0000

  lemma Pow2Of32()
    ensures Pow2(32) == WORD32
  {
    assert Pow2(4) == 16;
    Pow2Sum(4, 4);
    Pow2Sum(8, 8);
    Pow2Sum(16, 16);
  }

  lemma {:induction false} Pow2Sum(m: nat, n: nat)
    ensures Pow2(m + n) == Pow2(m) * Pow2(n)
  {
    if m > 0 {
      Pow2Sum(m - 1, n);
    }
  }

  function Op32(op: Op, a: Word, b: Word): Word {
    Pow2Of32();
    Bitwise(op, a, b, 32)
  }

  function Add32(a: Word, b: Word): Word {
    (a + b) % WORD32
  }

  function Not32(a: Word): Word {
    WORD32 - 1 - a
  }

  // The circular left shift: the bits shifted out come back at the other end.
  function Rotl(x: Word, n: nat): Word
    requires n <= 32
  {
    MulNonnegative(x, Pow2(n));
    QuotientFits(x, Pow2(32 - n));
    Op32(Or, (x * Pow2(n)) % WORD32, x / Pow2(32 - n))
  }

  function F(t: nat, b: Word, c: Word, d: Word): Word {
    if t < 20 then Op32(Or, Op32(And, b, c), Op32(And, Not32(b), d))
    else if t < 40 || 60 <= t then Op32(Xor, Op32(Xor, b, c), d)
    else Op32(Or, Op32(Or, Op32(And, b, c), Op32(And, b, d)), Op32(And, c, d))
  }

  function K(t: nat): Word {
    if t < 20 then 0x5A827999 else if t < 40 then 0x6ED9EBA1 else if t < 60 then 0x8F1BBCDC else 0xCA62C1D6
  }

  // --- what the three functions and the constants are -------------------------------------------

  lemma OpAt(op: Op, a: Word, b: Word, j: nat)
    requires j < 32
    ensures BitAt(Op32(op, a, b), j) == Bit(op, BitAt(a, j), BitAt(b, j))
  {
    BitwiseAt(op, a, b, 32, j);
  }

  lemma NotAt(a: Word, j: nat)
    requires j < 32
    ensures BitAt(Not32(a), j) == 1 - BitAt(a, j)
  {
    Pow2Of32();
    ComplementAt(a, 32, j);
  }

  // Choose, parity and majority, bit by bit.
  lemma FunctionBits(t: nat, b: Word, c: Word, d: Word, j: nat)
    requires j < 32
    ensures t < 20 ==> BitAt(F(t, b, c, d), j) == if BitAt(b, j) == 1 then BitAt(c, j) else BitAt(d, j)
    ensures 20 <= t < 40 || 60 <= t ==> BitAt(F(t, b, c, d), j) == (BitAt(b, j) + BitAt(c, j) + BitAt(d, j)) % 2
    ensures 40 <= t < 60 ==>
      BitAt(F(t, b, c, d), j) == if BitAt(b, j) + BitAt(c, j) + BitAt(d, j) >= 2 then 1 else 0
  {
    if t < 20 {
      ChooseBits(b, c, d, j);
    } else if 40 <= t < 60 {
      MajorityBits(b, c, d, j);
    } else {
      ParityBits(b, c, d, j);
    }
  }

  lemma ParityBits(b: Word, c: Word, d: Word, j: nat)
    requires j < 32
    ensures BitAt(Op32(Xor, Op32(Xor, b, c), d), j) == (BitAt(b, j) + BitAt(c, j) + BitAt(d, j)) % 2
  {
    OpAt(Xor, b, c, j);
    OpAt(Xor, Op32(Xor, b, c), d, j);
    OddOnes(BitAt(b, j), BitAt(c, j), BitAt(d, j));
  }

  lemma OddOnes(b: nat, c: nat, d: nat)
    requires b < 2 && c < 2 && d < 2
    ensures Bit(Xor, Bit(Xor, b, c), d) == (b + c + d) % 2
  {
  }

  lemma ChooseBits(b: Word, c: Word, d: Word, j: nat)
    requires j < 32
    ensures BitAt(Op32(Or, Op32(And, b, c), Op32(And, Not32(b), d)), j)
         == if BitAt(b, j) == 1 then BitAt(c, j) else BitAt(d, j)
  {
    NotAt(b, j);
    OpAt(And, b, c, j);
    OpAt(And, Not32(b), d, j);
    OpAt(Or, Op32(And, b, c), Op32(And, Not32(b), d), j);
  }

  lemma MajorityBits(b: Word, c: Word, d: Word, j: nat)
    requires j < 32
    ensures BitAt(Op32(Or, Op32(Or, Op32(And, b, c), Op32(And, b, d)), Op32(And, c, d)), j)
         == if BitAt(b, j) + BitAt(c, j) + BitAt(d, j) >= 2 then 1 else 0
  {
    OpAt(And, b, c, j);
    OpAt(And, b, d, j);
    OpAt(And, c, d, j);
    OpAt(Or, Op32(And, b, c), Op32(And, b, d), j);
    OpAt(Or, Op32(Or, Op32(And, b, c), Op32(And, b, d)), Op32(And, c, d), j);
  }

  // The constants are the integer parts of 2^30 times the square roots of 2, 3, 5 and 10.
  lemma ConstantRoots(t: nat)
    ensures var root := if t < 20 then 2 else if t < 40 then 3 else if t < 60 then 5 else 10;
      K(t) * K(t) <= root * 0x1000_0000_0000_0000 < (K(t) + 1) * (K(t) + 1)
  {
  }

  // --- the same on unbounded integers, masked ---------------------------------------------------

  // x & 0xFFFFFFFF, for negative integers too.
  function Mask32(x: int): Word {
    x % WORD32
  }

  // _rotl
  function RotlMasked(value: Word, amount: nat): Word
    requires amount <= 32
  {
    MulNonnegative(value, Pow2(amount));
    QuotientFits(value, Pow2(32 - amount));
    Mask32(Unbounded(Or, value * Pow2(amount), value / Pow2(32 - amount)))
  }

  lemma MaskedOr(high: nat, low: Word)
    ensures Mask32(Unbounded(Or, high, low)) == Op32(Or, high % WORD32, low)
  {
    Pow2Of32();
    UnboundedLow(Or, high, low, 32);
    BitwiseLow(Or, high, low, 32);
  }

  lemma RotlRefines(x: Word, n: nat)
    requires n <= 32
    ensures RotlMasked(x, n) == Rotl(x, n)
  {
    MulNonnegative(x, Pow2(n));
    QuotientFits(x, Pow2(32 - n));
    MaskedOr(x * Pow2(n), x / Pow2(32 - n));
  }

  lemma QuotientFits(x: Word, d: nat)
    requires d > 0
    ensures 0 <= x / d <= x
  {
    DivMod(x, d);
    if x / d > x {
      MulMonotone(x + 1, x / d, d);
      MulMonotone(1, d, x + 1);
    }
  }

  lemma OpRefines(op: Op, a: Word, b: Word)
    ensures Unbounded(op, a, b) == Op32(op, a, b)
  {
    Pow2Of32();
    UnboundedFits(op, a, b, 32);
  }

  lemma NotRefines(b: Word)
    ensures Mask32(-(b as int) - 1) == Not32(b)
  {
  }

  lemma AddMod(s: nat, e: Word)
    ensures Add32(s % WORD32, e) == (s + e) % WORD32
  {
    DivMod(s, WORD32);
    ModPlusMultiple(s % WORD32 + e, s / WORD32, WORD32);
  }

  // One mask at the end is as good as reducing every sum.
  lemma SumRefines(a: Word, b: Word, c: Word, d: Word, e: Word)
    ensures Mask32(a + b + c + d + e) == Add32(Add32(Add32(Add32(a, b), c), d), e)
  {
    AddMod(a + b, c);
    AddMod(a + b + c, d);
    AddMod(a + b + c + d, e);
  }

  // --- schedule and rounds (section 6.1 of RFC 3174) --------------------------------------------

  datatype Words = Words(a: Word, b: Word, c: Word, d: Word, e: Word)

  const INITIAL := Words(0x67452301, 0xEFCDAB89, 0x98BADCFE, 0x10325476, 0xC3D2E1F0)

  function W(block: seq<Word>, t: nat): Word
    requires |block| == 16
  {
    if t < 16 then block[t]
    else NextWord(W(block, t - 3), W(block, t - 8), W(block, t - 14), W(block, t - 16))
  }

  function NextWord(a: Word, b: Word, c: Word, d: Word): Word {
    Rotl(Op32(Xor, Op32(Xor, Op32(Xor, a, b), c), d), 1)
  }

  function Round(s: Words, t: nat, w: Word): Words {
    var temp := Add32(Add32(Add32(Add32(Rotl(s.a, 5), F(t, s.b, s.c, s.d)), s.e), K(t)), w);
    Words(temp, s.a, Rotl(s.b, 30), s.c, s.d)
  }

  function Rounds(block: seq<Word>, h: Words, t: nat): Words
    requires |block| == 16
  {
    if t == 0 then h else Round(Rounds(block, h, t - 1), t - 1, W(block, t - 1))
  }

  // Five rounds for every word of the block, 80 in all.
  function AllRounds(block: seq<Word>, h: Words): Words
    requires |block| == 16
  {
    Rounds(block, h, 5 * |block|)
  }

  lemma AllRoundsAre(block: seq<Word>, h: Words, n: nat)
    requires |block| == 16 && n == 80
    ensures Rounds(block, h, n) == AllRounds(block, h)
  {
  }

  function AddWords(h: Words, s: Words): Words {
    Words(Add32(h.a, s.a), Add32(h.b, s.b), Add32(h.c, s.c), Add32(h.d, s.d), Add32(h.e, s.e))
  }

  // Word i of a block, big-endian.
  function BlockWord(block: Bytes, i: nat): Word
    requires |block| == 64 && i < 16
  {
    Pow256Of4();
    FromBytes(block[i * 4..i * 4 + 4])
  }

  function BlockWords(block: Bytes): (words: seq<Word>)
    requires |block| == 64
    ensures |words| == 16
  {
    seq(16, i requires 0 <= i < 16 => BlockWord(block, i))
  }

  function Chain(block: Bytes, h: Words): Words
    requires |block| == 64
  {
    AddWords(h, AllRounds(BlockWords(block), h))
  }

  // The chaining value after the first `size` bytes of the padded message.
  function Hash(message: Bytes, size: nat): Words
    requires size <= |message| && size % 64 == 0
  {
    if size == 0 then INITIAL
    else
      Chain(message[size - 64..size], Hash(message, size - 64))
  }

  function DigestBytes(h: Words): Bytes {
    ToBytes(h.a, 4) + ToBytes(h.b, 4) + ToBytes(h.c, 4) + ToBytes(h.d, 4) + ToBytes(h.e, 4)
  }

  lemma PaddedBlocks(data: Bytes)
    ensures |Padded(data)| % 64 == 0
  {
    PaddingIsLeast(|data|, 0);
  }

  // The digest the standard defines.
  function Digest(data: Bytes): (digest: Bytes)
    ensures |digest| == 20
  {
    PaddedBlocks(data);
    DigestBytes(Hash(Padded(data), |Padded(data)|))
  }

  // --- the source's loops -----------------------------------------------------------------------

  // The first n words, each from those before it.
  ghost function FirstWords(words: seq<Word>, n: nat): (w: seq<Word>)
    requires |words| == 16
    ensures |w| == n
  {
    if n == 0 then [] else
      var w, i := FirstWords(words, n - 1), n - 1;
      w + [if i < 16 then words[i] else NextWord(w[i - 3], w[i - 8], w[i - 14], w[i - 16])]
  }

  lemma {:induction false} FirstWordsAre(words: seq<Word>, n: nat, i: nat)
    requires |words| == 16 && i < n
    ensures FirstWords(words, n)[i] == W(words, i)
    decreases n, i
  {
    if i < n - 1 {
      FirstWordsAre(words, n - 1, i);
    } else if i >= 16 {
      FirstWordsAre(words, i, i - 3);
      FirstWordsAre(words, i, i - 8);
      FirstWordsAre(words, i, i - 14);
      FirstWordsAre(words, i, i - 16);
    }
  }

  method Schedule(block: Bytes) returns (w: array<Word>)
    requires |block| == 64
    ensures fresh(w) && w.Length == 80
    ensures forall i :: 0 <= i < 80 ==> w[i] == W(BlockWords(block), i)
  {
    w := FillWords(block);
    forall i | 0 <= i < 80 ensures w[i] == W(BlockWords(block), i) {
      FirstWordsAre(BlockWords(block), w.Length, i);
    }
  }

  lemma NextFirstWord(words: seq<Word>, w: seq<Word>, x: Word)
    requires |words| == 16 && w == FirstWords(words, |w|)
    requires x == if |w| < 16 then words[|w|] else NextWord(w[|w| - 3], w[|w| - 8], w[|w| - 14], w[|w| - 16])
    ensures w + [x] == FirstWords(words, |w| + 1)
  {
  }

  method LoadWord(block: Bytes, i: nat) returns (x: Word)
    requires |block| == 64 && i < 16
    ensures x == BlockWords(block)[i]
  {
    Pow256Of4();
    x := FromBytes(block[i * 4..i * 4 + 4]);
  }

  method FillWords(block: Bytes) returns (w: array<Word>)
    requires |block| == 64
    ensures fresh(w) && w.Length == 80 && w[..] == FirstWords(BlockWords(block), w.Length)
  {
    ghost var words := BlockWords(block);
    w := new Word[80](_ => 0);
    var i := 0;
    while i < 16
      invariant 0 <= i <= 16 && w[..i] == FirstWords(words, i)
    {
      ghost var before := w[..i];
      w[i] := LoadWord(block, i);
      NextFirstWord(words, before, w[i]);
      i := i + 1;
      assert w[..i] == before + [w[i - 1]];
    }
    ExpandWords(w, i, words);
  }

  method ExpandWords(w: array<Word>, from: nat, ghost words: seq<Word>)
    requires |words| == 16 && 16 <= from <= w.Length && w[..from] == FirstWords(words, from)
    modifies w
    ensures w[..] == FirstWords(words, w.Length)
  {
    for i := from to w.Length
      invariant w[..i] == FirstWords(words, i)
    {
      ghost var before := w[..i];
      w[i] := Expand(w[i - 3], w[i - 8], w[i - 14], w[i - 16]);
      NextFirstWord(words, before, w[i]);
      assert w[..i + 1] == before + [w[i]];
    }
    assert w[..w.Length] == w[..];
  }

  // _rotl(w ^ x ^ y ^ z, 1)
  method Expand(w: Word, x: Word, y: Word, z: Word) returns (r: Word)
    ensures r == NextWord(w, x, y, z)
  {
    OpRefines(Xor, w, x);
    OpRefines(Xor, Op32(Xor, w, x), y);
    OpRefines(Xor, Op32(Xor, Op32(Xor, w, x), y), z);
    RotlRefines(Op32(Xor, Op32(Xor, Op32(Xor, w, x), y), z), 1);
    r := RotlMasked(Unbounded(Xor, Unbounded(Xor, Unbounded(Xor, w, x), y), z), 1);
  }

  // The function and the constant of round i.
  method Choose(i: nat, b: Word, c: Word, d: Word) returns (f: Word, k: Word)
    ensures f == F(i, b, c, d) && k == K(i)
  {
    if i < 20 {
      NotRefines(b);
      OpRefines(And, b, c);
      OpRefines(And, Not32(b), d);
      OpRefines(Or, Op32(And, b, c), Op32(And, Not32(b), d));
      f := Unbounded(Or, Unbounded(And, b, c), Unbounded(And, Mask32(-(b as int) - 1), d));
      k := 0x5A827999;
    } else if i < 40 {
      f := Parity(b, c, d);
      k := 0x6ED9EBA1;
    } else if i < 60 {
      f := Majority(b, c, d);
      k := 0x8F1BBCDC;
    } else {
      f := Parity(b, c, d);
      k := 0xCA62C1D6;
    }
  }

  method Parity(b: Word, c: Word, d: Word) returns (f: Word)
    ensures f == Op32(Xor, Op32(Xor, b, c), d)
  {
    OpRefines(Xor, b, c);
    OpRefines(Xor, Op32(Xor, b, c), d);
    f := Unbounded(Xor, Unbounded(Xor, b, c), d);
  }

  method Majority(b: Word, c: Word, d: Word) returns (f: Word)
    ensures f == Op32(Or, Op32(Or, Op32(And, b, c), Op32(And, b, d)), Op32(And, c, d))
  {
    OpRefines(And, b, c);
    OpRefines(And, b, d);
    OpRefines(And, c, d);
    OpRefines(Or, Op32(And, b, c), Op32(And, b, d));
    OpRefines(Or, Op32(Or, Op32(And, b, c), Op32(And, b, d)), Op32(And, c, d));
    f := Unbounded(Or, Unbounded(Or, Unbounded(And, b, c), Unbounded(And, b, d)), Unbounded(And, c, d));
  }

  // One turn of the register loop.
  method RegisterTurn(i: nat, s: Words, w: Word) returns (next: Words)
    ensures next == Round(s, i, w)
  {
    var f, k := Choose(i, s.b, s.c, s.d);
    RotlRefines(s.a, 5);
    RotlRefines(s.b, 30);
    SumRefines(Rotl(s.a, 5), f, s.e, k, w);
    var temp := Mask32(RotlMasked(s.a, 5) + f + s.e + k + w);
    next := Words(temp, s.a, RotlMasked(s.b, 30), s.c, s.d);
  }

  method RegisterLoop(w: array<Word>, ghost words: seq<Word>, h: Words) returns (s: Words)
    requires |words| == 16 && forall i :: 0 <= i < w.Length ==> w[i] == W(words, i)
    ensures s == Rounds(words, h, w.Length)
  {
    s := h;
    for i := 0 to w.Length
      invariant s == Rounds(words, h, i)
    {
      s := RegisterTurn(i, s, w[i]);
    }
  }

  // The loops over one block.
  method ProcessBlock(block: Bytes, h: Words) returns (next: Words)
    requires |block| == 64
    ensures next == Chain(block, h)
  {
    var w := Schedule(block);
    var s := RegisterLoop(w, BlockWords(block), h);
    AllRoundsAre(BlockWords(block), h, w.Length);
    next := AddMasked(h, s);
  }

  method AddMasked(h: Words, s: Words) returns (next: Words)
    ensures next == AddWords(h, s)
  {
    next := Words(Mask32(h.a + s.a), Mask32(h.b + s.b), Mask32(h.c + s.c), Mask32(h.d + s.d), Mask32(h.e + s.e));
  }

  // sha1: what the loops over masked integers compute is the standard's digest, for every input.
  method Sha1Digest(data: Bytes) returns (digest: Bytes)
    ensures digest == Digest(data)
  {
    var h := INITIAL;
    var message := Pad(data);
    PaddedBlocks(data);
    var offset := 0;
    while offset < |message|
      invariant 0 <= offset <= |message| && offset % 64 == 0
      invariant h == Hash(message, offset)
    {
      NextBlock(message, offset);
      h := ProcessBlock(message[offset..offset + 64], h);
      offset := offset + 64;
    }
    return DigestBytes(h);
  }

  lemma NextBlock(message: Bytes, offset: nat)
    requires offset < |message| && offset % 64 == 0 && |message| % 64 == 0
    ensures offset + 64 <= |message| && (offset + 64) % 64 == 0
    ensures Hash(message, offset + 64) == Chain(message[offset..offset + 64], Hash(message, offset))
  {
  }
}
