/** Numbers and 32-bit machine words: the operators of the one are the operators of the other. */
module MachineWords {
  import opened Arithmetic
  import opened BitOperators
  import opened Sha1

  function BitOf(b: bool): (n: nat)
    ensures n < 2
  {
    if b then 1 else 0
  }

  // The number in the low places of a word.
  function Value(x: bv32, width: nat): nat
    decreases width
  {
    if width == 0 then 0 else 2 * Value(x >> 1, width - 1) + BitOf(x & 1 != 0)
  }

  lemma {:induction false} ValueFits(x: bv32, width: nat)
    ensures Value(x, width) < Pow2(width)
    decreases width
  {
    if width > 0 {
      ValueFits(x >> 1, width - 1);
    }
  }

  // The number that a word spells.
  function Number(x: bv32): Word {
    ValueFits(x, 32);
    Pow2Of32();
    Value(x, 32)
  }

  lemma Half(x: bv32) returns (h: bv32)
    ensures h == x >> 1
  {
    h := x >> 1;
  }

  lemma ValueHalf(x: bv32, h: bv32, width: nat)
    requires h == x >> 1
    ensures Value(x, width + 1) == 2 * Value(h, width) + BitOf(x & 1 != 0)
  {
  }

  // --- and, or, exclusive or --------------------------------------------------------------------

  function OpBool(op: Op, b: bool, c: bool): bool {
    match op
    case And => b && c
    case Or => b || c
    case Xor => b != c
  }

  lemma OpStep(op: Op, p: nat, q: nat, b: bool, c: bool, width: nat)
    ensures Bitwise(op, 2 * p + BitOf(b), 2 * q + BitOf(c), width + 1)
         == 2 * Bitwise(op, p, q, width) + BitOf(OpBool(op, b, c))
  {
    BitwiseStep(op, p, q, BitOf(b), BitOf(c), width);
  }

  lemma OpHalves(op: Op, x: bv32, y: bv32, z: bv32, p: bv32, q: bv32, r: bv32, width: nat)
    requires p == x >> 1 && q == y >> 1 && r == z >> 1
    requires z & 1 != 0 <==> OpBool(op, x & 1 != 0, y & 1 != 0)
    requires Bitwise(op, Value(p, width), Value(q, width), width) == Value(r, width)
    ensures Bitwise(op, Value(x, width + 1), Value(y, width + 1), width + 1)
         == Value(z, width + 1)
  {
    ValueHalf(x, p, width);
    ValueHalf(y, q, width);
    ValueHalf(z, r, width);
    OpStep(op, Value(p, width), Value(q, width), x & 1 != 0, y & 1 != 0, width);
  }

  lemma AndHalves(x: bv32, y: bv32, z: bv32, p: bv32, q: bv32, r: bv32)
    requires z == x & y && p == x >> 1 && q == y >> 1 && r == z >> 1
    ensures r == p & q && (z & 1 != 0 <==> x & 1 != 0 && y & 1 != 0)
  {
  }

  lemma {:induction false} AndBits(x: bv32, y: bv32, z: bv32, width: nat)
    requires z == x & y
    ensures Bitwise(And, Value(x, width), Value(y, width), width) == Value(z, width)
    decreases width
  {
    if width > 0 {
      var p := Half(x);
      var q := Half(y);
      var r := Half(z);
      AndHalves(x, y, z, p, q, r);
      AndBits(p, q, r, width - 1);
      OpHalves(And, x, y, z, p, q, r, width - 1);
    }
  }

  lemma NumberAnd(x: bv32, y: bv32, z: bv32)
    requires z == x & y
    ensures Op32(And, Number(x), Number(y)) == Number(z)
  {
    AndBits(x, y, z, 32);
  }

  lemma OrHalves(x: bv32, y: bv32, z: bv32, p: bv32, q: bv32, r: bv32)
    requires z == x | y && p == x >> 1 && q == y >> 1 && r == z >> 1
    ensures r == p | q && (z & 1 != 0 <==> x & 1 != 0 || y & 1 != 0)
  {
  }

  lemma {:induction false} OrBits(x: bv32, y: bv32, z: bv32, width: nat)
    requires z == x | y
    ensures Bitwise(Or, Value(x, width), Value(y, width), width) == Value(z, width)
    decreases width
  {
    if width > 0 {
      var p := Half(x);
      var q := Half(y);
      var r := Half(z);
      OrHalves(x, y, z, p, q, r);
      OrBits(p, q, r, width - 1);
      OpHalves(Or, x, y, z, p, q, r, width - 1);
    }
  }

  lemma NumberOr(x: bv32, y: bv32, z: bv32)
    requires z == x | y
    ensures Op32(Or, Number(x), Number(y)) == Number(z)
  {
    OrBits(x, y, z, 32);
  }

  lemma XorHalves(x: bv32, y: bv32, z: bv32, p: bv32, q: bv32, r: bv32)
    requires z == x ^ y && p == x >> 1 && q == y >> 1 && r == z >> 1
    ensures r == p ^ q && (z & 1 != 0 <==> (x & 1 != 0) != (y & 1 != 0))
  {
  }

  lemma {:induction false} XorBits(x: bv32, y: bv32, z: bv32, width: nat)
    requires z == x ^ y
    ensures Bitwise(Xor, Value(x, width), Value(y, width), width) == Value(z, width)
    decreases width
  {
    if width > 0 {
      var p := Half(x);
      var q := Half(y);
      var r := Half(z);
      XorHalves(x, y, z, p, q, r);
      XorBits(p, q, r, width - 1);
      OpHalves(Xor, x, y, z, p, q, r, width - 1);
    }
  }

  lemma NumberXor(x: bv32, y: bv32, z: bv32)
    requires z == x ^ y
    ensures Op32(Xor, Number(x), Number(y)) == Number(z)
  {
    XorBits(x, y, z, 32);
  }

  // --- addition ---------------------------------------------------------------------------------

  predicate Ones(m: bv32, width: nat)
    decreases width
  {
    width == 0 || (m & 1 != 0 && Ones(m >> 1, width - 1))
  }

  // s holds the sums and c the carries of x + y in every place; e holds the carries into the next places,
  // right in those that m marks.
  predicate Adder(x: bv32, y: bv32, s: bv32, c: bv32, e: bv32, m: bv32) {
    s == x ^ y ^ c && e & m == ((x & y) | (x & c) | (y & c)) & m
  }

  lemma LowSum(x: bv32, y: bv32, s: bv32, c: bv32, e: bv32, m: bv32)
    requires Adder(x, y, s, c, e, m) && m & 1 != 0
    ensures BitOf(x & 1 != 0) + BitOf(y & 1 != 0) + BitOf(c & 1 != 0) == BitOf(s & 1 != 0) + 2 * BitOf(e & 1 != 0)
  {
  }

  lemma HighSum(x: bv32, y: bv32, s: bv32, c: bv32, p: bv32, q: bv32, r: bv32, e: bv32)
    requires s == x ^ y ^ c && p == x >> 1 && q == y >> 1 && r == s >> 1 && e == c >> 1
    ensures r == p ^ q ^ e
  {
  }

  lemma HighCarry(x: bv32, y: bv32, c: bv32, e: bv32, m: bv32, p: bv32, q: bv32, f: bv32, n: bv32)
    requires e & m == ((x & y) | (x & c) | (y & c)) & m
    requires p == x >> 1 && q == y >> 1 && e == c >> 1 && f == e >> 1 && n == m >> 1
    ensures f & n == ((p & q) | (p & e) | (q & e)) & n
  {
  }

  lemma HighAdder(x: bv32, y: bv32, s: bv32, c: bv32, e: bv32, m: bv32, p: bv32, q: bv32, r: bv32, f: bv32, n: bv32)
    requires Adder(x, y, s, c, e, m)
    requires p == x >> 1 && q == y >> 1 && r == s >> 1 && e == c >> 1 && f == e >> 1 && n == m >> 1
    ensures Adder(p, q, r, e, f, n)
  {
    HighSum(x, y, s, c, p, q, r, e);
    HighCarry(x, y, c, e, m, p, q, f, n);
  }

  lemma SumStep(x: nat, y: nat, s: nat, w: nat, b: nat, d: nat, t: nat, c: nat, e: nat, k: nat)
    requires x + y + e == s + w * k && b + d + c == t + 2 * e
    ensures (2 * x + b) + (2 * y + d) + c == (2 * s + t) + (2 * w) * k
  {
    assert (2 * w) * k == 2 * (w * k);
  }

  lemma LastSum(x: bv32, y: bv32, s: bv32, c: bv32, e: bv32, m: bv32) returns (k: nat)
    requires Adder(x, y, s, c, e, m)
    ensures Value(x, 1) + Value(y, 1) + BitOf(c & 1 != 0) == Value(s, 1) + Pow2(1) * k
  {
    var i, j, l := BitOf(x & 1 != 0), BitOf(y & 1 != 0), BitOf(c & 1 != 0);
    k := if i + j + l >= 2 then 1 else 0;
    assert i + j + l == BitOf(s & 1 != 0) + 2 * k;
    ValueHalf(x, x >> 1, 0);
    ValueHalf(y, y >> 1, 0);
    ValueHalf(s, s >> 1, 0);
  }

  // Bit by bit the numbers add up, to within one carry out of the highest place.
  lemma {:induction false} SumBits(x: bv32, y: bv32, s: bv32, c: bv32, e: bv32, m: bv32, width: nat)
    returns (k: nat)
    requires Adder(x, y, s, c, e, m) && e == c >> 1 && (width == 0 || Ones(m, width - 1))
    ensures Value(x, width) + Value(y, width) + BitOf(c & 1 != 0)
         == Value(s, width) + Pow2(width) * k
    decreases width
  {
    if width == 0 {
      k := BitOf(c & 1 != 0);
    } else if width == 1 {
      k := LastSum(x, y, s, c, e, m);
    } else {
      var p := Half(x);
      var q := Half(y);
      var r := Half(s);
      var f := Half(e);
      var n := Half(m);
      HighAdder(x, y, s, c, e, m, p, q, r, f, n);
      k := SumBits(p, q, r, e, f, n, width - 1);
      SumHalves(x, y, s, c, e, m, p, q, r, width - 1, k);
    }
  }

  lemma SumHalves(x: bv32, y: bv32, s: bv32, c: bv32, e: bv32, m: bv32, p: bv32, q: bv32, r: bv32, width: nat, k: nat)
    requires Adder(x, y, s, c, e, m) && m & 1 != 0 && p == x >> 1 && q == y >> 1 && r == s >> 1
    requires Value(p, width) + Value(q, width) + BitOf(e & 1 != 0)
          == Value(r, width) + Pow2(width) * k
    ensures Value(x, width + 1) + Value(y, width + 1) + BitOf(c & 1 != 0)
         == Value(s, width + 1) + Pow2(width + 1) * k
  {
    LowSum(x, y, s, c, e, m);
    ValueHalf(x, p, width);
    ValueHalf(y, q, width);
    ValueHalf(s, r, width);
    SumStep(Value(p, width), Value(q, width), Value(r, width), Pow2(width),
            BitOf(x & 1 != 0), BitOf(y & 1 != 0), BitOf(s & 1 != 0), BitOf(c & 1 != 0), BitOf(e & 1 != 0), k);
  }

  lemma CarriesFirst(x: bv32, y: bv32, s: bv32, c: bv32, d: bv32)
    requires s == x + y && c == x ^ y ^ s && d == ((x & y) | (x & c) | (y & c)) << 1
    ensures c & 0xFF == d & 0xFF
  {
  }

  lemma CarriesSecond(x: bv32, y: bv32, s: bv32, c: bv32, d: bv32)
    requires s == x + y && c == x ^ y ^ s && d == ((x & y) | (x & c) | (y & c)) << 1
    ensures c & 0xFF00 == d & 0xFF00
  {
  }

  lemma CarriesThird(x: bv32, y: bv32, s: bv32, c: bv32, d: bv32)
    requires s == x + y && c == x ^ y ^ s && d == ((x & y) | (x & c) | (y & c)) << 1
    ensures c & 0xFF0000 == d & 0xFF0000
  {
  }

  lemma CarriesFourth(x: bv32, y: bv32, s: bv32, c: bv32, d: bv32)
    requires s == x + y && c == x ^ y ^ s && d == ((x & y) | (x & c) | (y & c)) << 1
    ensures c & 0xFF000000 == d & 0xFF000000
  {
  }

  lemma ByteByByte(c: bv32, d: bv32)
    requires c & 0xFF == d & 0xFF && c & 0xFF00 == d & 0xFF00
    requires c & 0xFF0000 == d & 0xFF0000 && c & 0xFF000000 == d & 0xFF000000
    ensures c == d
  {
  }

  // The carry into a place comes out of the place below.
  lemma Carries(x: bv32, y: bv32, s: bv32, c: bv32, d: bv32)
    requires s == x + y && c == x ^ y ^ s && d == ((x & y) | (x & c) | (y & c)) << 1
    ensures c == d
  {
    CarriesFirst(x, y, s, c, d);
    CarriesSecond(x, y, s, c, d);
    CarriesThird(x, y, s, c, d);
    CarriesFourth(x, y, s, c, d);
    ByteByByte(c, d);
  }

  lemma CarriesIn(x: bv32, y: bv32, s: bv32, c: bv32, d: bv32, e: bv32)
    requires c == x ^ y ^ s && c == d && d == ((x & y) | (x & c) | (y & c)) << 1 && e == c >> 1
    ensures Adder(x, y, s, c, e, 0x7FFFFFFF) && c & 1 == 0
  {
  }

  lemma OnesDigit(m: bv32, h: bv32, width: nat)
    requires m & 15 == 15 && h == m >> 4 && Ones(h, width)
    ensures Ones(m, width + 4)
  {
    assert m & 1 != 0 && (m >> 1) & 1 != 0 && (m >> 1 >> 1) & 1 != 0 && (m >> 1 >> 1 >> 1) & 1 != 0;
    assert h == m >> 1 >> 1 >> 1 >> 1;
    assert Ones(m >> 1 >> 1, width + 2);
  }

  lemma OnesBelow(width: nat)
    requires width == 31
    ensures Ones(0x7FFFFFFF, width)
  {
    assert Ones(0x3, width - 29) by {
      assert Ones(0x1, width - 30);
    }
    OnesDigit(0x7F, 0x7, width - 28);
    OnesDigit(0x7FF, 0x7F, width - 24);
    OnesDigit(0x7FFF, 0x7FF, width - 20);
    OnesDigit(0x7FFFF, 0x7FFF, width - 16);
    OnesDigit(0x7FFFFF, 0x7FFFF, width - 12);
    OnesDigit(0x7FFFFFF, 0x7FFFFF, width - 8);
    OnesDigit(0x7FFFFFFF, 0x7FFFFFF, width - 4);
  }

  lemma CarryDropped(x: Word, y: Word, s: Word, k: nat)
    requires x + y == s + WORD32 * k
    ensures Add32(x, y) == s
  {
    DivModUnique(x + y, WORD32, k, s);
  }

  lemma CarryWord(x: bv32, y: bv32, s: bv32) returns (c: bv32, d: bv32, e: bv32)
    ensures c == x ^ y ^ s && d == ((x & y) | (x & c) | (y & c)) << 1 && e == c >> 1
  {
    c := x ^ y ^ s;
    d := ((x & y) | (x & c) | (y & c)) << 1;
    e := c >> 1;
  }

  lemma ValueSum(x: bv32, y: bv32, s: bv32, width: nat) returns (k: nat)
    requires s == x + y && width == 32
    ensures Value(x, width) + Value(y, width) == Value(s, width) + Pow2(width) * k
  {
    var c, d, e := CarryWord(x, y, s);
    Carries(x, y, s, c, d);
    CarriesIn(x, y, s, c, d, e);
    OnesBelow(width - 1);
    k := SumBits(x, y, s, c, e, 0x7FFFFFFF, width);
  }

  lemma NumberIs(x: bv32, width: nat)
    requires width == 32
    ensures Number(x) == Value(x, width)
  {
  }

  lemma NumberSum(x: bv32, y: bv32, s: bv32, width: nat) returns (k: nat)
    requires s == x + y && width == 32
    ensures Number(x) + Number(y) == Number(s) + Pow2(width) * k
  {
    k := ValueSum(x, y, s, width);
    NumberIs(x, width);
    NumberIs(y, width);
    NumberIs(s, width);
  }

  lemma NumberAdd(x: bv32, y: bv32, s: bv32)
    requires s == x + y
    ensures Add32(Number(x), Number(y)) == Number(s)
  {
    var k := NumberSum(x, y, s, 32);
    Pow2Of32();
    CarryDropped(Number(x), Number(y), Number(s), k);
  }

  // --- words as hexadecimal digits --------------------------------------------------------------

  // The digit in the low four places of a word.
  function Digit(x: bv32): nat {
    2 * (2 * (2 * BitOf(x & 8 != 0) + BitOf(x & 4 != 0)) + BitOf(x & 2 != 0)) + BitOf(x & 1 != 0)
  }

  lemma FourPlaces(x: bv32, p: bv32, q: bv32, r: bv32)
    requires p == x >> 1 && q == p >> 1 && r == q >> 1
    ensures (p & 1 != 0 <==> x & 2 != 0) && (q & 1 != 0 <==> x & 4 != 0) && (r & 1 != 0 <==> x & 8 != 0)
  {
  }

  lemma FourHalves(x: bv32, h: bv32) returns (p: bv32, q: bv32, r: bv32)
    requires h == x >> 4
    ensures p == x >> 1 && q == p >> 1 && r == q >> 1 && h == r >> 1
  {
    p := Half(x);
    q := Half(p);
    r := Half(q);
    FourShifts(x, p, q, r);
  }

  lemma FourShifts(x: bv32, p: bv32, q: bv32, r: bv32)
    requires p == x >> 1 && q == p >> 1 && r == q >> 1
    ensures x >> 4 == r >> 1
  {
  }

  lemma FourValues(x: bv32, p: bv32, q: bv32, r: bv32, h: bv32, width: nat)
    requires p == x >> 1 && q == p >> 1 && r == q >> 1 && h == r >> 1
    ensures Value(x, width + 4) == 16 * Value(h, width) + 8 * BitOf(r & 1 != 0) + 4 * BitOf(q & 1 != 0)
                                 + 2 * BitOf(p & 1 != 0) + BitOf(x & 1 != 0)
  {
    ValueHalf(r, h, width);
    ValueHalf(q, r, width + 1);
    ValueHalf(p, q, width + 2);
    ValueHalf(x, p, width + 3);
  }

  lemma DigitIs(x: bv32, p: bv32, q: bv32, r: bv32)
    requires p == x >> 1 && q == p >> 1 && r == q >> 1
    ensures Digit(x) == 8 * BitOf(r & 1 != 0) + 4 * BitOf(q & 1 != 0) + 2 * BitOf(p & 1 != 0) + BitOf(x & 1 != 0)
  {
    FourPlaces(x, p, q, r);
  }

  lemma ValueDigit(x: bv32, h: bv32, width: nat)
    requires h == x >> 4
    ensures Value(x, width + 4) == 16 * Value(h, width) + Digit(x)
  {
    var p, q, r := FourHalves(x, h);
    DigitIs(x, p, q, r);
    FourValues(x, p, q, r, h, width);
  }

  lemma ValueFour(x: bv32, x1: bv32, x2: bv32, x3: bv32, x4: bv32, width: nat)
    requires x1 == x >> 4 && x2 == x1 >> 4 && x3 == x2 >> 4 && x4 == x3 >> 4
    ensures Value(x, width + 16)
         == 0x10000 * Value(x4, width) + 0x1000 * Digit(x3) + 0x100 * Digit(x2) + 0x10 * Digit(x1) + Digit(x)
  {
    ValueDigit(x3, x4, width);
    ValueDigit(x2, x3, width + 4);
    ValueDigit(x1, x2, width + 8);
    ValueDigit(x, x1, width + 12);
  }

  lemma EightDigits(x: bv32, x1: bv32, x2: bv32, x3: bv32, x4: bv32, x5: bv32, x6: bv32, x7: bv32, width: nat)
    requires x1 == x >> 4 && x2 == x1 >> 4 && x3 == x2 >> 4 && x4 == x3 >> 4
    requires x5 == x4 >> 4 && x6 == x5 >> 4 && x7 == x6 >> 4 && width == 16
    ensures Value(x, width + 16)
         == 0x10000000 * Digit(x7) + 0x1000000 * Digit(x6) + 0x100000 * Digit(x5) + 0x10000 * Digit(x4)
          + 0x1000 * Digit(x3) + 0x100 * Digit(x2) + 0x10 * Digit(x1) + Digit(x)
  {
    ValueFour(x, x1, x2, x3, x4, width);
    ValueFour(x4, x5, x6, x7, x7 >> 4, width - 16);
  }

  lemma NumberDigits(x: bv32, x1: bv32, x2: bv32, x3: bv32, x4: bv32, x5: bv32, x6: bv32, x7: bv32)
    requires x1 == x >> 4 && x2 == x1 >> 4 && x3 == x2 >> 4 && x4 == x3 >> 4
    requires x5 == x4 >> 4 && x6 == x5 >> 4 && x7 == x6 >> 4
    ensures Number(x) == 0x10000000 * Digit(x7) + 0x1000000 * Digit(x6) + 0x100000 * Digit(x5) + 0x10000 * Digit(x4)
                       + 0x1000 * Digit(x3) + 0x100 * Digit(x2) + 0x10 * Digit(x1) + Digit(x)
  {
    EightDigits(x, x1, x2, x3, x4, x5, x6, x7, 16);
  }

  // --- not --------------------------------------------------------------------------------------

  lemma AllOnes()
    ensures Number(0xFFFFFFFF) == 0xFFFFFFFF
  {
    NumberDigits(0xFFFFFFFF, 0xFFFFFFF, 0xFFFFFF, 0xFFFFF, 0xFFFF, 0xFFF, 0xFF, 0xF);
  }

  lemma Complement(x: bv32, y: bv32)
    requires y == !x
    ensures x + y == 0xFFFFFFFF
  {
  }

  lemma NumberNot(x: bv32, y: bv32)
    requires y == !x
    ensures Not32(Number(x)) == Number(y)
  {
    Complement(x, y);
    NumberAdd(x, y, 0xFFFFFFFF);
    AllOnes();
    SumIsAllOnes(Number(x), Number(y));
  }

  lemma SumIsAllOnes(x: Word, y: Word)
    requires Add32(x, y) == 0xFFFFFFFF
    ensures Not32(x) == y
  {
    DivMod(x + y, WORD32);
  }

  // --- shifts -----------------------------------------------------------------------------------

  lemma SmallNumbers()
    ensures Number(0) == 0 && Number(1) == 1
  {
    NumberDigits(0, 0, 0, 0, 0, 0, 0, 0);
    NumberDigits(1, 0, 0, 0, 0, 0, 0, 0);
  }

  lemma HalfParts(x: bv32, h: bv32, b: bv32, t: bv32)
    requires h == x >> 1 && b == x & 1 && t == h >> 28
    ensures (h + h) + b == x && (b == 0 || b == 1) && t & 8 == 0
  {
  }

  lemma DropSeven(h: bv32) returns (h1: bv32, h2: bv32, h3: bv32, h4: bv32, h5: bv32, h6: bv32, h7: bv32)
    ensures h1 == h >> 4 && h2 == h1 >> 4 && h3 == h2 >> 4 && h4 == h3 >> 4
    ensures h5 == h4 >> 4 && h6 == h5 >> 4 && h7 == h6 >> 4 && h7 == h >> 28
  {
    h1 := h >> 4;
    h2 := h1 >> 4;
    h3 := h2 >> 4;
    h4 := h3 >> 4;
    h5 := h4 >> 4;
    h6 := h5 >> 4;
    h7 := h6 >> 4;
  }

  lemma HalfIsSmall(h: bv32, t: bv32)
    requires t == h >> 28 && t & 8 == 0
    ensures Number(h) < 0x80000000
  {
    var h1, h2, h3, h4, h5, h6, h7 := DropSeven(h);
    NumberDigits(h, h1, h2, h3, h4, h5, h6, h7);
  }

  lemma HalfOfSum(x: Word, h: Word, b: Word)
    requires h < 0x80000000 && b <= 1 && x == Add32(Add32(h, h), b)
    ensures h == x / 2
  {
  }

  lemma NumberHalf(x: bv32, h: bv32)
    requires h == x >> 1
    ensures Number(h) == Number(x) / 2
  {
    var b, t := x & 1, h >> 28;
    HalfParts(x, h, b, t);
    HalfIsSmall(h, t);
    NumberAdd(h, h, h + h);
    NumberAdd(h + h, b, x);
    SmallNumbers();
    HalfOfSum(Number(x), Number(h), Number(b));
  }

  // y is x shifted n places up.
  ghost predicate Up(x: bv32, y: bv32, n: nat) {
    Number(y) == (Number(x) * Pow2(n)) % WORD32
  }

  ghost predicate Down(x: bv32, y: bv32, n: nat) {
    Number(y) == Number(x) / Pow2(n)
  }

  lemma UpTwice(x: bv32, y: bv32, z: bv32, m: nat, n: nat)
    requires Up(x, y, m) && Up(y, z, n)
    ensures Up(x, z, m + n)
  {
    UpNumbers(Number(x), Pow2(m), Pow2(n));
    Pow2Sum(m, n);
  }

  lemma UpNumbers(x: nat, p: nat, q: nat)
    requires p > 0 && q > 0
    ensures (((x * p) % WORD32) * q) % WORD32 == (x * (p * q)) % WORD32
  {
    MulNonnegative(x, p);
    ModMul(x * p, q, WORD32);
    assert x * p * q == x * (p * q);
  }

  lemma DownTwice(x: bv32, y: bv32, z: bv32, m: nat, n: nat)
    requires Down(x, y, m) && Down(y, z, n)
    ensures Down(x, z, m + n)
  {
    DivTwice(Number(x), Pow2(m), Pow2(n));
    Pow2Sum(m, n);
  }

  lemma DoubleIs(x: bv32, y: bv32)
    requires y == x << 1
    ensures y == x + x
  {
  }

  lemma UpOne(x: bv32, y: bv32)
    requires y == x << 1
    ensures Up(x, y, 1)
  {
    DoubleIs(x, y);
    NumberAdd(x, x, y);
    TwiceIs(Number(x), Number(y));
  }

  lemma TwiceIs(a: Word, b: Word)
    requires Add32(a, a) == b
    ensures b == (a * Pow2(1)) % WORD32
  {
    assert Pow2(1) == 2 * Pow2(0);
  }

  lemma DownOne(x: bv32, y: bv32)
    requires y == x >> 1
    ensures Down(x, y, 1)
  {
    NumberHalf(x, y);
  }

  lemma UpTwo(x: bv32, y: bv32)
    requires y == x << 2
    ensures Up(x, y, 2)
  {
    var h := x << 1;
    UpOne(x, h);
    UpOne(h, y);
    UpTwice(x, h, y, 1, 1);
  }

  lemma UpFour(x: bv32, y: bv32)
    requires y == x << 4
    ensures Up(x, y, 4)
  {
    var h := x << 2;
    UpTwo(x, h);
    UpTwo(h, y);
    UpTwice(x, h, y, 2, 2);
  }

  lemma UpEight(x: bv32, y: bv32)
    requires y == x << 8
    ensures Up(x, y, 8)
  {
    var h := x << 4;
    UpFour(x, h);
    UpFour(h, y);
    UpTwice(x, h, y, 4, 4);
  }

  lemma UpSixteen(x: bv32, y: bv32)
    requires y == x << 16
    ensures Up(x, y, 16)
  {
    var h := x << 8;
    UpEight(x, h);
    UpEight(h, y);
    UpTwice(x, h, y, 8, 8);
  }

  lemma DownTwo(x: bv32, y: bv32)
    requires y == x >> 2
    ensures Down(x, y, 2)
  {
    var h := x >> 1;
    DownOne(x, h);
    DownOne(h, y);
    DownTwice(x, h, y, 1, 1);
  }

  lemma DownFour(x: bv32, y: bv32)
    requires y == x >> 4
    ensures Down(x, y, 4)
  {
    var h := x >> 2;
    DownTwo(x, h);
    DownTwo(h, y);
    DownTwice(x, h, y, 2, 2);
  }

  lemma DownEight(x: bv32, y: bv32)
    requires y == x >> 8
    ensures Down(x, y, 8)
  {
    var h := x >> 4;
    DownFour(x, h);
    DownFour(h, y);
    DownTwice(x, h, y, 4, 4);
  }

  lemma DownSixteen(x: bv32, y: bv32)
    requires y == x >> 16
    ensures Down(x, y, 16)
  {
    var h := x >> 8;
    DownEight(x, h);
    DownEight(h, y);
    DownTwice(x, h, y, 8, 8);
  }

  // --- rotations --------------------------------------------------------------------------------

  lemma NumberRotl(x: bv32, y: bv32, high: bv32, low: bv32, n: nat)
    requires n <= 32 && y == high | low && Up(x, high, n) && Down(x, low, 32 - n)
    ensures Number(y) == Rotl(Number(x), n)
  {
    NumberOr(high, low, y);
  }

  lemma UpFive(x: bv32, y: bv32)
    requires y == x << 5
    ensures Up(x, y, 5)
  {
    UpFour(x, x << 4);
    UpOne(x << 4, y);
    UpTwice(x, x << 4, y, 4, 1);
  }

  lemma UpThirty(x: bv32, y: bv32)
    requires y == x << 30
    ensures Up(x, y, 30)
  {
    var p, q, r := x << 16, x << 24, x << 28;
    UpSixteen(x, p);
    UpEight(p, q);
    UpFour(q, r);
    UpTwo(r, y);
    UpTwice(x, p, q, 16, 8);
    UpTwice(x, q, r, 24, 4);
    UpTwice(x, r, y, 28, 2);
  }

  lemma DownTwentyFour(x: bv32, y: bv32)
    requires y == x >> 24
    ensures Down(x, y, 24)
  {
    DownSixteen(x, x >> 16);
    DownEight(x >> 16, y);
    DownTwice(x, x >> 16, y, 16, 8);
  }

  lemma DownTwentySeven(x: bv32, y: bv32)
    requires y == x >> 27
    ensures Down(x, y, 27)
  {
    var p, q := x >> 24, x >> 26;
    DownTwentyFour(x, p);
    DownTwo(p, q);
    DownOne(q, y);
    DownTwice(x, p, q, 24, 2);
    DownTwice(x, q, y, 26, 1);
  }

  lemma DownThirtyOne(x: bv32, y: bv32)
    requires y == x >> 31
    ensures Down(x, y, 31)
  {
    DownTwentySeven(x, x >> 27);
    DownFour(x >> 27, y);
    DownTwice(x, x >> 27, y, 27, 4);
  }

  lemma HighLowOne(x: bv32, y: bv32) returns (high: bv32, low: bv32)
    requires y == (x << 1) | (x >> 31)
    ensures high == x << 1 && low == x >> 31 && y == high | low
  {
    high := x << 1;
    low := x >> 31;
  }

  lemma RotateOne(x: bv32, y: bv32)
    requires y == (x << 1) | (x >> 31)
    ensures Number(y) == Rotl(Number(x), 1)
  {
    var high, low := HighLowOne(x, y);
    UpOne(x, high);
    DownThirtyOne(x, low);
    NumberRotl(x, y, high, low, 1);
  }

  lemma HighLowFive(x: bv32, y: bv32) returns (high: bv32, low: bv32)
    requires y == (x << 5) | (x >> 27)
    ensures high == x << 5 && low == x >> 27 && y == high | low
  {
    high := x << 5;
    low := x >> 27;
  }

  lemma RotateFive(x: bv32, y: bv32)
    requires y == (x << 5) | (x >> 27)
    ensures Number(y) == Rotl(Number(x), 5)
  {
    var high, low := HighLowFive(x, y);
    UpFive(x, high);
    DownTwentySeven(x, low);
    NumberRotl(x, y, high, low, 5);
  }

  lemma HighLowThirty(x: bv32, y: bv32) returns (high: bv32, low: bv32)
    requires y == (x << 30) | (x >> 2)
    ensures high == x << 30 && low == x >> 2 && y == high | low
  {
    high := x << 30;
    low := x >> 2;
  }

  lemma RotateThirty(x: bv32, y: bv32)
    requires y == (x << 30) | (x >> 2)
    ensures Number(y) == Rotl(Number(x), 30)
  {
    var high, low := HighLowThirty(x, y);
    UpThirty(x, high);
    DownTwo(x, low);
    NumberRotl(x, y, high, low, 30);
  }
}
