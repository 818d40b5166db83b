/** Bitwise operators on natural numbers, on a fixed width and unbounded. */
module BitOperators {
  import opened Arithmetic

  datatype Op = And | Or | Xor

  function Bit(op: Op, x: nat, y: nat): nat {
    match op
    case And => if x == 1 && y == 1 then 1 else 0
    case Or => if x == 1 || y == 1 then 1 else 0
    case Xor => if x != y then 1 else 0
  }

  // The operator on the low `width` bits.
  function Bitwise(op: Op, a: nat, b: nat, width: nat): (r: nat)
    ensures r < Pow2(width)
  {
    if width == 0 then 0 else 2 * Bitwise(op, a / 2, b / 2, width - 1) + Bit(op, a % 2, b % 2)
  }

  // One more bit below.
  lemma BitwiseStep(op: Op, p: nat, q: nat, x: nat, y: nat, width: nat)
    requires x < 2 && y < 2
    ensures Bitwise(op, 2 * p + x, 2 * q + y, width + 1) == 2 * Bitwise(op, p, q, width) + Bit(op, x, y)
  {
    DivModUnique(2 * p + x, 2, p, x);
    DivModUnique(2 * q + y, 2, q, y);
  }

  // The operator on all the bits of unbounded integers.
  function Unbounded(op: Op, a: nat, b: nat): nat
    decreases a + b
  {
    if a == 0 && b == 0 then 0 else 2 * Unbounded(op, a / 2, b / 2) + Bit(op, a % 2, b % 2)
  }

  lemma {:induction false} UnboundedLow(op: Op, a: nat, b: nat, width: nat)
    ensures Unbounded(op, a, b) % Pow2(width) == Bitwise(op, a, b, width)
  {
    if width > 0 {
      UnboundedLow(op, a / 2, b / 2, width - 1);
      DoubleMod(Unbounded(op, a / 2, b / 2), Pow2(width - 1), Bit(op, a % 2, b % 2));
    }
  }

  lemma DoubleMod(x: nat, m: nat, bit: nat)
    requires m > 0 && bit < 2
    ensures (2 * x + bit) % (2 * m) == 2 * (x % m) + bit
  {
    DivMod(x, m);
    DivModUnique(2 * x + bit, 2 * m, x / m, 2 * (x % m) + bit);
  }

  lemma {:induction false} UnboundedFits(op: Op, a: nat, b: nat, width: nat)
    requires a < Pow2(width) && b < Pow2(width)
    ensures Unbounded(op, a, b) == Bitwise(op, a, b, width)
  {
    if width > 0 {
      UnboundedFits(op, a / 2, b / 2, width - 1);
    }
  }

  lemma {:induction false} BitwiseLow(op: Op, a: nat, b: nat, width: nat)
    ensures Bitwise(op, a % Pow2(width), b, width) == Bitwise(op, a, b, width)
  {
    if width > 0 {
      BitwiseLow(op, a / 2, b / 2, width - 1);
      HalfOfMod(a, Pow2(width - 1));
    }
  }

  lemma HalfOfMod(a: nat, m: nat)
    requires m > 0
    ensures (a % (2 * m)) / 2 == (a / 2) % m && (a % (2 * m)) % 2 == a % 2
  {
    DivMod(a, 2);
    DoubleMod(a / 2, m, a % 2);
  }

  lemma {:induction false} XorTwiceOnBits(a: nat, b: nat, width: nat)
    requires a < Pow2(width)
    ensures Bitwise(Xor, Bitwise(Xor, a, b, width), b, width) == a
  {
    if width > 0 {
      var x := Bitwise(Xor, a, b, width);
      XorTwiceOnBits(a / 2, b / 2, width - 1);
      DivModUnique(x, 2, Bitwise(Xor, a / 2, b / 2, width - 1), Bit(Xor, a % 2, b % 2));
    }
  }

  // --- bit by bit -------------------------------------------------------------------------------

  // Bit j of x, the lowest being bit 0.
  function BitAt(x: nat, j: nat): (bit: nat)
    ensures bit < 2
  {
    DivMod(x, Pow2(j));
    NonnegativeQuotient(x, Pow2(j));
    (x / Pow2(j)) % 2
  }

  lemma NonnegativeQuotient(x: nat, d: nat)
    requires d > 0
    ensures x / d >= 0
  {
  }

  lemma BitAbove(x: nat, j: nat)
    ensures BitAt(x, j + 1) == BitAt(x / 2, j)
  {
    DivTwice(x, 2, Pow2(j));
  }

  lemma HalfOfDouble(x: nat, bit: nat)
    requires bit < 2
    ensures (2 * x + bit) / 2 == x && BitAt(2 * x + bit, 0) == bit
  {
  }

  // Every bit of the result comes from the bits at its own place.
  lemma {:induction false} BitwiseAt(op: Op, a: nat, b: nat, width: nat, j: nat)
    requires j < width
    ensures BitAt(Bitwise(op, a, b, width), j) == Bit(op, BitAt(a, j), BitAt(b, j))
  {
    HalfOfDouble(Bitwise(op, a / 2, b / 2, width - 1), Bit(op, a % 2, b % 2));
    if j > 0 {
      BitwiseAt(op, a / 2, b / 2, width - 1, j - 1);
      BitAbove(a, j - 1);
      BitAbove(b, j - 1);
      BitAbove(Bitwise(op, a, b, width), j - 1);
    }
  }

  lemma {:induction false} ComplementAt(x: nat, width: nat, j: nat)
    requires x < Pow2(width) && j < width
    ensures BitAt(Pow2(width) - 1 - x, j) == 1 - BitAt(x, j)
  {
    var y := Pow2(width) - 1 - x;
    assert y / 2 == Pow2(width - 1) - 1 - x / 2;
    if j > 0 {
      ComplementAt(x / 2, width - 1, j - 1);
      BitAbove(x, j - 1);
      BitAbove(y, j - 1);
    }
  }
}
